/** The return-address stack of the branch predictor: a circular buffer that calls push and
    returns pop, with no notion of empty or full.  A reading of it as levels of nesting says
    exactly which call a return is predicted from. */
module ReturnStack {
  import opened Bits

  datatype Stack = Stack(slots: seq<nat>, tos: nat)

  datatype Event = Call(addr: nat) | Return

  ghost predicate Ok(r: Stack) {
    r.tos < |r.slots|
  }

  /** The address after a branch: instructions are taken to be 4 bytes long. */
  function Fallthrough(addr: nat): nat {
    (addr + 4) % WORD64
  }

  function Push(r: Stack, addr: nat): (s: Stack)
    requires Ok(r)
    ensures Ok(s) && |s.slots| == |r.slots|
  {
    var t := (r.tos + 1) % |r.slots|;
    Stack(r.slots[t := Fallthrough(addr)], t)
  }

  function Top(r: Stack): nat
    requires Ok(r)
  {
    r.slots[r.tos]
  }

  function Pop(r: Stack): (s: Stack)
    requires Ok(r)
    ensures Ok(s) && |s.slots| == |r.slots|
  {
    r.(tos := (r.tos + |r.slots| - 1) % |r.slots|)
  }

  function Do(r: Stack, e: Event): (s: Stack)
    requires Ok(r)
    ensures Ok(s) && |s.slots| == |r.slots|
  {
    match e case Call(a) => Push(r, a) case Return => Pop(r)
  }

  function Run(r: Stack, es: seq<Event>): (s: Stack)
    requires Ok(r)
    ensures Ok(s) && |s.slots| == |r.slots|
  {
    if es == [] then r else Do(Run(r, es[..|es| - 1]), es[|es| - 1])
  }

  /** Recovery after a mispredicted branch: only the top of stack is put back. */
  function Recover(r: Stack, tos: nat): Stack {
    r.(tos := tos)
  }

  // ----- levels

  /** Nesting level relative to the start. */
  function Level(es: seq<Event>): int {
    if es == [] then 0
    else Level(es[..|es| - 1]) + (if es[|es| - 1].Call? then 1 else -1)
  }

  predicate SameSlot(a: int, b: int, n: nat)
    requires n > 0
  {
    (a - b) % n == 0
  }

  /** The last call that entered a level sharing its slot with level lv, or -1. */
  function Writer(es: seq<Event>, lv: int, n: nat): (i: int)
    requires n > 0
    ensures -1 <= i < |es|
    ensures i >= 0 ==> es[i].Call?
  {
    if es == [] then -1
    else if es[|es| - 1].Call? && SameSlot(Level(es), lv, n) then |es| - 1
    else Writer(es[..|es| - 1], lv, n)
  }

  /** What a slot holds: the return address of its last writer. */
  function Holds(r: Stack, es: seq<Event>, lv: int): nat
    requires Ok(r)
  {
    var n := |r.slots|;
    var i := Writer(es, lv, n);
    if i >= 0 then (es[i].addr + 4) % WORD64 else r.slots[(r.tos + lv) % n]
  }

  lemma ModShift(a: int, b: int, n: nat)
    requires n > 0
    ensures (a % n + b) % n == (a + b) % n
  {
    var q := a / n;
    assert a == n * q + a % n;
    var c := a % n + b;
    assert a + b == n * (q + c / n) + c % n by { MulDistrib(n, q, c / n); }
    DivUnique(a + b, n, q + c / n, c % n);
  }

  lemma ModSame(a: int, b: int, n: nat)
    requires n > 0
    ensures a % n == b % n <==> (a - b) % n == 0
  {
    ModShift(a, -b, n);
    ModShift(b, -b, n);
    ModShift(a - b, b, n);
    assert 0 % n == 0;
  }

  lemma SlotsEqual(t: int, a: int, b: int, n: nat)
    requires n > 0
    ensures (t + a) % n == (t + b) % n <==> SameSlot(a, b, n)
  {
    ModSame(t + a, t + b, n);
  }

  lemma PopIndex(t: int, n: nat)
    requires n > 0
    ensures (t + n - 1) % n == (t - 1) % n
  {
    ModSame(t + n - 1, t - 1, n);
    DivUnique(n, n, 1, 0);
  }

  lemma PushSlots(s: Stack, addr: nat, t: nat, l: int, lv: int)
    requires Ok(s) && s.tos == (t + l) % |s.slots|
    ensures var n, r := |s.slots|, Push(s, addr);
      && r.tos == (t + (l + 1)) % n
      && r.slots[(t + lv) % n] == if SameSlot(l + 1, lv, n) then Fallthrough(addr) else s.slots[(t + lv) % n]
  {
    ModShift(t + l, 1, |s.slots|);
    SlotsEqual(t, l + 1, lv, |s.slots|);
  }

  lemma PopSlots(s: Stack, t: nat, l: int)
    requires Ok(s) && s.tos == (t + l) % |s.slots|
    ensures Pop(s).tos == (t + (l - 1)) % |s.slots|
  {
    PopIndex(s.tos, |s.slots|);
    ModShift(t + l, -1, |s.slots|);
  }

  /** After any events, nested or not, the top of stack has moved by the net level and every
      slot holds what its last writer pushed. */
  lemma {:induction false} SlotContents(r: Stack, es: seq<Event>, lv: int)
    requires Ok(r)
    ensures Run(r, es).tos == (r.tos + Level(es)) % |r.slots|
    ensures Run(r, es).slots[(r.tos + lv) % |r.slots|] == Holds(r, es, lv)
  {
    if es == [] {
      SmallMod(r.tos, |r.slots|);
    } else {
      var ds, e := es[..|es| - 1], es[|es| - 1];
      SlotContents(r, ds, lv);
      match e
      case Call(a) => PushSlots(Run(r, ds), a, r.tos, Level(ds), lv);
      case Return => PopSlots(Run(r, ds), r.tos, Level(ds));
    }
  }

  // ----- well-nested calls

  /** A call body: no return leaves it, and it ends at the level it began. */
  ghost predicate Nested(w: seq<Event>) {
    Level(w) == 0 && forall k :: 0 <= k <= |w| ==> Level(w[..k]) >= 0
  }

  ghost predicate Shallower(w: seq<Event>, n: int) {
    forall k :: 0 <= k <= |w| ==> Level(w[..k]) < n
  }

  lemma {:induction false} NoWriter(w: seq<Event>, n: nat)
    requires n > 0 && Shallower(w, n) && forall k :: 0 <= k <= |w| ==> Level(w[..k]) >= 0
    ensures Writer(w, 0, n) < 0
  {
    if w != [] {
      var v := w[..|w| - 1];
      assert forall k :: 0 <= k <= |v| ==> v[..k] == w[..k];
      NoWriter(v, n);
      assert w[..|w|] == w && w[..|v|] == v;
      if w[|w| - 1].Call? { SmallMod(Level(w), n); }
    }
  }

  /** A body that is not shallower than n writes the slot of its own call. */
  lemma {:induction false} DeepHasWriter(w: seq<Event>, n: nat, k: nat)
    requires n > 0 && k <= |w| && Level(w[..k]) >= n
    ensures Writer(w, 0, n) >= 0
  {
    var v := w[..|w| - 1];
    assert k == |w| ==> w[..k] == w;
    assert k < |w| ==> v[..k] == w[..k];
    if k < |w| {
      DeepHasWriter(v, n, k);
    } else if Level(w) > n || !w[|w| - 1].Call? {
      assert v[..|v|] == v;
      DeepHasWriter(v, n, |v|);
    } else {
      DivUnique(n, n, 1, 0);
    }
  }

  lemma {:induction false} WriterLevel(es: seq<Event>, lv: int, n: nat)
    requires n > 0 && Writer(es, lv, n) >= 0
    ensures SameSlot(Level(es[..Writer(es, lv, n) + 1]), lv, n)
  {
    var i := Writer(es, lv, n);
    if i == |es| - 1 {
      assert es[..i + 1] == es;
    } else {
      WriterLevel(es[..|es| - 1], lv, n);
      assert es[..|es| - 1][..i + 1] == es[..i + 1];
    }
  }

  lemma NestedTop(r: Stack, a: nat, w: seq<Event>)
    requires Ok(r) && Nested(w)
    ensures Top(Run(Push(r, a), w)) == Holds(Push(r, a), w, 0)
  {
    SlotContents(Push(r, a), w, 0);
  }

  /** Main result: from any state, the return that matches a call is predicted as the call
      address plus 4 when the nesting between them stays below the size of the stack;
      otherwise it is predicted from the last call that entered a multiple of the size. */
  lemma ReturnPrediction(r: Stack, a: nat, w: seq<Event>)
    requires Ok(r) && Nested(w)
    ensures var n, target := |r.slots|, Top(Run(Push(r, a), w));
      && (Shallower(w, n) <==> Writer(w, 0, n) < 0)
      && (Shallower(w, n) ==> target == (a + 4) % WORD64)
      && (!Shallower(w, n) ==>
            var i := Writer(w, 0, n);
            && target == (w[i].addr + 4) % WORD64
            && Level(w[..i + 1]) >= n && Level(w[..i + 1]) % n == 0)
  {
    var n := |r.slots|;
    NestedTop(r, a, w);
    SmallMod((r.tos + 1) % n, n);
    if Shallower(w, n) {
      NoWriter(w, n);
    } else {
      var k :| 0 <= k <= |w| && Level(w[..k]) >= n;
      DeepHasWriter(w, n, k);
      var i := Writer(w, 0, n);
      WriterLevel(w, 0, n);
      CallLevel(w, i);
      MultipleAtLeast(Level(w[..i + 1]), n);
    }
  }

  lemma CallLevel(w: seq<Event>, i: nat)
    requires i < |w| && w[i].Call? && Level(w[..i]) >= 0
    ensures Level(w[..i + 1]) > 0
  {
    assert w[..i + 1][..i] == w[..i];
  }

  lemma MultipleAtLeast(l: int, n: nat)
    requires n > 0 && l > 0 && l % n == 0
    ensures l >= n
  {
    if l < n { SmallMod(l, n); }
  }

  lemma {:induction false} RunConcat(r: Stack, es: seq<Event>, fs: seq<Event>)
    requires Ok(r)
    ensures Run(r, es + fs) == Run(Run(r, es), fs)
  {
    if fs == [] {
      assert es + fs == es;
    } else {
      RunConcat(r, es, fs[..|fs| - 1]);
      assert (es + fs)[..|es + fs| - 1] == es + fs[..|fs| - 1];
    }
  }

  lemma TopAfterCall(r: Stack, es: seq<Event>, addr: nat, body: seq<Event>)
    requires Ok(r) && Nested(body) && Shallower(body, |r.slots|)
    ensures Top(Run(r, es + [Call(addr)] + body)) == (addr + 4) % WORD64
  {
    RunConcat(r, es + [Call(addr)], body);
    assert (es + [Call(addr)])[..|es|] == es;
    hide Level, Writer, Nested, Shallower, Top;
    ReturnPrediction(Run(r, es), addr, body);
  }

  /** The same inside any run: event j is the return of the call at i. */
  lemma RunPrediction(r: Stack, es: seq<Event>, i: nat, j: nat)
    requires Ok(r) && i < j < |es| && es[i].Call? && es[j].Return? && Nested(es[i + 1..j])
    requires Shallower(es[i + 1..j], |r.slots|)
    ensures Top(Run(r, es[..j])) == (es[i].addr + 4) % WORD64
  {
    hide *;
    assert es[..j] == es[..i] + [Call(es[i].addr)] + es[i + 1..j];
    TopAfterCall(r, es[..i], es[i].addr, es[i + 1..j]);
  }

  // ----- recovery

  function PopMany(r: Stack, k: nat): (s: Stack)
    requires Ok(r)
    ensures Ok(s) && s.slots == r.slots
  {
    if k == 0 then r else Pop(PopMany(r, k - 1))
  }

  lemma {:induction false} PopManyTos(r: Stack, k: nat)
    requires Ok(r)
    ensures PopMany(r, k).tos == (r.tos - k) % |r.slots|
  {
    var n := |r.slots|;
    if k == 0 {
      SmallMod(r.tos, n);
    } else {
      PopManyTos(r, k - 1);
      PopIndex(PopMany(r, k - 1).tos, n);
      ModShift(r.tos - (k - 1), -1, n);
    }
  }

  /** After a wrong path and recovery, the k-th return finds what it would have found had the
      wrong path not been taken, unless the wrong path wrote its slot. */
  lemma RecoveredReturn(r: Stack, wrong: seq<Event>, k: nat)
    requires Ok(r)
    ensures var s := Recover(Run(r, wrong), r.tos);
      && Ok(s)
      && Top(PopMany(s, k)) == if Writer(wrong, -(k as int), |r.slots|) >= 0
                               then (wrong[Writer(wrong, -(k as int), |r.slots|)].addr + 4) % WORD64
                               else Top(PopMany(r, k))
  {
    var s := Recover(Run(r, wrong), r.tos);
    PopManyTos(r, k);
    PopManyTos(s, k);
    SlotContents(r, wrong, -(k as int));
  }

  /** Every call on the path enters one of the k levels just above the start. */
  ghost predicate CallsWithin(es: seq<Event>, k: int) {
    forall i :: 0 <= i < |es| && es[i].Call? ==> 1 <= Level(es[..i + 1]) <= k
  }

  lemma {:induction false} NoWriterBelow(es: seq<Event>, k: int, lv: int, n: nat)
    requires n > 0 && CallsWithin(es, k) && k - n < lv <= 0
    ensures Writer(es, lv, n) < 0
  {
    if Writer(es, lv, n) >= 0 {
      var i := Writer(es, lv, n);
      WriterLevel(es, lv, n);
      MultipleAtLeast(Level(es[..i + 1]) - lv, n);
    }
  }

  /** Main result: recovery restores the top m entries exactly after a wrong path whose calls
      enter only the n - m levels above it. */
  lemma RecoveryExact(r: Stack, wrong: seq<Event>, m: nat, k: nat)
    requires Ok(r) && k < m <= |r.slots| && CallsWithin(wrong, |r.slots| - m)
    ensures var s := Recover(Run(r, wrong), r.tos); Ok(s) && Top(PopMany(s, k)) == Top(PopMany(r, k))
  {
    RecoveredReturn(r, wrong, k);
    NoWriterBelow(wrong, |r.slots| - m, -(k as int), |r.slots|);
  }

  // ----- the stack in place

  class RetStack {
    const slots: array<nat>
    var tos: int

    ghost predicate Valid()
      reads this
    {
      if slots.Length == 0 then tos == -1 else 0 <= tos < slots.Length
    }

    ghost function View(): (r: Stack)
      reads this, slots
      requires Valid() && slots.Length > 0
      ensures Ok(r)
    {
      Stack(slots[..], tos)
    }

    /** Zeroed slots; the size must be zero or a power of two. */
    constructor (size: nat)
      ensures Valid() && fresh(slots) && slots.Length == size && tos == size - 1
      ensures slots[..] == seq(size, _ => 0)
    {
      slots := new nat[size](_ => 0);
      tos := size - 1;
    }

    method Enter(addr: nat)
      requires Valid() && slots.Length > 0
      modifies this`tos, slots
      ensures Valid() && View() == Push(old(View()), addr)
    {
      tos := (tos + 1) % slots.Length;
      slots[tos] := Fallthrough(addr);
    }

    method Leave() returns (target: nat)
      requires Valid() && slots.Length > 0
      modifies this`tos
      ensures Valid() && target == Top(old(View())) && View() == Pop(old(View()))
    {
      target := slots[tos];
      tos := (tos + slots.Length - 1) % slots.Length;
    }

    method Restore(recoverIndex: int)
      requires Valid() && slots.Length > 0 && 0 <= recoverIndex < slots.Length
      modifies this`tos
      ensures Valid() && View() == Recover(old(View()), recoverIndex)
    {
      tos := recoverIndex;
    }
  }
}
