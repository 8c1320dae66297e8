/** Branch direction prediction: tables of 2-bit saturating counters, indexed by address bits
    or, in two levels, by the recent outcomes of the branches that share a history register. */
module Direction {
  import opened Bits

  /** Branch addresses without their two always-zero bits. */
  function BranchBits(baddr: nat): nat {
    Shr(baddr, 2)
  }

  // ----- counters

  type Counter = c: nat | c <= 3

  predicate Predicts(c: Counter) {
    c >= 2
  }

  function Bump(c: Counter, taken: bool): Counter {
    if taken then (if c < 3 then c + 1 else c) else (if c > 0 then c - 1 else c)
  }

  /** Weakly not-taken and weakly taken, alternating. */
  function FreshTable(size: nat): (t: seq<Counter>)
    ensures |t| == size
  {
    seq(size, i => if i % 2 == 0 then 1 else 2)
  }

  // ----- tables

  datatype TwoLevel = TwoLevel(shiftregs: seq<nat>, l2table: seq<Counter>, width: nat, xor: bool)

  /** The configurations accepted at creation; sizes are 32-bit unsigned. */
  predicate Accepted(l1size: nat, l2size: nat, width: nat) {
    && 0 < l1size < WORD32 && And(l1size, l1size - 1) == 0
    && 0 < l2size < WORD32 && And(l2size, l2size - 1) == 0
    && 0 < width <= 30
  }

  function NewTwoLevel(l1size: nat, l2size: nat, width: nat, xor: bool): TwoLevel {
    TwoLevel(seq(l1size, _ => 0), FreshTable(l2size), width, xor)
  }

  ghost predicate Ok(d: TwoLevel) {
    && Accepted(|d.shiftregs|, |d.l2table|, d.width)
    && forall i :: 0 <= i < |d.shiftregs| ==> d.shiftregs[i] < Pow2(d.width)
  }

  function L1Index(baddr: nat, l1size: nat): nat
    requires l1size > 0
  {
    And(BranchBits(baddr), l1size - 1)
  }

  /** Second-level index from history register h: computed in 64 bits, cut to an int, masked. */
  function L2Index(baddr: nat, h: nat, width: nat, xor: bool, l2size: nat): nat
    requires l2size > 0
  {
    And(Or(Shl64(BranchBits(baddr), width), L2Low(baddr, h, width, xor)) % WORD32, l2size - 1)
  }

  function L2Low(baddr: nat, h: nat, width: nat, xor: bool): nat {
    if xor then And(Xor(h, BranchBits(baddr)), Pow2(width) - 1) else h
  }

  function Shifted(h: nat, taken: bool, width: nat): nat {
    And(Or(2 * h, if taken then 1 else 0), Pow2(width) - 1)
  }

  function BimodIndex(baddr: nat, size: nat): nat
    requires size > 0
  {
    And(Xor(Shr(baddr, 19), BranchBits(baddr)), size - 1)
  }

  // ----- what the index computations mean

  lemma SizeIsPower(n: nat) returns (k: nat)
    requires 0 < n < WORD32 && And(n, n - 1) == 0
    ensures n == Pow2(k) && k <= 31
  {
    PowerOfTwoTest(n);
    k :| n == Pow2(k);
    if k >= 32 { Pow2Monotone(32, k); Pow2Of32(); }
  }

  lemma Pow2Of32()
    ensures Pow2(32) == WORD32
  {
    assert Pow2(8) == 256 by { assert Pow2(4) == 16; }
    Pow2Add(8, 8);
    Pow2Add(16, 16);
  }

  /** Reducing by a multiple of n first does not change a remainder by n. */
  lemma ModMod(a: nat, m: nat, n: nat)
    requires m > 0 && n > 0 && m % n == 0
    ensures (a % m) % n == a % n
  {
    var c, q := m / n, a / m;
    assert m == n * c && a == m * q + a % m;
    var r := a % m;
    assert a == n * (c * q + r / n) + r % n by {
      MulAssoc(n, c, q);
      MulDistrib(n, c * q, r / n);
    }
    DivUnique(a, n, c * q + r / n, r % n);
  }

  /** First-level indexes are in range. */
  lemma L1IndexMeaning(baddr: nat, l1size: nat)
    requires 0 < l1size < WORD32 && And(l1size, l1size - 1) == 0
    ensures L1Index(baddr, l1size) == BranchBits(baddr) % l1size < l1size
  {
    var k := SizeIsPower(l1size);
    AndMask(BranchBits(baddr), k);
  }

  /** Indexes of the one-level table are in range: the branch address folded by exclusive or,
      modulo the size. */
  lemma BimodIndexMeaning(baddr: nat, size: nat)
    requires 0 < size < WORD32 && And(size, size - 1) == 0
    ensures BimodIndex(baddr, size) == Xor(Shr(baddr, 19), BranchBits(baddr)) % size < size
  {
    var k := SizeIsPower(size);
    AndMask(Xor(Shr(baddr, 19), BranchBits(baddr)), k);
  }

  lemma {:induction false} XorSmall(a: nat, b: nat, k: nat)
    requires a < Pow2(k) && b < Pow2(k)
    ensures Xor(a, b) < Pow2(k)
  {
    if a != 0 && b != 0 && k > 0 { XorSmall(a / 2, b / 2, k - 1); }
  }

  lemma ShiftOr(pc: nat, low: nat, width: nat)
    requires width <= 30 && low < Pow2(width)
    ensures Or(Shl64(pc, width), low) % WORD32 == (pc * Pow2(width) + low) % WORD32
  {
    Pow2Of64();
    Pow2Of32();
    var w := Pow2(64 - width);
    Pow2Add(width, 64 - width);
    ScaledMod(pc, Pow2(width), w);
    OrDisjoint(pc % w, low, width);
    assert Shl64(pc, width) == (pc % w) * Pow2(width);
    CutMod(pc * Pow2(width), low);
  }

  lemma CutMod(t: int, low: nat)
    requires t >= 0
    ensures (t % WORD64 + low) % WORD32 == (t + low) % WORD32
  {
    AddMod(t, low, WORD64, WORD32);
  }

  lemma AddMod(t: nat, low: nat, m: nat, n: nat)
    requires m > 0 && n > 0 && m % n == 0
    ensures (t % m + low) % n == (t + low) % n
  {
    var c, q := m / n, t / m;
    assert m == n * c && t == m * q + t % m;
    var r := t % m + low;
    assert t + low == n * (c * q + r / n) + r % n by {
      MulAssoc(n, c, q);
      MulDistrib(n, c * q, r / n);
    }
    DivUnique(t + low, n, c * q + r / n, r % n);
  }

  lemma ScaledMod(a: nat, p: nat, w: nat)
    requires p > 0 && w > 0
    ensures p * w > 0 && (a * p) % (p * w) == (a % w) * p
  {
    MulPos(p, w);
    var q, r := a / w, a % w;
    assert a == w * q + r;
    assert a * p == (p * w) * q + r * p by {
      MulDistrib(p, w * q, r);
      MulAssoc(p, w, q);
    }
    assert r * p < p * w by { MulMono(p, r, w - 1); MulDistrib(p, w, -1); }
    DivUnique(a * p, p * w, q, r * p);
  }

  /** The history part of a second-level index. */
  function HistoryPart(baddr: nat, h: nat, width: nat, xor: bool): nat {
    if xor then Xor(h, BranchBits(baddr)) % Pow2(width) else h
  }

  /** Main result: for every address and accepted configuration the second-level index is in
      range, and is the number whose low `width` bits are the history (exclusive-or the branch
      address if so configured) and whose higher bits are the branch address. */
  lemma L2IndexMeaning(baddr: nat, h: nat, width: nat, xor: bool, l1size: nat, l2size: nat)
    requires Accepted(l1size, l2size, width) && h < Pow2(width)
    ensures L2Index(baddr, h, width, xor, l2size)
         == (BranchBits(baddr) * Pow2(width) + HistoryPart(baddr, h, width, xor)) % l2size < l2size
  {
    LowMeaning(baddr, h, width, xor);
    IndexMeaning(BranchBits(baddr), L2Low(baddr, h, width, xor), width, l2size);
  }

  lemma IndexMeaning(pc: nat, low: nat, width: nat, size: nat)
    requires 0 < size < WORD32 && And(size, size - 1) == 0 && width <= 30 && low < Pow2(width)
    ensures And(Or(Shl64(pc, width), low) % WORD32, size - 1) == (pc * Pow2(width) + low) % size < size
  {
    ShiftOr(pc, low, width);
    MaskMeaning(Or(Shl64(pc, width), low) % WORD32, pc * Pow2(width) + low, size);
  }

  lemma LowMeaning(baddr: nat, h: nat, width: nat, xor: bool)
    requires h < Pow2(width)
    ensures L2Low(baddr, h, width, xor) == HistoryPart(baddr, h, width, xor) < Pow2(width)
  {
    AndMask(Xor(h, BranchBits(baddr)), width);
  }

  lemma MaskMeaning(x: nat, v: nat, size: nat)
    requires 0 < size < WORD32 && And(size, size - 1) == 0 && x == v % WORD32
    ensures And(x, size - 1) == v % size < size
  {
    var k := SizeDivides(size);
    AndMask(x, k);
    ModMod(v, WORD32, size);
  }

  lemma SizeDivides(size: nat) returns (k: nat)
    requires 0 < size < WORD32 && And(size, size - 1) == 0
    ensures size == Pow2(k) && WORD32 % size == 0
  {
    k := SizeIsPower(size);
    Pow2Of32();
    Pow2Divides(k, 32);
  }

  // ----- history registers

  datatype Outcome = Outcome(baddr: nat, taken: bool)

  function Record(d: TwoLevel, o: Outcome): TwoLevel
    requires |d.shiftregs| > 0
  {
    var i := L1Index(o.baddr, |d.shiftregs|);
    d.(shiftregs := d.shiftregs[i := Shifted(d.shiftregs[i], o.taken, d.width)])
  }

  function RecordAll(d: TwoLevel, os: seq<Outcome>): (r: TwoLevel)
    requires |d.shiftregs| > 0
    ensures |r.shiftregs| == |d.shiftregs| && r.width == d.width
  {
    if os == [] then d else Record(RecordAll(d, os[..|os| - 1]), os[|os| - 1])
  }

  /** Outcomes of the branches mapped to register i, oldest first. */
  function Mapped(os: seq<Outcome>, i: nat, l1size: nat): seq<bool>
    requires l1size > 0
  {
    if os == [] then []
    else
      var o := os[|os| - 1];
      var rest := Mapped(os[..|os| - 1], i, l1size);
      if BranchBits(o.baddr) % l1size == i then rest + [o.taken] else rest
  }

  /** The binary number whose lowest digit is the last of bs. */
  function Binary(bs: seq<bool>): nat {
    if bs == [] then 0 else 2 * Binary(bs[..|bs| - 1]) + (if bs[|bs| - 1] then 1 else 0)
  }

  function Last(bs: seq<bool>, n: nat): seq<bool> {
    if |bs| <= n then bs else bs[|bs| - n..]
  }

  lemma ShiftedMeaning(h: nat, taken: bool, width: nat)
    requires width > 0
    ensures Shifted(h, taken, width) == (2 * h + (if taken then 1 else 0)) % Pow2(width)
  {
    var b := if taken then 1 else 0;
    assert Pow2(1) == 2;
    OrDisjoint(h, b, 1);
    AndMask(2 * h + b, width);
  }

  /** Keeping the low n binary digits keeps the last n outcomes. */
  lemma {:induction false} BinaryLast(bs: seq<bool>, n: nat)
    ensures Binary(bs) % Pow2(n) == Binary(Last(bs, n)) < Pow2(n)
  {
    if n == 0 || bs == [] {
      assert n == 0 ==> Last(bs, n) == [];
    } else {
      var fore := bs[..|bs| - 1];
      BinaryLast(fore, n - 1);
      DigitMod(Binary(fore), if bs[|bs| - 1] then 1 else 0, Pow2(n - 1));
      assert Last(bs, n)[..|Last(bs, n)| - 1] == Last(fore, n - 1);
    }
  }

  lemma DigitMod(a: nat, b: nat, p: nat)
    requires p > 0 && b < 2
    ensures (2 * a + b) % (2 * p) == 2 * (a % p) + b < 2 * p
  {
    ModHalf(2 * a + b, p);
  }

  lemma ShiftKeepsLast(bs: seq<bool>, taken: bool, width: nat)
    requires width > 0
    ensures Shifted(Binary(Last(bs, width)), taken, width) == Binary(Last(bs + [taken], width))
  {
    var b := if taken then 1 else 0;
    BinaryLast(bs, width);
    BinaryLast(bs + [taken], width);
    ShiftedMeaning(Binary(Last(bs, width)), taken, width);
    assert (bs + [taken])[..|bs|] == bs;
    DoubleMod(Binary(bs), b, Pow2(width));
  }

  lemma DoubleMod(a: nat, b: nat, p: nat)
    requires p > 0
    ensures (2 * (a % p) + b) % p == (2 * a + b) % p
  {
    var q, r := a / p, a % p;
    var v := 2 * r + b;
    assert a == p * q + r;
    assert 2 * a + b == p * (2 * q + v / p) + v % p by {
      MulDistrib(p, 2 * q, v / p);
      MulAssoc(p, 2, q);
      MulAssoc(2, p, q);
    }
    DivUnique(2 * a + b, p, 2 * q + v / p, v % p);
  }

  /** Main result: over any run from creation, each history register is the binary number of
      the last `width` outcomes of the branches mapped to it. */
  lemma {:induction false} HistoryIsRecentOutcomes(l1size: nat, l2size: nat, width: nat, xor: bool, os: seq<Outcome>,
                                                   i: nat)
    requires Accepted(l1size, l2size, width) && i < l1size
    ensures var d := RecordAll(NewTwoLevel(l1size, l2size, width, xor), os);
      d.shiftregs[i] == Binary(Last(Mapped(os, i, l1size), width)) < Pow2(width)
  {
    BinaryLast(Mapped(os, i, l1size), width);
    if os != [] {
      var rest, o := os[..|os| - 1], os[|os| - 1];
      HistoryIsRecentOutcomes(l1size, l2size, width, xor, rest, i);
      L1IndexMeaning(o.baddr, l1size);
      ShiftKeepsLast(Mapped(rest, i, l1size), o.taken, width);
    }
  }

  // ----- how often counters mispredict

  /** One resolved branch and the counter it used. */
  datatype Use = Use(index: nat, taken: bool)

  ghost predicate InTable(us: seq<Use>, size: nat) {
    forall k :: 0 <= k < |us| ==> us[k].index < size
  }

  function Train(t: seq<Counter>, u: Use): (r: seq<Counter>)
    requires u.index < |t|
    ensures |r| == |t|
  {
    t[u.index := Bump(t[u.index], u.taken)]
  }

  function TrainAll(t: seq<Counter>, us: seq<Use>): (r: seq<Counter>)
    requires InTable(us, |t|)
    ensures |r| == |t|
  {
    if us == [] then t else Train(TrainAll(t, us[..|us| - 1]), us[|us| - 1])
  }

  /** Mispredictions by counter j. */
  function Misses(t: seq<Counter>, us: seq<Use>, j: nat): nat
    requires InTable(us, |t|) && j < |t|
  {
    if us == [] then 0
    else
      var u, rest := us[|us| - 1], us[..|us| - 1];
      Misses(t, rest, j) + (if u.index == j && Predicts(TrainAll(t, rest)[j]) != u.taken then 1 else 0)
  }

  /** Branches that used counter j and went the given way. */
  function Went(us: seq<Use>, j: nat, taken: bool): nat {
    if us == [] then 0
    else Went(us[..|us| - 1], j, taken) + (if us[|us| - 1] == Use(j, taken) then 1 else 0)
  }

  /** How many branches going the given way counter c will still mispredict in a row. */
  function Reluctance(c: Counter, taken: bool): nat {
    if taken then (if c < 2 then 2 - c else 0) else (if c >= 2 then c - 1 else 0)
  }

  /** Each misprediction is paid for by the counter's reluctance or by a branch that went the
      other way, which pays at most for itself and for one more. */
  lemma {:induction false} MissBudget(t: seq<Counter>, us: seq<Use>, j: nat, way: bool)
    requires InTable(us, |t|) && j < |t|
    ensures Misses(t, us, j) + Reluctance(TrainAll(t, us)[j], way) <= Reluctance(t[j], way) + 2 * Went(us, j, !way)
  {
    if us != [] { MissBudget(t, us[..|us| - 1], j, way); }
  }

  function Min(a: nat, b: nat): nat {
    if a < b then a else b
  }

  /** Main result: over any run from creation, each counter mispredicts at most once plus twice
      for every branch that went the less frequent way. */
  lemma CounterMispredictions(size: nat, us: seq<Use>, j: nat)
    requires InTable(us, size) && j < size
    ensures Misses(FreshTable(size), us, j) <= 1 + 2 * Min(Went(us, j, true), Went(us, j, false))
  {
    MissBudget(FreshTable(size), us, j, true);
    MissBudget(FreshTable(size), us, j, false);
  }

  /** Mispredictions by the first n counters. */
  function MissesBelow(t: seq<Counter>, us: seq<Use>, n: nat): nat
    requires InTable(us, |t|) && n <= |t|
  {
    if n == 0 then 0 else MissesBelow(t, us, n - 1) + Misses(t, us, n - 1)
  }

  /** Mispredictions in all. */
  function AllMisses(t: seq<Counter>, us: seq<Use>): nat
    requires InTable(us, |t|)
  {
    if us == [] then 0
    else
      var u, rest := us[|us| - 1], us[..|us| - 1];
      AllMisses(t, rest) + (if Predicts(TrainAll(t, rest)[u.index]) != u.taken then 1 else 0)
  }

  lemma {:induction false} MissesBelowStep(t: seq<Counter>, us: seq<Use>, n: nat)
    requires us != [] && InTable(us, |t|) && n <= |t|
    ensures var u, rest := us[|us| - 1], us[..|us| - 1];
      MissesBelow(t, us, n) == MissesBelow(t, rest, n)
        + (if u.index < n && Predicts(TrainAll(t, rest)[u.index]) != u.taken then 1 else 0)
  {
    if n > 0 { MissesBelowStep(t, us, n - 1); }
  }

  lemma {:induction false} NoUsesNoMisses(t: seq<Counter>, n: nat)
    requires n <= |t|
    ensures MissesBelow(t, [], n) == 0
  {
    if n > 0 { NoUsesNoMisses(t, n - 1); }
  }

  lemma {:induction false} MissesPartition(t: seq<Counter>, us: seq<Use>)
    requires InTable(us, |t|)
    ensures AllMisses(t, us) == MissesBelow(t, us, |t|)
  {
    if us == [] {
      NoUsesNoMisses(t, |t|);
    } else {
      MissesPartition(t, us[..|us| - 1]);
      MissesBelowStep(t, us, |t|);
    }
  }

  /** Branches sharing a counter always go the same way. */
  ghost predicate Consistent(us: seq<Use>) {
    forall k, l :: 0 <= k < |us| && 0 <= l < |us| && us[k].index == us[l].index ==> us[k].taken == us[l].taken
  }

  lemma {:induction false} OneWay(us: seq<Use>, j: nat, way: bool)
    requires forall k :: 0 <= k < |us| && us[k].index == j ==> us[k].taken != way
    ensures Went(us, j, way) == 0
  {
    if us != [] { OneWay(us[..|us| - 1], j, way); }
  }

  lemma {:induction false} ConsistentBelow(size: nat, us: seq<Use>, n: nat)
    requires InTable(us, size) && n <= size && Consistent(us)
    ensures MissesBelow(FreshTable(size), us, n) <= n
  {
    if n > 0 {
      ConsistentBelow(size, us, n - 1);
      CounterMispredictions(size, us, n - 1);
      if k :| 0 <= k < |us| && us[k].index == n - 1 {
        OneWay(us, n - 1, !us[k].taken);
      } else {
        OneWay(us, n - 1, true);
      }
    }
  }

  /** Main result: when branches that share a counter always agree (for a two-level table, when
      history and address determine the outcome), a run of any length has at most one
      misprediction per counter. */
  lemma ConsistentRun(size: nat, us: seq<Use>)
    requires InTable(us, size) && Consistent(us)
    ensures AllMisses(FreshTable(size), us) <= size
  {
    MissesPartition(FreshTable(size), us);
    ConsistentBelow(size, us, size);
  }
}
