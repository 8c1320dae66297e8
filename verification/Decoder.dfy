/** The table-driven instruction decoder.  A machine description is a list of directives that
    define instructions and links and open groups of table slots; initialisation packs the
    decode trie it describes into one flat table, and decoding walks the table. */
module Decoder {
  import opened Bits
  import opened Options

  /** Highest index of the decode table. */
  const MAX_MASK := 2048

  /** DefInst and DefLink enter an opcode at a slot of the current group; a link also says which
      field of the word selects the next slot.  Connect opens the group of a link. */
  datatype Directive = DefInst(op: nat, msk: nat)
                     | DefLink(op: nat, msk: nat, shift: nat, mask: nat, second: nat)
                     | Connect(op: nat)
  {
    predicate Def() {
      !Connect?
    }
  }

  type Description = seq<Directive>

  function Defs(ds: Description): nat {
    if ds == [] then 0 else Defs(ds[..|ds| - 1]) + (if ds[|ds| - 1].Def() then 1 else 0)
  }

  /** Opcodes are numbered from 1 in order of definition (0 is no opcode), and only defined
      opcodes are connected. */
  ghost predicate Enumerated(ds: Description) {
    && (forall i :: 0 <= i < |ds| && ds[i].Def() ==> ds[i].op == Defs(ds[..i]) + 1)
    && (forall i :: 0 <= i < |ds| && ds[i].Connect? ==> 0 < ds[i].op <= Defs(ds))
  }

  // ----- instruction words

  type Word = w: nat | w < WORD32

  predicate Compressed(w: Word) {
    And(w, 3) != 3
  }

  /** The low 2 bits of a word if they are not both set, else its low 7. */
  function TopBits(w: Word): nat {
    if w % 4 != 3 then w % 4 else w % 128
  }

  /** First table index for a word. */
  function TopIndex(w: Word): (i: nat)
    ensures i <= 0x7f && i == TopBits(w)
  {
    LowTwo(w);
    LowSeven(w);
    if Compressed(w) then And(w, 3) else And(w, 0x7f)
  }

  /** The bits of a word that a field selects: the word as a signed number, shifted down. */
  function KeyBits(w: Word, shift: nat, mask: nat): nat {
    And((Signed32(w) / Pow2(shift)) % WORD32, mask)
  }

  /** Arithmetic right shift of a 32-bit word. */
  function Sra32(w: Word, s: nat): nat {
    if w < 0x8000_0000 then Shr(w, s) else WORD32 - 1 - Shr(WORD32 - 1 - w, s) % WORD32
  }

  function Field(w: Word, shift: nat, mask: nat): (f: nat)
    ensures f <= mask && f == KeyBits(w, shift, mask)
  {
    SraMeans(w, shift);
    And(Sra32(w, shift), mask)
  }

  /** The shift divides the signed word, rounding down. */
  lemma SraMeans(w: Word, s: nat)
    ensures Sra32(w, s) == (Signed32(w) / Pow2(s)) % WORD32
  {
    hide Pow2;
    if w < 0x8000_0000 {
      QuotientSmall(w, Pow2(s), WORD32);
    } else {
      NegativeQuotient(WORD32 - 1 - w, Pow2(s));
    }
  }

  lemma QuotientSmall(n: nat, p: nat, m: nat)
    requires p > 0 && n < m
    ensures 0 <= n / p <= n && (n / p) % m == n / p
  {
    DivNonneg(n, p);
    MulMono(n / p, 1, p);
    SmallMod(n / p, m);
  }

  lemma NegativeQuotient(n: int, p: nat)
    requires p > 0 && 0 <= n < WORD32
    ensures 0 <= n / p <= n && (n / p) % WORD32 == n / p
    ensures ((-n - 1) / p) % WORD32 == WORD32 - 1 - n / p
  {
    QuotientSmall(n, p, WORD32);
    var q := n / p;
    MulDistrib(p, -q, -1);
    MulDistrib(p, q, -q);
    DivUnique(-n - 1, p, -q - 1, p - 1 - n % p);
    DivUnique(-q - 1, WORD32, -1, WORD32 - 1 - q);
  }

  /** Main result: a field of k bits from bit s on is exactly those bits of the word, and where it
      runs past bit 31 the sign fills it. */
  lemma KeyBitsMean(w: Word, s: nat, k: nat)
    requires k <= 32
    ensures Field(w, s, Pow2(k) - 1) == (Signed32(w) / Pow2(s)) % Pow2(k)
    ensures s + k <= 32 ==> Field(w, s, Pow2(k) - 1) == (w / Pow2(s)) % Pow2(k)
  {
    hide And, Sra32, Pow2;
    LowBitsOfWord(Signed32(w) / Pow2(s), k);
    if s + k <= 32 && w >= 0x8000_0000 { SignUnseen(w, s, k); }
  }

  lemma LowBitsOfWord(x: int, k: nat)
    requires k <= 32
    ensures And(x % WORD32, Pow2(k) - 1) == x % Pow2(k)
  {
    Pow2Of32();
    Pow2Divides(k, 32);
    AndMask(x % WORD32, k);
    ModMultiple(x, Pow2(k), Pow2(32 - k));
    hide And, Pow2;
  }

  /** Below bit 32 the word and the signed word have the same bits. */
  lemma SignUnseen(w: int, s: nat, k: nat)
    requires s + k <= 32
    ensures ((w - WORD32) / Pow2(s)) % Pow2(k) == (w / Pow2(s)) % Pow2(k)
  {
    hide Pow2;
    Pow2Of32();
    Pow2Divides(s, 32);
    Pow2Divides(k, 32 - s);
    MultipleUnseen(w, Pow2(s), Pow2(k), Pow2(32 - s - k));
  }

  lemma MultipleUnseen(w: int, p: nat, q: nat, r: nat)
    requires p > 0 && q > 0
    ensures ((w - p * (q * r)) / p) % q == (w / p) % q
  {
    TakeMultiple(w, p, q * r);
    TakeMultiple(w / p, q, r);
  }

  lemma ModMultiple(x: int, a: nat, b: nat)
    requires a > 0 && b > 0
    ensures a * b > 0 && (x % (a * b)) % a == x % a
  {
    MulPos(a, b);
    var q, r := x / (a * b), x % (a * b);
    MulAssoc(a, b, q);
    MulDistrib(a, b * q, r / a);
    DivUnique(x, a, b * q + r / a, r % a);
  }

  lemma TakeMultiple(w: int, p: nat, n: int)
    requires p > 0
    ensures (w - p * n) / p == w / p - n && (w - p * n) % p == w % p
  {
    MulDistrib(p, w / p, -n);
    MulDistrib(p, n, -n);
    DivUnique(w - p * n, p, w / p - n, w % p);
  }

  // ----- building the tables

  datatype State = State(table: seq<nat>, offsets: seq<nat>, offset: nat, max: nat) | Fatal

  function Max(a: nat, b: nat): nat {
    if a > b then a else b
  }

  function Start(ops: nat): State {
    State(seq(MAX_MASK + 1, _ => 0), seq(ops, _ => 0), 0, 0)
  }

  /** One directive.  An index past the end of the table is an error as well: for links the
      original has no such check. */
  function Apply(s: State, d: Directive): (r: State)
    requires s.State? && |s.table| == MAX_MASK + 1 && d.op < |s.offsets|
    ensures r.State? ==> |r.table| == MAX_MASK + 1 && |r.offsets| == |s.offsets|
  {
    match d
    case DefInst(op, msk) =>
      if msk + s.offset >= MAX_MASK || s.table[msk + s.offset] != 0 then Fatal
      else s.(table := s.table[msk + s.offset := op], max := Max(s.max, msk + s.offset))
    case DefLink(op, msk, _, _, second) =>
      if msk + s.offset + second > MAX_MASK || s.table[msk + s.offset + second] != 0 then Fatal
      else s.(table := s.table[msk + s.offset := op], max := Max(s.max, msk + s.offset))
    case Connect(op) =>
      s.(offset := s.max + 1, offsets := s.offsets[op := s.max + 1])
  }

  ghost predicate OpsBelow(ds: Description, ops: nat) {
    forall i :: 0 <= i < |ds| ==> ds[i].op < ops
  }

  /** The state after the first k directives. */
  ghost function After(ds: Description, ops: nat, k: nat): (r: State)
    requires OpsBelow(ds, ops) && k <= |ds|
    ensures r.State? ==> |r.table| == MAX_MASK + 1 && |r.offsets| == ops
  {
    if k == 0 then Start(ops)
    else
      var s := After(ds, ops, k - 1);
      if s.Fatal? then Fatal else Apply(s, ds[k - 1])
  }

  /** Initialisation succeeds: no directive fails and the last slot check passes. */
  ghost predicate Builds(ds: Description, ops: nat)
    requires OpsBelow(ds, ops)
  {
    var s := After(ds, ops, |ds|);
    s.State? && s.max < MAX_MASK
  }

  /** The position of the definition of op, or -1. */
  function DefOf(ds: Description, op: nat): (i: int)
    ensures -1 <= i < |ds|
    ensures i >= 0 ==> ds[i].Def() && ds[i].op == op
  {
    if ds == [] then -1
    else if ds[|ds| - 1].Def() && ds[|ds| - 1].op == op then |ds| - 1
    else DefOf(ds[..|ds| - 1], op)
  }

  /** The static tables of field masks and shifts, by opcode. */
  function OpMask(ds: Description, op: nat): nat {
    var i := DefOf(ds, op);
    if i >= 0 && ds[i].DefLink? then ds[i].mask else 0
  }

  function OpShift(ds: Description, op: nat): nat {
    var i := DefOf(ds, op);
    if i >= 0 && ds[i].DefLink? then ds[i].shift else 0
  }

  // ----- the walk

  datatype Tables = Tables(mask2op: seq<nat>, opmask: seq<nat>, opshift: seq<nat>, opoffset: seq<nat>)

  /** Every table entry that links onward leads to a strictly higher index. */
  ghost predicate Progress(t: Tables) {
    && |t.opmask| == |t.opshift| == |t.opoffset|
    && |t.mask2op| > 0x7f
    && (forall i :: 0 <= i < |t.mask2op| ==> t.mask2op[i] < |t.opmask|)
    && (forall i :: 0 <= i < |t.mask2op| && t.opmask[t.mask2op[i]] != 0 ==> i < t.opoffset[t.mask2op[i]])
  }

  /** The entry at index i is a link. */
  ghost predicate LinkAt(t: Tables, i: nat)
    requires Progress(t)
  {
    i < |t.mask2op| && t.opmask[t.mask2op[i]] != 0
  }

  /** The index that a link's field of the word selects. */
  ghost function Next(t: Tables, w: Word, i: nat): (j: nat)
    requires Progress(t) && LinkAt(t, i)
    ensures i < j
  {
    var op := t.mask2op[i];
    Field(w, t.opshift[op], t.opmask[op]) + t.opoffset[op]
  }

  /** The opcode the walk from index i ends on, or None if it leaves the table. */
  ghost function Walk(t: Tables, w: Word, i: nat): Option<nat>
    requires Progress(t)
    decreases |t.mask2op| - i
  {
    if i >= |t.mask2op| then None
    else if !LinkAt(t, i) then Some(t.mask2op[i])
    else Walk(t, w, Next(t, w, i))
  }

  ghost function Decode(t: Tables, w: Word): Option<nat>
    requires Progress(t)
  {
    Walk(t, w, TopIndex(w))
  }

  /** The walk of w from index i looks at the entry at index s. */
  ghost predicate Passes(t: Tables, w: Word, i: nat, s: nat)
    requires Progress(t)
    decreases |t.mask2op| - i
  {
    i < |t.mask2op| && (i == s || (LinkAt(t, i) && Passes(t, w, Next(t, w, i), s)))
  }

  ghost predicate Visits(t: Tables, w: Word, s: nat)
    requires Progress(t)
  {
    Passes(t, w, TopIndex(w), s)
  }

  /** A walk only moves up, and goes on the same way from every entry it looks at. */
  lemma {:induction false} PassesOn(t: Tables, w: Word, i: nat, s: nat)
    requires Progress(t) && Passes(t, w, i, s)
    ensures i <= s < |t.mask2op| && Walk(t, w, i) == Walk(t, w, s)
    ensures LinkAt(t, s) && Next(t, w, s) < |t.mask2op| ==> Passes(t, w, i, Next(t, w, s))
    decreases s - i
  {
    if i != s { PassesUp(t, w, i, s); PassesOn(t, w, Next(t, w, i), s); }
  }

  lemma {:induction false} PassesUp(t: Tables, w: Word, i: nat, s: nat)
    requires Progress(t) && Passes(t, w, i, s)
    ensures i <= s
    decreases |t.mask2op| - i
  {
    if i != s { PassesUp(t, w, Next(t, w, i), s); }
  }

  /** An index above the start is reached from exactly one entry. */
  lemma {:induction false} OneWayIn(t: Tables, w: Word, i: nat, p: nat, q: nat)
    requires Progress(t) && Passes(t, w, i, p) && Passes(t, w, i, q)
    requires LinkAt(t, p) && LinkAt(t, q) && Next(t, w, p) == Next(t, w, q)
    ensures p == q
    decreases |t.mask2op| - i
  {
    if p != i && q != i {
      OneWayIn(t, w, Next(t, w, i), p, q);
    } else if p != i {
      PassesOn(t, w, Next(t, w, i), p);
    } else if q != i {
      PassesOn(t, w, Next(t, w, i), q);
    }
  }

  /** Every index a walk passes, other than its start, was selected by a link it passed. */
  lemma {:induction false} WayIn(t: Tables, w: Word, i: nat, s: nat) returns (p: nat)
    requires Progress(t) && Passes(t, w, i, s) && s != i
    ensures Passes(t, w, i, p) && LinkAt(t, p) && Next(t, w, p) == s
    decreases |t.mask2op| - i
  {
    p := i;
    if Next(t, w, i) != s { p := WayIn(t, w, Next(t, w, i), s); }
  }

  // ----- the trie a description denotes

  /** The Connect that opened the group of position i, or -1 at the top level. */
  function GroupOf(ds: Description, i: nat): (c: int)
    requires i <= |ds|
    ensures -1 <= c < i
    ensures c >= 0 ==> ds[c].Connect?
    ensures forall k :: c < k < i ==> !ds[k].Connect?
  {
    if i == 0 then -1
    else if ds[i - 1].Connect? then i - 1
    else GroupOf(ds, i - 1)
  }

  /** The word follows the path of fields that leads to definition i: stated on its bits. */
  ghost predicate Matches(ds: Description, i: nat, w: Word)
    requires i < |ds| && ds[i].Def()
    decreases i
  {
    var c := GroupOf(ds, i);
    if c < 0 then TopBits(w) == ds[i].msk
    else
      var p := DefOf(ds, ds[c].op);
      && 0 <= p < c && ds[p].DefLink? && ds[p].mask != 0
      && Matches(ds, p, w) && KeyBits(w, ds[p].shift, ds[p].mask) == ds[i].msk
  }

  /** Every link with a field is connected after its definition. */
  ghost predicate LinksConnected(ds: Description) {
    forall i :: 0 <= i < |ds| && ds[i].DefLink? && ds[i].mask != 0 ==>
      exists j :: i < j < |ds| && ds[j] == Connect(ds[i].op)
  }

  /** No opcode is connected twice. */
  ghost predicate ConnectedOnce(ds: Description) {
    forall i, j :: 0 <= i < j < |ds| && ds[i].Connect? && ds[j].Connect? ==> ds[i].op != ds[j].op
  }

  ghost predicate WellConnected(ds: Description) {
    LinksConnected(ds) && ConnectedOnce(ds)
  }

  ghost function OffsetAt(ds: Description, ops: nat, k: nat): nat
    requires OpsBelow(ds, ops) && k <= |ds|
  {
    var s := After(ds, ops, k); if s.State? then s.offset else 0
  }

  ghost function MaxAt(ds: Description, ops: nat, k: nat): nat
    requires OpsBelow(ds, ops) && k <= |ds|
  {
    var s := After(ds, ops, k); if s.State? then s.max else 0
  }

  /** The table slot of definition i. */
  ghost function Slot(ds: Description, ops: nat, i: nat): nat
    requires OpsBelow(ds, ops) && i < |ds| && ds[i].Def()
  {
    ds[i].msk + OffsetAt(ds, ops, i)
  }

  /** No definition is entered over another.  (The original checks this for instructions; for
      links it checks the slot `second` further on.) */
  ghost predicate DistinctSlots(ds: Description, ops: nat)
    requires OpsBelow(ds, ops)
  {
    forall i, j :: 0 <= i < j < |ds| && ds[i].Def() && ds[j].Def() ==> Slot(ds, ops, i) != Slot(ds, ops, j)
  }

  /** The tables a description initialises. */
  ghost function TablesOf(ds: Description, ops: nat): Tables
    requires OpsBelow(ds, ops) && Builds(ds, ops)
  {
    var s := After(ds, ops, |ds|);
    Tables(s.table, seq(ops, op requires 0 <= op => OpMask(ds, op)),
           seq(ops, op requires 0 <= op => OpShift(ds, op)), s.offsets)
  }

  /** What a description must meet for the table walk to follow its trie. */
  ghost predicate Sane(ds: Description, ops: nat) {
    && Enumerated(ds) && OpsBelow(ds, ops) && Builds(ds, ops)
    && WellConnected(ds) && DistinctSlots(ds, ops)
  }

  // ----- opcodes and their definitions

  lemma {:induction false} DefsGrow(ds: Description, i: nat, j: nat)
    requires i < j <= |ds|
    ensures Defs(ds[..i]) + (if ds[i].Def() then 1 else 0) <= Defs(ds[..j])
  {
    assert ds[..j][..j - 1] == ds[..j - 1] && ds[..j][j - 1] == ds[j - 1];
    if i < j - 1 { DefsGrow(ds, i, j - 1); }
  }

  /** Opcodes name definitions uniquely. */
  lemma UniqueDef(ds: Description, i: nat)
    requires Enumerated(ds) && i < |ds| && ds[i].Def()
    ensures DefOf(ds, ds[i].op) == i
  {
    var d := LastDef(ds, ds[i].op, i);
    if i < d { DefsGrow(ds, i, d); }
  }

  lemma {:induction false} LastDef(ds: Description, op: nat, i: nat) returns (d: nat)
    requires i < |ds| && ds[i].Def() && ds[i].op == op
    ensures d == DefOf(ds, op) && i <= d < |ds| && ds[d].Def() && ds[d].op == op
  {
    if ds[|ds| - 1].Def() && ds[|ds| - 1].op == op {
      d := |ds| - 1;
    } else {
      assert ds[..|ds| - 1][i] == ds[i];
      d := LastDef(ds[..|ds| - 1], op, i);
    }
  }

  // ----- what building leaves in the tables

  lemma {:induction false} AfterOk(ds: Description, ops: nat, k: nat, n: nat)
    requires OpsBelow(ds, ops) && k <= n <= |ds| && After(ds, ops, n).State?
    ensures After(ds, ops, k).State? && MaxAt(ds, ops, k) <= MaxAt(ds, ops, n)
  {
    if k < n { AfterOk(ds, ops, k, n - 1); }
  }

  /** The current offset is the one set when the current group was opened. */
  lemma {:induction false} OffsetOfGroup(ds: Description, ops: nat, k: nat)
    requires OpsBelow(ds, ops) && k <= |ds| && After(ds, ops, k).State?
    ensures var c := GroupOf(ds, k);
      OffsetAt(ds, ops, k) == if c < 0 then 0 else MaxAt(ds, ops, c) + 1
  {
    if k > 0 {
      AfterOk(ds, ops, k - 1, k);
      if !ds[k - 1].Connect? { OffsetOfGroup(ds, ops, k - 1); }
    }
  }

  lemma {:induction false} SlotBelowMax(ds: Description, ops: nat, i: nat, k: nat)
    requires OpsBelow(ds, ops) && i < k <= |ds| && ds[i].Def() && After(ds, ops, k).State?
    ensures Slot(ds, ops, i) <= MaxAt(ds, ops, k)
  {
    AfterOk(ds, ops, i, k);
    AfterOk(ds, ops, i + 1, k);
  }

  /** Entries are never overwritten: each definition stays in its slot. */
  lemma {:induction false} EntryStays(ds: Description, ops: nat, i: nat, k: nat)
    requires OpsBelow(ds, ops) && i < k <= |ds| && ds[i].Def() && After(ds, ops, k).State? && DistinctSlots(ds, ops)
    ensures Slot(ds, ops, i) <= MAX_MASK && After(ds, ops, k).table[Slot(ds, ops, i)] == ds[i].op
  {
    AfterOk(ds, ops, k - 1, k);
    if i < k - 1 {
      EntryStays(ds, ops, i, k - 1);
      if ds[k - 1].Def() { assert Slot(ds, ops, i) != Slot(ds, ops, k - 1); }
    }
  }

  /** Every entry was put there by a definition. */
  lemma {:induction false} EntryHasDef(ds: Description, ops: nat, s: nat, k: nat) returns (i: nat)
    requires OpsBelow(ds, ops) && k <= |ds| && After(ds, ops, k).State?
    requires s <= MAX_MASK && After(ds, ops, k).table[s] != 0
    ensures i < k && ds[i].Def() && Slot(ds, ops, i) == s && After(ds, ops, k).table[s] == ds[i].op
  {
    AfterOk(ds, ops, k - 1, k);
    if ds[k - 1].Def() && Slot(ds, ops, k - 1) == s {
      i := k - 1;
    } else {
      i := EntryHasDef(ds, ops, s, k - 1);
    }
  }

  // ----- when building succeeds, by the directives alone

  /** Where the group of position k starts: behind every slot in use when it was opened. */
  function Base(ds: Description, k: nat): nat
    requires k <= |ds|
    decreases k, 0
  {
    if k == 0 then 0 else if ds[k - 1].Connect? then Highest(ds, k - 1) + 1 else Base(ds, k - 1)
  }

  function Highest(ds: Description, k: nat): nat
    requires k <= |ds|
    decreases k, 0
  {
    if k == 0 then 0
    else
      var h := Highest(ds, k - 1);
      if ds[k - 1].Def() && Place(ds, k - 1) > h then Place(ds, k - 1) else h
  }

  function Place(ds: Description, i: nat): nat
    requires i < |ds| && ds[i].Def()
    decreases i, 1
  {
    ds[i].msk + Base(ds, i)
  }

  ghost predicate InUse(ds: Description, k: nat, s: nat)
    requires k <= |ds|
  {
    exists j :: 0 <= j < k && ds[j].Def() && Place(ds, j) == s
  }

  /** Directive i finds its slot free: an instruction its own, below 2048, and a link the one
      `second` behind its own, up to 2048. */
  ghost predicate FindsRoom(ds: Description, i: nat)
    requires i < |ds|
  {
    match ds[i]
    case DefInst(_, _) => Place(ds, i) < 2048 && !InUse(ds, i, Place(ds, i))
    case DefLink(_, _, _, _, second) => Place(ds, i) + second <= 2048 && !InUse(ds, i, Place(ds, i) + second)
    case Connect(_) => true
  }

  ghost predicate AllFindRoom(ds: Description, k: nat)
    requires k <= |ds|
  {
    forall i :: 0 <= i < k ==> FindsRoom(ds, i)
  }

  /** The state after k directives, if they all found room, is laid out by the directives. */
  ghost predicate LaidOut(ds: Description, ops: nat, k: nat)
    requires OpsBelow(ds, ops) && k <= |ds|
  {
    var s := After(ds, ops, k);
    && (s.State? <==> AllFindRoom(ds, k))
    && (s.State? ==> s.offset == Base(ds, k) && s.max == Highest(ds, k)
                     && forall x :: 0 <= x <= MAX_MASK ==> (s.table[x] != 0 <==> InUse(ds, k, x)))
  }

  lemma RoomMore(ds: Description, k: nat)
    requires k < |ds|
    ensures AllFindRoom(ds, k + 1) <==> AllFindRoom(ds, k) && FindsRoom(ds, k)
  {
  }

  lemma UseMore(ds: Description, k: nat, x: nat)
    requires k < |ds|
    ensures InUse(ds, k + 1, x) <==> InUse(ds, k, x) || (ds[k].Def() && Place(ds, k) == x)
  {
  }

  lemma {:induction false} Layout(ds: Description, ops: nat, k: nat)
    requires OpsBelow(ds, ops) && Enumerated(ds) && k <= |ds|
    ensures LaidOut(ds, ops, k)
  {
    if k > 0 {
      Layout(ds, ops, k - 1);
      RoomMore(ds, k - 1);
      forall x ensures InUse(ds, k, x) <==> InUse(ds, k - 1, x) || (ds[k - 1].Def() && Place(ds, k - 1) == x) {
        UseMore(ds, k - 1, x);
      }
      hide InUse, AllFindRoom, OpsBelow;
    }
  }

  /** Main result: initialisation succeeds exactly if every directive finds room where the
      directives before it say, and the table is not full to the end. */
  lemma BuildsExactly(ds: Description, ops: nat)
    requires OpsBelow(ds, ops) && Enumerated(ds)
    ensures Builds(ds, ops) <==> AllFindRoom(ds, |ds|) && Highest(ds, |ds|) < 2048
    ensures Builds(ds, ops) ==> forall i :: 0 <= i < |ds| && ds[i].Def() ==> Slot(ds, ops, i) == Place(ds, i)
  {
    Layout(ds, ops, |ds|);
    if Builds(ds, ops) {
      forall i | 0 <= i < |ds| && ds[i].Def() ensures Slot(ds, ops, i) == Place(ds, i) {
        AfterOk(ds, ops, i, |ds|);
        Layout(ds, ops, i);
      }
    }
  }

  /** The offset of an opcode is the one set by its only Connect. */
  lemma {:induction false} OffsetOfOp(ds: Description, ops: nat, c: nat, k: nat)
    requires OpsBelow(ds, ops) && ConnectedOnce(ds) && c < k <= |ds| && ds[c].Connect? && After(ds, ops, k).State?
    ensures After(ds, ops, k).offsets[ds[c].op] == MaxAt(ds, ops, c) + 1
  {
    AfterOk(ds, ops, k - 1, k);
    if c < k - 1 { OffsetOfOp(ds, ops, c, k - 1); }
  }

  /** Main result: the walk makes progress from every entry, so decoding terminates on every
      word, legal or not. */
  lemma WalkTerminates(ds: Description, ops: nat)
    requires Sane(ds, ops) && ops > 0
    ensures Progress(TablesOf(ds, ops))
  {
    var t, n := TablesOf(ds, ops), |ds|;
    forall s | 0 <= s < |t.mask2op|
      ensures t.mask2op[s] < ops
      ensures OpMask(ds, t.mask2op[s]) != 0 ==> s < t.opoffset[t.mask2op[s]]
    {
      if t.mask2op[s] != 0 {
        var i := EntryHasDef(ds, ops, s, n);
        UniqueDef(ds, i);
        if OpMask(ds, ds[i].op) != 0 {
          var j :| i < j < n && ds[j] == Connect(ds[i].op);
          OffsetOfOp(ds, ops, j, n);
          AfterOk(ds, ops, j, n);
          SlotBelowMax(ds, ops, i, j);
        }
      } else {
        NoDefOfZero(ds);
      }
    }
  }

  lemma NoDefOfZero(ds: Description)
    requires Enumerated(ds)
    ensures DefOf(ds, 0) < 0
  {
  }

  /** Only a Connect gives an opcode an offset. */
  lemma {:induction false} OffsetHasConnect(ds: Description, ops: nat, op: nat, k: nat) returns (c: nat)
    requires OpsBelow(ds, ops) && k <= |ds| && op < ops && After(ds, ops, k).State?
    requires After(ds, ops, k).offsets[op] != 0
    ensures c < k && ds[c] == Connect(op)
  {
    AfterOk(ds, ops, k - 1, k);
    if ds[k - 1] == Connect(op) {
      c := k - 1;
    } else {
      c := OffsetHasConnect(ds, ops, op, k - 1);
    }
  }

  /** A definition lies behind everything that was defined before the last Connect. */
  lemma SlotAbove(ds: Description, ops: nat, c: nat, i: nat)
    requires OpsBelow(ds, ops) && c < i < |ds| && ds[c].Connect? && ds[i].Def() && After(ds, ops, i).State?
    ensures MaxAt(ds, ops, c) + 1 <= Slot(ds, ops, i)
  {
    OffsetOfGroup(ds, ops, i);
    AfterOk(ds, ops, GroupOf(ds, i), i);
    AfterOk(ds, ops, c, GroupOf(ds, i));
  }

  /** A link that leads upwards is connected after its definition. */
  lemma UpwardsConnected(ds: Description, ops: nat, i: nat) returns (j: nat)
    requires Enumerated(ds) && OpsBelow(ds, ops) && Builds(ds, ops) && DistinctSlots(ds, ops) && ConnectedOnce(ds)
    requires Progress(TablesOf(ds, ops)) && i < |ds| && ds[i].DefLink? && ds[i].mask != 0
    ensures i < j < |ds| && ds[j] == Connect(ds[i].op)
  {
    EntryStays(ds, ops, i, |ds|);
    UniqueDef(ds, i);
    var t, s := TablesOf(ds, ops), Slot(ds, ops, i);
    assert t.mask2op[s] == ds[i].op && t.opmask[ds[i].op] != 0;
    j := OffsetHasConnect(ds, ops, ds[i].op, |ds|);
    OffsetOfOp(ds, ops, j, |ds|);
    AfterOk(ds, ops, i, |ds|);
    if j < i { SlotAbove(ds, ops, j, i); }
  }

  /** Main result: of the tables of descriptions that connect no opcode twice, exactly those in
      which every link is connected after its definition let decoding make progress. */
  lemma ProgressExactly(ds: Description, ops: nat)
    requires Enumerated(ds) && OpsBelow(ds, ops) && Builds(ds, ops) && DistinctSlots(ds, ops) && ConnectedOnce(ds)
    requires ops > 0
    ensures Progress(TablesOf(ds, ops)) <==> LinksConnected(ds)
  {
    if LinksConnected(ds) {
      WalkTerminates(ds, ops);
    } else if Progress(TablesOf(ds, ops)) {
      forall i | 0 <= i < |ds| && ds[i].DefLink? && ds[i].mask != 0
        ensures exists j :: i < j < |ds| && ds[j] == Connect(ds[i].op)
      {
        var j := UpwardsConnected(ds, ops, i);
      }
    }
  }

  // ----- walks without end

  /** The index after k steps of decoding w, if decoding goes on that long within the table. */
  ghost function IndexAfter(t: Tables, w: Word, k: nat): Option<nat> {
    if k == 0 then Some(TopIndex(w))
    else
      match IndexAfter(t, w, k - 1)
      case None => None
      case Some(i) =>
        if i >= |t.mask2op| || t.mask2op[i] >= |t.opmask| || |t.opshift| != |t.opmask| || |t.opoffset| != |t.opmask|
        then None
        else
          var op := t.mask2op[i];
          if t.opmask[op] == 0 then None else Some(Field(w, t.opshift[op], t.opmask[op]) + t.opoffset[op])
  }

  lemma {:induction false} NoOffset(ds: Description, ops: nat, op: nat, k: nat)
    requires OpsBelow(ds, ops) && k <= |ds| && op < ops && After(ds, ops, k).State?
    requires forall c :: 0 <= c < |ds| ==> ds[c] != Connect(op)
    ensures After(ds, ops, k).offsets[op] == 0
  {
    if After(ds, ops, k).offsets[op] != 0 { var c := OffsetHasConnect(ds, ops, op, k); }
  }

  /** Main result: a link that is never connected keeps for ever every word that selects there the
      link's own slot. */
  lemma {:induction false} UnconnectedLoops(ds: Description, ops: nat, p: nat, w: Word, k: nat)
    requires Enumerated(ds) && OpsBelow(ds, ops) && Builds(ds, ops) && DistinctSlots(ds, ops)
    requires p < |ds| && ds[p].DefLink? && ds[p].mask != 0
    requires forall c :: 0 <= c < |ds| ==> ds[c] != Connect(ds[p].op)
    requires TopIndex(w) == Slot(ds, ops, p) == Field(w, ds[p].shift, ds[p].mask)
    ensures IndexAfter(TablesOf(ds, ops), w, k) == Some(TopIndex(w))
  {
    if k > 0 {
      UnconnectedLoops(ds, ops, p, w, k - 1);
      UnconnectedEntry(ds, ops, p);
      hide TablesOf, Builds, Enumerated, DistinctSlots, Slot, TopIndex, Field;
      StaysPut(TablesOf(ds, ops), w, k - 1, TopIndex(w), ds[p].op);
    }
  }

  lemma StaysPut(t: Tables, w: Word, k: nat, i: nat, op: nat)
    requires IndexAfter(t, w, k) == Some(i) && i < |t.mask2op| && t.mask2op[i] == op
    requires op < |t.opmask| == |t.opshift| == |t.opoffset| && t.opmask[op] != 0
    requires Field(w, t.opshift[op], t.opmask[op]) + t.opoffset[op] == i
    ensures IndexAfter(t, w, k + 1) == Some(i)
  {
    hide Field, TopIndex;
  }

  lemma UnconnectedEntry(ds: Description, ops: nat, p: nat)
    requires Enumerated(ds) && OpsBelow(ds, ops) && Builds(ds, ops) && DistinctSlots(ds, ops)
    requires p < |ds| && ds[p].DefLink? && ds[p].mask != 0
    requires forall c :: 0 <= c < |ds| ==> ds[c] != Connect(ds[p].op)
    ensures var t, op := TablesOf(ds, ops), ds[p].op;
      && Slot(ds, ops, p) < |t.mask2op| && t.mask2op[Slot(ds, ops, p)] == op
      && op < |t.opmask| == |t.opshift| == |t.opoffset|
      && t.opmask[op] == ds[p].mask && t.opshift[op] == ds[p].shift && t.opoffset[op] == 0
  {
    EntryStays(ds, ops, p, |ds|);
    UniqueDef(ds, p);
    LinkEntry(ds, ops, p);
    NoOffset(ds, ops, ds[p].op, |ds|);
  }

  lemma LinkEntry(ds: Description, ops: nat, p: nat)
    requires OpsBelow(ds, ops) && Builds(ds, ops) && p < |ds| && ds[p].DefLink? && DefOf(ds, ds[p].op) == p
    ensures var t := TablesOf(ds, ops);
      t.opmask[ds[p].op] == ds[p].mask && t.opshift[ds[p].op] == ds[p].shift
  {
  }

  // ----- the walk follows the trie

  /** The slot of a child is its link's offset plus its key. */
  lemma ChildSlot(ds: Description, ops: nat, i: nat)
    requires Sane(ds, ops) && i < |ds| && ds[i].Def() && GroupOf(ds, i) >= 0
    ensures Slot(ds, ops, i) == ds[i].msk + After(ds, ops, |ds|).offsets[ds[GroupOf(ds, i)].op]
  {
    var c := GroupOf(ds, i);
    AfterOk(ds, ops, i, |ds|);
    OffsetOfGroup(ds, ops, i);
    OffsetOfOp(ds, ops, c, |ds|);
  }

  /** The index that link p selects for a word. */
  ghost function Selected(ds: Description, ops: nat, p: nat, w: Word): nat
    requires OpsBelow(ds, ops) && Builds(ds, ops) && p < |ds| && ds[p].DefLink?
  {
    Field(w, ds[p].shift, ds[p].mask) + After(ds, ops, |ds|).offsets[ds[p].op]
  }

  /** The slot of a definition holds it, with its own field. */
  lemma EntryOf(ds: Description, ops: nat, i: nat)
    requires Sane(ds, ops) && Progress(TablesOf(ds, ops)) && i < |ds| && ds[i].Def()
    ensures Slot(ds, ops, i) <= MAX_MASK
    ensures TablesOf(ds, ops).mask2op[Slot(ds, ops, i)] == ds[i].op && DefOf(ds, ds[i].op) == i
    ensures LinkAt(TablesOf(ds, ops), Slot(ds, ops, i)) <==> ds[i].DefLink? && ds[i].mask != 0
    ensures LinkAt(TablesOf(ds, ops), Slot(ds, ops, i)) ==>
      forall w: Word :: Next(TablesOf(ds, ops), w, Slot(ds, ops, i)) == Selected(ds, ops, i, w)
  {
    EntryStays(ds, ops, i, |ds|);
    UniqueDef(ds, i);
  }

  /** A link in the tables is a link of the description. */
  lemma LinkHasDef(ds: Description, ops: nat, s: nat) returns (p: nat)
    requires Sane(ds, ops) && Progress(TablesOf(ds, ops)) && s <= MAX_MASK && LinkAt(TablesOf(ds, ops), s)
    ensures p < |ds| && ds[p].DefLink? && ds[p].mask != 0 && Slot(ds, ops, p) == s
    ensures TablesOf(ds, ops).mask2op[s] == ds[p].op
  {
    NoDefOfZero(ds);
    p := EntryHasDef(ds, ops, s, |ds|);
    UniqueDef(ds, p);
  }

  /** Decoding w looks at the entry of definition i. */
  ghost predicate Reaches(ds: Description, ops: nat, w: Word, i: nat)
    requires Sane(ds, ops) && Progress(TablesOf(ds, ops)) && i < |ds| && ds[i].Def()
  {
    Visits(TablesOf(ds, ops), w, Slot(ds, ops, i))
  }

  lemma TopReached(ds: Description, ops: nat, i: nat, w: Word)
    requires Sane(ds, ops) && Progress(TablesOf(ds, ops)) && i < |ds| && ds[i].Def()
    requires GroupOf(ds, i) < 0 && Matches(ds, i, w)
    ensures Reaches(ds, ops, w, i)
  {
    AfterOk(ds, ops, i, |ds|);
    OffsetOfGroup(ds, ops, i);
  }

  lemma ChildReached(ds: Description, ops: nat, p: nat, i: nat, w: Word)
    requires Sane(ds, ops) && Progress(TablesOf(ds, ops)) && i < |ds| && ds[i].Def()
    requires GroupOf(ds, i) >= 0 && p < |ds| && ds[p].DefLink? && ds[p].mask != 0
    requires ds[p].op == ds[GroupOf(ds, i)].op && Field(w, ds[p].shift, ds[p].mask) == ds[i].msk
    requires Reaches(ds, ops, w, p)
    ensures Reaches(ds, ops, w, i)
  {
    EntryOf(ds, ops, p);
    EntryOf(ds, ops, i);
    ChildSlot(ds, ops, i);
    PassesOn(TablesOf(ds, ops), w, TopIndex(w), Slot(ds, ops, p));
  }

  /** A word that follows the path of a definition reaches its slot. */
  lemma {:induction false} WalkReaches(ds: Description, ops: nat, i: nat, w: Word)
    requires Sane(ds, ops) && Progress(TablesOf(ds, ops)) && i < |ds| && ds[i].Def() && Matches(ds, i, w)
    ensures Reaches(ds, ops, w, i)
    decreases i
  {
    var c := GroupOf(ds, i);
    if c < 0 {
      TopReached(ds, ops, i, w);
    } else {
      var p := DefOf(ds, ds[c].op);
      WalkReaches(ds, ops, p, w);
      ChildReached(ds, ops, p, i, w);
    }
  }

  /** Decoding ends at the first entry it reaches that is not a link. */
  lemma EndsAt(ds: Description, ops: nat, i: nat, w: Word)
    requires Sane(ds, ops) && Progress(TablesOf(ds, ops)) && i < |ds| && ds[i].DefInst? && Reaches(ds, ops, w, i)
    ensures Decode(TablesOf(ds, ops), w) == Some(ds[i].op)
  {
    EntryOf(ds, ops, i);
    PassesOn(TablesOf(ds, ops), w, TopIndex(w), Slot(ds, ops, i));
  }

  /** Main result: a word that follows the path of masked fields leading to an instruction
      decodes to exactly that instruction. */
  lemma DecodesToMatch(ds: Description, ops: nat, i: nat, w: Word)
    requires Sane(ds, ops) && ops > 0 && i < |ds| && ds[i].DefInst? && Matches(ds, i, w)
    ensures Progress(TablesOf(ds, ops)) && Decode(TablesOf(ds, ops), w) == Some(ds[i].op)
  {
    WalkTerminates(ds, ops);
    WalkReaches(ds, ops, i, w);
    EndsAt(ds, ops, i, w);
  }

  /** Decoding w reaches link p and selects an index past the end of the table there. */
  ghost predicate LeavesAt(ds: Description, ops: nat, w: Word, p: nat)
    requires Sane(ds, ops) && Progress(TablesOf(ds, ops)) && p < |ds| && ds[p].DefLink?
  {
    ds[p].mask != 0 && Reaches(ds, ops, w, p) && Selected(ds, ops, p, w) > MAX_MASK
  }

  lemma LeavesThere(ds: Description, ops: nat, w: Word, p: nat)
    requires Sane(ds, ops) && Progress(TablesOf(ds, ops)) && p < |ds| && ds[p].DefLink?
    requires LeavesAt(ds, ops, w, p)
    ensures Decode(TablesOf(ds, ops), w).None?
  {
    EntryOf(ds, ops, p);
    PassesOn(TablesOf(ds, ops), w, TopIndex(w), Slot(ds, ops, p));
  }

  lemma LeavesFrom(ds: Description, ops: nat, w: Word, s: nat) returns (p: nat)
    requires Sane(ds, ops) && Progress(TablesOf(ds, ops)) && LinkAt(TablesOf(ds, ops), s)
    requires Visits(TablesOf(ds, ops), w, s) && Next(TablesOf(ds, ops), w, s) > MAX_MASK
    ensures p < |ds| && ds[p].DefLink? && LeavesAt(ds, ops, w, p)
  {
    p := LinkHasDef(ds, ops, s);
    EntryOf(ds, ops, p);
  }

  /** The link from which a walk leaves the table. */
  lemma {:induction false} LastLink(t: Tables, w: Word, i: nat) returns (s: nat)
    requires Progress(t) && i < |t.mask2op| && Walk(t, w, i).None?
    ensures Passes(t, w, i, s) && LinkAt(t, s) && Next(t, w, s) >= |t.mask2op|
    decreases |t.mask2op| - i
  {
    s := i;
    if Next(t, w, i) < |t.mask2op| { s := LastLink(t, w, Next(t, w, i)); }
  }

  /** Main result: decoding leaves the table exactly when it reaches a link whose field and
      offset add up to an index past the end. */
  lemma LeavesExactly(ds: Description, ops: nat, w: Word)
    requires Sane(ds, ops) && ops > 0
    ensures Progress(TablesOf(ds, ops))
    ensures Decode(TablesOf(ds, ops), w).None? <==>
      exists p :: 0 <= p < |ds| && ds[p].DefLink? && LeavesAt(ds, ops, w, p)
  {
    WalkTerminates(ds, ops);
    if Decode(TablesOf(ds, ops), w).None? {
      var s := LastLink(TablesOf(ds, ops), w, TopIndex(w));
      var p := LeavesFrom(ds, ops, w, s);
    } else if p :| 0 <= p < |ds| && ds[p].DefLink? && LeavesAt(ds, ops, w, p) {
      LeavesThere(ds, ops, w, p);
    }
  }

  // ----- words that match nothing

  /** Indices that the top level can select. */
  predicate TopAttained(s: nat) {
    s < 3 || (s <= 0x7f && s % 4 == 3)
  }

  lemma TopIsAttained(w: Word)
    ensures TopAttained(TopIndex(w))
  {
    AndLow(w);
  }

  lemma TopOfAttained(s: Word)
    requires TopAttained(s)
    ensures TopIndex(s) == s
  {
    TopOf(s);
    if s < 3 { SmallMod(s, 4); } else { SmallMod(s, 128); }
  }

  /** A word that follows the path to link p selects the slot of definition j there. */
  ghost predicate Selects(ds: Description, ops: nat, p: nat, j: nat, w: Word)
    requires OpsBelow(ds, ops) && Builds(ds, ops)
    requires p < |ds| && ds[p].DefLink? && j < |ds| && ds[j].Def()
  {
    ds[p].mask != 0 && Matches(ds, p, w) && Slot(ds, ops, j) == Selected(ds, ops, p, w)
  }

  /** Definition j belongs to the group of link p. */
  predicate ChildOf(ds: Description, p: nat, j: nat)
    requires p < |ds| && j < |ds|
  {
    GroupOf(ds, j) >= 0 && ds[GroupOf(ds, j)].op == ds[p].op
  }

  /** The slots the top level can select hold only top-level definitions, and a slot that some
      word selects at a link holds only a child of that link. */
  ghost predicate Clean(ds: Description, ops: nat)
    requires OpsBelow(ds, ops) && Builds(ds, ops)
  {
    && (forall j :: 0 <= j < |ds| && ds[j].Def() && TopAttained(Slot(ds, ops, j)) ==> GroupOf(ds, j) < 0)
    && (forall p, j, w: Word ::
          0 <= p < |ds| && ds[p].DefLink? && 0 <= j < |ds| && ds[j].Def() && Selects(ds, ops, p, j, w) ==>
            ChildOf(ds, p, j))
  }

  /** Every definition that decoding w looks at is one that w follows the path to. */
  ghost predicate OnPath(ds: Description, ops: nat, w: Word)
    requires Sane(ds, ops) && Progress(TablesOf(ds, ops))
  {
    forall j :: 0 <= j < |ds| && ds[j].Def() && Reaches(ds, ops, w, j) ==> Matches(ds, j, w)
  }

  /** A top-level entry a word selects is one it matches. */
  lemma TopMatches(ds: Description, ops: nat, w: Word, j: nat)
    requires Sane(ds, ops) && Clean(ds, ops) && j < |ds| && ds[j].Def() && Slot(ds, ops, j) == TopIndex(w)
    ensures Matches(ds, j, w)
  {
    TopIsAttained(w);
    AfterOk(ds, ops, j, |ds|);
    OffsetOfGroup(ds, ops, j);
  }

  /** A slot selected at a link is matched if and only if it belongs to the link's group. */
  lemma SelectedMatches(ds: Description, ops: nat, w: Word, p: nat, j: nat)
    requires Sane(ds, ops) && p < |ds| && ds[p].DefLink? && j < |ds| && ds[j].Def()
    requires Selects(ds, ops, p, j, w) && ChildOf(ds, p, j)
    ensures Matches(ds, j, w)
  {
    UniqueDef(ds, p);
    ChildSlot(ds, ops, j);
    var c :| p < c < |ds| && ds[c] == Connect(ds[p].op);
  }

  lemma {:induction false} CleanOnPath(ds: Description, ops: nat, w: Word, s: nat, j: nat)
    requires Sane(ds, ops) && Clean(ds, ops) && Progress(TablesOf(ds, ops))
    requires j < |ds| && ds[j].Def() && Reaches(ds, ops, w, j) && s == Slot(ds, ops, j)
    ensures Matches(ds, j, w)
    decreases s
  {
    if s == TopIndex(w) {
      TopMatches(ds, ops, w, j);
    } else {
      var q := WayIn(TablesOf(ds, ops), w, TopIndex(w), s);
      PassesOn(TablesOf(ds, ops), w, TopIndex(w), q);
      var p := LinkHasDef(ds, ops, q);
      EntryOf(ds, ops, p);
      CleanOnPath(ds, ops, w, q, p);
      assert Selects(ds, ops, p, j, w);
      SelectedMatches(ds, ops, w, p, j);
    }
  }

  /** A definition that a word both matches and selects at a matched link is that link's child. */
  lemma MatchedIsChild(ds: Description, ops: nat, w: Word, p: nat, j: nat)
    requires Sane(ds, ops) && Progress(TablesOf(ds, ops)) && p < |ds| && ds[p].DefLink? && j < |ds| && ds[j].Def()
    requires Selects(ds, ops, p, j, w) && Matches(ds, j, w)
    ensures ChildOf(ds, p, j)
  {
    var t := TablesOf(ds, ops);
    WalkReaches(ds, ops, p, w);
    EntryOf(ds, ops, p);
    PassesOn(t, w, TopIndex(w), Slot(ds, ops, p));
    var c := GroupOf(ds, j);
    if c < 0 {
      AfterOk(ds, ops, j, |ds|);
      OffsetOfGroup(ds, ops, j);
    } else {
      var q := DefOf(ds, ds[c].op);
      WalkReaches(ds, ops, q, w);
      EntryOf(ds, ops, q);
      ChildSlot(ds, ops, j);
      OneWayIn(t, w, TopIndex(w), Slot(ds, ops, p), Slot(ds, ops, q));
    }
  }

  /** A word that selects a slot at a link it matches reaches that slot. */
  lemma SelectedReached(ds: Description, ops: nat, w: Word, p: nat, j: nat)
    requires Sane(ds, ops) && Progress(TablesOf(ds, ops)) && p < |ds| && ds[p].DefLink? && j < |ds| && ds[j].Def()
    requires Selects(ds, ops, p, j, w)
    ensures Reaches(ds, ops, w, j)
  {
    WalkReaches(ds, ops, p, w);
    EntryOf(ds, ops, p);
    EntryOf(ds, ops, j);
    PassesOn(TablesOf(ds, ops), w, TopIndex(w), Slot(ds, ops, p));
  }

  /** A top-level index of a word that belongs to a group is never matched by that word. */
  lemma TopIsTop(ds: Description, ops: nat, j: nat, w: Word)
    requires Sane(ds, ops) && Progress(TablesOf(ds, ops)) && j < |ds| && ds[j].Def()
    requires Slot(ds, ops, j) == TopIndex(w) && Matches(ds, j, w)
    ensures GroupOf(ds, j) < 0
  {
    var c := GroupOf(ds, j);
    if c >= 0 {
      var q := DefOf(ds, ds[c].op);
      WalkReaches(ds, ops, q, w);
      EntryOf(ds, ops, q);
      ChildSlot(ds, ops, j);
      PassesOn(TablesOf(ds, ops), w, TopIndex(w), Slot(ds, ops, q));
    }
  }

  lemma CleanIfOnPath(ds: Description, ops: nat)
    requires Sane(ds, ops) && Progress(TablesOf(ds, ops))
    requires forall w: Word :: OnPath(ds, ops, w)
    ensures Clean(ds, ops)
  {
    forall j | 0 <= j < |ds| && ds[j].Def() && TopAttained(Slot(ds, ops, j)) ensures GroupOf(ds, j) < 0 {
      var w: Word := Slot(ds, ops, j);
      TopOfAttained(w);
      assert OnPath(ds, ops, w) && Reaches(ds, ops, w, j);
      TopIsTop(ds, ops, j, w);
    }
    forall p, j, w: Word | 0 <= p < |ds| && ds[p].DefLink? && 0 <= j < |ds| && ds[j].Def() && Selects(ds, ops, p, j, w)
      ensures ChildOf(ds, p, j)
    {
      SelectedReached(ds, ops, w, p, j);
      assert OnPath(ds, ops, w);
      MatchedIsChild(ds, ops, w, p, j);
    }
  }

  /** Main result: Clean is exactly the condition under which no word ever strays from the
      path of its fields. */
  lemma CleanExactly(ds: Description, ops: nat)
    requires Sane(ds, ops) && ops > 0
    ensures Progress(TablesOf(ds, ops))
    ensures Clean(ds, ops) <==> forall w: Word :: OnPath(ds, ops, w)
  {
    WalkTerminates(ds, ops);
    if Clean(ds, ops) {
      forall w: Word ensures OnPath(ds, ops, w) { CleanKeepsPath(ds, ops, w); }
    } else if forall w: Word :: OnPath(ds, ops, w) {
      CleanIfOnPath(ds, ops);
    }
  }

  lemma CleanKeepsPath(ds: Description, ops: nat, w: Word)
    requires Sane(ds, ops) && Clean(ds, ops) && Progress(TablesOf(ds, ops))
    ensures OnPath(ds, ops, w)
  {
    forall j | 0 <= j < |ds| && ds[j].Def() && Reaches(ds, ops, w, j) ensures Matches(ds, j, w) {
      CleanOnPath(ds, ops, w, Slot(ds, ops, j), j);
    }
  }

  /** Main result: in a clean description decoding is exact: the result is an opcode if and
      only if the word follows the path of that opcode. */
  lemma DecodeExact(ds: Description, ops: nat, w: Word, i: nat)
    requires Sane(ds, ops) && Clean(ds, ops) && ops > 0 && i < |ds| && ds[i].DefInst?
    ensures Progress(TablesOf(ds, ops))
    ensures Decode(TablesOf(ds, ops), w) == Some(ds[i].op) <==> Matches(ds, i, w)
  {
    WalkTerminates(ds, ops);
    if Matches(ds, i, w) { DecodesToMatch(ds, ops, i, w); }
    var t := TablesOf(ds, ops);
    if Decode(t, w) == Some(ds[i].op) {
      var s := LastEntry(t, w, TopIndex(w));
      UniqueDef(ds, i);
      NoDefOfZero(ds);
      var j := EntryHasDef(ds, ops, s, |ds|);
      UniqueDef(ds, j);
      CleanOnPath(ds, ops, w, s, i);
    }
  }

  /** The entry a walk ends on. */
  lemma {:induction false} LastEntry(t: Tables, w: Word, i: nat) returns (s: nat)
    requires Progress(t) && Walk(t, w, i).Some?
    ensures Passes(t, w, i, s) && s < |t.mask2op| && t.mask2op[s] == Walk(t, w, i).value
    decreases |t.mask2op| - i
  {
    s := i;
    if LinkAt(t, i) { s := LastEntry(t, w, Next(t, w, i)); }
  }

  /** Main result: the condition is needed for decoding itself: a word that follows the path to
      a link and selects there an instruction of another group decodes to that instruction,
      which it does not match. */
  lemma ForeignSlotDecodes(ds: Description, ops: nat, w: Word, p: nat, j: nat)
    requires Sane(ds, ops) && ops > 0 && p < |ds| && ds[p].DefLink? && j < |ds| && ds[j].DefInst?
    requires Selects(ds, ops, p, j, w) && !ChildOf(ds, p, j)
    ensures Progress(TablesOf(ds, ops))
    ensures Decode(TablesOf(ds, ops), w) == Some(ds[j].op) && !Matches(ds, j, w)
  {
    WalkTerminates(ds, ops);
    SelectedReached(ds, ops, w, p, j);
    EndsAt(ds, ops, j, w);
    if Matches(ds, j, w) { MatchedIsChild(ds, ops, w, p, j); }
  }

  // ----- words that run past the table

  /** A word that follows the path to a link and selects an index past the end there leaves the
      table. */
  lemma MatchLeaves(ds: Description, ops: nat, w: Word, p: nat)
    requires Sane(ds, ops) && ops > 0 && p < |ds| && ds[p].DefLink? && ds[p].mask != 0
    requires Matches(ds, p, w) && Selected(ds, ops, p, w) > MAX_MASK
    ensures Progress(TablesOf(ds, ops)) && Decode(TablesOf(ds, ops), w).None?
  {
    WalkTerminates(ds, ops);
    WalkReaches(ds, ops, p, w);
    LeavesThere(ds, ops, w, p);
  }

  /** Main result: in a clean description those are the only words that leave it. */
  lemma CleanLeavesExactly(ds: Description, ops: nat, w: Word)
    requires Sane(ds, ops) && Clean(ds, ops) && ops > 0
    ensures Progress(TablesOf(ds, ops))
    ensures Decode(TablesOf(ds, ops), w).None? <==>
      exists p :: 0 <= p < |ds| && ds[p].DefLink? && ds[p].mask != 0 && Matches(ds, p, w)
               && Selected(ds, ops, p, w) > MAX_MASK
  {
    LeavesExactly(ds, ops, w);
    CleanKeepsPath(ds, ops, w);
    if p :| 0 <= p < |ds| && ds[p].DefLink? && LeavesAt(ds, ops, w, p) {
      assert Matches(ds, p, w);
    }
    if p :| 0 <= p < |ds| && ds[p].DefLink? && ds[p].mask != 0 && Matches(ds, p, w)
            && Selected(ds, ops, p, w) > MAX_MASK {
      MatchLeaves(ds, ops, w, p);
    }
  }

  // ----- compressed and full words

  /** By section 1.5 of the RISC-V Instruction Set Manual Volume I (20191213), the low two bits
      tell 16-bit from longer instructions: the two kinds never share a top-level slot. */
  lemma TopLevelsDisjoint(w1: Word, w2: Word)
    requires TopIndex(w1) == TopIndex(w2)
    ensures Compressed(w1) == Compressed(w2)
  {
    AndLow(w1);
    AndLow(w2);
  }

  /** The low two bits of the top index tell the kinds apart. */
  lemma AndLow(w: Word)
    ensures And(w, 3) == w % 4 && And(w, 0x7f) == w % 128
    ensures Compressed(w) <==> TopIndex(w) % 4 != 3
  {
    LowTwo(w);
    LowSeven(w);
    ModMod(w);
    hide And;
  }

  lemma ModMod(w: nat)
    ensures (w % 128) % 4 == w % 4
  {
  }

  lemma LowTwo(w: nat)
    ensures And(w, 3) == w % 4
  {
    assert Pow2(2) == 4;
    AndMask(w, 2);
  }

  lemma LowSeven(w: nat)
    ensures And(w, 0x7f) == w % 128
  {
    assert Pow2(7) == 128;
    AndMask(w, 7);
  }

  lemma TopOf(w: Word)
    ensures TopIndex(w) == if w % 4 != 3 then w % 4 else w % 128
  {
    AndLow(w);
  }

  /** No definition is matched by both a compressed and a full word. */
  lemma {:induction false} KindsDisjoint(ds: Description, i: nat, w1: Word, w2: Word)
    requires i < |ds| && ds[i].Def() && Matches(ds, i, w1) && Matches(ds, i, w2)
    ensures Compressed(w1) == Compressed(w2)
    decreases i
  {
    var c := GroupOf(ds, i);
    if c < 0 {
      TopLevelsDisjoint(w1, w2);
    } else {
      KindsDisjoint(ds, DefOf(ds, ds[c].op), w1, w2);
    }
  }
}
