/** The whole branch predictor: direction tables, branch target buffer and return-address
    stack, with the lookup and the update a simulated branch makes, on values. */
module Predictor {
  import opened Bits
  import opened Options
  import opened Direction
  import RS = ReturnStack
  import Btb

  /** The predictors that keep state. */
  datatype Kind = Comb | TwoLev | TwoBit

  /** What decoding knows of a control instruction; `indir` marks indirect jumps. */
  datatype Op = Op(ctrl: bool, uncond: bool, call: bool, ret: bool, indir: bool)
  {
    /** The return-address stack settles the branch, and nothing else is updated. */
    predicate Settled(hasRas: bool) {
      ret && indir && hasRas
    }
  }

  datatype Config = Config(kind: Kind, bimodSize: nat, l1size: nat, l2size: nat, metaSize: nat,
                           width: nat, xor: bool, sets: nat, assoc: nat, rasSize: nat)

  datatype Stats = Stats(lookups: nat, addrHits: nat, dirHits: nat, misses: nat, jrSeen: nat, jrHits: nat,
                         jrNonRasSeen: nat, jrNonRasHits: nat, usedRas: nat, rasHits: nat, pops: nat, pushes: nat)

  /** `ras` is None when the stack has no entries. */
  datatype Bpred = Bpred(kind: Kind, bimod: seq<Counter>, twolev: TwoLevel, meta: seq<Counter>,
                         btb: seq<Btb.Row>, ras: Option<RS.Stack>, stats: Stats)

  /** A counter of one of the direction tables. */
  datatype CounterRef = InBimod(i: nat) | InTwolev(i: nat) | InMeta(i: nat)

  /** What lookup leaves for the update of the same branch. */
  datatype Rec = Rec(ras: bool, pdir1: Option<CounterRef>, pdir2: Option<CounterRef>, pmeta: Option<CounterRef>,
                     bimodSays: bool, twolevSays: bool)

  // ----- creation

  predicate SizeOk(n: nat) {
    0 < n < WORD32 && And(n, n - 1) == 0
  }

  /** The checks made at creation. */
  predicate AcceptedConfig(c: Config) {
    && (c.kind.TwoLev? || SizeOk(c.bimodSize))
    && (c.kind.TwoBit? || Accepted(c.l1size, c.l2size, c.width))
    && (c.kind.Comb? ==> SizeOk(c.metaSize))
    && SizeOk(c.sets) && SizeOk(c.assoc) && (c.rasSize == 0 || SizeOk(c.rasSize))
  }

  /** The sizes that are kept in C ints are right there, and so is the number of entries of the
      branch target buffer. */
  predicate IntsHold(c: Config)
    requires AcceptedConfig(c)
  {
    && (c.kind.TwoBit? || (Signed32(c.l1size) > 0 && Signed32(c.l2size) > 0))
    && (c.rasSize == 0 || Signed32(c.rasSize) > 0)
    && IntProduct(c.sets, c.assoc) == c.sets * c.assoc
  }

  function ZeroStats(): Stats {
    Stats(0, 0, 0, 0, 0, 0, 0, 0, 0, 0, 0, 0)
  }

  /** What becomes of a configuration: some check fails, or a size is too large for the int
      that holds it, or the predictor is ready. */
  datatype Creation = Refused | Oversized | Ready(p: Bpred)

  function Create(c: Config): Creation {
    if !AcceptedConfig(c) then Refused
    else if !IntsHold(c) then Oversized
    else Ready(Bpred(c.kind,
                     FreshTable(if c.kind.TwoLev? then 0 else c.bimodSize),
                     if c.kind.TwoBit? then TwoLevel([], [], 0, false)
                     else NewTwoLevel(c.l1size, c.l2size, c.width, c.xor),
                     FreshTable(if c.kind.Comb? then c.metaSize else 0),
                     seq(c.sets, _ => Btb.EmptyRow(c.assoc)),
                     if c.rasSize == 0 then None else Some(RS.Stack(seq(c.rasSize, _ => 0), c.rasSize - 1)),
                     ZeroStats()))
  }

  /** Creation refuses exactly the sizes that are not powers of two, and of the others works
      exactly for those below 2^31, the entries of the branch target buffer counted together. */
  lemma CreateExact(c: Config)
    ensures !Create(c).Refused? <==>
      && (c.kind.TwoLev? || PowerSize(c.bimodSize)) && (c.kind.Comb? ==> PowerSize(c.metaSize))
      && (c.kind.TwoBit? || (PowerSize(c.l1size) && PowerSize(c.l2size) && 0 < c.width <= 30))
      && PowerSize(c.sets) && PowerSize(c.assoc) && (c.rasSize == 0 || PowerSize(c.rasSize))
    ensures Create(c).Ready? <==>
      && !Create(c).Refused? && c.sets * c.assoc < 0x8000_0000 && c.rasSize < 0x8000_0000
      && (c.kind.TwoBit? || (c.l1size < 0x8000_0000 && c.l2size < 0x8000_0000))
  {
    SizeIsPower(c.bimodSize);
    SizeIsPower(c.metaSize);
    SizeIsPower(c.l1size);
    SizeIsPower(c.l2size);
    SizeIsPower(c.sets);
    SizeIsPower(c.assoc);
    SizeIsPower(c.rasSize);
    if SizeOk(c.sets) && SizeOk(c.assoc) { IntProductExact(c.sets, c.assoc); }
  }

  ghost predicate PowerSize(n: nat) {
    n < WORD32 && IsPow2(n)
  }

  lemma SizeIsPower(n: nat)
    ensures SizeOk(n) <==> PowerSize(n)
  {
    if n > 0 { PowerOfTwoTest(n); }
  }

  /** A configuration that passes every check, whose branch target buffer gets no entries. */
  lemma OversizedBuffer()
    ensures var c := Config(TwoBit, 4, 0, 0, 0, 0, false, 65536, 65536, 0);
      AcceptedConfig(c) && Create(c).Oversized? && IntProduct(65536, 65536) == 0
  {
    IntProductVanishes();
    assert IsPow2(4) by { assert Pow2(2) == 4; }
    SizeIsPower(65536);
    SizeIsPower(4);
    hide IsPow2, SizeOk, IntProduct, And;
  }

  /** Table shapes that creation sets up and every operation keeps. */
  ghost predicate Ok(p: Bpred) {
    && (!p.kind.TwoLev? ==> SizeOk(|p.bimod|))
    && (!p.kind.TwoBit? ==> Direction.Ok(p.twolev))
    && (p.kind.Comb? ==> SizeOk(|p.meta|))
    && SizeOk(|p.btb|) && (forall s :: 0 <= s < |p.btb| ==> |p.btb[s]| == |p.btb[0]| > 0)
    && (p.ras.Some? ==> RS.Ok(p.ras.value))
  }

  // ----- lookup

  predicate Conditional(op: Op) {
    !(op.ctrl && op.uncond)
  }

  function ValueOf(p: Bpred, r: CounterRef): Counter {
    match r
    case InBimod(i) => if i < |p.bimod| then p.bimod[i] else 0
    case InTwolev(i) => if i < |p.twolev.l2table| then p.twolev.l2table[i] else 0
    case InMeta(i) => if i < |p.meta| then p.meta[i] else 0
  }

  function BimodRef(p: Bpred, baddr: nat): CounterRef
    requires |p.bimod| > 0
  {
    InBimod(BimodIndex(baddr, |p.bimod|))
  }

  function MetaRef(p: Bpred, baddr: nat): CounterRef
    requires |p.meta| > 0
  {
    InMeta(BimodIndex(baddr, |p.meta|))
  }

  function TwolevRef(p: Bpred, baddr: nat): CounterRef
    requires |p.twolev.shiftregs| > 0 && |p.twolev.l2table| > 0
  {
    var t := p.twolev;
    InTwolev(L2Index(baddr, t.shiftregs[L1Index(baddr, |t.shiftregs|)], t.width, t.xor, |t.l2table|))
  }

  function NoRec(): Rec {
    Rec(false, None, None, None, false, false)
  }

  /** The counters a branch uses: none for jumps; for the combining predictor the meta counter
      says which component goes first. */
  function DirectionRec(p: Bpred, baddr: nat, op: Op): Rec
    requires Ok(p)
  {
    if !Conditional(op) then NoRec()
    else match p.kind
      case TwoBit => NoRec().(pdir1 := Some(BimodRef(p, baddr)))
      case TwoLev => NoRec().(pdir1 := Some(TwolevRef(p, baddr)))
      case Comb =>
        var b, t, m := BimodRef(p, baddr), TwolevRef(p, baddr), MetaRef(p, baddr);
        var useTwolev := Predicts(ValueOf(p, m));
        Rec(false, Some(if useTwolev then t else b), Some(if useTwolev then b else t), Some(m),
            Predicts(ValueOf(p, b)), Predicts(ValueOf(p, t)))
  }

  function SetOf(p: Bpred, baddr: nat): (s: nat)
    requires |p.btb| > 0
    ensures s < |p.btb|
  {
    And(Shr(baddr, 2), |p.btb| - 1)
  }

  /** The stored target of a branch, if it has an entry. */
  function Stored(p: Bpred, baddr: nat): Option<nat>
    requires |p.btb| > 0
  {
    var row := p.btb[SetOf(p, baddr)];
    var i := Btb.Find(row, baddr);
    if i >= 0 then Some(row[i].target) else None
  }

  /** 1 stands for a taken branch of unknown target, 0 for not taken. */
  function PredictedTarget(p: Bpred, baddr: nat, op: Op, rec: Rec): nat
    requires |p.btb| > 0
  {
    var stored := Stored(p, baddr);
    if !Conditional(op) then (if stored.Some? then stored.value else 1)
    else if rec.pdir1.Some? && Predicts(ValueOf(p, rec.pdir1.value)) then (if stored.Some? then stored.value else 1)
    else 0
  }

  /** `recover` is the top of stack before the lookup, for recovery. */
  datatype Found = Found(p: Bpred, target: nat, rec: Rec, recover: nat)

  /** The return-address stack's part of a lookup: a return pops, a call pushes. */
  function StackPart(p: Bpred, baddr: nat, op: Op): Bpred
    requires p.ras.Some? ==> RS.Ok(p.ras.value)
  {
    if p.ras.None? then p
    else if op.ret then p.(ras := Some(RS.Pop(p.ras.value)), stats := p.stats.(pops := p.stats.pops + 1))
    else if op.call then p.(ras := Some(RS.Push(p.ras.value, baddr)), stats := p.stats.(pushes := p.stats.pushes + 1))
    else p
  }

  function CountLookup(p: Bpred): Bpred {
    p.(stats := p.stats.(lookups := p.stats.lookups + 1))
  }

  function Lookup(p: Bpred, baddr: nat, op: Op): Found
    requires Ok(p)
  {
    if !op.ctrl then Found(p, 0, NoRec(), 0)
    else
      var rec := DirectionRec(p, baddr, op);
      var q := StackPart(CountLookup(p), baddr, op);
      var tos := if p.ras.Some? then p.ras.value.tos else 0;
      if op.ret && p.ras.Some? then Found(q, RS.Top(p.ras.value), rec.(ras := true), tos)
      else Found(q, PredictedTarget(p, baddr, op, rec), rec, tos)
  }

  // ----- update

  function BumpRef(p: Bpred, r: Option<CounterRef>, up: bool): Bpred {
    match r
    case None => p
    case Some(InBimod(i)) =>
      if i < |p.bimod| then p.(bimod := p.bimod[i := Bump(p.bimod[i], up)]) else p
    case Some(InTwolev(i)) =>
      var t := p.twolev.l2table;
      if i < |t| then p.(twolev := p.twolev.(l2table := t[i := Bump(t[i], up)])) else p
    case Some(InMeta(i)) =>
      if i < |p.meta| then p.(meta := p.meta[i := Bump(p.meta[i], up)]) else p
  }

  function CountUpdate(s: Stats, taken: bool, predTaken: bool, correct: bool, op: Op, rec: Rec): Stats {
    var one := if correct then 1 else 0;
    var s1 := s.(addrHits := s.addrHits + one,
                 dirHits := s.dirHits + (if predTaken == taken then 1 else 0),
                 misses := s.misses + (if predTaken == taken then 0 else 1),
                 usedRas := s.usedRas + (if rec.ras then 1 else 0),
                 rasHits := s.rasHits + (if rec.ras then one else 0));
    if !op.indir then s1
    else s1.(jrSeen := s.jrSeen + 1, jrHits := s.jrHits + one,
             jrNonRasSeen := s.jrNonRasSeen + (if rec.ras then 0 else 1),
             jrNonRasHits := s.jrNonRasHits + (if rec.ras then 0 else one))
  }

  function UpdateHistory(p: Bpred, baddr: nat, taken: bool, op: Op): Bpred {
    if Conditional(op) && !p.kind.TwoBit? && |p.twolev.shiftregs| > 0
    then p.(twolev := Record(p.twolev, Outcome(baddr, taken))) else p
  }

  function UpdateTarget(p: Bpred, baddr: nat, btarget: nat, taken: bool, correct: bool): Bpred
    requires |p.btb| > 0 && forall s :: 0 <= s < |p.btb| ==> |p.btb[s]| > 0
  {
    if !taken then p
    else
      var s := SetOf(p, baddr);
      p.(btb := p.btb[s := Btb.Taken(p.btb[s], baddr, btarget, correct)])
  }

  /** The meta counter moves towards the component that was right, if they differed. */
  function UpdateMeta(p: Bpred, taken: bool, rec: Rec): Bpred {
    if rec.pmeta.Some? && rec.bimodSays != rec.twolevSays
    then BumpRef(p, rec.pmeta, rec.twolevSays == taken) else p
  }

  function UpdateCounters(p: Bpred, taken: bool, rec: Rec): Bpred {
    UpdateMeta(BumpRef(BumpRef(p, rec.pdir1, taken), rec.pdir2, taken), taken, rec)
  }

  /** A return that used the stack changes nothing but the counts. */
  function Update(p: Bpred, baddr: nat, btarget: nat, taken: bool, predTaken: bool, correct: bool, op: Op,
                  rec: Rec): Bpred
    requires Ok(p)
  {
    if !op.ctrl then p
    else
      var p1 := p.(stats := CountUpdate(p.stats, taken, predTaken, correct, op, rec));
      if op.indir && rec.ras then p1
      else
        var p2 := UpdateHistory(p1, baddr, taken, op);
        UpdateCounters(UpdateTarget(p2, baddr, btarget, taken, correct), taken, rec)
  }

  // ----- a simulated branch

  /** One executed control instruction: its address and that of the next instruction. */
  datatype Branch = Branch(pc: nat, npc: nat, op: Op)

  predicate WentAway(b: Branch) {
    b.npc != RS.Fallthrough(b.pc)
  }

  /** The predicted next address: a zero prediction means falling through. */
  function Predicted(p: Bpred, b: Branch): nat
    requires Ok(p)
  {
    var t := Lookup(p, b.pc, b.op).target;
    if t == 0 then RS.Fallthrough(b.pc) else t
  }

  /** Lookup, then update with the outcome. */
  function Step(p: Bpred, b: Branch): Bpred
    requires Ok(p)
  {
    var f, pred := Lookup(p, b.pc, b.op), Predicted(p, b);
    LookupKeepsShape(p, b.pc, b.op);
    Update(f.p, b.pc, b.npc, WentAway(b), pred != RS.Fallthrough(b.pc), pred == b.npc, b.op, f.rec)
  }

  lemma LookupKeepsShape(p: Bpred, baddr: nat, op: Op)
    requires Ok(p)
    ensures var q := Lookup(p, baddr, op).p;
      && Ok(q) && q.(ras := p.ras, stats := p.stats) == p && (q.ras.Some? <==> p.ras.Some?)
      && (p.ras.Some? ==> |q.ras.value.slots| == |p.ras.value.slots|)
  {
  }

  lemma CountersOnly(p: Bpred, taken: bool, rec: Rec)
    ensures var q := UpdateCounters(p, taken, rec);
      && q.(bimod := p.bimod, meta := p.meta, twolev := p.twolev) == p
      && |q.bimod| == |p.bimod| && |q.meta| == |p.meta| && |q.twolev.l2table| == |p.twolev.l2table|
      && q.twolev.(l2table := p.twolev.l2table) == p.twolev
  {
    var p1 := BumpRef(p, rec.pdir1, taken);
    BumpOnly(p, rec.pdir1, taken);
    BumpOnly(p1, rec.pdir2, taken);
    BumpOnly(BumpRef(p1, rec.pdir2, taken), rec.pmeta, rec.twolevSays == taken);
  }

  lemma BumpOnly(p: Bpred, r: Option<CounterRef>, up: bool)
    ensures var q := BumpRef(p, r, up);
      && q.(bimod := p.bimod, meta := p.meta, twolev := p.twolev) == p
      && |q.bimod| == |p.bimod| && |q.meta| == |p.meta| && |q.twolev.l2table| == |p.twolev.l2table|
      && q.twolev.(l2table := p.twolev.l2table) == p.twolev
  {
  }

  // ----- what one step does to each part

  /** The branch is predicted from the return-address stack. */
  predicate UsesStack(p: Bpred, b: Branch) {
    b.op.ret && p.ras.Some?
  }

  /** It then leaves the tables alone, if it counts as an indirect jump. */
  predicate Settled(p: Bpred, b: Branch) {
    b.op.Settled(p.ras.Some?)
  }

  predicate Correct(p: Bpred, b: Branch)
    requires Ok(p)
  {
    Predicted(p, b) == b.npc
  }

  function NewRow(p: Bpred, b: Branch, s: nat): Btb.Row
    requires Ok(p) && s < |p.btb|
  {
    if b.op.ctrl && WentAway(b) && !Settled(p, b) && s == SetOf(p, b.pc)
    then Btb.Taken(p.btb[s], b.pc, b.npc, Correct(p, b)) else p.btb[s]
  }

  function NewTwolev(p: Bpred, b: Branch): TwoLevel
    requires Ok(p)
  {
    if b.op.ctrl && Conditional(b.op) && !Settled(p, b) && !p.kind.TwoBit?
    then Record(p.twolev, Outcome(b.pc, WentAway(b))) else p.twolev
  }

  function NewRas(p: Bpred, b: Branch): Option<RS.Stack>
    requires Ok(p)
  {
    if p.ras.None? || !b.op.ctrl then p.ras
    else if b.op.ret then Some(RS.Do(p.ras.value, RS.Return))
    else if b.op.call then Some(RS.Do(p.ras.value, RS.Call(b.pc)))
    else p.ras
  }

  lemma UpdateParts(p: Bpred, baddr: nat, btarget: nat, taken: bool, predTaken: bool, correct: bool, op: Op, rec: Rec)
    requires Ok(p) && op.ctrl && !(op.indir && rec.ras)
    ensures var q := Update(p, baddr, btarget, taken, predTaken, correct, op, rec);
      && q.kind == p.kind && q.ras == p.ras
      && q.btb == UpdateTarget(p, baddr, btarget, taken, correct).btb
      && q.twolev.(l2table := []) == UpdateHistory(p, baddr, taken, op).twolev.(l2table := [])
      && q.stats == CountUpdate(p.stats, taken, predTaken, correct, op, rec)
      && |q.bimod| == |p.bimod| && |q.meta| == |p.meta| && |q.twolev.l2table| == |p.twolev.l2table|
  {
    var p1 := p.(stats := CountUpdate(p.stats, taken, predTaken, correct, op, rec));
    CountersOnly(UpdateTarget(UpdateHistory(p1, baddr, taken, op), baddr, btarget, taken, correct), taken, rec);
  }

  /** q is what a branch makes of p, but for the contents of the counters. */
  ghost predicate Stepped(p: Bpred, q: Bpred, b: Branch)
    requires Ok(p)
  {
    && q.kind == p.kind && q.ras == NewRas(p, b) && |q.btb| == |p.btb|
    && (forall s :: 0 <= s < |p.btb| ==> q.btb[s] == NewRow(p, b, s))
    && q.twolev.(l2table := []) == NewTwolev(p, b).(l2table := [])
    && |q.bimod| == |p.bimod| && |q.meta| == |p.meta| && |q.twolev.l2table| == |p.twolev.l2table|
  }

  lemma StepParts(p: Bpred, b: Branch)
    requires Ok(p)
    ensures Stepped(p, Step(p, b), b)
  {
    if b.op.ctrl && !Settled(p, b) {
      StepTables(p, b);
    } else if b.op.ctrl {
      StepReturn(p, b);
    }
  }

  lemma StepReturn(p: Bpred, b: Branch)
    requires Ok(p) && b.op.ctrl && Settled(p, b)
    ensures Stepped(p, Step(p, b), b)
  {
  }

  lemma HistoryAfter(p: Bpred, q: Bpred, b: Branch)
    requires Ok(p) && q.twolev == p.twolev && q.kind == p.kind && b.op.ctrl && !Settled(p, b)
    ensures UpdateHistory(q, b.pc, WentAway(b), b.op).twolev == NewTwolev(p, b)
  {
  }

  lemma RowsAfter(p: Bpred, q: Bpred, b: Branch, s: nat)
    requires Ok(p) && q.btb == p.btb && b.op.ctrl && !Settled(p, b) && s < |p.btb|
    ensures |UpdateTarget(q, b.pc, b.npc, WentAway(b), Correct(p, b)).btb| == |p.btb|
    ensures UpdateTarget(q, b.pc, b.npc, WentAway(b), Correct(p, b)).btb[s] == NewRow(p, b, s)
  {
  }

  lemma UpdateStepped(p: Bpred, q: Bpred, b: Branch, predTaken: bool, rec: Rec)
    requires Ok(p) && Ok(q) && b.op.ctrl && !Settled(p, b) && !(b.op.indir && rec.ras)
    requires q.kind == p.kind && q.btb == p.btb && q.twolev == p.twolev && q.ras == NewRas(p, b)
    requires |q.bimod| == |p.bimod| && |q.meta| == |p.meta|
    ensures Stepped(p, Update(q, b.pc, b.npc, WentAway(b), predTaken, Correct(p, b), b.op, rec), b)
  {
    UpdateParts(q, b.pc, b.npc, WentAway(b), predTaken, Correct(p, b), b.op, rec);
    HistoryAfter(p, q, b);
    forall s | 0 <= s < |p.btb|
      ensures UpdateTarget(q, b.pc, b.npc, WentAway(b), Correct(p, b)).btb[s] == NewRow(p, b, s)
    {
      RowsAfter(p, q, b, s);
    }
  }

  lemma StepTables(p: Bpred, b: Branch)
    requires Ok(p) && b.op.ctrl && !Settled(p, b)
    ensures Stepped(p, Step(p, b), b)
  {
    var f := Lookup(p, b.pc, b.op);
    LookupKeepsShape(p, b.pc, b.op);
    UpdateStepped(p, f.p, b, Predicted(p, b) != RS.Fallthrough(b.pc), f.rec);
  }
}
