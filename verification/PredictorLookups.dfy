/** What a predictor made from a configuration answers after any run, read off the branches
    executed: which counter a conditional branch finds and what that counter has seen, which
    component is believed, and which address is predicted. */
module PredictorLookups {
  import opened Bits
  import opened LruStack
  import opened Direction
  import opened Predictor
  import opened PredictorRuns
  import opened PredictorMisses
  import RS = ReturnStack
  import Btb

  // ----- the answer, by the branches executed

  predicate GoesAway(b: Branch) {
    b.npc != (b.pc + 4) % WORD64
  }

  /** Neither a jump, nor a return that the stack settles. */
  predicate Counted(c: Config, b: Branch) {
    b.op.ctrl && !b.op.uncond && !(b.op.ret && b.op.indir && c.rasSize > 0)
  }

  /** Outcomes of the counted branches that share history register r, oldest first. */
  function Register(c: Config, bs: seq<Branch>, r: nat): seq<bool>
    requires c.l1size > 0
  {
    if bs == [] then []
    else
      var b, rest := bs[|bs| - 1], Register(c, bs[..|bs| - 1], r);
      if Counted(c, b) && (b.pc / 4) % c.l1size == r then rest + [GoesAway(b)] else rest
  }

  /** The last outcomes of the branches that share a register with this address. */
  function History(c: Config, bs: seq<Branch>, pc: nat): nat
    requires c.l1size > 0
  {
    Binary(Last(Register(c, bs, (pc / 4) % c.l1size), c.width))
  }

  function Size(c: Config, two: bool): nat {
    if two then c.l2size else c.bimodSize
  }

  /** Where the counter of an address is: below the address bits go those of the history. */
  function Place(c: Config, two: bool, bs: seq<Branch>, pc: nat): nat
    requires c.l1size > 0 || !two
    requires Size(c, two) > 0
  {
    if !two then Xor(pc / 0x8_0000, pc / 4) % c.bimodSize
    else
      var h := History(c, bs, pc);
      ((pc / 4) * Pow2(c.width) + if c.xor then Xor(h, pc / 4) % Pow2(c.width) else h) % c.l2size
  }

  predicate Has(c: Config, two: bool) {
    Create(c).Ready? && if two then !c.kind.TwoBit? else !c.kind.TwoLev?
  }

  lemma HasSizes(c: Config, two: bool)
    requires Has(c, two)
    ensures Size(c, two) > 0 && (two ==> c.l1size > 0)
  {
  }

  /** Outcomes of the counted branches that found counter j. */
  function Seen(c: Config, two: bool, bs: seq<Branch>, j: nat): seq<bool>
    requires Has(c, two)
  {
    HasSizes(c, two);
    if bs == [] then []
    else
      var b, before := bs[|bs| - 1], bs[..|bs| - 1];
      if Counted(c, b) && Place(c, two, before, b.pc) == j then Seen(c, two, before, j) + [GoesAway(b)]
      else Seen(c, two, before, j)
  }

  /** A counter from 0 to 3 that starts at 1 or 2, by its place, goes up for every true and down
      for every false, and stays at its ends. */
  function Count(j: nat, ways: seq<bool>): (n: nat)
    ensures n <= 3
  {
    if ways == [] then (if j % 2 == 0 then 1 else 2)
    else
      var n := Count(j, ways[..|ways| - 1]);
      if ways[|ways| - 1] then (if n == 3 then 3 else n + 1) else (if n == 0 then 0 else n - 1)
  }

  /** What a component says of an address after a run. */
  predicate Votes(c: Config, two: bool, bs: seq<Branch>, pc: nat)
    requires Has(c, two)
  {
    HasSizes(c, two);
    var j := Place(c, two, bs, pc);
    Count(j, Seen(c, two, bs, j)) >= 2
  }

  function MetaPlace(c: Config, pc: nat): nat
    requires c.metaSize > 0
  {
    Xor(pc / 0x8_0000, pc / 4) % c.metaSize
  }

  /** Whether the two-level component was right, for the counted branches that found meta
      counter j and on which the components differed. */
  function Compared(c: Config, bs: seq<Branch>, j: nat): seq<bool>
    requires Create(c).Ready? && c.kind.Comb?
  {
    if bs == [] then []
    else
      var b, before := bs[|bs| - 1], bs[..|bs| - 1];
      var bimod, twolev := Votes(c, false, before, b.pc), Votes(c, true, before, b.pc);
      if Counted(c, b) && MetaPlace(c, b.pc) == j && bimod != twolev
      then Compared(c, before, j) + [twolev == GoesAway(b)] else Compared(c, before, j)
  }

  /** The component believed: with both, the two-level one if the meta counter is at least 2. */
  predicate Believed(c: Config, bs: seq<Branch>, pc: nat)
    requires Create(c).Ready?
  {
    c.kind.TwoLev? || (c.kind.Comb? && var j := MetaPlace(c, pc); Count(j, Compared(c, bs, j)) >= 2)
  }

  predicate Taken(c: Config, bs: seq<Branch>, pc: nat)
    requires Create(c).Ready?
  {
    Votes(c, Believed(c, bs, pc), bs, pc)
  }

  /** The branches that went to set s of the branch target buffer: taken, and not settled by the
      stack. */
  function Entered(c: Config, bs: seq<Branch>, s: nat): seq<Branch>
    requires c.sets > 0
  {
    if bs == [] then []
    else
      var b, rest := bs[|bs| - 1], Entered(c, bs[..|bs| - 1], s);
      if b.op.ctrl && GoesAway(b) && !(b.op.ret && b.op.indir && c.rasSize > 0) && (b.pc / 4) % c.sets == s
      then rest + [b] else rest
  }

  function Addresses(bs: seq<Branch>): (r: seq<nat>)
    ensures |r| == |bs| && forall k :: 0 <= k < |bs| ==> r[k] == bs[k].pc
  {
    seq(|bs|, k requires 0 <= k < |bs| => bs[k].pc)
  }

  /** Where the branch at an address last went. */
  function WentTo(bs: seq<Branch>, pc: nat): nat {
    if bs == [] then 0 else if bs[|bs| - 1].pc == pc then bs[|bs| - 1].npc else WentTo(bs[..|bs| - 1], pc)
  }

  /** The target of a taken branch: where it last went, if it is among the most recently taken
      branches that its set has room for, and 1 otherwise. */
  function Target(c: Config, bs: seq<Branch>, pc: nat): nat
    requires c.sets > 0
  {
    var es := Entered(c, bs, (pc / 4) % c.sets);
    if pc in Take(Recent(Addresses(es)), c.assoc) then WentTo(es, pc) else 1
  }

  /** The answer of a lookup: for a return with a stack, the address after the call that last
      entered the level of the stack's top. */
  function Answer(c: Config, bs: seq<Branch>, pc: nat, op: Op): nat
    requires Create(c).Ready?
  {
    if !op.ctrl then 0
    else if op.ret && c.rasSize > 0 then
      var es := Events(bs);
      var i := RS.Writer(es, RS.Level(es), c.rasSize);
      if i >= 0 then (es[i].addr + 4) % WORD64 else 0
    else if op.uncond || Taken(c, bs, pc) then Target(c, bs, pc)
    else 0
  }

  // ----- the counters

  lemma Quotients(pc: nat)
    ensures Shr(pc, 2) == pc / 4 && BranchBits(pc) == pc / 4 && Shr(pc, 19) == pc / 0x8_0000
  {
    assert Pow2(2) == 4;
    assert Pow2(19) == 0x8_0000 by { assert Pow2(9) == 512; Pow2Add(9, 10); }
  }

  lemma {:induction false} RegisterIsMapped(c: Config, bs: seq<Branch>, r: nat)
    requires c.l1size > 0
    ensures Register(c, bs, r) == Mapped(Outcomes(bs, c.rasSize > 0), r, c.l1size)
  {
    if bs != [] {
      RegisterIsMapped(c, bs[..|bs| - 1], r);
      Quotients(bs[|bs| - 1].pc);
    }
  }

  lemma HistoryAt(c: Config, bs: seq<Branch>, pc: nat)
    requires Has(c, true)
    ensures Predictor.Ok(Create(c).p) && c.l1size > 0
    ensures var d := Run(Create(c).p, bs).twolev;
      && |d.shiftregs| == c.l1size && L1Index(pc, c.l1size) < c.l1size
      && d.shiftregs[L1Index(pc, c.l1size)] == History(c, bs, pc) < Pow2(c.width)
  {
    CreateShape(c);
    L1IndexMeaning(pc, c.l1size);
    hide Run, Predictor.Ok, Pow2, And, Shr, L1Index;
    Quotients(pc);
    var r := (pc / 4) % c.l1size;
    HistoryOfRun(c, bs, r);
    RegisterIsMapped(c, bs, r);
    BinaryLast(Register(c, bs, r), c.width);
  }

  lemma PlaceByHistory(c: Config, h: nat, pc: nat)
    requires Accepted(c.l1size, c.l2size, c.width) && h < Pow2(c.width)
    ensures L2Index(pc, h, c.width, c.xor, c.l2size)
         == ((pc / 4) * Pow2(c.width) + if c.xor then Xor(h, pc / 4) % Pow2(c.width) else h) % c.l2size
  {
    Quotients(pc);
    L2IndexMeaning(pc, h, c.width, c.xor, c.l1size, c.l2size);
    hide Pow2, And, Or, Xor, Shr, L2Index, BranchBits;
  }

  lemma TwolevSizes(c: Config)
    requires Has(c, true)
    ensures Accepted(c.l1size, c.l2size, c.width) && c.l1size > 0 && c.l2size > 0
  {
  }

  lemma TwolevPlace(c: Config, bs: seq<Branch>, pc: nat)
    requires Has(c, true)
    ensures c.l1size > 0 && c.l2size > 0
    ensures History(c, bs, pc) < Pow2(c.width)
    ensures L2Index(pc, History(c, bs, pc), c.width, c.xor, c.l2size) == Place(c, true, bs, pc)
  {
    TwolevSizes(c);
    hide Pow2, And, Or, Xor, Shr, L2Index, Create, Accepted, Register, Binary;
    BinaryLast(Register(c, bs, (pc / 4) % c.l1size), c.width);
    PlaceByHistory(c, History(c, bs, pc), pc);
  }

  lemma TwolevKept(c: Config, bs: seq<Branch>)
    requires Has(c, true)
    ensures Predictor.Ok(Create(c).p)
    ensures var d := Run(Create(c).p, bs).twolev; d.width == c.width && d.xor == c.xor
  {
    CreateShape(c);
    var p := Create(c).p;
    RecordsOfRun(p, bs);
    RecordAllKeeps(p.twolev, Outcomes(bs, p.ras.Some?));
    var d, e := Run(p, bs).twolev, RecordAll(p.twolev, Outcomes(bs, p.ras.Some?));
    assert d.(l2table := []).width == e.(l2table := []).width && d.(l2table := []).xor == e.(l2table := []).xor;
  }

  lemma {:induction false} RecordAllKeeps(d: TwoLevel, os: seq<Outcome>)
    requires |d.shiftregs| > 0
    ensures RecordAll(d, os).width == d.width && RecordAll(d, os).xor == d.xor
  {
    if os != [] { RecordAllKeeps(d, os[..|os| - 1]); }
  }

  /** In every run the counter an address finds is at its place. */
  lemma IndexIsPlace(c: Config, two: bool, bs: seq<Branch>, pc: nat)
    requires Has(c, two)
    ensures Predictor.Ok(Create(c).p) && HasPart(Run(Create(c).p, bs), two) && Size(c, two) > 0
    ensures |Table(Run(Create(c).p, bs), two)| == Size(c, two) && (two ==> c.l1size > 0)
    ensures IndexOf(Run(Create(c).p, bs), two, pc) == Place(c, two, bs, pc)
  {
    CreateShape(c);
    RunShape(Create(c).p, bs);
    TableOfRun(Create(c).p, two, bs);
    Quotients(pc);
    if two {
      HistoryAt(c, bs, pc);
      TwolevPlace(c, bs, pc);
      TwolevKept(c, bs);
    } else {
      BimodIndexMeaning(pc, c.bimodSize);
    }
  }

  lemma CountedTrains(c: Config, b: Branch)
    ensures Counted(c, b) == Trains(b, c.rasSize > 0) && GoesAway(b) == WentAway(b)
  {
  }

  lemma FreshCounter(c: Config, two: bool, j: nat)
    requires Has(c, two) && j < Size(c, two)
    ensures |Table(Create(c).p, two)| == Size(c, two) && Table(Create(c).p, two)[j] == Count(j, [])
  {
    hide IntsHold, SizeOk, Accepted, And;
  }

  /** In every run a counter has counted what its branches did. */
  lemma {:induction false} CounterOfRun(c: Config, two: bool, bs: seq<Branch>, j: nat)
    requires Has(c, two) && j < Size(c, two)
    ensures Predictor.Ok(Create(c).p) && |Table(Run(Create(c).p, bs), two)| == Size(c, two)
    ensures Table(Run(Create(c).p, bs), two)[j] == Count(j, Seen(c, two, bs, j))
  {
    hide Predictor.Ok, Create, Place, Step, Table, Count, GoesAway, Trains, Counted, CounterUses;
    IndexIsPlace(c, two, bs, 0);
    if bs == [] {
      FreshCounter(c, two, j);
    } else {
      var b, before := bs[|bs| - 1], bs[..|bs| - 1];
      var q := Run(Create(c).p, before);
      CounterOfRun(c, two, before, j);
      IndexIsPlace(c, two, before, b.pc);
      CreatedShape(c, before);
      CountedTrains(c, b);
      StepTrains(q, b, two);
      CountMore(j, Seen(c, two, before, j), GoesAway(b));
    }
  }

  lemma CreatedShape(c: Config, bs: seq<Branch>)
    requires Create(c).Ready?
    ensures Predictor.Ok(Create(c).p) && Create(c).p.kind == c.kind && (Create(c).p.ras.Some? <==> c.rasSize > 0)
    ensures var q := Run(Create(c).p, bs); q.kind == c.kind && (q.ras.Some? <==> c.rasSize > 0) && |q.btb| == c.sets
  {
    CreateShape(c);
    RunShape(Create(c).p, bs);
    hide Predictor.Ok, AcceptedConfig, IntsHold, Run;
  }

  lemma CountMore(j: nat, ways: seq<bool>, way: bool)
    ensures Count(j, ways + [way]) == Bump(Count(j, ways), way)
  {
    assert (ways + [way])[..|ways|] == ways;
  }

  lemma SaysVotes(c: Config, two: bool, bs: seq<Branch>, pc: nat)
    requires Has(c, two)
    ensures Predictor.Ok(Create(c).p) && HasPart(Run(Create(c).p, bs), two)
    ensures Says(Run(Create(c).p, bs), two, pc) == Votes(c, two, bs, pc)
  {
    IndexIsPlace(c, two, bs, pc);
    CounterOfRun(c, two, bs, Place(c, two, bs, pc));
  }

  lemma MetaIndexIsPlace(c: Config, bs: seq<Branch>, pc: nat)
    requires Create(c).Ready? && c.kind.Comb?
    ensures Predictor.Ok(Create(c).p) && c.metaSize > 0
    ensures var q := Run(Create(c).p, bs);
      q.kind.Comb? && |q.meta| == c.metaSize && MetaIndex(q, pc) == MetaPlace(c, pc)
  {
    CreateShape(c);
    RunShape(Create(c).p, bs);
    MetaSize(c, bs);
    Quotients(pc);
    BimodIndexMeaning(pc, c.metaSize);
  }

  lemma {:induction false} MetaSize(c: Config, bs: seq<Branch>)
    requires Create(c).Ready?
    ensures Predictor.Ok(Create(c).p) && |Run(Create(c).p, bs).meta| == if c.kind.Comb? then c.metaSize else 0
  {
    CreateShape(c);
    if bs != [] {
      MetaSize(c, bs[..|bs| - 1]);
      StepParts(Run(Create(c).p, bs[..|bs| - 1]), bs[|bs| - 1]);
    }
  }

  lemma FreshCount(size: nat, j: nat)
    requires j < size
    ensures FreshTable(size)[j] == Count(j, [])
  {
  }

  /** In every run a meta counter has counted which component was right where they differed. */
  lemma {:induction false} MetaOfRun(c: Config, bs: seq<Branch>, j: nat)
    requires Create(c).Ready? && c.kind.Comb? && j < c.metaSize
    ensures Predictor.Ok(Create(c).p) && |Run(Create(c).p, bs).meta| == c.metaSize
    ensures Run(Create(c).p, bs).meta[j] == Count(j, Compared(c, bs, j))
  {
    hide Predictor.Ok, AcceptedConfig, Place, Step, Count, GoesAway, Trains, Counted, Votes, Says;
    MetaIndexIsPlace(c, bs, 0);
    if bs == [] {
      assert Count(j, []) == FreshTable(c.metaSize)[j] by { hide *; FreshCount(c.metaSize, j); }
    } else {
      var b, before := bs[|bs| - 1], bs[..|bs| - 1];
      var q := Run(Create(c).p, before);
      MetaOfRun(c, before, j);
      MetaIndexIsPlace(c, before, b.pc);
      CreatedShape(c, before);
      CountedTrains(c, b);
      StepTrains(q, b, true);
      SaysVotes(c, false, before, b.pc);
      SaysVotes(c, true, before, b.pc);
      CountMore(j, Compared(c, before, j), Votes(c, true, before, b.pc) == GoesAway(b));
    }
  }

  lemma ChosenBelieved(c: Config, bs: seq<Branch>, pc: nat)
    requires Create(c).Ready?
    ensures Predictor.Ok(Create(c).p)
    ensures var q := Run(Create(c).p, bs);
      Chosen(q, pc) == Believed(c, bs, pc) && Has(c, Chosen(q, pc)) && Says(q, Chosen(q, pc), pc) == Taken(c, bs, pc)
  {
    CreateShape(c);
    RunShape(Create(c).p, bs);
    if c.kind.Comb? {
      MetaIndexIsPlace(c, bs, pc);
      MetaOfRun(c, bs, MetaPlace(c, pc));
    }
    SaysVotes(c, Believed(c, bs, pc), bs, pc);
  }

  // ----- the target

  lemma EntersIsRecorded(c: Config, b: Branch, s: nat)
    requires Create(c).Ready?
    ensures c.sets > 0 && Recorded(b, s, c.sets, c.rasSize > 0) ==
      (b.op.ctrl && GoesAway(b) && !(b.op.ret && b.op.indir && c.rasSize > 0) && (b.pc / 4) % c.sets == s)
  {
    SetIsRemainder(c, b.pc);
    hide And, Shr;
  }

  lemma {:induction false} EnteredAreRecorded(c: Config, bs: seq<Branch>, s: nat)
    requires Create(c).Ready?
    ensures c.sets > 0 && Entered(c, bs, s) == RecordedOf(bs, s, c.sets, c.rasSize > 0)
  {
    hide Recorded, GoesAway, Create;
    EntersIsRecorded(c, Branch(0, 0, Op(false, false, false, false, false)), s);
    if bs != [] {
      EnteredAreRecorded(c, bs[..|bs| - 1], s);
      EntersIsRecorded(c, bs[|bs| - 1], s);
    }
  }

  lemma EnteredAreUses(c: Config, bs: seq<Branch>, s: nat)
    requires Create(c).Ready?
    ensures Predictor.Ok(Create(c).p) && c.sets > 0
    ensures var us, es := Uses(Create(c).p, bs, s), Entered(c, bs, s);
      |us| == |es| && forall k :: 0 <= k < |us| ==> us[k].baddr == es[k].pc && us[k].target == es[k].npc
  {
    CreateShape(c);
    UsesAreRecorded(Create(c).p, bs, s);
    EnteredAreRecorded(c, bs, s);
  }

  lemma SetIsRemainder(c: Config, pc: nat)
    requires Create(c).Ready?
    ensures c.sets > 0 && And(Shr(pc, 2), c.sets - 1) == (pc / 4) % c.sets
  {
    Quotients(pc);
    L1IndexMeaning(pc, c.sets);
  }

  lemma {:induction false} LastTargets(us: seq<Btb.Use>, es: seq<Branch>, pc: nat)
    requires |us| == |es| && forall k :: 0 <= k < |us| ==> us[k].baddr == es[k].pc && us[k].target == es[k].npc
    ensures Btb.LastTarget(us, pc) == WentTo(es, pc)
  {
    if us != [] { LastTargets(us[..|us| - 1], es[..|es| - 1], pc); }
  }

  lemma RowTarget(row: Btb.Row, bs: seq<Key>, us: seq<Btb.Use>, pc: nat)
    requires Btb.Lists(row, bs, us) && pc != 0
    ensures Btb.Find(row, pc) >= 0 <==> pc in bs
    ensures pc in bs ==> row[Btb.Find(row, pc)].target == Btb.LastTarget(us, pc)
  {
    if pc in bs {
      var k :| 0 <= k < |bs| && bs[k] == pc;
      assert row[k].addr == pc;
    }
  }

  /** In every run a set holds the targets of the branches that entered it. */
  lemma SetTargets(c: Config, bs: seq<Branch>, s: nat, pc: nat)
    requires Create(c).Ready? && s < c.sets && (forall k :: 0 <= k < |bs| ==> bs[k].pc != 0) && ReturnsIndirect(bs)
    requires pc != 0
    ensures Predictor.Ok(Create(c).p) && |Run(Create(c).p, bs).btb| == c.sets
    ensures var row, es := Run(Create(c).p, bs).btb[s], Entered(c, bs, s);
      var i := Btb.Find(row, pc);
      && (i >= 0 <==> pc in Take(Recent(Addresses(es)), c.assoc))
      && (i >= 0 ==> row[i].target == WentTo(es, pc))
  {
    CreateShape(c);
    hide *;
    var us, es := Uses(Create(c).p, bs, s), Entered(c, bs, s);
    EnteredAreUses(c, bs, s);
    LastTargets(us, es, pc);
    assert Btb.Branches(us) == Addresses(es);
    BtbOfRun(c, bs, s);
    RowTarget(Run(Create(c).p, bs).btb[s], Take(Recent(Addresses(es)), c.assoc), us, pc);
  }

  /** The stored target of an address is the one it should be. */
  lemma StoredIsTarget(c: Config, bs: seq<Branch>, pc: nat)
    requires Create(c).Ready? && pc != 0 && (forall k :: 0 <= k < |bs| ==> bs[k].pc != 0) && ReturnsIndirect(bs)
    ensures Predictor.Ok(Create(c).p) && c.sets > 0
    ensures Target(c, bs, pc) == match Stored(Run(Create(c).p, bs), pc) case Some(t) => t case None => 1
  {
    hide Predictor.Ok, Run, Entered, Recent, Take, Create, WentTo, And, Shr, ReturnsIndirect;
    SetIsRemainder(c, pc);
    SetTargets(c, bs, (pc / 4) % c.sets, pc);
  }

  // ----- the stack

  lemma FreshTop(r: RS.Stack, es: seq<RS.Event>)
    requires RS.Ok(r) && forall k :: 0 <= k < |r.slots| ==> r.slots[k] == 0
    ensures var i := RS.Writer(es, RS.Level(es), |r.slots|);
      RS.Top(RS.Run(r, es)) == if i >= 0 then (es[i].addr + 4) % WORD64 else 0
    ensures RS.Run(r, es).tos == (r.tos + RS.Level(es)) % |r.slots|
  {
    RS.SlotContents(r, es, RS.Level(es));
    hide RS.Run, RS.Writer, RS.Level;
  }

  lemma FreshStack(c: Config)
    requires Create(c).Ready? && c.rasSize > 0
    ensures var ras := Create(c).p.ras;
      ras.Some? && RS.Ok(ras.value) && |ras.value.slots| == c.rasSize && ras.value.tos == c.rasSize - 1
      && forall k :: 0 <= k < c.rasSize ==> ras.value.slots[k] == 0
  {
    hide IntsHold, SizeOk;
  }

  /** The top of the stack is the address after the call that last entered its level. */
  lemma TopOfRun(c: Config, bs: seq<Branch>)
    requires Create(c).Ready? && c.rasSize > 0
    ensures Predictor.Ok(Create(c).p)
    ensures var ras, es := Run(Create(c).p, bs).ras, Events(bs);
      var i := RS.Writer(es, RS.Level(es), c.rasSize);
      && ras.Some? && RS.Ok(ras.value) && ras.value.tos == (c.rasSize - 1 + RS.Level(es)) % c.rasSize
      && RS.Top(ras.value) == if i >= 0 then (es[i].addr + 4) % WORD64 else 0
  {
    hide *;
    CreateShape(c);
    FreshStack(c);
    StackOfRun(Create(c).p, bs);
    FreshTop(Create(c).p.ras.value, Events(bs));
  }

  // ----- main results

  lemma AnswerParts(q: Bpred, pc: nat, op: Op)
    requires Predictor.Ok(q) && op.ctrl
    ensures var stored := Stored(q, pc);
      Lookup(q, pc, op).target ==
        if op.ret && q.ras.Some? then RS.Top(q.ras.value)
        else if op.uncond || Says(q, Chosen(q, pc), pc) then (if stored.Some? then stored.value else 1)
        else 0
  {
  }

  /** Main result: after every run from creation, a lookup answers what the branches executed
      say: the counter at the place of the address and its history, of the component that the
      meta counter believes, decides a conditional branch. */
  lemma LookupOfRun(c: Config, bs: seq<Branch>, pc: nat, op: Op)
    requires Create(c).Ready? && pc != 0 && (forall k :: 0 <= k < |bs| ==> bs[k].pc != 0) && ReturnsIndirect(bs)
    ensures Predictor.Ok(Create(c).p) && Lookup(Run(Create(c).p, bs), pc, op).target == Answer(c, bs, pc, op)
  {
    CreateShape(c);
    var q := Run(Create(c).p, bs);
    RunShape(Create(c).p, bs);
    if op.ctrl {
      AnswerParts(q, pc, op);
      if op.ret && c.rasSize > 0 { TopOfRun(c, bs); }
      ChosenBelieved(c, bs, pc);
      StoredIsTarget(c, bs, pc);
    }
  }

  /** What a lookup leaves for recovery is the index of the stack's top before it. */
  lemma RecoverOfRun(c: Config, bs: seq<Branch>, pc: nat, op: Op)
    requires Create(c).Ready?
    ensures Predictor.Ok(Create(c).p)
    ensures Lookup(Run(Create(c).p, bs), pc, op).recover ==
      if op.ctrl && c.rasSize > 0 then (c.rasSize - 1 + RS.Level(Events(bs))) % c.rasSize else 0
  {
    CreatedShape(c, bs);
    if c.rasSize > 0 { TopOfRun(c, bs); }
    hide Run, Create, Predictor.Ok, RS.Level, Events, DirectionRec, StackPart, PredictedTarget;
  }

  // ----- mispredictions

  /** Counted branches whose direction a component would get wrong. */
  function Wrong(c: Config, two: bool, bs: seq<Branch>): nat
    requires Has(c, two)
  {
    if bs == [] then 0
    else
      var b, before := bs[|bs| - 1], bs[..|bs| - 1];
      Wrong(c, two, before) + if Counted(c, b) && Votes(c, two, before, b.pc) != GoesAway(b) then 1 else 0
  }

  /** Counted branches whose direction the component believed gets wrong. */
  function WrongBelieved(c: Config, bs: seq<Branch>): nat
    requires Create(c).Ready?
  {
    if bs == [] then 0
    else
      var b, before := bs[|bs| - 1], bs[..|bs| - 1];
      WrongBelieved(c, before) + if Counted(c, b) && Taken(c, before, b.pc) != GoesAway(b) then 1 else 0
  }

  /** The counters found by the counted branches, and which way these went. */
  function Found(c: Config, two: bool, bs: seq<Branch>): seq<Direction.Use>
    requires Has(c, two)
  {
    HasSizes(c, two);
    if bs == [] then []
    else
      var b, before := bs[|bs| - 1], bs[..|bs| - 1];
      if Counted(c, b) then Found(c, two, before) + [Direction.Use(Place(c, two, before, b.pc), GoesAway(b))]
      else Found(c, two, before)
  }

  lemma {:induction false} FoundAreUses(c: Config, two: bool, bs: seq<Branch>)
    requires Has(c, two)
    ensures Predictor.Ok(Create(c).p) && HasPart(Create(c).p, two)
    ensures Found(c, two, bs) == CounterUses(Create(c).p, two, bs)
    ensures Wrong(c, two, bs) == PartMisses(Create(c).p, two, bs)
  {
    hide Predictor.Ok, Create, Place, GoesAway, Trains, Counted, Says, Votes, Run;
    CreatedShape(c, []);
    IndexIsPlace(c, two, [], 0);
    if bs != [] {
      var b, before := bs[|bs| - 1], bs[..|bs| - 1];
      FoundAreUses(c, two, before);
      IndexIsPlace(c, two, before, b.pc);
      SaysVotes(c, two, before, b.pc);
      CountedTrains(c, b);
    }
  }

  lemma {:induction false} BelievedMisses(c: Config, bs: seq<Branch>)
    requires Create(c).Ready?
    ensures Predictor.Ok(Create(c).p) && WrongBelieved(c, bs) == DirMisses(Create(c).p, bs)
  {
    hide Predictor.Ok, Create, GoesAway, Trains, Counted, Says, Taken, Chosen;
    CreatedShape(c, []);
    if bs != [] {
      var b, before := bs[|bs| - 1], bs[..|bs| - 1];
      BelievedMisses(c, before);
      CreatedShape(c, before);
      ChosenBelieved(c, before, b.pc);
      CountedTrains(c, b);
    }
  }

  /** Main result: in every run from creation, a component whose branches always agree when they
      find the same counter gets no more of them wrong than it has counters, and the combining
      predictor at most twice as many as the better component and one for every second meta
      counter. */
  lemma WrongOfRun(c: Config, bs: seq<Branch>)
    requires Create(c).Ready?
    ensures forall two | Has(c, two) :: Consistent(Found(c, two, bs)) ==> Wrong(c, two, bs) <= Size(c, two)
    ensures c.kind.Comb? ==> WrongBelieved(c, bs) <= 2 * Wrong(c, false, bs) + c.metaSize / 2
    ensures c.kind.Comb? ==> WrongBelieved(c, bs) <= 2 * Wrong(c, true, bs) + (c.metaSize + 1) / 2
  {
    forall two | Has(c, two) && Consistent(Found(c, two, bs)) ensures Wrong(c, two, bs) <= Size(c, two) {
      FoundAreUses(c, two, bs);
      IndexIsPlace(c, two, [], 0);
      MispredictionsOfRun(c, two, bs);
    }
    if c.kind.Comb? {
      FoundAreUses(c, false, bs);
      FoundAreUses(c, true, bs);
      BelievedMisses(c, bs);
      CombinedMisses(c, bs);
    }
  }

  // ----- the statistics

  /** The next address predicted for a branch: an answer of 0 stands for falling through. */
  function Guess(c: Config, bs: seq<Branch>, b: Branch): nat
    requires Create(c).Ready?
  {
    var a := Answer(c, bs, b.pc, b.op);
    if a == 0 then (b.pc + 4) % WORD64 else a
  }

  function One(holds: bool): nat {
    if holds then 1 else 0
  }

  /** What every statistic counts of a branch with the given guess. */
  function Tally(s: Stats, b: Branch, guess: nat, hasRas: bool): Stats {
    var op, stack := b.op, b.op.ret && hasRas;
    var away, right := guess != (b.pc + 4) % WORD64, guess == b.npc;
    if !op.ctrl then s
    else Stats(s.lookups + 1, s.addrHits + One(right), s.dirHits + One(away == GoesAway(b)),
               s.misses + One(away != GoesAway(b)), s.jrSeen + One(op.indir), s.jrHits + One(op.indir && right),
               s.jrNonRasSeen + One(op.indir && !stack), s.jrNonRasHits + One(op.indir && !stack && right),
               s.usedRas + One(stack), s.rasHits + One(stack && right), s.pops + One(stack),
               s.pushes + One(op.call && !op.ret && hasRas))
  }

  function Statistics(c: Config, bs: seq<Branch>): Stats
    requires Create(c).Ready?
  {
    if bs == [] then ZeroStats()
    else
      var b, before := bs[|bs| - 1], bs[..|bs| - 1];
      Tally(Statistics(c, before), b, Guess(c, before, b), c.rasSize > 0)
  }

  lemma GuessIsPredicted(c: Config, bs: seq<Branch>, b: Branch)
    requires Create(c).Ready? && b.pc != 0 && (forall k :: 0 <= k < |bs| ==> bs[k].pc != 0) && ReturnsIndirect(bs)
    ensures Predictor.Ok(Create(c).p) && Guess(c, bs, b) == Predicted(Run(Create(c).p, bs), b)
  {
    LookupOfRun(c, bs, b.pc, b.op);
    hide Answer, Run, Lookup, Create, Predictor.Ok;
  }

  lemma TallyCounts(s: Stats, b: Branch, guess: nat, hasRas: bool, rec: Rec)
    requires b.op.ctrl && rec.ras == (b.op.ret && hasRas)
    ensures CountUpdate(LookupStats(s, b.op, hasRas), WentAway(b), guess != RS.Fallthrough(b.pc), guess == b.npc,
                        b.op, rec) == Tally(s, b, guess, hasRas)
  {
  }

  lemma StatsStep(p: Bpred, b: Branch)
    requires Predictor.Ok(p)
    ensures Step(p, b).stats == Tally(p.stats, b, Predicted(p, b), p.ras.Some?)
  {
    if b.op.ctrl {
      StepStats(p, b);
      hide *;
      var rec: Rec :| rec.ras == UsesStack(p, b)
        && Step(p, b).stats == CountUpdate(LookupStats(p.stats, b.op, p.ras.Some?), WentAway(b),
                                           Predicted(p, b) != RS.Fallthrough(b.pc), Correct(p, b), b.op, rec);
      StackAndCorrect(p, b);
      TallyCounts(p.stats, b, Predicted(p, b), p.ras.Some?, rec);
    }
  }

  lemma StackAndCorrect(p: Bpred, b: Branch)
    requires Predictor.Ok(p)
    ensures UsesStack(p, b) == (b.op.ret && p.ras.Some?) && Correct(p, b) == (Predicted(p, b) == b.npc)
  {
  }

  /** Main result: after every run from creation each statistic is the number of branches that
      it should count. */
  lemma {:induction false} StatsOfRun(c: Config, bs: seq<Branch>)
    requires Create(c).Ready? && (forall k :: 0 <= k < |bs| ==> bs[k].pc != 0) && ReturnsIndirect(bs)
    ensures Predictor.Ok(Create(c).p) && Run(Create(c).p, bs).stats == Statistics(c, bs)
  {
    CreatedShape(c, []);
    assert Create(c).p.stats == ZeroStats();
    hide Predictor.Ok, Create, Predicted, Guess, Tally, Step;
    if bs != [] {
      var b, before := bs[|bs| - 1], bs[..|bs| - 1];
      StatsOfRun(c, before);
      CreatedShape(c, before);
      GuessIsPredicted(c, before, b);
      StatsStep(Run(Create(c).p, before), b);
    }
  }
}
