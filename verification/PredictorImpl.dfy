/** The branch predictor in place: tables, chains, the circular stack and the counts, changed
    by lookup, update and recovery exactly as the functions of module Predictor say. */
module PredictorImpl {
  import opened Bits
  import opened Options
  import opened Direction
  import opened Predictor
  import opened PredictorRuns
  import opened BtbTable
  import RS = ReturnStack
  import Btb

  /** All items of a row for branch b have the same target. */
  ghost predicate Agreeing(row: Btb.Row, b: nat) {
    forall i, j :: 0 <= i < |row| && 0 <= j < |row| && row[i].addr == b && row[j].addr == b ==>
      row[i].target == row[j].target
  }

  method Flipflop(size: nat) returns (t: array<Counter>)
    ensures fresh(t) && t[..] == FreshTable(size)
  {
    t := new Counter[size](_ => 0);
    var flipflop := 1;
    for cnt := 0 to size
      invariant flipflop == if cnt % 2 == 0 then 1 else 2
      invariant t[..cnt] == FreshTable(size)[..cnt]
    {
      t[cnt] := flipflop;
      flipflop := 3 - flipflop;
    }
  }

  method BumpIn(t: array<Counter>, i: nat, up: bool)
    requires i < t.Length
    modifies t
    ensures t[..] == old(t[..])[i := Bump(old(t[i]), up)]
  {
    if up {
      if t[i] < 3 { t[i] := t[i] + 1; }
    } else {
      if t[i] > 0 { t[i] := t[i] - 1; }
    }
  }

  class BranchPredictor {
    const kind: Kind
    const bimod: array<Counter>
    const shiftregs: array<nat>
    const l2table: array<Counter>
    const meta: array<Counter>
    const width: nat
    const xor: bool
    const btb: Table
    const ras: RS.RetStack
    var stats: Stats

    ghost function Parts(): set<object> {
      {bimod, shiftregs, l2table, meta, btb, btb.data, ras, ras.slots}
    }

    ghost predicate Valid()
      reads this, Parts()
    {
      && bimod != l2table && bimod != meta && l2table != meta && shiftregs != ras.slots
      && btb.Valid() && ras.Valid()
    }

    ghost function Rows(): (r: seq<Btb.Row>)
      requires btb.Valid()
      reads btb, btb.data
      ensures |r| == btb.sets && forall s :: 0 <= s < btb.sets ==> r[s] == btb.Set(s)
    {
      seq(btb.sets, s requires 0 <= s < btb.sets && btb.Valid() reads btb, btb.data => btb.Set(s))
    }

    ghost function View(): Bpred
      requires Valid()
      reads this, Parts()
    {
      Bpred(kind, bimod[..], TwoLevel(shiftregs[..], l2table[..], width, xor), meta[..], Rows(),
            if ras.slots.Length == 0 then None else Some(ras.View()), stats)
    }

    /** Tables for an accepted configuration. */
    constructor (c: Config)
      requires Create(c).Ready?
      ensures Valid() && View() == Create(c).p && fresh(Parts())
    {
      kind := c.kind;
      var b := Flipflop(if c.kind.TwoLev? then 0 else c.bimodSize);
      var t := Flipflop(if c.kind.TwoBit? then 0 else c.l2size);
      var m := Flipflop(if c.kind.Comb? then c.metaSize else 0);
      bimod, l2table, meta := b, t, m;
      shiftregs := new nat[if c.kind.TwoBit? then 0 else c.l1size](_ => 0);
      width, xor := if c.kind.TwoBit? then 0 else c.width, !c.kind.TwoBit? && c.xor;
      btb := new Table(c.sets, c.assoc);
      ras := new RS.RetStack(c.rasSize);
      stats := ZeroStats();
      new;
      Built(c);
    }

    lemma Built(c: Config)
      requires Create(c).Ready? && Valid() && kind == c.kind && stats == ZeroStats()
      requires bimod[..] == FreshTable(if c.kind.TwoLev? then 0 else c.bimodSize)
      requires l2table[..] == FreshTable(if c.kind.TwoBit? then 0 else c.l2size)
      requires meta[..] == FreshTable(if c.kind.Comb? then c.metaSize else 0)
      requires shiftregs[..] == seq(if c.kind.TwoBit? then 0 else c.l1size, _ => 0)
      requires width == (if c.kind.TwoBit? then 0 else c.width) && xor == (!c.kind.TwoBit? && c.xor)
      requires btb.sets == c.sets && forall s :: 0 <= s < c.sets ==> btb.Set(s) == Btb.EmptyRow(c.assoc)
      requires ras.slots[..] == seq(c.rasSize, _ => 0)
      requires c.rasSize > 0 ==> ras.View() == RS.Stack(ras.slots[..], c.rasSize - 1)
      ensures View() == Create(c).p
    {
      var p := Create(c).p;
      assert Rows() == p.btb;
      assert shiftregs[..] == p.twolev.shiftregs && l2table[..] == p.twolev.l2table;
      assert ras.slots.Length == c.rasSize;
    }

    /** The index of the counter a branch uses in a table of 2-bit counters. */
    method DirectionLookup(baddr: nat, op: Op) returns (rec: Rec)
      requires Valid() && Predictor.Ok(View())
      ensures rec == DirectionRec(View(), baddr, op)
    {
      if op.ctrl && op.uncond { return NoRec(); }
      ghost var p := View();
      match kind {
        case TwoBit =>
          var b := BimodIndex(baddr, bimod.Length);
          rec := NoRec().(pdir1 := Some(InBimod(b)));
        case TwoLev =>
          var h := shiftregs[L1Index(baddr, shiftregs.Length)];
          rec := NoRec().(pdir1 := Some(InTwolev(L2Index(baddr, h, width, xor, l2table.Length))));
        case Comb =>
          var b := BimodIndex(baddr, bimod.Length);
          var h := shiftregs[L1Index(baddr, shiftregs.Length)];
          var t := L2Index(baddr, h, width, xor, l2table.Length);
          var m := BimodIndex(baddr, meta.Length);
          if meta[m] >= 2 {
            rec := Rec(false, Some(InTwolev(t)), Some(InBimod(b)), Some(InMeta(m)), bimod[b] >= 2, l2table[t] >= 2);
          } else {
            rec := Rec(false, Some(InBimod(b)), Some(InTwolev(t)), Some(InMeta(m)), bimod[b] >= 2, l2table[t] >= 2);
          }
      }
    }

    /** The value of the counter a record points to. */
    method CounterAt(r: CounterRef) returns (c: Counter)
      requires Valid()
      ensures c == ValueOf(View(), r)
    {
      c := 0;
      match r {
        case InBimod(i) => if i < bimod.Length { c := bimod[i]; }
        case InTwolev(i) => if i < l2table.Length { c := l2table[i]; }
        case InMeta(i) => if i < meta.Length { c := meta[i]; }
      }
    }

    /** The part of lookup that asks the branch target buffer. */
    method TargetLookup(baddr: nat, op: Op, rec: Rec) returns (target: nat)
      requires Valid() && Agreeing(btb.Set(btb.SetOf(baddr)), baddr)
      requires !Conditional(op) || rec.pdir1.Some?
      ensures target == PredictedTarget(View(), baddr, op, rec)
    {
      var hit, t := btb.Lookup(baddr);
      ghost var row := btb.Set(btb.SetOf(baddr));
      assert hit ==> t == row[Btb.Find(row, baddr)].target;
      assert Stored(View(), baddr) == if hit then Some(t) else None;
      if op.ctrl && op.uncond { return if hit then t else 1; }
      var c := CounterAt(rec.pdir1.value);
      if !hit { return if c >= 2 then 1 else 0; }
      return if c >= 2 then t else 0;
    }

    /** The return-address stack's part of a lookup. */
    method StackLookup(baddr: nat, op: Op) returns (target: nat, recover: nat)
      requires Valid() && op.ctrl
      modifies this`stats, ras, ras.slots
      ensures Valid() && View() == StackPart(old(View()), baddr, op)
      ensures recover == if old(View()).ras.Some? then old(View()).ras.value.tos else 0
      ensures op.ret && old(View()).ras.Some? ==> target == RS.Top(old(View()).ras.value)
    {
      target := 0;
      recover := if ras.slots.Length > 0 then ras.tos else 0;
      if op.ret && ras.slots.Length > 0 {
        target := ras.Leave();
        stats := stats.(pops := stats.pops + 1);
      } else if op.call && ras.slots.Length > 0 {
        ras.Enter(baddr);
        stats := stats.(pushes := stats.pushes + 1);
      }
    }

    /** Predicts where a branch goes; `rec` is for its update, `recover` for recovery. */
    method Lookup(baddr: nat, op: Op) returns (target: nat, rec: Rec, recover: nat)
      requires Valid() && Predictor.Ok(View())
      requires Agreeing(btb.Set(btb.SetOf(baddr)), baddr)
      modifies this`stats, ras, ras.slots
      ensures Valid() && Found(View(), target, rec, recover) == Predictor.Lookup(old(View()), baddr, op)
    {
      if !op.ctrl { return 0, NoRec(), 0; }
      ghost var p := View();
      stats := stats.(lookups := stats.lookups + 1);
      target, rec, recover := LookupControl(p, baddr, op);
      Assemble(p, View(), baddr, op, target, rec, recover);
    }

    /** The rest of a lookup, for control instructions; p is the state before. */
    method LookupControl(ghost p: Bpred, baddr: nat, op: Op) returns (target: nat, rec: Rec, recover: nat)
      requires Valid() && op.ctrl && Predictor.Ok(p) && View() == CountLookup(p)
      requires Agreeing(btb.Set(btb.SetOf(baddr)), baddr)
      modifies this`stats, ras, ras.slots
      ensures Valid() && View() == StackPart(CountLookup(p), baddr, op)
      ensures recover == if p.ras.Some? then p.ras.value.tos else 0
      ensures if op.ret && p.ras.Some?
              then target == RS.Top(p.ras.value) && rec == DirectionRec(p, baddr, op).(ras := true)
              else rec == DirectionRec(p, baddr, op) && target == PredictedTarget(p, baddr, op, rec)
    {
      SameTables(p, View(), baddr, op);
      rec := DirectionLookup(baddr, op);
      target, recover := StackLookup(baddr, op);
      if op.ret && ras.slots.Length > 0 {
        rec := rec.(ras := true);
      } else {
        target := TargetLookup(baddr, op, rec);
        SameTarget(p, View(), baddr, op, rec);
      }
    }

    method BumpCounter(r: Option<CounterRef>, up: bool)
      requires Valid()
      modifies bimod, l2table, meta
      ensures Valid() && View() == BumpRef(old(View()), r, up)
    {
      match r {
        case None =>
        case Some(InBimod(i)) => if i < bimod.Length { BumpIn(bimod, i, up); }
        case Some(InTwolev(i)) => if i < l2table.Length { BumpIn(l2table, i, up); }
        case Some(InMeta(i)) => if i < meta.Length { BumpIn(meta, i, up); }
      }
      assert Rows() == old(Rows());
    }

    /** Shifts the outcome of a conditional branch into its history register. */
    method RecordOutcome(baddr: nat, taken: bool, op: Op)
      requires Valid()
      modifies shiftregs
      ensures Valid() && View() == UpdateHistory(old(View()), baddr, taken, op)
    {
      if !(op.ctrl && op.uncond) && kind != TwoBit && shiftregs.Length > 0 {
        var l1index := L1Index(baddr, shiftregs.Length);
        shiftregs[l1index] := Shifted(shiftregs[l1index], taken, width);
      }
      assert Rows() == old(Rows());
    }

    method RecordTarget(baddr: nat, btarget: nat, taken: bool, correct: bool)
      requires Valid() && (taken ==> Unique(btb.Set(btb.SetOf(baddr)), baddr))
      modifies btb, btb.data
      ensures Valid() && View() == UpdateTarget(old(View()), baddr, btarget, taken, correct)
    {
      if taken {
        RecordTaken(baddr, btarget, correct);
      }
    }

    method RecordTaken(baddr: nat, btarget: nat, correct: bool)
      requires Valid() && Unique(btb.Set(btb.SetOf(baddr)), baddr)
      modifies btb, btb.data
      ensures Valid()
      ensures Rows() ==
        old(Rows())[btb.SetOf(baddr) := Btb.Taken(old(Rows())[btb.SetOf(baddr)], baddr, btarget, correct)]
    {
      btb.Update(baddr, btarget, correct);
    }

    method TrainCounters(taken: bool, rec: Rec)
      requires Valid()
      modifies bimod, l2table, meta
      ensures Valid() && View() == UpdateCounters(old(View()), taken, rec)
    {
      BumpCounter(rec.pdir1, taken);
      BumpCounter(rec.pdir2, taken);
      if rec.pmeta.Some? && rec.bimodSays != rec.twolevSays {
        BumpCounter(rec.pmeta, rec.twolevSays == taken);
      }
    }

    method Count(taken: bool, predTaken: bool, correct: bool, op: Op, rec: Rec)
      modifies this`stats
      ensures stats == CountUpdate(old(stats), taken, predTaken, correct, op, rec)
    {
      if correct { stats := stats.(addrHits := stats.addrHits + 1); }
      if predTaken == taken { stats := stats.(dirHits := stats.dirHits + 1); }
      else { stats := stats.(misses := stats.misses + 1); }
      if rec.ras {
        stats := stats.(usedRas := stats.usedRas + 1);
        if correct { stats := stats.(rasHits := stats.rasHits + 1); }
      }
      if op.indir {
        stats := stats.(jrSeen := stats.jrSeen + 1);
        if correct { stats := stats.(jrHits := stats.jrHits + 1); }
        if !rec.ras {
          stats := stats.(jrNonRasSeen := stats.jrNonRasSeen + 1);
          if correct { stats := stats.(jrNonRasHits := stats.jrNonRasHits + 1); }
        }
      }
    }

    /** Records the outcome of a branch.  The original asserts that a branch has one entry. */
    method Update(baddr: nat, btarget: nat, taken: bool, predTaken: bool, correct: bool, op: Op, rec: Rec)
      requires Valid() && Predictor.Ok(View())
      requires op.ctrl && taken && !(op.indir && rec.ras) ==> Unique(btb.Set(btb.SetOf(baddr)), baddr)
      modifies this`stats, bimod, shiftregs, l2table, meta, btb, btb.data
      ensures Valid() && View() == Predictor.Update(old(View()), baddr, btarget, taken, predTaken, correct, op, rec)
    {
      if !op.ctrl { return; }
      Count(taken, predTaken, correct, op, rec);
      assert Rows() == old(Rows());
      if op.indir && rec.ras { return; }
      RecordOutcome(baddr, taken, op);
      RecordTarget(baddr, btarget, taken, correct);
      TrainCounters(taken, rec);
    }

    /** One simulated branch: lookup, then update with the outcome. */
    method Execute(b: Branch)
      requires Valid() && Predictor.Ok(View()) && Unique(btb.Set(btb.SetOf(b.pc)), b.pc)
      modifies this`stats, ras, ras.slots, bimod, shiftregs, l2table, meta, btb, btb.data
      ensures Valid() && View() == Step(old(View()), b)
    {
      ghost var p := View();
      var predPC, rec, recover := Lookup(b.pc, b.op);
      LookupKeepsShape(p, b.pc, b.op);
      if predPC == 0 { predPC := RS.Fallthrough(b.pc); }
      Update(b.pc, b.npc, b.npc != RS.Fallthrough(b.pc), predPC != RS.Fallthrough(b.pc), predPC == b.npc, b.op, rec);
    }

    /** Recovery after a misprediction: puts the top of stack back. */
    method Recover(stackRecoverIdx: nat)
      requires Valid() && (ras.slots.Length > 0 ==> stackRecoverIdx < ras.slots.Length)
      modifies ras
      ensures Valid() && View() == old(View()).(ras := if old(View()).ras.None? then None
                                                       else Some(RS.Recover(old(View()).ras.value, stackRecoverIdx)))
    {
      if ras.slots.Length > 0 { ras.Restore(stackRecoverIdx); }
      assert Rows() == old(Rows());
    }
  }

  lemma Assemble(p: Bpred, q: Bpred, baddr: nat, op: Op, target: nat, rec: Rec, recover: nat)
    requires Predictor.Ok(p) && op.ctrl && q == StackPart(CountLookup(p), baddr, op)
    requires recover == if p.ras.Some? then p.ras.value.tos else 0
    requires if op.ret && p.ras.Some?
             then target == RS.Top(p.ras.value) && rec == DirectionRec(p, baddr, op).(ras := true)
             else rec == DirectionRec(p, baddr, op) && target == PredictedTarget(p, baddr, op, rec)
    ensures Found(q, target, rec, recover) == Predictor.Lookup(p, baddr, op)
  {
  }

  lemma SameTables(p: Bpred, q: Bpred, baddr: nat, op: Op)
    requires Predictor.Ok(p) && q == CountLookup(p)
    ensures Predictor.Ok(q) && DirectionRec(q, baddr, op) == DirectionRec(p, baddr, op)
  {
  }

  lemma SameTarget(p: Bpred, q: Bpred, baddr: nat, op: Op, rec: Rec)
    requires |p.btb| > 0 && (p.ras.Some? ==> RS.Ok(p.ras.value)) && q == StackPart(CountLookup(p), baddr, op)
    ensures PredictedTarget(q, baddr, op, rec) == PredictedTarget(p, baddr, op, rec)
  {
  }

  /** The assertion of the update loop holds in every reachable state for every branch whose
      address is not zero. */
  lemma ReachableRowsUnique(c: Config, bs: seq<Branch>, s: nat, b: nat)
    requires Create(c).Ready? && s < c.sets && b != 0 && forall k :: 0 <= k < |bs| ==> bs[k].pc != 0
    ensures Predictor.Ok(Create(c).p)
    ensures var q := Run(Create(c).p, bs); |q.btb| == c.sets && Unique(q.btb[s], b)
  {
    RowOfRun(c, bs, s);
    UsesNonzero(Create(c).p, bs, s);
    hide Predictor.Ok, Create, Run, Uses;
    Btb.MatchesAreUnique(Uses(Create(c).p, bs, s), c.assoc, b);
  }
}
