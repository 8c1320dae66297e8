/** How often the branch predictor predicts the wrong direction: what the counters of its
    components get wrong, what choosing between them costs, and how the count of mispredictions
    that the predictor keeps is made up of the two. */
module PredictorMisses {
  import opened Direction
  import opened Predictor
  import opened PredictorRuns
  import RS = ReturnStack
  import Btb

  // ----- the counters of the two components

  /** The predictor has the two-level component, or the one-level one. */
  predicate HasPart(p: Bpred, two: bool) {
    if two then !p.kind.TwoBit? else !p.kind.TwoLev?
  }

  function Table(p: Bpred, two: bool): seq<Counter> {
    if two then p.twolev.l2table else p.bimod
  }

  /** The counter of a component that a branch uses. */
  function IndexOf(p: Bpred, two: bool, baddr: nat): (i: nat)
    requires Predictor.Ok(p) && HasPart(p, two)
    ensures i < |Table(p, two)|
  {
    if two then TwolevRef(p, baddr).i else BimodRef(p, baddr).i
  }

  /** What a component says of a branch. */
  predicate Says(p: Bpred, two: bool, baddr: nat)
    requires Predictor.Ok(p) && HasPart(p, two)
  {
    Predicts(Table(p, two)[IndexOf(p, two, baddr)])
  }

  function MetaIndex(p: Bpred, baddr: nat): (i: nat)
    requires Predictor.Ok(p) && p.kind.Comb?
    ensures i < |p.meta|
  {
    BimodIndex(baddr, |p.meta|)
  }

  /** The component a branch is predicted from. */
  predicate Chosen(p: Bpred, baddr: nat)
    requires Predictor.Ok(p)
  {
    p.kind.TwoLev? || (p.kind.Comb? && Predicts(p.meta[MetaIndex(p, baddr)]))
  }

  /** The meta table after a branch: it moves towards the component that was right. */
  function NewMeta(p: Bpred, baddr: nat, taken: bool): (m: seq<Counter>)
    requires Predictor.Ok(p) && p.kind.Comb?
    ensures |m| == |p.meta|
  {
    var i := MetaIndex(p, baddr);
    if Says(p, true, baddr) == Says(p, false, baddr) then p.meta
    else p.meta[i := Bump(p.meta[i], Says(p, true, baddr) == taken)]
  }

  lemma CountersAfter(p: Bpred, q: Bpred, baddr: nat, taken: bool, op: Op, two: bool)
    requires Predictor.Ok(p) && Conditional(op)
    requires q.kind == p.kind && q.bimod == p.bimod && q.meta == p.meta && q.twolev.l2table == p.twolev.l2table
    ensures var r := UpdateCounters(q, taken, DirectionRec(p, baddr, op));
      && r.kind == p.kind
      && (HasPart(p, two) ==> Table(r, two) == Train(Table(p, two), Direction.Use(IndexOf(p, two, baddr), taken)))
      && (p.kind.Comb? ==> r.meta == NewMeta(p, baddr, taken))
  {
  }

  /** What one step does to the counters. */
  lemma StepTrains(p: Bpred, b: Branch, two: bool)
    requires Predictor.Ok(p)
    ensures var q, trains := Step(p, b), Trains(b, p.ras.Some?);
      && q.kind == p.kind
      && (HasPart(p, two) ==>
            Table(q, two) == if trains then Train(Table(p, two), Direction.Use(IndexOf(p, two, b.pc), WentAway(b)))
                             else Table(p, two))
      && (p.kind.Comb? ==> q.meta == if trains then NewMeta(p, b.pc, WentAway(b)) else p.meta)
  {
    StepParts(p, b);
    if b.op.ctrl && !Settled(p, b) { StepUpdates(p, b, two); }
  }

  lemma StepUpdates(p: Bpred, b: Branch, two: bool)
    requires Predictor.Ok(p) && b.op.ctrl && !Settled(p, b)
    ensures var q := Step(p, b);
      && q.kind == p.kind
      && (HasPart(p, two) ==>
            Table(q, two) ==
              if Conditional(b.op) then Train(Table(p, two), Direction.Use(IndexOf(p, two, b.pc), WentAway(b)))
              else Table(p, two))
      && (p.kind.Comb? ==> q.meta == if Conditional(b.op) then NewMeta(p, b.pc, WentAway(b)) else p.meta)
  {
    var f, away, right := Lookup(p, b.pc, b.op), WentAway(b), Correct(p, b);
    LookupKeepsShape(p, b.pc, b.op);
    var q1 := f.p.(stats := CountUpdate(f.p.stats, away, Predicted(p, b) != RS.Fallthrough(b.pc), right, b.op, f.rec));
    var q2 := UpdateTarget(UpdateHistory(q1, b.pc, away, b.op), b.pc, b.npc, away, right);
    assert Step(p, b) == UpdateCounters(q2, away, f.rec);
    RasIsIgnored(q2, away, f.rec);
    if Conditional(b.op) { CountersAfter(p, q2, b.pc, away, b.op, two); }
  }

  lemma RasIsIgnored(q: Bpred, taken: bool, rec: Rec)
    ensures UpdateCounters(q, taken, rec) == UpdateCounters(q, taken, rec.(ras := false))
  {
  }

  // ----- runs

  /** The counters of a component that a run uses, and which way. */
  function CounterUses(p: Bpred, two: bool, bs: seq<Branch>): seq<Direction.Use>
    requires Predictor.Ok(p) && HasPart(p, two)
  {
    if bs == [] then []
    else
      var rest, b := bs[..|bs| - 1], bs[|bs| - 1];
      RunShape(p, rest);
      var us := CounterUses(p, two, rest);
      if Trains(b, p.ras.Some?) then us + [Direction.Use(IndexOf(Run(p, rest), two, b.pc), WentAway(b))] else us
  }

  lemma TrainMore(t: seq<Counter>, us: seq<Direction.Use>, u: Direction.Use)
    requires InTable(us, |t|) && u.index < |t|
    ensures InTable(us + [u], |t|) && TrainAll(t, us + [u]) == Train(TrainAll(t, us), u)
  {
    assert (us + [u])[..|us|] == us;
  }

  lemma {:induction false} TableOfRun(p: Bpred, two: bool, bs: seq<Branch>)
    requires Predictor.Ok(p) && HasPart(p, two)
    ensures InTable(CounterUses(p, two, bs), |Table(p, two)|)
    ensures Table(Run(p, bs), two) == TrainAll(Table(p, two), CounterUses(p, two, bs))
  {
    if bs != [] {
      var rest, b := bs[..|bs| - 1], bs[|bs| - 1];
      TableOfRun(p, two, rest);
      RunShape(p, rest);
      StepTrains(Run(p, rest), b, two);
      hide Predictor.Ok, Step, Table, Trains, TrainAll, InTable;
      TrainMore(Table(p, two), CounterUses(p, two, rest), Direction.Use(IndexOf(Run(p, rest), two, b.pc), WentAway(b)));
    }
  }

  /** Branches of a run that a component gets wrong, whichever component is believed. */
  function PartMisses(p: Bpred, two: bool, bs: seq<Branch>): nat
    requires Predictor.Ok(p) && HasPart(p, two)
  {
    if bs == [] then 0
    else
      var rest, b := bs[..|bs| - 1], bs[|bs| - 1];
      RunShape(p, rest);
      PartMisses(p, two, rest)
      + (if Trains(b, p.ras.Some?) && Says(Run(p, rest), two, b.pc) != WentAway(b) then 1 else 0)
  }

  lemma {:induction false} PartMissesAre(p: Bpred, two: bool, bs: seq<Branch>)
    requires Predictor.Ok(p) && HasPart(p, two)
    ensures InTable(CounterUses(p, two, bs), |Table(p, two)|)
    ensures PartMisses(p, two, bs) == AllMisses(Table(p, two), CounterUses(p, two, bs))
  {
    TableOfRun(p, two, bs);
    if bs != [] {
      var rest, b := bs[..|bs| - 1], bs[|bs| - 1];
      PartMissesAre(p, two, rest);
      TableOfRun(p, two, rest);
      RunShape(p, rest);
      var us, u := CounterUses(p, two, rest), Direction.Use(IndexOf(Run(p, rest), two, b.pc), WentAway(b));
      assert (us + [u])[..|us|] == us;
    }
  }

  /** Main result: in every run from creation, if the branches that fall on the same counter of a
      component all go the same way, the component gets no more of them wrong than it has
      counters. */
  lemma MispredictionsOfRun(c: Config, two: bool, bs: seq<Branch>)
    requires Create(c).Ready? && HasPart(Create(c).p, two)
    ensures Predictor.Ok(Create(c).p)
    ensures var p := Create(c).p;
      Consistent(CounterUses(p, two, bs)) ==> PartMisses(p, two, bs) <= |Table(p, two)|
  {
    CreateShape(c);
    var p := Create(c).p;
    PartMissesAre(p, two, bs);
    if Consistent(CounterUses(p, two, bs)) { ConsistentRun(|Table(p, two)|, CounterUses(p, two, bs)); }
  }

  // ----- choosing between the components

  /** Branches of a run whose direction the counters get wrong. */
  function DirMisses(p: Bpred, bs: seq<Branch>): nat
    requires Predictor.Ok(p)
  {
    if bs == [] then 0
    else
      var rest, b := bs[..|bs| - 1], bs[|bs| - 1];
      RunShape(p, rest);
      DirMisses(p, rest) + (if DirMiss(Run(p, rest), b) then 1 else 0)
  }

  predicate DirMiss(p: Bpred, b: Branch)
    requires Predictor.Ok(p)
  {
    Trains(b, p.ras.Some?) && Says(p, Chosen(p, b.pc), b.pc) != WentAway(b)
  }

  /** How many branches the meta counters will still predict from the other component. */
  function TotalReluctance(t: seq<Counter>, two: bool): nat {
    if t == [] then 0 else TotalReluctance(t[..|t| - 1], two) + Reluctance(t[|t| - 1], two)
  }

  lemma {:induction false} ReluctanceUpdate(t: seq<Counter>, two: bool, i: nat, c: Counter)
    requires i < |t|
    ensures TotalReluctance(t[i := c], two) + Reluctance(t[i], two) == TotalReluctance(t, two) + Reluctance(c, two)
  {
    var n := |t| - 1;
    if i < n {
      ReluctanceUpdate(t[..n], two, i, c);
      assert t[i := c][..n] == t[..n][i := c];
    } else {
      assert t[i := c][..n] == t[..n];
    }
  }

  lemma {:induction false} FreshReluctance(n: nat, two: bool)
    ensures TotalReluctance(FreshTable(n), two) == if two then (n + 1) / 2 else n / 2
  {
    if n > 0 {
      assert FreshTable(n)[..n - 1] == FreshTable(n - 1);
      FreshReluctance(n - 1, two);
    }
  }

  /** A wrong choice is paid for by the reluctance of its meta counter, or by a branch that the
      component not chosen got wrong, which pays for itself and for one more. */
  lemma ChoiceStep(p: Bpred, b: Branch, two: bool)
    requires Predictor.Ok(p) && p.kind.Comb?
    ensures var q := Step(p, b);
      |q.meta| == |p.meta|
      && (if DirMiss(p, b) then 1 else 0) + TotalReluctance(q.meta, two)
         <= TotalReluctance(p.meta, two)
            + (if Trains(b, p.ras.Some?) && Says(p, two, b.pc) != WentAway(b) then 2 else 0)
  {
    StepTrains(p, b, two);
    if Trains(b, p.ras.Some?) {
      var i, up := MetaIndex(p, b.pc), Says(p, true, b.pc) == WentAway(b);
      ReluctanceUpdate(p.meta, two, i, Bump(p.meta[i], up));
    }
  }

  lemma {:induction false} ChoiceBudget(p: Bpred, bs: seq<Branch>, two: bool)
    requires Predictor.Ok(p) && p.kind.Comb?
    ensures DirMisses(p, bs) + TotalReluctance(Run(p, bs).meta, two)
         <= TotalReluctance(p.meta, two) + 2 * PartMisses(p, two, bs)
  {
    if bs != [] {
      var rest, b := bs[..|bs| - 1], bs[|bs| - 1];
      ChoiceBudget(p, rest, two);
      RunShape(p, rest);
      ChoiceStep(Run(p, rest), b, two);
    }
  }

  /** Main result: over every run from creation, the combining predictor gets at most twice as
      many directions wrong as the better of its two components would, plus one for every second
      meta counter. */
  lemma CombinedMisses(c: Config, bs: seq<Branch>)
    requires Create(c).Ready? && c.kind.Comb?
    ensures Predictor.Ok(Create(c).p)
    ensures var p := Create(c).p;
      && DirMisses(p, bs) <= 2 * PartMisses(p, false, bs) + c.metaSize / 2
      && DirMisses(p, bs) <= 2 * PartMisses(p, true, bs) + (c.metaSize + 1) / 2
  {
    CreateShape(c);
    var p := Create(c).p;
    ChoiceBudget(p, bs, false);
    ChoiceBudget(p, bs, true);
    FreshReluctance(c.metaSize, false);
    FreshReluctance(c.metaSize, true);
  }

  lemma SingleStep(p: Bpred, b: Branch, two: bool)
    requires Predictor.Ok(p) && !p.kind.Comb? && two == p.kind.TwoLev?
    ensures DirMiss(p, b) <==> Trains(b, p.ras.Some?) && Says(p, two, b.pc) != WentAway(b)
  {
  }

  /** A predictor with one component gets exactly that component's directions wrong. */
  lemma {:induction false} SingleMisses(p: Bpred, two: bool, bs: seq<Branch>)
    requires Predictor.Ok(p) && !p.kind.Comb? && two == p.kind.TwoLev?
    ensures DirMisses(p, bs) == PartMisses(p, two, bs)
  {
    if bs != [] {
      var rest, b := bs[..|bs| - 1], bs[|bs| - 1];
      SingleMisses(p, two, rest);
      RunShape(p, rest);
      SingleStep(Run(p, rest), b, two);
      hide Predictor.Ok, Run, Says, Trains, DirMiss, Chosen, Table;
    }
  }

  // ----- the count of mispredictions

  /** No stored target is 0 or where `fall` says the branch falls through to. */
  ghost predicate GoodRow(row: Btb.Row, fall: nat -> nat) {
    forall k :: 0 <= k < |row| && row[k].addr != 0 ==> row[k].target != 0 && row[k].target != fall(row[k].addr)
  }

  ghost predicate GoodTargets(p: Bpred) {
    forall s :: 0 <= s < |p.btb| ==> GoodRow(p.btb[s], RS.Fallthrough)
  }

  lemma TakenGood(row: Btb.Row, fall: nat -> nat, baddr: nat, target: nat, correct: bool)
    requires |row| > 0 && GoodRow(row, fall) && target != 0 && target != fall(baddr)
    ensures GoodRow(Btb.Taken(row, baddr, target, correct), fall)
  {
    var i := Btb.Find(row, baddr);
    var k := if i >= 0 then i else |row| - 1;
    var r := Btb.Taken(row, baddr, target, correct);
    forall j | 0 <= j < |r| && r[j].addr != 0 ensures r[j].target != 0 && r[j].target != fall(r[j].addr) {
      assert j > 0 ==> r[j] == row[if j <= k then j - 1 else j];
    }
  }

  lemma StepGood(p: Bpred, b: Branch)
    requires Predictor.Ok(p) && GoodTargets(p) && b.npc != 0
    ensures GoodTargets(Step(p, b))
  {
    StepParts(p, b);
    forall s | 0 <= s < |p.btb| ensures GoodRow(Step(p, b).btb[s], RS.Fallthrough) {
      assert GoodRow(p.btb[s], RS.Fallthrough) && Step(p, b).btb[s] == NewRow(p, b, s);
      if WentAway(b) { TakenGood(p.btb[s], RS.Fallthrough, b.pc, b.npc, Correct(p, b)); }
    }
  }

  /** Branches whose addresses cannot be mistaken for the marks that a prediction carries: 0 for
      not taken, 1 for taken to an unknown address. */
  predicate Plain(b: Branch) {
    b.pc != 0 && b.npc != 0 && RS.Fallthrough(b.pc) != 1
  }

  /** The predicted address of a branch, read as a direction. */
  predicate PredictsAway(p: Bpred, b: Branch)
    requires Predictor.Ok(p)
  {
    Predicted(p, b) != RS.Fallthrough(b.pc)
  }

  /** For a conditional branch it is what the chosen counter says. */
  lemma DirectionIsCounter(p: Bpred, b: Branch)
    requires Predictor.Ok(p) && GoodTargets(p) && Plain(b) && (b.op.ret ==> b.op.indir) && Trains(b, p.ras.Some?)
    ensures PredictsAway(p, b) == Says(p, Chosen(p, b.pc), b.pc)
  {
    var rec := DirectionRec(p, b.pc, b.op);
    assert Lookup(p, b.pc, b.op).target == PredictedTarget(p, b.pc, b.op, rec);
    assert rec.pdir1.Some? && Predicts(ValueOf(p, rec.pdir1.value)) == Says(p, Chosen(p, b.pc), b.pc);
    assert GoodRow(p.btb[SetOf(p, b.pc)], RS.Fallthrough);
  }

  /** Branches not predicted by the counters whose direction was predicted wrong. */
  predicate OtherMiss(p: Bpred, b: Branch)
    requires Predictor.Ok(p)
  {
    b.op.ctrl && !Trains(b, p.ras.Some?) && PredictsAway(p, b) != WentAway(b)
  }

  function OtherMisses(p: Bpred, bs: seq<Branch>): nat
    requires Predictor.Ok(p)
  {
    if bs == [] then 0
    else
      var rest, b := bs[..|bs| - 1], bs[|bs| - 1];
      OtherMisses(p, rest) + (if OtherMiss(Run(p, rest), b) then 1 else 0)
  }

  lemma MissCounted(p: Bpred, b: Branch)
    requires Predictor.Ok(p)
    ensures Step(p, b).stats.misses ==
      p.stats.misses + (if b.op.ctrl && PredictsAway(p, b) != WentAway(b) then 1 else 0)
  {
    if b.op.ctrl { StepStats(p, b); }
  }

  /** Main result: in every run of plain branches whose returns are indirect jumps, the count of
      mispredictions the predictor keeps is that of the counters' wrong directions plus that of
      jumps and returns. */
  lemma {:induction false} MissesCounted(c: Config, bs: seq<Branch>)
    requires Create(c).Ready? && ReturnsIndirect(bs) && forall k :: 0 <= k < |bs| ==> Plain(bs[k])
    ensures Predictor.Ok(Create(c).p)
    ensures var p := Create(c).p;
      GoodTargets(Run(p, bs)) && Run(p, bs).stats.misses == DirMisses(p, bs) + OtherMisses(p, bs)
  {
    CreateShape(c);
    var p := Create(c).p;
    if bs != [] {
      var rest, b := bs[..|bs| - 1], bs[|bs| - 1];
      MissesCounted(c, rest);
      RunShape(p, rest);
      StepGood(Run(p, rest), b);
      MissCounted(Run(p, rest), b);
      if Trains(b, p.ras.Some?) { DirectionIsCounter(Run(p, rest), b); }
    }
  }

  /** A jump that goes elsewhere and is not predicted from the stack is predicted right. */
  lemma JumpsAreRight(p: Bpred, b: Branch)
    requires Predictor.Ok(p) && GoodTargets(p) && Plain(b) && b.op.ctrl && !Conditional(b.op) && !UsesStack(p, b)
    ensures PredictsAway(p, b)
  {
    assert Lookup(p, b.pc, b.op).target == PredictedTarget(p, b.pc, b.op, DirectionRec(p, b.pc, b.op));
    assert GoodRow(p.btb[SetOf(p, b.pc)], RS.Fallthrough);
  }

  /** Jumps go elsewhere, and nothing is predicted from the stack. */
  ghost predicate JumpsGoAway(bs: seq<Branch>, hasRas: bool) {
    forall k :: 0 <= k < |bs| && bs[k].op.ctrl ==>
      !(bs[k].op.ret && hasRas) && (Conditional(bs[k].op) || WentAway(bs[k]))
  }

  lemma NoOtherMiss(p: Bpred, b: Branch)
    requires Predictor.Ok(p) && GoodTargets(p) && Plain(b)
    requires b.op.ctrl ==> !(b.op.ret && p.ras.Some?) && (Conditional(b.op) || WentAway(b))
    ensures !OtherMiss(p, b)
  {
    if b.op.ctrl && !Conditional(b.op) { JumpsAreRight(p, b); }
  }

  /** Such jumps cost nothing. */
  lemma {:induction false} JumpsCostNothing(c: Config, bs: seq<Branch>)
    requires Create(c).Ready? && ReturnsIndirect(bs) && JumpsGoAway(bs, c.rasSize > 0)
    requires forall k :: 0 <= k < |bs| ==> Plain(bs[k])
    ensures Predictor.Ok(Create(c).p) && OtherMisses(Create(c).p, bs) == 0
  {
    CreateShape(c);
    var p := Create(c).p;
    if bs != [] {
      var rest, b := bs[..|bs| - 1], bs[|bs| - 1];
      JumpsCostNothing(c, rest);
      MissesCounted(c, rest);
      RunShape(p, rest);
      hide Predictor.Ok, Run, GoodTargets, OtherMiss, Plain;
      NoOtherMiss(Run(p, rest), b);
    }
  }

  /** Main result: in such runs the predictor counts, with one component whose counters are used
      consistently, at most as many mispredictions as there are counters; and with two, at most
      twice those of the better component and one for every second meta counter. */
  lemma CountedMisses(c: Config, bs: seq<Branch>)
    requires Create(c).Ready? && ReturnsIndirect(bs) && JumpsGoAway(bs, c.rasSize > 0)
    requires forall k :: 0 <= k < |bs| ==> Plain(bs[k])
    ensures Predictor.Ok(Create(c).p)
    ensures var p := Create(c).p; var n, two := Run(p, bs).stats.misses, c.kind.TwoLev?;
      && (!c.kind.Comb? && Consistent(CounterUses(p, two, bs)) ==> n <= |Table(p, two)|)
      && (c.kind.Comb? ==>
            && n <= 2 * PartMisses(p, false, bs) + c.metaSize / 2
            && n <= 2 * PartMisses(p, true, bs) + (c.metaSize + 1) / 2)
  {
    CreateShape(c);
    JumpsCostNothing(c, bs);
    MissesCounted(c, bs);
    if c.kind.Comb? {
      CombinedMisses(c, bs);
    } else {
      SingleMisses(Create(c).p, c.kind.TwoLev?, bs);
      MispredictionsOfRun(c, c.kind.TwoLev?, bs);
    }
  }
}
