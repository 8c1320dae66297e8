/** What every run of the branch predictor keeps: each branch is looked up, then updated with
    its outcome, and the parts of the predictor can be read off the branches executed. */
module PredictorRuns {
  import opened Bits
  import opened LruStack
  import opened Options
  import opened Direction
  import opened Predictor
  import RS = ReturnStack
  import Btb

  lemma RecordOk(d: TwoLevel, o: Outcome)
    requires Direction.Ok(d)
    ensures Direction.Ok(Record(d, o))
  {
    ShiftedMeaning(d.shiftregs[L1Index(o.baddr, |d.shiftregs|)], o.taken, d.width);
  }

  /** Every step keeps the tables well formed: all indexes stay in range. */
  lemma StepOk(p: Bpred, b: Branch)
    requires Predictor.Ok(p)
    ensures Predictor.Ok(Step(p, b))
  {
    StepParts(p, b);
    SteppedOk(p, Step(p, b), b);
  }

  lemma SteppedOk(p: Bpred, q: Bpred, b: Branch)
    requires Predictor.Ok(p) && Stepped(p, q, b)
    ensures Predictor.Ok(q)
  {
    var t := NewTwolev(p, b);
    if !p.kind.TwoBit? {
      if t != p.twolev { RecordOk(p.twolev, Outcome(b.pc, WentAway(b))); }
      SameButCounters(t, q.twolev);
    }
  }

  lemma SameButCounters(d: TwoLevel, e: TwoLevel)
    requires Direction.Ok(d) && e.(l2table := []) == d.(l2table := []) && |e.l2table| == |d.l2table|
    ensures Direction.Ok(e)
  {
    assert e.(l2table := []).shiftregs == d.(l2table := []).shiftregs;
    assert e.(l2table := []).width == d.(l2table := []).width;
  }

  lemma CreateShape(c: Config)
    requires Create(c).Ready?
    ensures Predictor.Ok(Create(c).p)
  {
    if !c.kind.TwoBit? { var w := Pow2(c.width); }
  }

  function Run(p: Bpred, bs: seq<Branch>): (q: Bpred)
    requires Predictor.Ok(p)
    ensures Predictor.Ok(q)
  {
    if bs == [] then p
    else
      var q := Run(p, bs[..|bs| - 1]);
      StepOk(q, bs[|bs| - 1]);
      Step(q, bs[|bs| - 1])
  }

  // ----- the branch target buffer

  /** A branch recorded in set s: taken, and not settled by the return-address stack. */
  predicate Recorded(b: Branch, s: nat, sets: nat, hasRas: bool)
    requires sets > 0
  {
    b.op.ctrl && WentAway(b) && !b.op.Settled(hasRas) && s == And(Shr(b.pc, 2), sets - 1)
  }

  function RecordedOf(bs: seq<Branch>, s: nat, sets: nat, hasRas: bool): seq<Branch>
    requires sets > 0
  {
    if bs == [] then []
    else
      var rest, b := RecordedOf(bs[..|bs| - 1], s, sets, hasRas), bs[|bs| - 1];
      if Recorded(b, s, sets, hasRas) then rest + [b] else rest
  }

  /** The uses that a run makes of set s. */
  function Uses(p: Bpred, bs: seq<Branch>, s: nat): seq<Btb.Use>
    requires Predictor.Ok(p)
  {
    if bs == [] then []
    else
      var rest, b := bs[..|bs| - 1], bs[|bs| - 1];
      if Recorded(b, s, |p.btb|, p.ras.Some?)
      then Uses(p, rest, s) + [Btb.Use(b.pc, b.npc, Correct(Run(p, rest), b))] else Uses(p, rest, s)
  }

  lemma {:induction false} UsesAreRecorded(p: Bpred, bs: seq<Branch>, s: nat)
    requires Predictor.Ok(p)
    ensures var us, rs := Uses(p, bs, s), RecordedOf(bs, s, |p.btb|, p.ras.Some?);
      |us| == |rs| && forall k :: 0 <= k < |us| ==> us[k].baddr == rs[k].pc && us[k].target == rs[k].npc
  {
    if bs != [] { UsesAreRecorded(p, bs[..|bs| - 1], s); }
  }

  lemma {:induction false} RunShape(p: Bpred, bs: seq<Branch>)
    requires Predictor.Ok(p)
    ensures var q := Run(p, bs);
      q.kind == p.kind && |q.btb| == |p.btb| && (q.ras.Some? <==> p.ras.Some?)
  {
    if bs != [] {
      RunShape(p, bs[..|bs| - 1]);
      StepParts(Run(p, bs[..|bs| - 1]), bs[|bs| - 1]);
    }
  }

  /** A taken branch whose predicted address was right had that address stored, whichever way
      the prediction was made; so skipping the write loses nothing. */
  lemma CorrectIsStored(p: Bpred, b: Branch, s: nat)
    requires Predictor.Ok(p) && b.pc != 0 && Recorded(b, s, |p.btb|, p.ras.Some?) && (b.op.ret ==> b.op.indir)
    ensures s < |p.btb| && Btb.HonestUse(p.btb[s], Btb.Use(b.pc, b.npc, Correct(p, b)))
  {
    assert Lookup(p, b.pc, b.op).target == PredictedTarget(p, b.pc, b.op, DirectionRec(p, b.pc, b.op));
  }

  /** Every return counts as an indirect jump. */
  predicate ReturnsIndirect(bs: seq<Branch>) {
    forall k :: 0 <= k < |bs| && bs[k].op.ret ==> bs[k].op.indir
  }

  lemma {:induction false} RowOfRun(c: Config, bs: seq<Branch>, s: nat)
    requires Create(c).Ready? && s < c.sets
    ensures Predictor.Ok(Create(c).p)
    ensures var p := Create(c).p;
      && |Run(p, bs).btb| == c.sets && |p.btb| == c.sets
      && Run(p, bs).btb[s] == Btb.TakenAll(Uses(p, bs, s), c.assoc)
  {
    CreateShape(c);
    var p := Create(c).p;
    RunShape(p, bs);
    if bs != [] {
      var rest, b := bs[..|bs| - 1], bs[|bs| - 1];
      RowOfRun(c, rest, s);
      RunShape(p, rest);
      StepParts(Run(p, rest), b);
      RowStep(Run(p, rest), Run(p, bs), b, s, Uses(p, rest, s), c.assoc);
    }
  }

  lemma RowStep(q: Bpred, r: Bpred, b: Branch, s: nat, us: seq<Btb.Use>, assoc: nat)
    requires Predictor.Ok(q) && Stepped(q, r, b) && s < |q.btb| && assoc > 0
    requires q.btb[s] == Btb.TakenAll(us, assoc)
    ensures var vs := if Recorded(b, s, |q.btb|, q.ras.Some?) then us + [Btb.Use(b.pc, b.npc, Correct(q, b))] else us;
      r.btb[s] == Btb.TakenAll(vs, assoc)
  {
    RecordedRow(q, r, b, s);
    TakenMore(us, Btb.Use(b.pc, b.npc, Correct(q, b)), assoc);
  }

  /** In a run of branches at nonzero addresses, what was reported as correct was stored. */
  lemma {:induction false} HonestOfRun(c: Config, bs: seq<Branch>, s: nat)
    requires Create(c).Ready? && s < c.sets && (forall k :: 0 <= k < |bs| ==> bs[k].pc != 0) && ReturnsIndirect(bs)
    ensures Predictor.Ok(Create(c).p) && Btb.Honest(Uses(Create(c).p, bs, s), c.assoc)
  {
    CreateShape(c);
    if bs != [] {
      var rest, b := bs[..|bs| - 1], bs[|bs| - 1];
      HonestOfRun(c, rest, s);
      RowOfRun(c, rest, s);
      RunShape(Create(c).p, rest);
      var q := Run(Create(c).p, rest);
      if Recorded(b, s, c.sets, q.ras.Some?) { HonestStep(q, b, s, Uses(Create(c).p, rest, s), c.assoc); }
    }
  }

  lemma HonestStep(q: Bpred, b: Branch, s: nat, us: seq<Btb.Use>, assoc: nat)
    requires Predictor.Ok(q) && s < |q.btb| && assoc > 0 && b.pc != 0 && (b.op.ret ==> b.op.indir)
    requires q.btb[s] == Btb.TakenAll(us, assoc) && Btb.Honest(us, assoc) && Recorded(b, s, |q.btb|, q.ras.Some?)
    ensures Btb.Honest(us + [Btb.Use(b.pc, b.npc, Correct(q, b))], assoc)
  {
    CorrectIsStored(q, b, s);
    TakenMore(us, Btb.Use(b.pc, b.npc, Correct(q, b)), assoc);
  }

  lemma {:induction false} UsesNonzero(p: Bpred, bs: seq<Branch>, s: nat)
    requires Predictor.Ok(p) && forall k :: 0 <= k < |bs| ==> bs[k].pc != 0
    ensures forall k :: 0 <= k < |Uses(p, bs, s)| ==> Uses(p, bs, s)[k].baddr != 0
  {
    if bs != [] { UsesNonzero(p, bs[..|bs| - 1], s); }
  }

  lemma RecordedRow(q: Bpred, r: Bpred, b: Branch, s: nat)
    requires Predictor.Ok(q) && Stepped(q, r, b) && s < |q.btb|
    ensures r.btb[s] ==
      if Recorded(b, s, |q.btb|, q.ras.Some?) then Btb.Taken(q.btb[s], b.pc, b.npc, Correct(q, b)) else q.btb[s]
  {
    assert r.btb[s] == NewRow(q, b, s);
  }

  lemma TakenMore(us: seq<Btb.Use>, u: Btb.Use, assoc: nat)
    requires assoc > 0
    ensures Btb.Honest(us, assoc) && Btb.HonestUse(Btb.TakenAll(us, assoc), u) ==> Btb.Honest(us + [u], assoc)
    ensures Btb.TakenAll(us + [u], assoc) == Btb.Taken(Btb.TakenAll(us, assoc), u.baddr, u.target, u.correct)
  {
    assert (us + [u])[..|us|] == us;
  }

  /** Main result: in every run, each set of the branch target buffer holds exactly the most
      recently taken distinct branches that fit, most recent first, each with the address it
      last went to.  (A return that were no indirect jump could be predicted right by the stack
      and so leave a stale target in place.) */
  lemma BtbOfRun(c: Config, bs: seq<Branch>, s: nat)
    requires Create(c).Ready? && s < c.sets && (forall k :: 0 <= k < |bs| ==> bs[k].pc != 0) && ReturnsIndirect(bs)
    ensures Predictor.Ok(Create(c).p)
    ensures var p := Create(c).p;
      var us := Uses(p, bs, s);
      && |Run(p, bs).btb| == c.sets
      && Btb.Lists(Run(p, bs).btb[s], Take(Recent(Btb.Branches(us)), c.assoc), us)
  {
    RowOfRun(c, bs, s);
    HonestOfRun(c, bs, s);
    Btb.SetHoldsMostRecent(Uses(Create(c).p, bs, s), c.assoc);
  }

  // ----- the return-address stack

  function Events(bs: seq<Branch>): seq<RS.Event> {
    if bs == [] then []
    else
      var rest, b := Events(bs[..|bs| - 1]), bs[|bs| - 1];
      if b.op.ctrl && b.op.ret then rest + [RS.Return]
      else if b.op.ctrl && b.op.call then rest + [RS.Call(b.pc)] else rest
  }

  lemma {:induction false} StackOfRun(p: Bpred, bs: seq<Branch>)
    requires Predictor.Ok(p) && p.ras.Some?
    ensures Run(p, bs).ras == Some(RS.Run(p.ras.value, Events(bs)))
  {
    if bs != [] {
      var rest, b := bs[..|bs| - 1], bs[|bs| - 1];
      StackOfRun(p, rest);
      StepParts(Run(p, rest), b);
      assert (Events(rest) + [RS.Return])[..|Events(rest)|] == Events(rest);
      assert (Events(rest) + [RS.Call(b.pc)])[..|Events(rest)|] == Events(rest);
    }
  }

  lemma {:induction false} EventsConcat(as': seq<Branch>, bs: seq<Branch>)
    ensures Events(as' + bs) == Events(as') + Events(bs)
  {
    if bs == [] {
      assert as' + bs == as';
    } else {
      EventsConcat(as', bs[..|bs| - 1]);
      assert (as' + bs)[..|as' + bs| - 1] == as' + bs[..|bs| - 1];
    }
  }

  /** Main result: in every run, a return is looked up to the address after its call when the
      calls between them are well nested and stay below the size of the stack. */
  lemma ReturnOfRun(p: Bpred, bs: seq<Branch>, i: nat, j: nat)
    requires Predictor.Ok(p) && p.ras.Some? && i < j < |bs|
    requires bs[i].op.ctrl && bs[i].op.call && !bs[i].op.ret && bs[j].op.ctrl && bs[j].op.ret
    requires RS.Nested(Events(bs[i + 1..j])) && RS.Shallower(Events(bs[i + 1..j]), |p.ras.value.slots|)
    ensures Lookup(Run(p, bs[..j]), bs[j].pc, bs[j].op).target == (bs[i].pc + 4) % WORD64
  {
    hide *;
    StackIsOk(p);
    StackOfRun(p, bs[..j]);
    LooksUpTop(Run(p, bs[..j]), bs[j].pc, bs[j].op);
    EventsAround(bs, i, j);
    RS.TopAfterCall(p.ras.value, Events(bs[..i]), bs[i].pc, Events(bs[i + 1..j]));
  }

  lemma StackIsOk(p: Bpred)
    requires Predictor.Ok(p) && p.ras.Some?
    ensures RS.Ok(p.ras.value)
  {
  }

  lemma LooksUpTop(q: Bpred, pc: nat, op: Op)
    requires Predictor.Ok(q) && q.ras.Some? && op.ctrl && op.ret
    ensures Lookup(q, pc, op).target == RS.Top(q.ras.value)
  {
  }

  lemma EventsAround(bs: seq<Branch>, i: nat, j: nat)
    requires i < j <= |bs| && bs[i].op.ctrl && bs[i].op.call && !bs[i].op.ret
    ensures Events(bs[..j]) == Events(bs[..i]) + [RS.Call(bs[i].pc)] + Events(bs[i + 1..j])
  {
    assert bs[..j] == bs[..i + 1] + bs[i + 1..j] && bs[..i + 1][..i] == bs[..i];
    EventsConcat(bs[..i + 1], bs[i + 1..j]);
  }

  // ----- the history registers

  /** The outcome of the branch goes into histories and counters. */
  predicate Trains(b: Branch, hasRas: bool) {
    b.op.ctrl && Conditional(b.op) && !b.op.Settled(hasRas)
  }

  function Outcomes(bs: seq<Branch>, hasRas: bool): seq<Outcome> {
    if bs == [] then []
    else
      var rest, b := Outcomes(bs[..|bs| - 1], hasRas), bs[|bs| - 1];
      if Trains(b, hasRas) then rest + [Outcome(b.pc, WentAway(b))] else rest
  }

  lemma {:induction false} RecordsOfRun(p: Bpred, bs: seq<Branch>)
    requires Predictor.Ok(p) && !p.kind.TwoBit?
    ensures Run(p, bs).twolev.(l2table := []) == RecordAll(p.twolev, Outcomes(bs, p.ras.Some?)).(l2table := [])
  {
    if bs != [] {
      var rest, b := bs[..|bs| - 1], bs[|bs| - 1];
      RecordsOfRun(p, rest);
      RunShape(p, rest);
      StepParts(Run(p, rest), b);
      RecordStep(Run(p, rest), Run(p, bs), b, p.twolev, Outcomes(rest, p.ras.Some?));
    }
  }

  lemma RecordStep(q: Bpred, r: Bpred, b: Branch, d: TwoLevel, os: seq<Outcome>)
    requires Predictor.Ok(q) && Stepped(q, r, b) && !q.kind.TwoBit? && |d.shiftregs| > 0
    requires q.twolev.(l2table := []) == RecordAll(d, os).(l2table := [])
    ensures var o := Outcome(b.pc, WentAway(b));
      r.twolev.(l2table := []) ==
        RecordAll(d, if Trains(b, q.ras.Some?) then os + [o] else os).(l2table := [])
  {
    var o := Outcome(b.pc, WentAway(b));
    assert (os + [o])[..|os|] == os;
    RecordIgnoresCounters(q.twolev, RecordAll(d, os), o);
  }

  lemma RecordIgnoresCounters(d: TwoLevel, e: TwoLevel, o: Outcome)
    requires d.(l2table := []) == e.(l2table := []) && |d.shiftregs| > 0
    ensures |e.shiftregs| > 0 && Record(d, o).(l2table := []) == Record(e, o).(l2table := [])
  {
    assert d.(l2table := []).shiftregs == e.(l2table := []).shiftregs;
    assert d.(l2table := []).width == e.(l2table := []).width;
  }

  /** Main result: in every run from creation, each history register is the binary number of
      the last `width` outcomes of the conditional branches mapped to it. */
  lemma HistoryOfRun(c: Config, bs: seq<Branch>, i: nat)
    requires Create(c).Ready? && !c.kind.TwoBit? && i < c.l1size
    ensures Predictor.Ok(Create(c).p)
    ensures var d := Run(Create(c).p, bs).twolev;
      && |d.shiftregs| == c.l1size
      && d.shiftregs[i] == Binary(Last(Mapped(Outcomes(bs, c.rasSize > 0), i, c.l1size), c.width))
  {
    CreateShape(c);
    var p := Create(c).p;
    RecordsOfRun(p, bs);
    var d, e := Run(p, bs).twolev, RecordAll(p.twolev, Outcomes(bs, c.rasSize > 0));
    assert d.(l2table := []).shiftregs == e.(l2table := []).shiftregs;
    HistoryIsRecentOutcomes(c.l1size, c.l2size, c.width, c.xor, Outcomes(bs, c.rasSize > 0), i);
  }

  // ----- the counts

  /** `odd` counts the returns, predicted from the stack, that do not count as indirect jumps. */
  ghost predicate Balanced(s: Stats, hasRas: bool, odd: nat) {
    && s.lookups == s.dirHits + s.misses && s.addrHits <= s.dirHits
    && s.jrSeen + odd == s.jrNonRasSeen + s.usedRas && s.usedRas == s.pops
    && s.jrHits <= s.jrNonRasHits + s.rasHits <= s.jrHits + odd
    && s.rasHits <= s.usedRas && s.jrNonRasHits <= s.jrNonRasSeen && s.jrHits <= s.addrHits
    && s.pops + s.pushes <= s.lookups && s.jrSeen <= s.lookups
    && (!hasRas ==> s.usedRas == 0 && s.pushes == 0 && odd == 0)
  }

  function OddReturn(op: Op, hasRas: bool): nat {
    if op.ctrl && op.ret && !op.indir && hasRas then 1 else 0
  }

  function OddReturns(bs: seq<Branch>, hasRas: bool): nat {
    if bs == [] then 0 else OddReturns(bs[..|bs| - 1], hasRas) + OddReturn(bs[|bs| - 1].op, hasRas)
  }

  lemma {:induction false} NoOddReturns(bs: seq<Branch>, hasRas: bool)
    requires ReturnsIndirect(bs)
    ensures OddReturns(bs, hasRas) == 0
  {
    if bs != [] { NoOddReturns(bs[..|bs| - 1], hasRas); }
  }

  /** The counts after the lookup of a branch. */
  function LookupStats(s: Stats, op: Op, hasRas: bool): Stats {
    s.(lookups := s.lookups + 1,
       pops := s.pops + (if op.ret && hasRas then 1 else 0),
       pushes := s.pushes + (if op.call && !op.ret && hasRas then 1 else 0))
  }

  lemma StepStats(p: Bpred, b: Branch)
    requires Predictor.Ok(p) && b.op.ctrl
    ensures exists rec: Rec ::
      && rec.ras == UsesStack(p, b)
      && Step(p, b).stats == CountUpdate(LookupStats(p.stats, b.op, p.ras.Some?), WentAway(b),
                                         Predicted(p, b) != RS.Fallthrough(b.pc), Correct(p, b), b.op, rec)
  {
    var f, pred := Lookup(p, b.pc, b.op), Predicted(p, b);
    LookupKeepsShape(p, b.pc, b.op);
    assert f.p.stats == LookupStats(p.stats, b.op, p.ras.Some?);
    assert f.rec.ras == UsesStack(p, b);
    if !Settled(p, b) {
      UpdateParts(f.p, b.pc, b.npc, WentAway(b), pred != RS.Fallthrough(b.pc), pred == b.npc, b.op, f.rec);
    }
  }

  lemma CountsBalance(s: Stats, taken: bool, predTaken: bool, correct: bool, op: Op, rec: Rec, hasRas: bool,
                      odd: nat)
    requires Balanced(s, hasRas, odd) && op.ctrl && rec.ras == (op.ret && hasRas) && (correct ==> predTaken == taken)
    ensures Balanced(CountUpdate(LookupStats(s, op, hasRas), taken, predTaken, correct, op, rec), hasRas,
                     odd + OddReturn(op, hasRas))
  {
  }

  lemma StepBalanced(p: Bpred, b: Branch, odd: nat)
    requires Predictor.Ok(p) && Balanced(p.stats, p.ras.Some?, odd)
    ensures Balanced(Step(p, b).stats, p.ras.Some?, odd + OddReturn(b.op, p.ras.Some?))
  {
    if b.op.ctrl {
      StepStats(p, b);
      var rec: Rec :| rec.ras == UsesStack(p, b)
        && Step(p, b).stats == CountUpdate(LookupStats(p.stats, b.op, p.ras.Some?), WentAway(b),
                                           Predicted(p, b) != RS.Fallthrough(b.pc), Correct(p, b), b.op, rec);
      CountsBalance(p.stats, WentAway(b), Predicted(p, b) != RS.Fallthrough(b.pc), Correct(p, b), b.op, rec,
                    p.ras.Some?, odd);
    }
  }

  /** Main result: over every run, each lookup is counted as one direction hit or miss, address
      hits are direction hits, pops and uses of the stack agree, and the indirect jumps seen are
      those that used the stack and those that did not, but for the returns that count as no
      indirect jump. */
  lemma {:induction false} RunBalanced(c: Config, bs: seq<Branch>)
    requires Create(c).Ready?
    ensures Predictor.Ok(Create(c).p)
    ensures Balanced(Run(Create(c).p, bs).stats, c.rasSize > 0, OddReturns(bs, c.rasSize > 0))
    ensures ReturnsIndirect(bs) ==> OddReturns(bs, c.rasSize > 0) == 0
  {
    CreateShape(c);
    if ReturnsIndirect(bs) { NoOddReturns(bs, c.rasSize > 0); }
    if bs != [] {
      RunBalanced(c, bs[..|bs| - 1]);
      RunShape(Create(c).p, bs[..|bs| - 1]);
      StepBalanced(Run(Create(c).p, bs[..|bs| - 1]), bs[|bs| - 1], OddReturns(bs[..|bs| - 1], c.rasSize > 0));
    }
  }
}
