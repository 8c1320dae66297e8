/** Capture of trace segments around cache misses.  Every trace line goes to a ring of recent
    lines and, while a segment is being captured, to a capture buffer; fifty cycles after the
    last miss the buffer is dumped. */
module Trace {
  import opened Bits

  datatype Text = StageLine(iseq: nat, stage: string) | EventLine(iseq: nat, event: string) | CycleLine
                | OtherLine(text: string)

  datatype Entry = Entry(cycle: int, text: Text)

  /** What the pipeline reports: a new cycle, a stage entered with the mask of its events, or any
      other line. */
  datatype Report = NewCycle(cycle: int) | NewStage(iseq: nat, stage: string, events: nat) | Other(entry: Entry)

  /** Pipeline events of a stage, one bit each. */
  const PEV_CACHEMISS := 0x01
  const PEV_TLBMISS := 0x02
  const PEV_MPOCCURED := 0x04
  const PEV_MPDETECT := 0x08
  const PEV_AGEN := 0x10

  datatype CapState = Idle | WithSnapshot | PostOnly

  const RING_SIZE := 128
  const POST_CYCLES := 50

  /** `ring` lists the lines the ring holds, oldest first; `dumps` all segments dumped so far. */
  datatype State = State(ring: seq<Entry>, buffer: seq<Entry>, cap: CapState, active: bool,
                         recentDump: bool, seen: nat, dumps: seq<seq<Entry>>)

  function Initial(): State {
    State([], [], Idle, false, false, 0, [])
  }

  function Last(s: seq<Entry>, n: nat): seq<Entry> {
    if |s| <= n then s else s[|s| - n..]
  }

  // ----- the operations

  /** Logs a line to the ring, and to the buffer while mirroring. */
  function Log(t: State, e: Entry): State {
    t.(ring := Last(t.ring + [e], RING_SIZE), buffer := if t.active then t.buffer + [e] else t.buffer)
  }

  function Dump(t: State): State {
    t.(dumps := t.dumps + [t.buffer], buffer := [], active := false, recentDump := true, cap := Idle, ring := [])
  }

  /** A cache miss opens a segment, or extends the one being captured. */
  function Miss(t: State): State {
    if t.cap.Idle? then
      if !t.recentDump then t.(buffer := Last(t.ring, RING_SIZE), active := true, seen := 0, cap := WithSnapshot)
      else t.(active := true, seen := 0, cap := PostOnly)
    else t.(seen := 0)
  }

  predicate Has(events: nat, event: nat) {
    And(events, event) != 0
  }

  /** The first of the events of a stage, in this order; none of them is no name. */
  function EventName(events: nat): string {
    if Has(events, PEV_CACHEMISS) then "i-cache-miss"
    else if Has(events, PEV_TLBMISS) then "i-tlb-miss"
    else if Has(events, PEV_MPOCCURED) then "mis-pred-branch-occured"
    else if Has(events, PEV_MPDETECT) then "mis-pred-branch-detected"
    else if Has(events, PEV_AGEN) then "address-generation"
    else ""
  }

  function Step(t: State, r: Report): State {
    match r
    case Other(e) => Log(t, e)
    case NewCycle(c) =>
      var t1 := Log(t, Entry(c, CycleLine));
      if t1.cap.Idle? then t1
      else
        var t2 := t1.(seen := t1.seen + 1);
        if t2.seen >= POST_CYCLES then Dump(t2) else t2
    case NewStage(iseq, stage, v) =>
      var t1 := Log(t, Entry(0, StageLine(iseq, stage)));
      var t2 := if Has(v, PEV_CACHEMISS) then Miss(t1) else t1;
      if EventName(v) != "" then Log(t2, Entry(0, EventLine(iseq, EventName(v)))) else t2
  }

  /** The state after the first k reports. */
  function RunTo(rs: seq<Report>, k: nat): State
    requires k <= |rs|
  {
    if k == 0 then Initial() else Step(RunTo(rs, k - 1), rs[k - 1])
  }

  // ----- the whole log, and segments described on it

  /** The lines one report logs, in order. */
  function Lines(r: Report): (ls: seq<Entry>)
    ensures |ls| > 0
  {
    match r
    case Other(e) => [e]
    case NewCycle(c) => [Entry(c, CycleLine)]
    case NewStage(iseq, stage, v) =>
      [Entry(0, StageLine(iseq, stage))] + if EventName(v) != "" then [Entry(0, EventLine(iseq, EventName(v)))] else []
  }

  /** A mask of one bit selects that bit. */
  lemma {:induction false} OneBit(v: nat, k: nat)
    ensures And(v, Pow2(k)) == Pow2(k) * (v / Pow2(k) % 2)
  {
    if k == 0 {
      AndMask(v, 1);
    } else {
      hide And;
      AndDouble(v, Pow2(k - 1));
      OneBit(v / 2, k - 1);
      DivDiv(v, 2, Pow2(k - 1));
      MulAssoc(2, Pow2(k - 1), v / Pow2(k) % 2);
    }
  }

  /** The events of a stage as bits. */
  lemma EventBits(v: nat)
    ensures Has(v, PEV_CACHEMISS) <==> v % 2 == 1
    ensures Has(v, PEV_TLBMISS) <==> v / 2 % 2 == 1
    ensures Has(v, PEV_MPOCCURED) <==> v / 4 % 2 == 1
    ensures Has(v, PEV_MPDETECT) <==> v / 8 % 2 == 1
    ensures Has(v, PEV_AGEN) <==> v / 16 % 2 == 1
  {
    OneBit(v, 0);
    OneBit(v, 1);
    OneBit(v, 2);
    OneBit(v, 3);
    OneBit(v, 4);
    hide And;
    assert Pow2(0) == 1 && Pow2(1) == 2 && Pow2(2) == 4 && Pow2(3) == 8 && Pow2(4) == 16;
  }

  lemma LowestBit(v: nat)
    ensures v % 32 == 0 ==> EventName(v) == ""
    ensures v % 2 == 1 ==> EventName(v) == "i-cache-miss"
    ensures v % 4 == 2 ==> EventName(v) == "i-tlb-miss"
    ensures v % 8 == 4 ==> EventName(v) == "mis-pred-branch-occured"
    ensures v % 16 == 8 ==> EventName(v) == "mis-pred-branch-detected"
    ensures v % 32 == 16 ==> EventName(v) == "address-generation"
  {
    hide Has;
    EventBits(v);
    LowBits(v);
  }

  lemma LowBits(v: nat)
    ensures v % 4 == 2 <==> v % 2 != 1 && v / 2 % 2 == 1
    ensures v % 8 == 4 <==> v % 2 != 1 && v / 2 % 2 != 1 && v / 4 % 2 == 1
    ensures v % 16 == 8 <==> v % 2 != 1 && v / 2 % 2 != 1 && v / 4 % 2 != 1 && v / 8 % 2 == 1
    ensures v % 32 == 16 <==>
      v % 2 != 1 && v / 2 % 2 != 1 && v / 4 % 2 != 1 && v / 8 % 2 != 1 && v / 16 % 2 == 1
    ensures v % 32 == 0 <==>
      v % 2 != 1 && v / 2 % 2 != 1 && v / 4 % 2 != 1 && v / 8 % 2 != 1 && v / 16 % 2 != 1
  {
    var h, q, e := v / 2, v / 4, v / 8;
    Halves(v);
    ModHalf(v, 2);
    ModHalf(v, 4);
    ModHalf(h, 2);
    ModHalf(v, 8);
    ModHalf(h, 4);
    ModHalf(q, 2);
    ModHalf(v, 16);
    ModHalf(h, 8);
    ModHalf(q, 4);
    ModHalf(e, 2);
  }

  lemma Halves(v: nat)
    ensures v / 2 / 2 == v / 4 && v / 4 / 2 == v / 8 && v / 8 / 2 == v / 16
  {
  }

  /** Main result: a stage logs its own line, and one more exactly if some of the five low bits of
      its mask is set: that line names the lowest of them. */
  lemma LinesOfStage(iseq: nat, stage: string, v: nat)
    ensures var own := Entry(0, StageLine(iseq, stage)); var ls := Lines(NewStage(iseq, stage, v));
      && (v % 32 == 0 ==> ls == [own])
      && (v % 2 == 1 ==> ls == [own, Entry(0, EventLine(iseq, "i-cache-miss"))])
      && (v % 4 == 2 ==> ls == [own, Entry(0, EventLine(iseq, "i-tlb-miss"))])
      && (v % 8 == 4 ==> ls == [own, Entry(0, EventLine(iseq, "mis-pred-branch-occured"))])
      && (v % 16 == 8 ==> ls == [own, Entry(0, EventLine(iseq, "mis-pred-branch-detected"))])
      && (v % 32 == 16 ==> ls == [own, Entry(0, EventLine(iseq, "address-generation"))])
  {
    LowestBit(v);
    hide EventName;
  }

  /** The lines logged by reports i to k - 1. */
  function Logged(rs: seq<Report>, i: nat, k: nat): seq<Entry>
    requires i <= k <= |rs|
    decreases k
  {
    if i == k then [] else Logged(rs, i, k - 1) + Lines(rs[k - 1])
  }

  predicate IsMiss(r: Report) {
    r.NewStage? && r.events % 2 == 1
  }

  /** The last miss before report k, or -1. */
  function LastMiss(rs: seq<Report>, k: nat): (m: int)
    requires k <= |rs|
    ensures -1 <= m < k
    ensures m >= 0 ==> IsMiss(rs[m])
    ensures forall j :: m < j < k ==> !IsMiss(rs[j])
  {
    if k == 0 then -1 else if IsMiss(rs[k - 1]) then k - 1 else LastMiss(rs, k - 1)
  }

  /** New cycles among reports i to k - 1. */
  function Cycles(rs: seq<Report>, i: nat, k: nat): nat
    requires i <= k <= |rs|
    decreases k
  {
    if i == k then 0 else Cycles(rs, i, k - 1) + (if rs[k - 1].NewCycle? then 1 else 0)
  }

  /** New cycles since the last miss, up to but not including report k. */
  function SinceMiss(rs: seq<Report>, k: nat): nat
    requires k <= |rs|
  {
    Cycles(rs, LastMiss(rs, k) + 1, k)
  }

  /** A segment opened by report p is still open before report k: no new cycle in between was
      the fiftieth since the last miss. */
  ghost predicate OpenAt(rs: seq<Report>, p: nat, k: nat)
    requires k <= |rs|
  {
    && p < k && IsMiss(rs[p])
    && forall q :: p + 1 < q <= k ==> SinceMiss(rs, q) < 50
  }

  /** The lines of a segment opened by report p: on the first segment the latest lines up to
      and including the stage line of p; then every line after that stage line. */
  function SegmentLines(rs: seq<Report>, p: nat, k: nat, first: bool): seq<Entry>
    requires p < k <= |rs|
  {
    (if first then Last(Logged(rs, 0, p) + Lines(rs[p])[..1], 128) else [])
    + Lines(rs[p])[1..] + Logged(rs, p + 1, k)
  }

  datatype Span = Span(start: int, end: int)

  /** The report that opened the segment being captured before report k. */
  function Opened(rs: seq<Report>, k: nat): (p: int)
    requires k <= |rs|
    ensures -1 <= p < k
  {
    if k == 0 then -1
    else if RunTo(rs, k - 1).cap.Idle? && !RunTo(rs, k).cap.Idle? then k - 1
    else Opened(rs, k - 1)
  }

  /** The reports that opened and closed each segment dumped before report k. */
  function Spans(rs: seq<Report>, k: nat): seq<Span>
    requires k <= |rs|
  {
    if k == 0 then []
    else if |RunTo(rs, k).dumps| > |RunTo(rs, k - 1).dumps| then Spans(rs, k - 1) + [Span(Opened(rs, k - 1), k - 1)]
    else Spans(rs, k - 1)
  }

  function EndOf(spans: seq<Span>): int {
    if spans == [] then -1 else spans[|spans| - 1].end
  }

  /** A dumped segment runs from the first miss after the previous segment to the first new
      cycle that is the fiftieth since the last miss, and nothing in it is lost. */
  ghost predicate Exact(rs: seq<Report>, span: Span, before: int, lines: seq<Entry>, first: bool) {
    var p, q := span.start, span.end;
    && before < p < q < |rs| && 0 <= p
    && LastMiss(rs, p) <= before && OpenAt(rs, p, q)
    && rs[q].NewCycle? && SinceMiss(rs, q + 1) == 50
    && lines == SegmentLines(rs, p, q + 1, first)
  }

  // ----- one step

  lemma LastAppend(s: seq<Entry>, x: seq<Entry>, n: nat)
    ensures Last(Last(s, n) + x, n) == Last(s + x, n)
  {
  }

  function LogAll(t: State, ls: seq<Entry>): State {
    if ls == [] then t else Log(LogAll(t, ls[..|ls| - 1]), ls[|ls| - 1])
  }

  lemma {:induction false} LogAllMeans(t: State, ls: seq<Entry>)
    requires ls != []
    ensures LogAll(t, ls) ==
      t.(ring := Last(t.ring + ls, RING_SIZE), buffer := if t.active then t.buffer + ls else t.buffer)
  {
    var xs, e := ls[..|ls| - 1], ls[|ls| - 1];
    assert xs + [e] == ls;
    assert (t.ring + xs) + [e] == t.ring + ls && (t.buffer + xs) + [e] == t.buffer + ls;
    if xs == [] {
      assert t.ring + xs == t.ring && t.buffer + xs == t.buffer;
    } else {
      LogAllMeans(t, xs);
      LastAppend(t.ring + xs, [e], RING_SIZE);
    }
  }

  lemma OneLine(t: State, e: Entry)
    ensures LogAll(t, [e]) == Log(t, e)
  {
    assert LogAll(t, []) == t;
  }

  lemma TwoLines(t: State, d: Entry, e: Entry)
    ensures LogAll(t, [d, e]) == Log(Log(t, d), e)
  {
    OneLine(t, d);
    assert [d, e][..1] == [d];
  }

  lemma StepOther(t: State, r: Report)
    requires !IsMiss(r) && !r.NewCycle?
    ensures Step(t, r) == LogAll(t, Lines(r))
  {
    match r
    case Other(e) => OneLine(t, e);
    case NewStage(iseq, stage, v) =>
      var d := Entry(0, StageLine(iseq, stage));
      OneLine(t, d);
      TwoLines(t, d, Entry(0, EventLine(iseq, EventName(v))));
      EventBits(v);
      assert EventName(v) == "" ==> Lines(r) == [d];
  }

  lemma StepMiss(t: State, r: Report)
    requires IsMiss(r)
    ensures |Lines(r)| == 2 && Step(t, r) == Log(Miss(Log(t, Lines(r)[0])), Lines(r)[1])
  {
    EventBits(r.events);
  }

  predicate Dumps(t: State, r: Report) {
    r.NewCycle? && !t.cap.Idle? && t.seen + 1 >= POST_CYCLES
  }

  // ----- what every run keeps

  ghost predicate Flags(rs: seq<Report>, k: nat)
    requires k <= |rs|
  {
    var t, spans := RunTo(rs, k), Spans(rs, k);
    && (t.active <==> !t.cap.Idle?)
    && |spans| == |t.dumps| && (t.recentDump <==> |t.dumps| > 0) && EndOf(spans) < k
    && (t.cap.Idle? ==> t.buffer == [])
    && (t.cap.WithSnapshot? ==> !t.recentDump) && (t.cap.PostOnly? ==> t.recentDump)
  }

  /** Until the first dump, the ring holds the last lines logged. */
  ghost predicate RingIsLast(rs: seq<Report>, k: nat)
    requires k <= |rs|
  {
    !RunTo(rs, k).recentDump ==> RunTo(rs, k).ring == Last(Logged(rs, 0, k), RING_SIZE)
  }

  /** While idle, there has been no miss since the last segment. */
  ghost predicate QuietWhileIdle(rs: seq<Report>, k: nat)
    requires k <= |rs|
  {
    RunTo(rs, k).cap.Idle? ==> LastMiss(rs, k) <= EndOf(Spans(rs, k))
  }

  ghost predicate Capturing(rs: seq<Report>, k: nat)
    requires k <= |rs|
  {
    var t, p, end := RunTo(rs, k), Opened(rs, k), EndOf(Spans(rs, k));
    !t.cap.Idle? ==>
      && 0 <= p < k && end < p && LastMiss(rs, p) <= end && OpenAt(rs, p, k)
      && t.seen == SinceMiss(rs, k) < POST_CYCLES
      && t.buffer == SegmentLines(rs, p, k, !t.recentDump)
  }

  lemma FlagsStep(rs: seq<Report>, k: nat)
    requires k < |rs| && Flags(rs, k)
    ensures Flags(rs, k + 1)
  {
    if IsMiss(rs[k]) {
      StepMiss(RunTo(rs, k), rs[k]);
    } else if !rs[k].NewCycle? {
      StepOther(RunTo(rs, k), rs[k]);
      LogAllMeans(RunTo(rs, k), Lines(rs[k]));
    }
  }

  lemma SpansStep(rs: seq<Report>, k: nat)
    requires k < |rs| && Flags(rs, k)
    ensures var t := RunTo(rs, k);
      Spans(rs, k + 1) == if Dumps(t, rs[k]) then Spans(rs, k) + [Span(Opened(rs, k), k)] else Spans(rs, k)
    ensures Opened(rs, k + 1) == if RunTo(rs, k).cap.Idle? && IsMiss(rs[k]) then k else Opened(rs, k)
    ensures RunTo(rs, k + 1).cap.Idle? <==>
      Dumps(RunTo(rs, k), rs[k]) || (RunTo(rs, k).cap.Idle? && !IsMiss(rs[k]))
  {
    if IsMiss(rs[k]) {
      StepMiss(RunTo(rs, k), rs[k]);
    } else if !rs[k].NewCycle? {
      StepOther(RunTo(rs, k), rs[k]);
      LogAllMeans(RunTo(rs, k), Lines(rs[k]));
    }
  }

  lemma StepRing(t: State, r: Report)
    requires !Dumps(t, r)
    ensures Step(t, r).ring == Last(t.ring + Lines(r), RING_SIZE)
  {
    if IsMiss(r) {
      StepMiss(t, r);
      var d, e := Lines(r)[0], Lines(r)[1];
      LastAppend(t.ring + [d], [e], RING_SIZE);
      assert (t.ring + [d]) + [e] == t.ring + Lines(r);
    } else if !r.NewCycle? {
      StepOther(t, r);
      LogAllMeans(t, Lines(r));
    }
  }

  lemma RingStep(rs: seq<Report>, k: nat)
    requires k < |rs| && RingIsLast(rs, k)
    ensures RingIsLast(rs, k + 1)
  {
    var t := RunTo(rs, k);
    if Dumps(t, rs[k]) {
      assert Step(t, rs[k]).recentDump;
    } else {
      StepRing(t, rs[k]);
      LastAppend(Logged(rs, 0, k), Lines(rs[k]), RING_SIZE);
      KeepsRecent(t, rs[k]);
    }
  }

  lemma KeepsRecent(t: State, r: Report)
    ensures t.recentDump ==> Step(t, r).recentDump
    ensures !Dumps(t, r) ==> Step(t, r).recentDump == t.recentDump && Step(t, r).dumps == t.dumps
  {
  }

  lemma SinceMissStep(rs: seq<Report>, k: nat)
    requires k < |rs|
    ensures SinceMiss(rs, k + 1) == if IsMiss(rs[k]) then 0 else SinceMiss(rs, k) + (if rs[k].NewCycle? then 1 else 0)
  {
  }

  lemma QuietStep(rs: seq<Report>, k: nat)
    requires k < |rs| && Flags(rs, k) && QuietWhileIdle(rs, k)
    ensures QuietWhileIdle(rs, k + 1)
  {
    SpansStep(rs, k);
  }

  lemma SegmentMore(rs: seq<Report>, p: nat, k: nat, first: bool)
    requires p < k < |rs|
    ensures SegmentLines(rs, p, k + 1, first) == SegmentLines(rs, p, k, first) + Lines(rs[k])
  {
  }

  /** A miss while idle opens a segment. */
  lemma OpenStep(rs: seq<Report>, k: nat)
    requires k < |rs| && Flags(rs, k) && RingIsLast(rs, k) && QuietWhileIdle(rs, k)
    requires RunTo(rs, k).cap.Idle? && IsMiss(rs[k])
    ensures Capturing(rs, k + 1)
  {
    var t := RunTo(rs, k);
    SpansStep(rs, k);
    SinceMissStep(rs, k);
    StepMiss(t, rs[k]);
    KeepsRecent(t, rs[k]);
    OpenedBuffer(t, rs[k]);
    if !t.recentDump {
      LastAppend(Logged(rs, 0, k), Lines(rs[k])[..1], RING_SIZE);
    }
    assert Logged(rs, k + 1, k + 1) == [];
  }

  lemma OpenedBuffer(t: State, r: Report)
    requires t.cap.Idle? && IsMiss(r) && !t.active && t.buffer == []
    ensures Step(t, r).seen == 0
    ensures Step(t, r).buffer == (if !t.recentDump then Last(t.ring + Lines(r)[..1], RING_SIZE) else []) + Lines(r)[1..]
  {
    StepMiss(t, r);
    assert Lines(r)[..1] == [Lines(r)[0]] && Lines(r)[1..] == [Lines(r)[1]];
  }

  /** While a segment is captured, every line goes to the buffer and new cycles are counted. */
  lemma CapturedStep(t: State, r: Report)
    requires !t.cap.Idle? && t.active && !Dumps(t, r)
    ensures Step(t, r).buffer == t.buffer + Lines(r)
    ensures Step(t, r).seen == if IsMiss(r) then 0 else t.seen + (if r.NewCycle? then 1 else 0)
  {
    if IsMiss(r) {
      StepMiss(t, r);
      assert (t.buffer + [Lines(r)[0]]) + [Lines(r)[1]] == t.buffer + Lines(r);
    } else if !r.NewCycle? {
      StepOther(t, r);
      LogAllMeans(t, Lines(r));
    }
  }

  lemma ExtendStep(rs: seq<Report>, k: nat)
    requires k < |rs| && Flags(rs, k) && Capturing(rs, k)
    requires !RunTo(rs, k).cap.Idle? && !Dumps(RunTo(rs, k), rs[k])
    ensures Capturing(rs, k + 1)
  {
    SpansStep(rs, k);
    SinceMissStep(rs, k);
    CapturedStep(RunTo(rs, k), rs[k]);
    KeepsRecent(RunTo(rs, k), rs[k]);
    SegmentMore(rs, Opened(rs, k), k, !RunTo(rs, k).recentDump);
    StaysOpen(rs, Opened(rs, k), k);
  }

  lemma StaysOpen(rs: seq<Report>, p: nat, k: nat)
    requires k < |rs| && OpenAt(rs, p, k) && SinceMiss(rs, k + 1) < POST_CYCLES
    ensures OpenAt(rs, p, k + 1)
  {
  }

  ghost predicate Inv(rs: seq<Report>, k: nat)
    requires k <= |rs|
  {
    Flags(rs, k) && RingIsLast(rs, k) && QuietWhileIdle(rs, k) && Capturing(rs, k)
  }

  lemma {:induction false} InvHolds(rs: seq<Report>, k: nat)
    requires k <= |rs|
    ensures Inv(rs, k)
  {
    if k > 0 {
      var j := k - 1;
      InvHolds(rs, j);
      FlagsStep(rs, j);
      RingStep(rs, j);
      QuietStep(rs, j);
      SpansStep(rs, j);
      if RunTo(rs, j).cap.Idle? {
        if IsMiss(rs[j]) { OpenStep(rs, j); }
      } else if !Dumps(RunTo(rs, j), rs[j]) {
        ExtendStep(rs, j);
      }
    }
  }

  /** Mirroring is on exactly while a segment is being captured. */
  lemma MirrorsWhileCapturing(rs: seq<Report>, k: nat)
    requires k <= |rs|
    ensures RunTo(rs, k).active <==> !RunTo(rs, k).cap.Idle?
  {
    InvHolds(rs, k);
  }

  /** The dump of a captured segment is exact. */
  lemma DumpStep(rs: seq<Report>, k: nat)
    requires k < |rs| && Inv(rs, k) && Dumps(RunTo(rs, k), rs[k])
    ensures RunTo(rs, k + 1).dumps ==
      RunTo(rs, k).dumps + [SegmentLines(rs, Opened(rs, k), k + 1, RunTo(rs, k).dumps == [])]
    ensures Exact(rs, Span(Opened(rs, k), k), EndOf(Spans(rs, k)),
                  SegmentLines(rs, Opened(rs, k), k + 1, RunTo(rs, k).dumps == []), RunTo(rs, k).dumps == [])
  {
    DumpBuffer(RunTo(rs, k), rs[k]);
    SegmentMore(rs, Opened(rs, k), k, !RunTo(rs, k).recentDump);
    DumpExact(rs, k);
  }

  lemma DumpBuffer(t: State, r: Report)
    requires Dumps(t, r) && t.active
    ensures Step(t, r).dumps == t.dumps + [t.buffer + Lines(r)]
  {
  }

  lemma DumpExact(rs: seq<Report>, k: nat)
    requires k < |rs| && Inv(rs, k) && Dumps(RunTo(rs, k), rs[k])
    ensures Exact(rs, Span(Opened(rs, k), k), EndOf(Spans(rs, k)),
                  SegmentLines(rs, Opened(rs, k), k + 1, RunTo(rs, k).dumps == []), RunTo(rs, k).dumps == [])
  {
    SinceMissStep(rs, k);
    ExactIs(rs, Opened(rs, k), k, EndOf(Spans(rs, k)), RunTo(rs, k).dumps == []);
  }

  lemma ExactIs(rs: seq<Report>, p: int, q: nat, before: int, first: bool)
    requires before < p < q < |rs| && 0 <= p && LastMiss(rs, p) <= before && OpenAt(rs, p, q)
    requires rs[q].NewCycle? && SinceMiss(rs, q + 1) == POST_CYCLES
    ensures Exact(rs, Span(p, q), before, SegmentLines(rs, p, q + 1, first), first)
  {
  }

  /** Main result: every segment ever dumped runs from the first miss after the one before to
      the fiftieth new cycle after the last miss in it, and holds exactly the lines logged
      meanwhile, none lost or repeated; only the first is preceded by a snapshot. */
  lemma {:induction false} SegmentsExact(rs: seq<Report>, k: nat, i: nat)
    requires k <= |rs| && i < |RunTo(rs, k).dumps|
    ensures |Spans(rs, k)| == |RunTo(rs, k).dumps|
    ensures Exact(rs, Spans(rs, k)[i], if i == 0 then -1 else Spans(rs, k)[i - 1].end, RunTo(rs, k).dumps[i], i == 0)
    decreases k
  {
    InvHolds(rs, k);
    var j := k - 1;
    InvHolds(rs, j);
    SpansStep(rs, j);
    if Dumps(RunTo(rs, j), rs[j]) {
      DumpStep(rs, j);
      if i < |RunTo(rs, j).dumps| { SegmentsExact(rs, j, i); }
    } else {
      KeepsRecent(RunTo(rs, j), rs[j]);
      SegmentsExact(rs, j, i);
    }
  }

  /** Nothing is dumped but whole segments, and a segment is dumped as soon as it is complete:
      no open segment has seen fifty new cycles since its last miss. */
  lemma NoLateDump(rs: seq<Report>, k: nat)
    requires k <= |rs| && !RunTo(rs, k).cap.Idle?
    ensures SinceMiss(rs, k) < 50 && RunTo(rs, k).seen == SinceMiss(rs, k)
  {
    InvHolds(rs, k);
  }
}
