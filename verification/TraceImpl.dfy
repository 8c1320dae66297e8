/** The trace capture in place: the overwrite ring, the growing capture buffer and the state
    machine that drives them, proved to do what module Trace says. */
module TraceImpl {
  import opened Trace

  datatype Slot = Slot(valid: bool, entry: Entry)

  const NO_ENTRY := Entry(0, OtherLine(""))

  function Min(a: nat, b: nat): nat {
    if a < b then a else b
  }

  /** The n slots from index tail on, round the end of the ring. */
  function Window(buf: seq<Slot>, tail: nat, n: nat): (ss: seq<Slot>)
    requires |buf| == RING_SIZE
    ensures |ss| == n
  {
    if n == 0 then [] else Window(buf, tail, n - 1) + [buf[(tail + n - 1) % RING_SIZE]]
  }

  lemma {:induction false} WindowAt(buf: seq<Slot>, tail: nat, n: nat, k: nat)
    requires |buf| == RING_SIZE && k < n
    ensures Window(buf, tail, n)[k] == buf[(tail + k) % RING_SIZE]
  {
    if k < n - 1 { WindowAt(buf, tail, n - 1, k); }
  }

  /** Writing the slot after the window leaves the window alone. */
  lemma {:induction false} WindowKept(buf: seq<Slot>, tail: nat, m: nat, n: nat, x: Slot)
    requires |buf| == RING_SIZE && tail < RING_SIZE && m <= n < RING_SIZE
    ensures Window(buf[(tail + n) % RING_SIZE := x], tail, m) == Window(buf, tail, m)
  {
    if m > 0 { WindowKept(buf, tail, m - 1, n, x); }
  }

  /** The window without its oldest slot. */
  lemma {:induction false} WindowTail(buf: seq<Slot>, tail: nat, n: nat)
    requires |buf| == RING_SIZE && tail < RING_SIZE && n > 0
    ensures Window(buf, (tail + 1) % RING_SIZE, n - 1) == Window(buf, tail, n)[1..]
  {
    if n > 1 {
      WindowTail(buf, tail, n - 1);
      NextIndex(tail, n);
    }
  }

  lemma NextIndex(tail: nat, n: nat)
    requires tail < RING_SIZE && n > 1
    ensures ((tail + 1) % RING_SIZE + n - 2) % RING_SIZE == (tail + n - 1) % RING_SIZE
  {
  }

  function SlotIndex(start: nat, k: nat): (i: nat)
    ensures i < RING_SIZE
  {
    (start + k) % RING_SIZE
  }

  lemma NextSlot(tail: nat, d: nat)
    ensures (SlotIndex(tail, d) + 1) % RING_SIZE == SlotIndex(tail, d + 1)
  {
  }

  lemma BackIndex(head: nat, tail: nat, total: nat, m: nat, k: nat)
    requires m <= total <= RING_SIZE && k < m && head == (tail + total) % RING_SIZE
    ensures ((head + RING_SIZE - m) % RING_SIZE + k) % RING_SIZE == (tail + (total - m + k)) % RING_SIZE
  {
  }

  /** Number of entries, from the two indices and the flag. */
  function CountOf(head: nat, tail: nat, full: bool): (n: nat)
    requires head < RING_SIZE && tail < RING_SIZE
    ensures n <= RING_SIZE && (full <==> n == RING_SIZE)
    ensures (full ==> head == tail) ==> head == (tail + n) % RING_SIZE
  {
    if full then RING_SIZE else if head >= tail then head - tail else RING_SIZE - (tail - head)
  }

  function Entries(ss: seq<Slot>): (es: seq<Entry>)
    ensures |es| == |ss| && forall k :: 0 <= k < |ss| ==> es[k] == ss[k].entry
  {
    seq(|ss|, k requires 0 <= k < |ss| => ss[k].entry)
  }

  ghost predicate AllValid(ss: seq<Slot>) {
    forall k :: 0 <= k < |ss| ==> ss[k].valid
  }

  /** What a push makes of the window: one more slot, at the cost of the oldest when full. */
  lemma Pushed(buf: seq<Slot>, head: nat, tail: nat, full: bool, x: Slot)
    requires |buf| == RING_SIZE && head < RING_SIZE && tail < RING_SIZE && (full ==> head == tail)
    ensures var head', tail' := (head + 1) % RING_SIZE, if full then (tail + 1) % RING_SIZE else tail;
      var w := Window(buf, tail, CountOf(head, tail, full));
      Window(buf[head := x], tail', CountOf(head', tail', head' == tail')) == (if full then w[1..] else w) + [x]
  {
    if full { PushedFull(buf, head, x); } else { PushedRoom(buf, head, tail, x); }
  }

  lemma PushedFull(buf: seq<Slot>, head: nat, x: Slot)
    requires |buf| == RING_SIZE && head < RING_SIZE
    ensures Window(buf[head := x], (head + 1) % RING_SIZE, RING_SIZE) == Window(buf, head, RING_SIZE)[1..] + [x]
  {
    var t := (head + 1) % RING_SIZE;
    assert (t + (RING_SIZE - 1)) % RING_SIZE == head;
    WindowKept(buf, t, RING_SIZE - 1, RING_SIZE - 1, x);
    WindowTail(buf, head, RING_SIZE);
  }

  lemma PushedRoom(buf: seq<Slot>, head: nat, tail: nat, x: Slot)
    requires |buf| == RING_SIZE && head < RING_SIZE && tail < RING_SIZE
    ensures var n, h := CountOf(head, tail, false), (head + 1) % RING_SIZE;
      && CountOf(h, tail, h == tail) == n + 1
      && Window(buf[head := x], tail, n + 1) == Window(buf, tail, n) + [x]
  {
    var n := CountOf(head, tail, false);
    RoomIndex(head, tail, n);
    WindowKept(buf, tail, n, n, x);
  }

  lemma RoomIndex(head: nat, tail: nat, n: nat)
    requires head < RING_SIZE && tail < RING_SIZE && n == CountOf(head, tail, false)
    ensures n < RING_SIZE && (tail + n) % RING_SIZE == head
  {
  }

  class RingBuffer {
    const buffer: array<Slot>
    var head: nat
    var tail: nat
    var full: bool

    ghost predicate Indices()
      reads this
    {
      buffer.Length == RING_SIZE && head < RING_SIZE && tail < RING_SIZE && (full ==> head == tail)
    }

    ghost function Slots(): (ss: seq<Slot>)
      requires Indices()
      reads this, buffer
    {
      Window(buffer[..], tail, CountOf(head, tail, full))
    }

    ghost predicate Valid()
      reads this, buffer
    {
      Indices() && AllValid(Slots())
    }

    /** The entries, oldest first. */
    ghost function Contents(): (es: seq<Entry>)
      requires Indices()
      reads this, buffer
    {
      Entries(Slots())
    }

    constructor ()
      ensures Valid() && Contents() == [] && fresh(buffer)
    {
      buffer := new Slot[RING_SIZE](_ => Slot(false, NO_ENTRY));
      head, tail, full := 0, 0, false;
      new;
      assert CountOf(head, tail, full) == 0;
    }

    method Clear()
      requires buffer.Length == RING_SIZE
      modifies this, buffer
      ensures Valid() && Contents() == []
    {
      head, tail, full := 0, 0, false;
      for i := 0 to RING_SIZE
        invariant head == tail == 0 && !full
      {
        buffer[i] := Slot(false, NO_ENTRY);
      }
    }

    method PushRaw(e: Entry)
      requires Valid()
      modifies this, buffer
      ensures Valid() && Contents() == Last(old(Contents()) + [e], RING_SIZE)
    {
      Pushed(buffer[..], head, tail, full, Slot(true, e));
      buffer[head] := Slot(true, e);
      AdvanceHead();
    }

    method AdvanceHead()
      requires Indices()
      modifies this
      ensures Indices() && head == (old(head) + 1) % RING_SIZE
      ensures tail == (if old(full) then (old(tail) + 1) % RING_SIZE else old(tail)) && full == (head == tail)
    {
      head := (head + 1) % RING_SIZE;
      if full { tail := (tail + 1) % RING_SIZE; }
      full := head == tail;
    }

    lemma SlotIs(k: nat)
      requires Valid() && k < CountOf(head, tail, full)
      ensures var x := buffer[SlotIndex(tail, k)]; x.valid && x.entry == Contents()[k]
    {
      WindowAt(buffer[..], tail, CountOf(head, tail, full), k);
    }

    /** Visits the entries from the oldest to the newest. */
    method Visit() returns (es: seq<Entry>)
      requires Valid()
      ensures es == Contents()
    {
      es := [];
      if !full && head == tail { return; }
      var i, remaining := tail, CountOf(head, tail, full);
      ghost var n := remaining;
      while remaining > 0
        invariant remaining <= n && i == SlotIndex(tail, n - remaining)
        invariant es == Contents()[..n - remaining]
      {
        SlotIs(n - remaining);
        if buffer[i].valid { es := es + [buffer[i].entry]; }
        NextSlot(tail, n - remaining);
        i := (i + 1) % RING_SIZE;
        remaining := remaining - 1;
      }
    }

    ghost predicate SlotHolds(i: nat, e: Entry)
      requires Indices() && i < RING_SIZE
      reads this, buffer
    {
      buffer[i] == Slot(true, e)
    }

    lemma FromBack(m: nat, k: nat)
      requires Valid() && k < m <= |Contents()|
      ensures SlotHolds(((head + RING_SIZE - m) % RING_SIZE + k) % RING_SIZE, Last(Contents(), m)[k])
    {
      var total := CountOf(head, tail, full);
      BackIndex(head, tail, total, m, k);
      SlotIs(total - m + k);
    }

    /** Copies the latest entries, at most n and at most cap of them. */
    method CopyLast(n: nat, dst: array<Entry>, cap: nat) returns (copied: nat)
      requires Valid() && cap <= dst.Length
      modifies dst
      ensures copied == Min(Min(n, |Contents()|), cap) && dst[..copied] == Last(Contents(), copied)
    {
      if cap == 0 || (!full && head == tail) { return 0; }
      var m := Min(Min(n, CountOf(head, tail, full)), cap);
      var start := (head + RING_SIZE - m) % RING_SIZE;
      forall k | 0 <= k < m ensures SlotHolds(SlotIndex(start, k), Last(Contents(), m)[k]) {
        FromBack(m, k);
      }
      copied := CopyFrom(start, m, Last(Contents(), m), dst);
    }

    /** Copies the valid ones of m slots from start on; here all are, and hold es. */
    method CopyFrom(start: nat, m: nat, ghost es: seq<Entry>, dst: array<Entry>) returns (copied: nat)
      requires Indices() && |es| == m <= dst.Length
      requires forall k {:trigger SlotIndex(start, k)} :: 0 <= k < m ==> SlotHolds(SlotIndex(start, k), es[k])
      modifies dst
      ensures copied == m && dst[..m] == es
    {
      copied := 0;
      for k := 0 to m
        invariant copied == k && dst[..k] == es[..k]
      {
        var idx := SlotIndex(start, k);
        assert SlotHolds(idx, es[k]);
        if buffer[idx].valid {
          dst[copied] := buffer[idx].entry;
          copied := copied + 1;
        }
      }
      assert es[..m] == es;
    }
  }

  class CaptureBuf {
    var v: array<Entry>
    var len: nat

    ghost predicate Valid()
      reads this, v
    {
      len <= v.Length
    }

    ghost function Contents(): seq<Entry>
      requires Valid()
      reads this, v
    {
      v[..len]
    }

    constructor (cap: nat)
      ensures Valid() && Contents() == [] && fresh(v)
    {
      v := new Entry[cap](_ => NO_ENTRY);
      len := 0;
    }

    method Reset()
      requires Valid()
      modifies this`len
      ensures Valid() && Contents() == []
    {
      len := 0;
    }

    /** Doubles the buffer, from 256 entries on, until `need` more entries fit. */
    method Grow(need: nat)
      requires Valid()
      modifies this`v
      ensures Valid() && len + need <= v.Length && Contents() == old(Contents())
      ensures v == old(v) || fresh(v)
    {
      if len + need <= v.Length { return; }
      var ncap := if v.Length > 0 then v.Length else 256;
      while ncap < len + need
        invariant ncap > 0
        decreases len + need - ncap
      {
        ncap := ncap * 2;
      }
      var w := new Entry[ncap](_ => NO_ENTRY);
      for i := 0 to len
        invariant v == old(v) && v[..] == old(v[..]) && w[..i] == v[..i]
      {
        w[i] := v[i];
      }
      v := w;
    }

    method Append(e: Entry)
      requires Valid()
      modifies this, v
      ensures Valid() && Contents() == old(Contents()) + [e]
      ensures v == old(v) || fresh(v)
    {
      Grow(1);
      v[len] := e;
      len := len + 1;
    }
  }

  /** The trace state: static variables of the original, and the file the segments go to. */
  class Tracer {
    const ring: RingBuffer
    const capbuf: CaptureBuf
    const before: array<Entry>
    var capState: CapState
    var capActive: bool
    var recentDump: bool
    var seen: nat
    var dumps: seq<seq<Entry>>

    ghost function Parts(): set<object>
      reads capbuf
    {
      {ring, ring.buffer, capbuf, capbuf.v, before}
    }

    ghost predicate Valid()
      reads this, Parts(), capbuf
    {
      ring.Valid() && capbuf.Valid() && before != capbuf.v && before.Length == 512
    }

    ghost function View(): State
      requires Valid()
      reads this, Parts(), capbuf
    {
      State(ring.Contents(), capbuf.Contents(), capState, capActive, recentDump, seen, dumps)
    }

    constructor ()
      ensures Valid() && View() == Initial() && fresh(Parts())
    {
      ring := new RingBuffer();
      capbuf := new CaptureBuf(512);
      before := new Entry[512](_ => NO_ENTRY);
      capState, capActive, recentDump, seen, dumps := Idle, false, false, 0, [];
    }

    method RbLogf(e: Entry)
      requires Valid()
      modifies ring, ring.buffer, capbuf, capbuf.v
      ensures Valid() && View() == Log(old(View()), e)
      ensures capbuf.v == old(capbuf.v) || fresh(capbuf.v)
    {
      ring.PushRaw(e);
      if capActive { capbuf.Append(e); }
    }

    /** Fills the capture buffer with the latest lines of the ring. */
    method SnapshotBefore(n: nat)
      requires Valid() && RING_SIZE <= n
      modifies capbuf, capbuf.v, before
      ensures Valid() && View() == old(View()).(buffer := Last(old(View()).ring, RING_SIZE))
      ensures capbuf.v == old(capbuf.v) || fresh(capbuf.v)
    {
      var got := ring.CopyLast(n, before, before.Length);
      capbuf.Reset();
      for i := 0 to got
        invariant capbuf.Valid() && capbuf.Contents() == before[..i] && before != capbuf.v
        invariant before[..got] == Last(ring.Contents(), got)
        invariant capbuf.v == old(capbuf.v) || fresh(capbuf.v)
      {
        capbuf.Append(before[i]);
      }
    }

    method DumpAndReset()
      requires Valid()
      modifies this, capbuf, ring, ring.buffer
      ensures Valid() && View() == Dump(old(View())) && capbuf.v == old(capbuf.v)
    {
      dumps := dumps + [capbuf.v[..capbuf.len]];
      capbuf.Reset();
      capActive := false;
      recentDump := true;
      capState := Idle;
      ring.Clear();
    }

    method ReportLine(e: Entry)
      requires Valid()
      modifies ring, ring.buffer, capbuf, capbuf.v
      ensures Valid() && View() == Step(old(View()), Other(e))
    {
      RbLogf(e);
    }

    method ReportCycle(cycle: int)
      requires Valid()
      modifies this, ring, ring.buffer, capbuf, capbuf.v
      ensures Valid() && View() == Step(old(View()), NewCycle(cycle))
    {
      RbLogf(Entry(cycle, CycleLine));
      if capState != Idle {
        seen := seen + 1;
        if seen >= POST_CYCLES { DumpAndReset(); }
      }
    }

    /** The reaction to a cache miss. */
    method OnMiss()
      requires Valid()
      modifies this, capbuf, capbuf.v, before
      ensures Valid() && View() == Miss(old(View()))
      ensures capbuf.v == old(capbuf.v) || fresh(capbuf.v)
    {
      if capState == Idle {
        if !recentDump {
          SnapshotBefore(RING_SIZE);
          capActive, seen, capState := true, 0, WithSnapshot;
        } else {
          capActive, seen, capState := true, 0, PostOnly;
        }
      } else {
        seen := 0;
      }
    }

    method ReportStage(iseq: nat, stage: string, v: nat)
      requires Valid()
      modifies this, ring, ring.buffer, capbuf, capbuf.v, before
      ensures Valid() && View() == Step(old(View()), NewStage(iseq, stage, v))
    {
      RbLogf(Entry(0, StageLine(iseq, stage)));
      var event := "";
      if Has(v, PEV_CACHEMISS) {
        event := "i-cache-miss";
        OnMiss();
      } else if Has(v, PEV_TLBMISS) {
        event := "i-tlb-miss";
      } else if Has(v, PEV_MPOCCURED) {
        event := "mis-pred-branch-occured";
      } else if Has(v, PEV_MPDETECT) {
        event := "mis-pred-branch-detected";
      } else if Has(v, PEV_AGEN) {
        event := "address-generation";
      }
      if event != "" { RbLogf(Entry(0, EventLine(iseq, event))); }
    }
  }
}
