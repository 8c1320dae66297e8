/** The order of the page table's buckets: each lists its pages by their last use, so which
    lookups miss the front of a bucket can be told from the accesses alone. */
module MemoryOrder {
  import opened Bits
  import opened LruStack
  import opened MoveToFront
  import opened Memory

  function Tags(b: Bucket): (ts: seq<Key>)
    ensures |ts| == |b| && forall k :: 0 <= k < |b| ==> ts[k] == b[k].tag
  {
    seq(|b|, k requires 0 <= k < |b| => b[k].tag)
  }

  // ----- by the accesses made

  /** The 4096 bytes that hold an address have been written to. */
  predicate PageWritten(ops: seq<Op>, addr: nat) {
    exists k :: 0 <= k < |ops| && ops[k].Wr? && ops[k].addr / 4096 == addr / 4096
  }

  /** The tags of the accesses that found or made a page of bucket s, in order. */
  function Touched(ops: seq<Op>, s: nat): seq<Key> {
    if ops == [] then []
    else
      var op, before := ops[|ops| - 1], ops[..|ops| - 1];
      if (op.addr / 4096) % 32768 == s && (op.Wr? || PageWritten(before, op.addr))
      then Touched(before, s) + [op.addr / 0x800_0000] else Touched(before, s)
  }

  /** Accesses whose page was not the one last touched of its bucket. */
  function NotLatest(ops: seq<Op>): nat {
    if ops == [] then 0
    else
      var op, before := ops[|ops| - 1], ops[..|ops| - 1];
      var ts := Touched(before, (op.addr / 4096) % 32768);
      NotLatest(before) + if ts != [] && ts[|ts| - 1] == op.addr / 0x800_0000 then 0 else 1
  }

  /** Two lookups an access, but one for a read of a page never written. */
  function LookupsOf(ops: seq<Op>): nat {
    if ops == [] then 0
    else
      var op, before := ops[|ops| - 1], ops[..|ops| - 1];
      LookupsOf(before) + if op.Rd? && !PageWritten(before, op.addr) then 1 else 2
  }

  // ----- one access

  lemma PromotedTags(b: Bucket, i: nat)
    requires i < |b|
    ensures Tags(Promoted(b, i)) == [b[i].tag] + (Tags(b)[..i] + Tags(b)[i + 1..])
  {
    var l, r := Tags(Promoted(b, i)), [b[i].tag] + (Tags(b)[..i] + Tags(b)[i + 1..]);
    forall k | 0 <= k < |b| ensures l[k] == r[k] {
      assert l[k] == Promoted(b, i)[k].tag;
    }
  }

  lemma LookedTags(b: Bucket, tag: nat)
    requires BucketOk(b)
    ensures Tags(Looked(b, tag)) == if Find(b, tag) >= 0 then [tag] + Without(Tags(b), tag) else Tags(b)
  {
    var i := Find(b, tag);
    if i >= 0 {
      WithoutAt(Tags(b), i);
      PromotedTags(b, i);
      hide Promoted, Without;
    }
  }

  lemma NewTags(b: Bucket, tag: nat, page: seq<Byte>)
    requires Find(b, tag) < 0
    ensures Tags([Pte(tag, page)] + b) == [tag] + Without(Tags(b), tag)
  {
    WithoutAbsent(Tags(b), tag);
  }

  /** An access to a page that is there, or is made, brings its tag to the front. */
  lemma DoTags(m: Mem, op: Op)
    requires Ok(m)
    ensures var b, c, tag := m.ptab[SetOf(op.addr)], Do(m, op).ptab[SetOf(op.addr)], TagOf(op.addr);
      Tags(c) == if op.Wr? || Has(m, PageOf(op.addr)) then [tag] + Without(Tags(b), tag) else Tags(b)
  {
    var a := op.addr;
    var b, tag, m1 := m.ptab[SetOf(a)], TagOf(a), Lookup(m, a);
    LookupKeeps(m, a);
    LookupTable(m, a);
    LookedTags(b, tag);
    if Has(m, PageOf(a)) {
      FrontHit(m1, a);
    } else {
      NewTags(b, tag, seq(PAGE_SIZE, _ => 0));
      FrontHit(NewPage(m1, a), a);
    }
    match op
    case Rd(_) =>
    case Wr(_, v) =>
      TickledKeeps(m, a);
      var t := Tickled(m, a).ptab[SetOf(a)];
      assert Tags(Stored(t, Offset(a), v)) == Tags(t);
  }

  lemma DoElsewhere(m: Mem, op: Op, s: nat)
    requires Ok(m) && s < PTAB_SIZE && s != SetOf(op.addr)
    ensures Do(m, op).ptab[s] == m.ptab[s]
  {
    match op
    case Rd(a) => ReadMeans(m, a);
    case Wr(a, v) => WriteMeans(m, a, v);
  }

  // ----- runs

  lemma SamePage(a: nat, b: nat)
    ensures PageOf(a) == PageOf(b) <==> a / 4096 == b / 4096
  {
    SplitMeans(a);
    SplitMeans(b);
  }

  lemma {:induction false} WrittenPages(ops: seq<Op>, addr: nat)
    ensures PageOf(addr) in Written(ops) <==> PageWritten(ops, addr)
  {
    if ops != [] {
      var op, before := ops[|ops| - 1], ops[..|ops| - 1];
      WrittenPages(before, addr);
      SamePage(op.addr, addr);
      if PageWritten(before, addr) {
        var k :| 0 <= k < |before| && before[k].Wr? && before[k].addr / 4096 == addr / 4096;
        assert ops[k] == before[k];
      }
      if PageWritten(ops, addr) {
        var k :| 0 <= k < |ops| && ops[k].Wr? && ops[k].addr / 4096 == addr / 4096;
        assert k < |before| ==> before[k] == ops[k];
      }
    }
  }

  lemma HasWritten(ops: seq<Op>, addr: nat)
    ensures Ok(Empty()) && (Has(Run(Empty(), ops), PageOf(addr)) <==> PageWritten(ops, addr))
  {
    PagesAreWritten(ops);
    WrittenPages(ops, addr);
    assert PageOf(addr).index < PTAB_SIZE;
  }

  lemma RecentMore(h: seq<Key>, t: Key)
    ensures Recent(h + [t]) == [t] + Without(Recent(h), t)
  {
    assert (h + [t])[..|h|] == h;
  }

  /** Main result: in every run each bucket lists the pages written, by their last use. */
  lemma {:induction false} BucketOrder(ops: seq<Op>, s: nat)
    requires s < PTAB_SIZE
    ensures Ok(Empty()) && Tags(Run(Empty(), ops).ptab[s]) == Recent(Touched(ops, s))
  {
    if ops != [] {
      hide Do, Written, Looked, Without, PageWritten, SetOf, TagOf, BucketOk;
      var op, before := ops[|ops| - 1], ops[..|ops| - 1];
      BucketOrder(before, s);
      SplitMeans(op.addr);
      HasWritten(before, op.addr);
      RecentMore(Touched(before, s), op.addr / 0x800_0000);
      if s == SetOf(op.addr) { DoTags(Run(Empty(), before), op); } else { DoElsewhere(Run(Empty(), before), op, s); }
    }
  }

  /** Main result: the counts of lookups and of those that missed the front of their bucket are
      what the accesses say. */
  lemma {:induction false} CountersExactly(ops: seq<Op>)
    ensures Ok(Empty())
    ensures Run(Empty(), ops).misses == NotLatest(ops) && Run(Empty(), ops).accesses == LookupsOf(ops)
  {
    if ops != [] {
      var op, before := ops[|ops| - 1], ops[..|ops| - 1];
      var m := Run(Empty(), before);
      CountersExactly(before);
      DoCounters(m, op);
      HasWritten(before, op.addr);
      SplitMeans(op.addr);
      BucketOrder(before, SetOf(op.addr));
      FrontIsLatest(m, op.addr, Touched(before, SetOf(op.addr)));
      hide Do, Written, PageWritten, SetOf, TagOf, Has, Recent, Touched, AtFront;
    }
  }

  lemma FrontIsLatest(m: Mem, addr: nat, ts: seq<Key>)
    requires Ok(m) && Tags(m.ptab[SetOf(addr)]) == Recent(ts)
    ensures AtFront(m, addr) <==> ts != [] && ts[|ts| - 1] == TagOf(addr)
  {
  }
}
