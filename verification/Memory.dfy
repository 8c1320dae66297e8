/** Simulated memory: 4-kilobyte pages found through a hash table of move-to-front buckets and
    allocated when first written.  However the table shuffles its entries, it behaves as a
    total map from 64-bit addresses to bytes that starts all zero. */
module Memory {
  import opened Bits
  import opened MoveToFront

  type Byte = b: nat | b < 256

  const LOG_PAGE := 12
  const LOG_PTAB := 15
  const PAGE_SIZE := 4096
  const PTAB_SIZE := 32768

  datatype Pte = Pte(tag: nat, page: seq<Byte>)

  type Bucket = seq<Pte>

  datatype Mem = Mem(ptab: seq<Bucket>, pageCount: nat, misses: nat, accesses: nat)

  // ----- addresses

  function SetOf(addr: nat): (s: nat)
    ensures s < PTAB_SIZE
  {
    And(Shr(addr, LOG_PAGE), PTAB_SIZE - 1)
  }

  function TagOf(addr: nat): nat {
    Shr(addr, LOG_PAGE + LOG_PTAB)
  }

  function Offset(addr: nat): (o: nat)
    ensures o < PAGE_SIZE
  {
    And(addr, PAGE_SIZE - 1)
  }

  /** The address a page table entry stands for. */
  function PteAddr(tag: nat, idx: nat): nat {
    Or(Shl64(tag, LOG_PAGE + LOG_PTAB), Shl64(idx, LOG_PAGE))
  }

  datatype PageId = PageId(tag: nat, index: nat)

  function PageOf(addr: nat): PageId {
    PageId(TagOf(addr), SetOf(addr))
  }

  // ----- one bucket

  function Find(b: Bucket, tag: nat): (i: int)
    ensures -1 <= i < |b|
    ensures i >= 0 ==> b[i].tag == tag && forall j :: 0 <= j < i ==> b[j].tag != tag
    ensures i == -1 ==> forall j :: 0 <= j < |b| ==> b[j].tag != tag
  {
    if b == [] then -1
    else if b[0].tag == tag then 0
    else var i := Find(b[1..], tag); if i < 0 then -1 else i + 1
  }

  // ----- the table

  function Empty(): Mem {
    Mem(seq(PTAB_SIZE, _ => []), 0, 0, 0)
  }

  ghost predicate BucketOk(b: Bucket) {
    && (forall i :: 0 <= i < |b| ==> |b[i].page| == PAGE_SIZE)
    && (forall i, j :: 0 <= i < j < |b| ==> b[i].tag != b[j].tag)
  }

  ghost predicate Ok(m: Mem) {
    |m.ptab| == PTAB_SIZE && forall s :: 0 <= s < PTAB_SIZE ==> BucketOk(m.ptab[s])
  }

  predicate Has(m: Mem, id: PageId)
    requires |m.ptab| == PTAB_SIZE && id.index < PTAB_SIZE
  {
    Find(m.ptab[id.index], id.tag) >= 0
  }

  ghost function ByteIn(b: Bucket, tag: nat, offset: nat): Byte
    requires BucketOk(b) && offset < PAGE_SIZE
  {
    var i := Find(b, tag);
    if i < 0 then 0 else b[i].page[offset]
  }

  /** The byte at an address: zero where no page has been allocated. */
  ghost function ByteAt(m: Mem, addr: nat): Byte
    requires Ok(m)
  {
    ByteIn(m.ptab[SetOf(addr)], TagOf(addr), Offset(addr))
  }

  // ----- the operations

  /** The slow path of a lookup: searches the bucket and moves the entry found to its front. */
  function Translate(m: Mem, addr: nat): Mem
    requires |m.ptab| == PTAB_SIZE
  {
    var b := m.ptab[SetOf(addr)];
    var i := Find(b, TagOf(addr));
    m.(ptab := if i >= 0 then m.ptab[SetOf(addr) := Promoted(b, i)] else m.ptab,
       misses := m.misses + 1, accesses := m.accesses + 1)
  }

  /** A lookup: an entry at the front of its bucket is found at once. */
  function Lookup(m: Mem, addr: nat): (r: Mem)
    requires |m.ptab| == PTAB_SIZE
    ensures |r.ptab| == PTAB_SIZE
  {
    var b := m.ptab[SetOf(addr)];
    if |b| > 0 && b[0].tag == TagOf(addr) then m.(accesses := m.accesses + 1) else Translate(m, addr)
  }

  function NewPage(m: Mem, addr: nat): (r: Mem)
    requires |m.ptab| == PTAB_SIZE
    ensures |r.ptab| == PTAB_SIZE
  {
    m.(ptab := m.ptab[SetOf(addr) := [Pte(TagOf(addr), seq(PAGE_SIZE, _ => 0))] + m.ptab[SetOf(addr)]],
       pageCount := m.pageCount + 1)
  }

  datatype Reading = Reading(mem: Mem, value: Byte)

  /** Reads a byte: looks the page up twice if it is there, else yields 0. */
  ghost function Read(m: Mem, addr: nat): Reading
    requires Ok(m)
  {
    var m1 := Lookup(m, addr);
    if !Has(m, PageOf(addr)) then Reading(m1, 0)
    else
      var m2 := Lookup(m1, addr);
      LookupKeeps(m, addr);
      LookupKeeps(m1, addr);
      Reading(m2, m2.ptab[SetOf(addr)][0].page[Offset(addr)])
  }

  function Stored(b: Bucket, offset: nat, v: Byte): Bucket
    requires |b| > 0 && offset < |b[0].page|
  {
    [b[0].(page := b[0].page[offset := v])] + b[1..]
  }

  /** The page is looked up, allocated if absent, and looked up again. */
  function Tickled(m: Mem, addr: nat): (r: Mem)
    requires |m.ptab| == PTAB_SIZE
    ensures |r.ptab| == PTAB_SIZE
  {
    var m1 := Lookup(m, addr);
    Lookup(if Has(m, PageOf(addr)) then m1 else NewPage(m1, addr), addr)
  }

  ghost function Write(m: Mem, addr: nat, v: Byte): Mem
    requires Ok(m)
  {
    var t := Tickled(m, addr);
    TickledKeeps(m, addr);
    t.(ptab := t.ptab[SetOf(addr) := Stored(t.ptab[SetOf(addr)], Offset(addr), v)])
  }

  // ----- what lookups keep

  /** c holds what b holds, and a page for tag if `grown`. */
  ghost predicate Alike(b: Bucket, c: Bucket, grown: bool, tag: nat) {
    && BucketOk(b) && BucketOk(c)
    && (forall t :: Find(c, t) >= 0 <==> Find(b, t) >= 0 || (grown && t == tag))
    && (forall t, o: nat :: o < PAGE_SIZE ==> ByteIn(c, t, o) == ByteIn(b, t, o))
  }

  /** Of m and p only the buckets for addr differ, and those only as Alike allows. */
  ghost predicate Kept(m: Mem, p: Mem, addr: nat, grown: bool) {
    && Ok(m) && Ok(p)
    && (forall s :: 0 <= s < PTAB_SIZE && s != SetOf(addr) ==> p.ptab[s] == m.ptab[s])
    && Alike(m.ptab[SetOf(addr)], p.ptab[SetOf(addr)], grown, TagOf(addr))
  }

  /** The page of addr is at the front of its bucket. */
  predicate AtFront(m: Mem, addr: nat) {
    |m.ptab| == PTAB_SIZE && |m.ptab[SetOf(addr)]| > 0 && m.ptab[SetOf(addr)][0].tag == TagOf(addr)
  }

  /** Moving an entry to the front changes no entry's contents. */
  lemma ToFrontKeeps(b: Bucket, i: nat, tag: nat)
    requires BucketOk(b) && i < |b|
    ensures Alike(b, Promoted(b, i), false, tag)
  {
    var f := Promoted(b, i);
    forall t ensures Find(f, t) >= 0 <==> Find(b, t) >= 0
             ensures Find(b, t) >= 0 ==> f[Find(f, t)] == b[Find(b, t)]
    {
      var k := Find(b, t);
      if k >= 0 { assert f[if k == i then 0 else if k < i then k + 1 else k] == b[k]; }
    }
  }

  lemma SelfAlike(b: Bucket, tag: nat)
    requires BucketOk(b)
    ensures Alike(b, b, false, tag)
  {
  }

  function Looked(b: Bucket, tag: nat): Bucket {
    var i := Find(b, tag);
    if i >= 0 then Promoted(b, i) else b
  }

  lemma LookupTable(m: Mem, addr: nat)
    requires |m.ptab| == PTAB_SIZE
    ensures Lookup(m, addr).ptab == m.ptab[SetOf(addr) := Looked(m.ptab[SetOf(addr)], TagOf(addr))]
  {
    var b := m.ptab[SetOf(addr)];
    if |b| > 0 && b[0].tag == TagOf(addr) { assert Promoted(b, 0) == b; }
  }

  lemma LookedAlike(b: Bucket, tag: nat)
    requires BucketOk(b)
    ensures Alike(b, Looked(b, tag), false, tag)
    ensures Find(b, tag) >= 0 ==> |Looked(b, tag)| > 0 && Looked(b, tag)[0].tag == tag
  {
    SelfAlike(b, tag);
    if Find(b, tag) >= 0 { ToFrontKeeps(b, Find(b, tag), tag); }
  }

  lemma BucketReplaced(m: Mem, p: Mem, addr: nat, c: Bucket, grown: bool)
    requires Ok(m) && p.ptab == m.ptab[SetOf(addr) := c] && Alike(m.ptab[SetOf(addr)], c, grown, TagOf(addr))
    ensures Kept(m, p, addr, grown)
  {
  }

  lemma LookupKeeps(m: Mem, addr: nat)
    requires Ok(m)
    ensures Kept(m, Lookup(m, addr), addr, false) && Lookup(m, addr).pageCount == m.pageCount
    ensures Has(m, PageOf(addr)) ==> AtFront(Lookup(m, addr), addr)
  {
    LookupTable(m, addr);
    LookedAlike(m.ptab[SetOf(addr)], TagOf(addr));
    BucketReplaced(m, Lookup(m, addr), addr, Looked(m.ptab[SetOf(addr)], TagOf(addr)), false);
  }

  /** A second lookup of the same page finds it at the front. */
  lemma FrontHit(m: Mem, addr: nat)
    requires AtFront(m, addr)
    ensures Lookup(m, addr) == m.(accesses := m.accesses + 1)
  {
  }

  lemma NewPageAlike(b: Bucket, tag: nat)
    requires BucketOk(b) && Find(b, tag) < 0
    ensures Alike(b, [Pte(tag, seq(PAGE_SIZE, _ => 0))] + b, true, tag)
  {
    var c := [Pte(tag, seq(PAGE_SIZE, _ => 0))] + b;
    assert c[1..] == b;
  }

  lemma {:induction false} TickledKeeps(m: Mem, addr: nat)
    requires Ok(m)
    ensures Kept(m, Tickled(m, addr), addr, true) && AtFront(Tickled(m, addr), addr)
    ensures Tickled(m, addr).pageCount == m.pageCount + (if Has(m, PageOf(addr)) then 0 else 1)
  {
    var m1, id := Lookup(m, addr), PageOf(addr);
    LookupKeeps(m, addr);
    if Has(m, id) {
      FrontHit(m1, addr);
    } else {
      NewPageAlike(m1.ptab[id.index], id.tag);
      FrontHit(NewPage(m1, addr), addr);
    }
  }

  // ----- reads and writes, on bytes

  lemma ReadMeans(m: Mem, addr: nat)
    requires Ok(m)
    ensures Kept(m, Read(m, addr).mem, addr, false) && Read(m, addr).mem.pageCount == m.pageCount
    ensures Read(m, addr).value == ByteAt(m, addr)
  {
    var m1 := Lookup(m, addr);
    LookupKeeps(m, addr);
    if Has(m, PageOf(addr)) { FrontHit(m1, addr); }
  }

  lemma StoredBytes(b: Bucket, offset: nat, v: Byte)
    requires BucketOk(b) && |b| > 0 && offset < PAGE_SIZE
    ensures BucketOk(Stored(b, offset, v))
    ensures forall t :: Find(Stored(b, offset, v), t) >= 0 <==> Find(b, t) >= 0
    ensures forall t, o: nat :: o < PAGE_SIZE ==>
      ByteIn(Stored(b, offset, v), t, o) == if t == b[0].tag && o == offset then v else ByteIn(b, t, o)
  {
    var c := Stored(b, offset, v);
    assert c[1..] == b[1..];
    forall t ensures Find(c, t) == Find(b, t) {}
    StoredOk(b, offset, v);
  }

  lemma StoredOk(b: Bucket, offset: nat, v: Byte)
    requires BucketOk(b) && |b| > 0 && offset < PAGE_SIZE
    ensures BucketOk(Stored(b, offset, v))
  {
    var c := Stored(b, offset, v);
    assert forall i :: 0 <= i < |c| ==> c[i].tag == b[i].tag && |c[i].page| == PAGE_SIZE;
  }

  /** What a write leaves in the bucket of its address. */
  ghost predicate BucketWritten(b: Bucket, c: Bucket, tag: nat, offset: nat, v: Byte) {
    && BucketOk(b) && BucketOk(c)
    && (forall t :: Find(c, t) >= 0 <==> Find(b, t) >= 0 || t == tag)
    && (forall t, o: nat :: o < PAGE_SIZE ==>
          ByteIn(c, t, o) == if t == tag && o == offset then v else ByteIn(b, t, o))
  }

  lemma StoredWritten(b: Bucket, c: Bucket, tag: nat, offset: nat, v: Byte)
    requires Alike(b, c, true, tag) && |c| > 0 && c[0].tag == tag && offset < PAGE_SIZE
    ensures BucketWritten(b, Stored(c, offset, v), tag, offset, v)
  {
    StoredBytes(c, offset, v);
  }

  lemma WriteMeans(m: Mem, addr: nat, v: Byte)
    requires Ok(m)
    ensures var p := Write(m, addr, v);
      && Ok(p) && p.pageCount == m.pageCount + (if Has(m, PageOf(addr)) then 0 else 1)
      && (forall s :: 0 <= s < PTAB_SIZE && s != SetOf(addr) ==> p.ptab[s] == m.ptab[s])
      && BucketWritten(m.ptab[SetOf(addr)], p.ptab[SetOf(addr)], TagOf(addr), Offset(addr), v)
  {
    TickledKeeps(m, addr);
    StoredWritten(m.ptab[SetOf(addr)], Tickled(m, addr).ptab[SetOf(addr)], TagOf(addr), Offset(addr), v);
  }

  // ----- addresses name bytes uniquely

  lemma SplitMeans(addr: nat)
    ensures SetOf(addr) == (addr / 4096) % 32768 && TagOf(addr) == addr / 134217728 && Offset(addr) == addr % 4096
    ensures addr == (TagOf(addr) * 32768 + SetOf(addr)) * 4096 + Offset(addr)
  {
    PageConstants();
    AndMask(addr, LOG_PAGE);
    AndMask(Shr(addr, LOG_PAGE), LOG_PTAB);
  }

  lemma PageConstants()
    ensures Pow2(LOG_PAGE) == 4096 && Pow2(LOG_PTAB) == 32768 && Pow2(LOG_PAGE + LOG_PTAB) == 134217728
  {
    assert Pow2(6) == 64;
    Pow2Add(6, 6);
    assert Pow2(15) == 8 * Pow2(12);
    Pow2Add(12, 15);
  }

  /** The split of an address is injective. */
  lemma SplitInjective(a: nat, b: nat)
    requires PageOf(a) == PageOf(b) && Offset(a) == Offset(b)
    ensures a == b
  {
    SplitMeans(a);
    SplitMeans(b);
  }

  /** The address computed back from a page table entry is that of its page's first byte. */
  lemma PteAddrInverts(addr: nat)
    requires addr < WORD64
    ensures PteAddr(TagOf(addr), SetOf(addr)) == addr - Offset(addr)
  {
    SplitMeans(addr);
    PageConstants();
    var t, s := TagOf(addr), SetOf(addr);
    SmallMod(t * 134217728, WORD64);
    SmallMod(s * 4096, WORD64);
    OrDisjoint(t, s * 4096, LOG_PAGE + LOG_PTAB);
  }

  // ----- runs

  datatype Op = Rd(addr: nat) | Wr(addr: nat, value: Byte)

  ghost function Do(m: Mem, op: Op): (p: Mem)
    requires Ok(m)
    ensures Ok(p)
  {
    match op
    case Rd(a) => ReadMeans(m, a); Read(m, a).mem
    case Wr(a, v) => WriteMeans(m, a, v); Write(m, a, v)
  }

  ghost function Run(m: Mem, ops: seq<Op>): (p: Mem)
    requires Ok(m)
    ensures Ok(p)
  {
    if ops == [] then m else Do(Run(m, ops[..|ops| - 1]), ops[|ops| - 1])
  }

  lemma RunMore(m: Mem, ops: seq<Op>, op: Op)
    requires Ok(m)
    ensures Run(m, ops + [op]) == Do(Run(m, ops), op)
  {
    assert (ops + [op])[..|ops|] == ops;
  }

  /** The reference: flat memory, of which only the last write to an address counts. */
  ghost function Flat(m: Mem, ops: seq<Op>, a: nat): Byte
    requires Ok(m)
  {
    if ops == [] then ByteAt(m, a)
    else
      var op := ops[|ops| - 1];
      if op.Wr? && op.addr == a then op.value else Flat(m, ops[..|ops| - 1], a)
  }

  lemma DoByte(m: Mem, op: Op, a: nat)
    requires Ok(m)
    ensures ByteAt(Do(m, op), a) == if op.Wr? && op.addr == a then op.value else ByteAt(m, a)
  {
    match op
    case Rd(b) => ReadMeans(m, b);
    case Wr(b, v) =>
      WriteMeans(m, b, v);
      if PageOf(a) == PageOf(b) && Offset(a) == Offset(b) { SplitInjective(a, b); }
  }

  /** Main result: whatever reads and writes are made, every byte is that of flat memory. */
  lemma {:induction false} MemoryIsFlat(m: Mem, ops: seq<Op>, a: nat)
    requires Ok(m)
    ensures ByteAt(Run(m, ops), a) == Flat(m, ops, a)
  {
    if ops != [] {
      MemoryIsFlat(m, ops[..|ops| - 1], a);
      DoByte(Run(m, ops[..|ops| - 1]), ops[|ops| - 1], a);
    }
  }

  /** Every read in a run yields the last value written to its address, or 0. */
  lemma ReadsAreFlat(ops: seq<Op>, a: nat)
    ensures Ok(Empty()) && Read(Run(Empty(), ops), a).value == Flat(Empty(), ops, a)
  {
    ReadMeans(Run(Empty(), ops), a);
    MemoryIsFlat(Empty(), ops, a);
  }

  // ----- pages and counters

  /** The pages written in a run. */
  function Written(ops: seq<Op>): set<PageId> {
    if ops == [] then {}
    else
      var op, rest := ops[|ops| - 1], Written(ops[..|ops| - 1]);
      if op.Wr? then rest + {PageOf(op.addr)} else rest
  }

  lemma DoPages(m: Mem, op: Op, id: PageId)
    requires Ok(m) && id.index < PTAB_SIZE
    ensures Has(Do(m, op), id) <==> Has(m, id) || (op.Wr? && id == PageOf(op.addr))
  {
    match op
    case Rd(b) => ReadMeans(m, b);
    case Wr(b, v) => WriteMeans(m, b, v);
  }

  lemma DoCount(m: Mem, op: Op)
    requires Ok(m)
    ensures Do(m, op).pageCount == m.pageCount + (if op.Wr? && !Has(m, PageOf(op.addr)) then 1 else 0)
  {
    match op
    case Rd(b) => ReadMeans(m, b);
    case Wr(b, v) => WriteMeans(m, b, v);
  }

  /** The table holds exactly these pages. */
  ghost predicate HoldsPages(m: Mem, ids: set<PageId>)
    requires |m.ptab| == PTAB_SIZE
  {
    m.pageCount == |ids| && forall id: PageId :: id.index < PTAB_SIZE ==> (Has(m, id) <==> id in ids)
  }

  lemma HoldsOneMore(m: Mem, op: Op, ids: set<PageId>)
    requires Ok(m) && HoldsPages(m, ids)
    ensures HoldsPages(Do(m, op), if op.Wr? then ids + {PageOf(op.addr)} else ids)
  {
    var x := PageOf(op.addr);
    assert Has(m, x) <==> x in ids;
    assert x in ids ==> ids + {x} == ids;
    DoCount(m, op);
    forall id: PageId | id.index < PTAB_SIZE
      ensures Has(Do(m, op), id) <==> id in (if op.Wr? then ids + {PageOf(op.addr)} else ids)
    {
      DoPages(m, op, id);
    }
  }

  /** Main result: a page is in the table exactly when it has been written, and the page count
      is the number of distinct pages written; reads never allocate. */
  lemma {:induction false} PagesAreWritten(ops: seq<Op>)
    ensures Ok(Empty()) && Run(Empty(), ops).pageCount == |Written(ops)|
    ensures forall id: PageId :: id.index < PTAB_SIZE ==> (Has(Run(Empty(), ops), id) <==> id in Written(ops))
  {
    if ops != [] {
      var rest, op := ops[..|ops| - 1], ops[|ops| - 1];
      PagesAreWritten(rest);
      HoldsOneMore(Run(Empty(), rest), op, Written(rest));
    }
  }

  /** Of the two lookups a read or write makes, only the first can miss; a read of a page never
      written makes only one. */
  lemma DoCounters(m: Mem, op: Op)
    requires Ok(m)
    ensures var p := Do(m, op);
      && p.accesses == m.accesses + (if op.Rd? && !Has(m, PageOf(op.addr)) then 1 else 2)
      && p.misses == m.misses + (if AtFront(m, op.addr) then 0 else 1)
  {
    var m1 := Lookup(m, op.addr);
    LookupKeeps(m, op.addr);
    if Has(m, PageOf(op.addr)) { FrontHit(m1, op.addr); }
    else { FrontHit(NewPage(m1, op.addr), op.addr); }
  }

  lemma {:induction false} RunCounters(ops: seq<Op>)
    ensures Ok(Empty())
    ensures var p := Run(Empty(), ops); p.misses <= |ops| <= p.accesses <= 2 * |ops|
  {
    if ops != [] {
      RunCounters(ops[..|ops| - 1]);
      DoCounters(Run(Empty(), ops[..|ops| - 1]), ops[|ops| - 1]);
    }
  }
}
