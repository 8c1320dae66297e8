/** Which lines are dirty, and so what crosses the bus: a line is dirty exactly when its block was
    written since the miss that brought it in, and exactly such blocks are written back. */
module CacheDirty {
  import opened MoveToFront
  import opened CacheAddress
  import opened CacheSpec
  import opened CacheReplacement

  // ----- the reference: blocks written, read off the requests

  /** The request writes the block. */
  predicate Writes(q: Request, id: BlockId) {
    q.Use? && q.a.write && q.a.id == id
  }

  /** The request fetches the block. */
  ghost predicate Fetches(g: Geometry, c: Cache, q: Request, id: BlockId)
    requires Shaped(g, c) && InRange(g, q)
  {
    q.Use? && q.a.id == id && !Hits(g, c, q)
  }

  /** No request of a run fetches the block. */
  ghost predicate NoFetch(g: Geometry, c: Cache, qs: seq<Request>, id: BlockId, from: nat)
    requires Sound(g, c) && AllInRange(g, qs)
  {
    forall i :: from <= i < |qs| ==> !Fetches(g, Run(g, c, qs[..i]), qs[i], id)
  }

  /** Some request of a run writes the block, and none after it fetches it. */
  ghost predicate WrittenSince(g: Geometry, c: Cache, qs: seq<Request>, id: BlockId)
    requires Sound(g, c) && AllInRange(g, qs)
  {
    exists j {:trigger Writes(qs[j], id)} :: 0 <= j < |qs| && Writes(qs[j], id) && NoFetch(g, c, qs, id, j + 1)
  }

  // ----- the same, request by request

  /** The blocks written since they were fetched, after one more request. */
  ghost function Marked(g: Geometry, c: Cache, q: Request, w: iset<BlockId>): iset<BlockId>
    requires Shaped(g, c) && InRange(g, q)
  {
    if !q.Use? then w
    else if q.a.write then w + iset{q.a.id}
    else if Hits(g, c, q) then w
    else w - iset{q.a.id}
  }

  ghost function MarkedAll(g: Geometry, c: Cache, qs: seq<Request>, w: iset<BlockId>): iset<BlockId>
    requires Sound(g, c) && AllInRange(g, qs)
    decreases |qs|
  {
    if qs == [] then w
    else ServeSound(g, c, qs[0]); MarkedAll(g, Serve(g, c, qs[0]), qs[1..], Marked(g, c, qs[0], w))
  }

  /** A run, without its first request. */
  lemma RunTail(g: Geometry, c: Cache, qs: seq<Request>, i: nat)
    requires Sound(g, c) && AllInRange(g, qs) && 0 < i <= |qs|
    ensures Sound(g, Serve(g, c, qs[0])) && Run(g, c, qs[..i]) == Run(g, Serve(g, c, qs[0]), qs[1..][..i - 1])
  {
    ServeSound(g, c, qs[0]);
    assert qs[..i][1..] == qs[1..][..i - 1];
  }

  lemma NoFetchTail(g: Geometry, c: Cache, qs: seq<Request>, id: BlockId, from: nat)
    requires Sound(g, c) && AllInRange(g, qs) && qs != []
    ensures Sound(g, Serve(g, c, qs[0]))
    ensures NoFetch(g, c, qs, id, from + 1) <==> NoFetch(g, Serve(g, c, qs[0]), qs[1..], id, from)
    ensures NoFetch(g, c, qs, id, 0) <==> !Fetches(g, c, qs[0], id) && NoFetch(g, c, qs, id, 1)
  {
    ServeSound(g, c, qs[0]);
    var d, rest := Serve(g, c, qs[0]), qs[1..];
    forall i | 0 < i < |qs|
      ensures Fetches(g, Run(g, c, qs[..i]), qs[i], id) <==> Fetches(g, Run(g, d, rest[..i - 1]), rest[i - 1], id)
    {
      RunTail(g, c, qs, i);
    }
    if NoFetch(g, c, qs, id, from + 1) {
      forall i | from <= i < |rest| ensures !Fetches(g, Run(g, d, rest[..i]), rest[i], id) {
        assert !Fetches(g, Run(g, c, qs[..i + 1]), qs[i + 1], id);
      }
    }
    assert qs[..0] == [] && Run(g, c, qs[..0]) == c;
  }

  lemma WrittenLater(g: Geometry, c: Cache, qs: seq<Request>, id: BlockId)
    requires Sound(g, c) && AllInRange(g, qs) && qs != [] && WrittenSince(g, c, qs, id)
    ensures Sound(g, Serve(g, c, qs[0]))
    ensures WrittenSince(g, Serve(g, c, qs[0]), qs[1..], id)
      || (Writes(qs[0], id) && NoFetch(g, Serve(g, c, qs[0]), qs[1..], id, 0))
  {
    ServeSound(g, c, qs[0]);
    var j :| 0 <= j < |qs| && Writes(qs[j], id) && NoFetch(g, c, qs, id, j + 1);
    NoFetchTail(g, c, qs, id, j);
    hide NoFetch, Run, Serve, Sound;
    assert j > 0 ==> Writes(qs[1..][j - 1], id);
  }

  lemma WrittenEarlier(g: Geometry, c: Cache, qs: seq<Request>, id: BlockId)
    requires Sound(g, c) && AllInRange(g, qs) && qs != [] && Sound(g, Serve(g, c, qs[0]))
    requires WrittenSince(g, Serve(g, c, qs[0]), qs[1..], id)
      || (Writes(qs[0], id) && NoFetch(g, Serve(g, c, qs[0]), qs[1..], id, 0))
    ensures WrittenSince(g, c, qs, id)
  {
    var d, rest := Serve(g, c, qs[0]), qs[1..];
    if WrittenSince(g, d, rest, id) {
      var j :| 0 <= j < |rest| && Writes(rest[j], id) && NoFetch(g, d, rest, id, j + 1);
      NoFetchTail(g, c, qs, id, j + 1);
      hide NoFetch, Run, Serve, Sound;
      assert Writes(qs[j + 1], id);
    } else {
      NoFetchTail(g, c, qs, id, 0);
      hide NoFetch, Run, Serve, Sound;
      assert Writes(qs[0], id);
    }
  }

  lemma {:induction false} MarkedMeans(g: Geometry, c: Cache, qs: seq<Request>, w: iset<BlockId>, id: BlockId)
    requires Sound(g, c) && AllInRange(g, qs)
    ensures id in MarkedAll(g, c, qs, w) <==> WrittenSince(g, c, qs, id) || (id in w && NoFetch(g, c, qs, id, 0))
    decreases |qs|
  {
    if qs != [] {
      ServeSound(g, c, qs[0]);
      var d := Serve(g, c, qs[0]);
      MarkedMeans(g, d, qs[1..], Marked(g, c, qs[0], w), id);
      NoFetchTail(g, c, qs, id, 0);
      if WrittenSince(g, c, qs, id) { WrittenLater(g, c, qs, id); }
      if WrittenSince(g, d, qs[1..], id) || (Writes(qs[0], id) && NoFetch(g, d, qs[1..], id, 0)) {
        WrittenEarlier(g, c, qs, id);
      }
      hide NoFetch, WrittenSince, Run, Serve, Sound;
    }
  }

  // ----- the dirty bits

  ghost predicate SetMarked(s: nat, ls: seq<Line>, w: iset<BlockId>) {
    forall k :: 0 <= k < |ls| && ls[k].valid ==> (ls[k].dirty <==> BlockId(ls[k].tag, s) in w)
  }

  /** The valid lines that are dirty are those whose block is in w. */
  ghost predicate DirtyIs(g: Geometry, c: Cache, w: iset<BlockId>)
    requires Shaped(g, c)
  {
    forall s :: 0 <= s < g.nsets ==> SetMarked(s, c.sets[s], w)
  }

  lemma MarkedPlaced(s: nat, ls: seq<Line>, i: nat, l: Line, w: iset<BlockId>)
    requires i < |ls| && (l.valid ==> (l.dirty <==> BlockId(l.tag, s) in w))
    requires forall k :: 0 <= k < |ls| && k != i && ls[k].valid ==> (ls[k].dirty <==> BlockId(ls[k].tag, s) in w)
    ensures SetMarked(s, ls[i := l], w) && SetMarked(s, ToFront(ls, i, l), w) && SetMarked(s, ToBack(ls, i, l), w)
  {
  }

  lemma HitDirty(g: Geometry, c: Cache, a: Access, choice: nat, w: iset<BlockId>)
    requires Sound(g, c) && Fits(g, a) && choice < g.assoc && DirtyIs(g, c, w) && Hits(g, c, Use(a, choice))
    requires Shaped(g, DoAccess(g, c, a, choice).cache)
    ensures DirtyIs(g, DoAccess(g, c, a, choice).cache, Marked(g, c, Use(a, choice), w))
  {
    var s, ls := a.id.index, c.sets[a.id.index];
    var i := Find(ls, a.id.tag);
    var m := Marked(g, c, Use(a, choice), w);
    var l := ls[i].(dirty := ls[i].dirty || a.write, data := Copied(g, a, ls[i].data));
    assert SetMarked(s, ls, w);
    forall k | 0 <= k < |ls| && k != i && ls[k].valid ensures ls[k].dirty <==> BlockId(ls[k].tag, s) in m {
      assert ls[k].tag != a.id.tag;
    }
    MarkedPlaced(s, ls, i, l, m);
  }

  lemma MissDirty(g: Geometry, c: Cache, a: Access, choice: nat, w: iset<BlockId>)
    requires Sound(g, c) && Fits(g, a) && choice < g.assoc && DirtyIs(g, c, w) && !Hits(g, c, Use(a, choice))
    requires Shaped(g, DoAccess(g, c, a, choice).cache)
    ensures DirtyIs(g, DoAccess(g, c, a, choice).cache, Marked(g, c, Use(a, choice), w))
  {
    var s, ls, v := a.id.index, c.sets[a.id.index], Victim(g, choice);
    var m := Marked(g, c, Use(a, choice), w);
    var l := DoAccess(g, c, a, choice).cache.sets[s][if g.policy.Random? then v else 0];
    assert SetMarked(s, ls, w) && SetShaped(g, ls);
    forall k | 0 <= k < |ls| && k != v && ls[k].valid ensures ls[k].dirty <==> BlockId(ls[k].tag, s) in m {
      assert !Matches(ls[k], a.id.tag);
    }
    MarkedPlaced(s, ls, v, l, m);
  }

  lemma DropDirty(g: Geometry, c: Cache, id: BlockId, w: iset<BlockId>)
    requires Sound(g, c) && id.index < g.nsets && DirtyIs(g, c, w) && Shaped(g, DoFlushBlock(g, c, id))
    ensures DirtyIs(g, DoFlushBlock(g, c, id), w)
  {
    var ls := c.sets[id.index];
    var i := Find(ls, id.tag);
    assert SetMarked(id.index, ls, w);
    if i >= 0 {
      var l := ls[i].(valid := false);
      MarkedPlaced(id.index, ls, i, l, w);
      assert ToBack(ls[i := l], i, l) == ToBack(ls, i, l);
    }
  }

  lemma ServeDirty(g: Geometry, c: Cache, q: Request, w: iset<BlockId>)
    requires Sound(g, c) && InRange(g, q) && DirtyIs(g, c, w)
    ensures Sound(g, Serve(g, c, q)) && DirtyIs(g, Serve(g, c, q), Marked(g, c, q, w))
  {
    ServeSound(g, c, q);
    match q {
      case Use(a, choice) =>
        if Hits(g, c, q) { HitDirty(g, c, a, choice, w); } else { MissDirty(g, c, a, choice, w); }
      case Drop(id) => DropDirty(g, c, id, w);
      case Clear =>
        FlushClears(g, c, 0);
    }
  }

  lemma {:induction false} RunDirty(g: Geometry, c: Cache, qs: seq<Request>, w: iset<BlockId>)
    requires Sound(g, c) && AllInRange(g, qs) && DirtyIs(g, c, w)
    ensures DirtyIs(g, Run(g, c, qs), MarkedAll(g, c, qs, w))
    decreases |qs|
  {
    if qs != [] {
      ServeDirty(g, c, qs[0], w);
      RunDirty(g, Serve(g, c, qs[0]), qs[1..], Marked(g, c, qs[0], w));
    }
  }

  /** Main result: in every state a created cache reaches, a valid line is dirty if and only if
      its block was written since the miss that brought it in (the write that missed included). */
  lemma DirtyExactly(g: Geometry, store: Store, qs: seq<Request>, s: nat, k: nat)
    requires g.Accepted() && StoreShaped(g, store) && AllInRange(g, qs) && s < g.nsets && k < g.assoc
    ensures Sound(g, Created(g, store))
    ensures var l := Run(g, Created(g, store), qs).sets[s][k];
      l.valid ==> (l.dirty <==> WrittenSince(g, Created(g, store), qs, BlockId(l.tag, s)))
  {
    var c := Created(g, store);
    CreatedSound(g, store);
    RunDirty(g, c, qs, iset{});
    var l := Run(g, c, qs).sets[s][k];
    assert SetMarked(s, Run(g, c, qs).sets[s], MarkedAll(g, c, qs, iset{}));
    MarkedMeans(g, c, qs, iset{}, BlockId(l.tag, s));
  }

  // ----- the bus

  /** What writing back block id as block `to` sends. */
  ghost function SentBackAs(id: BlockId, to: BlockId, w: iset<BlockId>): seq<BusOp> {
    if id in w then [WriteBack(to)] else []
  }

  /** What a whole flush sends for a set: its valid written lines, in way order. */
  ghost function SetSent(g: Geometry, s: nat, ls: seq<Line>, w: iset<BlockId>): seq<BusOp>
    requires g.bsize > 0 && g.nsets > 0
  {
    if ls == [] then []
    else
      (if ls[0].valid then SentBackAs(BlockId(ls[0].tag, s), FlushedAs(g, ls[0].tag, s), w) else [])
      + SetSent(g, s, ls[1..], w)
  }

  ghost function FlushSent(g: Geometry, c: Cache, s: nat, w: iset<BlockId>): seq<BusOp>
    requires Shaped(g, c) && s <= g.nsets
    decreases g.nsets - s
  {
    if s == g.nsets then [] else SetSent(g, s, c.sets[s], w) + FlushSent(g, c, s + 1, w)
  }

  /** What a request sends: a miss the block it replaces, if that was written, and then its
      fetch; a flush the written blocks it drops. */
  ghost function Sent(g: Geometry, c: Cache, q: Request, w: iset<BlockId>): seq<BusOp>
    requires Shaped(g, c) && InRange(g, q)
  {
    match q
    case Use(a, choice) =>
      if Hits(g, c, q) then []
      else
        var gone := DoAccess(g, c, a, choice).evicted;
        (if gone.Some? then SentBackAs(gone.value, gone.value, w) else []) + [Fetch(a.id)]
    case Drop(id) => if Holds(g, c, id) then SentBackAs(id, id, w) else []
    case Clear => FlushSent(g, c, 0, w)
  }

  /** Number of write-backs among block transfers. */
  function WriteBacks(ops: seq<BusOp>): nat {
    if ops == [] then 0 else (if ops[0].WriteBack? then 1 else 0) + WriteBacks(ops[1..])
  }

  lemma {:induction false} WriteBacksConcat(a: seq<BusOp>, b: seq<BusOp>)
    ensures WriteBacks(a + b) == WriteBacks(a) + WriteBacks(b)
  {
    if a == [] {
      assert a + b == b;
    } else {
      WriteBacksConcat(a[1..], b);
      assert (a + b)[1..] == a[1..] + b;
    }
  }

  /** r is c after it has sent ops. */
  ghost predicate HasSent(c: Cache, r: Cache, ops: seq<BusOp>) {
    r.bus == c.bus + ops && r.stats.writebacks == c.stats.writebacks + WriteBacks(ops)
  }

  lemma SentMore(c: Cache, m: Cache, r: Cache, a: seq<BusOp>, b: seq<BusOp>)
    requires HasSent(c, m, a) && HasSent(m, r, b)
    ensures HasSent(c, r, a + b)
  {
    WriteBacksConcat(a, b);
  }

  lemma {:induction false} FlushSetSends(g: Geometry, c: Cache, s: nat, k: nat, w: iset<BlockId>)
    requires Shaped(g, c) && s < g.nsets && k <= g.assoc && SetMarked(s, c.sets[s], w)
    ensures var r := FlushSetFrom(g, c, s, k);
      && HasSent(c, r, SetSent(g, s, c.sets[s][k..], w))
      && (forall t :: 0 <= t < g.nsets && t != s ==> r.sets[t] == c.sets[t])
    decreases g.assoc - k
  {
    var ls := c.sets[s];
    assert SetShaped(g, ls);
    if k < g.assoc {
      assert ls[k..][1..] == ls[k + 1..];
      if ls[k].valid {
        var m := FlushedLine(g, c, s, k);
        assert m.sets[s][k + 1..] == ls[k + 1..];
        FlushSetSends(g, m, s, k + 1, w);
        var one := SentBackAs(BlockId(ls[k].tag, s), FlushedAs(g, ls[k].tag, s), w);
        assert HasSent(c, m, one);
        SentMore(c, m, FlushSetFrom(g, c, s, k), one, SetSent(g, s, ls[k + 1..], w));
      } else {
        FlushSetSends(g, c, s, k + 1, w);
        assert [] + SetSent(g, s, ls[k + 1..], w) == SetSent(g, s, ls[k + 1..], w);
      }
    }
  }

  lemma {:induction false} SameSent(g: Geometry, c: Cache, m: Cache, s: nat, w: iset<BlockId>)
    requires Shaped(g, c) && Shaped(g, m) && s <= g.nsets && forall t :: s <= t < g.nsets ==> m.sets[t] == c.sets[t]
    ensures FlushSent(g, m, s, w) == FlushSent(g, c, s, w)
    decreases g.nsets - s
  {
    if s < g.nsets { SameSent(g, c, m, s + 1, w); }
  }

  lemma {:induction false} FlushSends(g: Geometry, c: Cache, s: nat, w: iset<BlockId>)
    requires Shaped(g, c) && s <= g.nsets && forall t :: s <= t < g.nsets ==> SetMarked(t, c.sets[t], w)
    ensures HasSent(c, FlushFrom(g, c, s), FlushSent(g, c, s, w))
    decreases g.nsets - s
  {
    if s < g.nsets {
      var m := FlushSetFrom(g, c, s, 0);
      FlushSetSends(g, c, s, 0, w);
      assert c.sets[s][0..] == c.sets[s];
      FlushSends(g, m, s + 1, w);
      SameSent(g, c, m, s + 1, w);
      SentMore(c, m, FlushFrom(g, c, s), SetSent(g, s, c.sets[s], w), FlushSent(g, c, s + 1, w));
    }
  }

  lemma OneOp(op: BusOp)
    ensures WriteBacks([op]) == if op.WriteBack? then 1 else 0
  {
    assert [op][1..] == [];
  }

  lemma MissSends(g: Geometry, c: Cache, a: Access, choice: nat, w: iset<BlockId>)
    requires Sound(g, c) && Fits(g, a) && choice < g.assoc && SetMarked(a.id.index, c.sets[a.id.index], w)
    requires !Hits(g, c, Use(a, choice))
    ensures HasSent(c, DoAccess(g, c, a, choice).cache, Sent(g, c, Use(a, choice), w))
  {
    var gone := DoAccess(g, c, a, choice).evicted;
    var back := if gone.Some? then SentBackAs(gone.value, gone.value, w) else [];
    assert SetShaped(g, c.sets[a.id.index]);
    WriteBacksConcat(back, [Fetch(a.id)]);
    OneOp(Fetch(a.id));
    if gone.Some? { OneOp(WriteBack(gone.value)); }
    assert (c.bus + back) + [Fetch(a.id)] == c.bus + (back + [Fetch(a.id)]);
  }

  lemma ServeSends(g: Geometry, c: Cache, q: Request, w: iset<BlockId>)
    requires Sound(g, c) && InRange(g, q) && DirtyIs(g, c, w)
    ensures HasSent(c, Serve(g, c, q), Sent(g, c, q, w))
  {
    match q {
      case Use(a, choice) =>
        assert SetMarked(a.id.index, c.sets[a.id.index], w);
        assert SetShaped(g, c.sets[a.id.index]);
        if !Hits(g, c, q) { MissSends(g, c, a, choice, w); }
      case Drop(id) => assert SetMarked(id.index, c.sets[id.index], w);
      case Clear => FlushSends(g, c, 0, w);
    }
  }

  /** What a run sends, in order. */
  ghost function SentAll(g: Geometry, c: Cache, qs: seq<Request>, w: iset<BlockId>): seq<BusOp>
    requires Sound(g, c) && AllInRange(g, qs)
    decreases |qs|
  {
    if qs == [] then []
    else
      ServeSound(g, c, qs[0]);
      Sent(g, c, qs[0], w) + SentAll(g, Serve(g, c, qs[0]), qs[1..], Marked(g, c, qs[0], w))
  }

  lemma {:induction false} RunSends(g: Geometry, c: Cache, qs: seq<Request>, w: iset<BlockId>)
    requires Sound(g, c) && AllInRange(g, qs) && DirtyIs(g, c, w)
    ensures HasSent(c, Run(g, c, qs), SentAll(g, c, qs, w))
    decreases |qs|
  {
    if qs != [] {
      var d, m := Serve(g, c, qs[0]), Marked(g, c, qs[0], w);
      ServeDirty(g, c, qs[0], w);
      ServeSends(g, c, qs[0], w);
      RunSends(g, d, qs[1..], m);
      SentMore(c, d, Run(g, c, qs), Sent(g, c, qs[0], w), SentAll(g, d, qs[1..], m));
    }
  }

  /** Main result: over every run of a created cache the bus carries, in order, the fetch of every
      miss and, of the blocks replaced and dropped, the write-back of exactly those written since
      they were fetched; and the write-backs counted are those. */
  lemma TrafficExactly(g: Geometry, store: Store, qs: seq<Request>)
    requires g.Accepted() && StoreShaped(g, store) && AllInRange(g, qs)
    ensures Sound(g, Created(g, store))
    ensures var c := Created(g, store);
      && Run(g, c, qs).bus == SentAll(g, c, qs, iset{})
      && Run(g, c, qs).stats.writebacks == WriteBacks(SentAll(g, c, qs, iset{}))
  {
    CreatedSound(g, store);
    RunSends(g, Created(g, store), qs, iset{});
    assert [] + SentAll(g, Created(g, store), qs, iset{}) == SentAll(g, Created(g, store), qs, iset{});
  }

  lemma {:induction false} CleanSetSends(g: Geometry, s: nat, ls: seq<Line>)
    requires g.bsize > 0 && g.nsets > 0
    ensures SetSent(g, s, ls, iset{}) == []
  {
    if ls != [] { CleanSetSends(g, s, ls[1..]); }
  }

  lemma {:induction false} CleanFlushSends(g: Geometry, c: Cache, s: nat)
    requires Shaped(g, c) && s <= g.nsets
    ensures FlushSent(g, c, s, iset{}) == []
    decreases g.nsets - s
  {
    if s < g.nsets {
      CleanSetSends(g, s, c.sets[s]);
      CleanFlushSends(g, c, s + 1);
    }
  }

  lemma {:induction false} ReadsSend(g: Geometry, c: Cache, qs: seq<Request>)
    requires Sound(g, c) && AllInRange(g, qs) && forall i :: 0 <= i < |qs| && qs[i].Use? ==> !qs[i].a.write
    ensures forall op :: op in SentAll(g, c, qs, iset{}) ==> op.Fetch?
    decreases |qs|
  {
    if qs != [] {
      ServeSound(g, c, qs[0]);
      ReadsSend(g, Serve(g, c, qs[0]), qs[1..]);
      if qs[0].Clear? { CleanFlushSends(g, c, 0); }
      assert Marked(g, c, qs[0], iset{}) == iset{};
    }
  }

  lemma {:induction false} OnlyFetches(ops: seq<BusOp>)
    requires forall op :: op in ops ==> op.Fetch?
    ensures WriteBacks(ops) == 0
  {
    if ops != [] {
      assert ops[0] in ops;
      OnlyFetches(ops[1..]);
    }
  }

  /** Main result: a run without writes writes nothing back. */
  lemma ReadsWriteNothing(g: Geometry, store: Store, qs: seq<Request>)
    requires g.Accepted() && StoreShaped(g, store) && AllInRange(g, qs)
    requires forall i :: 0 <= i < |qs| && qs[i].Use? ==> !qs[i].a.write
    ensures Sound(g, Created(g, store))
    ensures var r := Run(g, Created(g, store), qs);
      r.stats.writebacks == 0 && forall op :: op in r.bus ==> op.Fetch?
  {
    TrafficExactly(g, store, qs);
    ReadsSend(g, Created(g, store), qs);
    OnlyFetches(SentAll(g, Created(g, store), qs, iset{}));
  }

  // ----- hits and misses

  /** Uses of a run that hit, or that miss. */
  ghost function Counted(g: Geometry, c: Cache, qs: seq<Request>, hit: bool): nat
    requires Sound(g, c) && AllInRange(g, qs)
    decreases |qs|
  {
    if qs == [] then 0
    else
      ServeSound(g, c, qs[0]);
      (if qs[0].Use? && Hits(g, c, qs[0]) == hit then 1 else 0) + Counted(g, Serve(g, c, qs[0]), qs[1..], hit)
  }

  /** Uses of a run that replace a valid block. */
  ghost function Evictions(g: Geometry, c: Cache, qs: seq<Request>): nat
    requires Sound(g, c) && AllInRange(g, qs)
    decreases |qs|
  {
    if qs == [] then 0
    else
      ServeSound(g, c, qs[0]);
      (if Evicts(g, c, qs[0]) then 1 else 0) + Evictions(g, Serve(g, c, qs[0]), qs[1..])
  }

  /** The counts of hits, misses and replacements are those of the uses that found their block,
      that did not, and that replaced a valid one. */
  lemma {:induction false} HitsAndMisses(g: Geometry, c: Cache, qs: seq<Request>)
    requires Sound(g, c) && AllInRange(g, qs)
    ensures var r := Run(g, c, qs).stats;
      && r.hits == c.stats.hits + Counted(g, c, qs, true) && r.misses == c.stats.misses + Counted(g, c, qs, false)
      && r.replacements == c.stats.replacements + Evictions(g, c, qs)
    decreases |qs|
  {
    if qs != [] {
      ServeSound(g, c, qs[0]);
      ServeMisses(g, c, qs[0]);
      HitsAndMisses(g, Serve(g, c, qs[0]), qs[1..]);
    }
  }
}
