/** Conservation laws of the cache statistics, over any run, under every policy, and the law
    that ties the counters of a first level to those of a private second level. */
module CacheCounters {
  import opened MoveToFront
  import opened CacheAddress
  import opened CacheSpec
  import opened CacheReplacement
  import CacheDirty
  import opened Bits

  function NumValid(ls: seq<Line>): nat {
    |ValidTags(ls)|
  }

  function TotalValid(sets: seq<seq<Line>>): nat {
    if sets == [] then 0 else NumValid(sets[0]) + TotalValid(sets[1..])
  }

  /** The counters balance: every block brought in by a miss is still valid, or was replaced,
      or was invalidated; only replaced and invalidated blocks were written back; and every
      call of the block access function is the fill of a miss or a write-back. */
  ghost predicate Balanced(c: Cache) {
    && TotalValid(c.sets) + c.stats.replacements + c.stats.invalidations == c.stats.misses
    && c.stats.writebacks <= c.stats.replacements + c.stats.invalidations
    && |c.bus| == c.stats.misses + c.stats.writebacks
  }

  // ----- counting valid lines

  lemma {:induction false} TagsConcat(a: seq<Line>, b: seq<Line>)
    ensures ValidTags(a + b) == ValidTags(a) + ValidTags(b)
  {
    if a == [] {
      assert a + b == b;
    } else {
      var h := if a[0].valid then [a[0].tag] else [];
      TagsConcat(a[1..], b);
      assert (a + b)[1..] == a[1..] + b;
      assert ValidTags(a + b) == h + (ValidTags(a[1..]) + ValidTags(b));
      Reassociate(h, ValidTags(a[1..]), ValidTags(b));
    }
  }

  function One(l: Line): nat {
    if l.valid then 1 else 0
  }

  lemma CountAround(ls: seq<Line>, i: nat)
    requires i < |ls|
    ensures NumValid(ls) == NumValid(ls[..i]) + One(ls[i]) + NumValid(ls[i + 1..])
  {
    assert ls == ls[..i] + ([ls[i]] + ls[i + 1..]);
    TagsConcat(ls[..i], [ls[i]] + ls[i + 1..]);
    TagsConcat([ls[i]], ls[i + 1..]);
    assert [ls[i]][1..] == [];
  }

  /** Replacing line i, in place or moved to either end, changes the count by that line only. */
  lemma CountPlaced(ls: seq<Line>, i: nat, l: Line)
    requires i < |ls|
    ensures NumValid(ls[i := l]) == NumValid(ls) - One(ls[i]) + One(l)
    ensures NumValid(ToFront(ls, i, l)) == NumValid(ls) - One(ls[i]) + One(l)
    ensures NumValid(ToBack(ls, i, l)) == NumValid(ls) - One(ls[i]) + One(l)
  {
    CountAround(ls, i);
    CountAround(ls[i := l], i);
    assert ls[i := l][..i] == ls[..i] && ls[i := l][i + 1..] == ls[i + 1..];
    TagsConcat([l] + ls[..i], ls[i + 1..]);
    TagsConcat([l], ls[..i]);
    TagsConcat(ls[..i] + ls[i + 1..], [l]);
    TagsConcat(ls[..i], ls[i + 1..]);
    assert [l][1..] == [];
  }

  lemma {:induction false} TotalUpdate(sets: seq<seq<Line>>, s: nat, ls: seq<Line>)
    requires s < |sets|
    ensures TotalValid(sets[s := ls]) == TotalValid(sets) - NumValid(sets[s]) + NumValid(ls)
  {
    if s == 0 {
      assert sets[0 := ls][1..] == sets[1..];
    } else {
      TotalUpdate(sets[1..], s - 1, ls);
      assert sets[s := ls][1..] == sets[1..][s - 1 := ls];
    }
  }

  lemma {:induction false} NoneValid(sets: seq<seq<Line>>)
    requires forall s, k :: 0 <= s < |sets| && 0 <= k < |sets[s]| ==> !sets[s][k].valid
    ensures TotalValid(sets) == 0
  {
    if sets != [] {
      forall k | 0 <= k < |sets[0]| ensures !sets[0][k].valid { }
      NoValidTags(sets[0]);
      forall s, k | 0 <= s < |sets[1..]| && 0 <= k < |sets[1..][s]| ensures !sets[1..][s][k].valid {
        assert sets[1..][s] == sets[s + 1];
      }
      NoneValid(sets[1..]);
    }
  }

  // ----- one operation

  lemma HitBalanced(g: Geometry, c: Cache, a: Access, i: nat)
    requires Shaped(g, c) && Fits(g, a) && Balanced(c)
    requires i < g.assoc && Matches(c.sets[a.id.index][i], a.id.tag)
    ensures Balanced(HitAt(g, c, a, i).cache)
  {
    var s, ls := a.id.index, c.sets[a.id.index];
    var l := ls[i].(dirty := ls[i].dirty || a.write, data := Copied(g, a, ls[i].data));
    CountPlaced(ls, i, l);
    TotalUpdate(c.sets, s, HitAt(g, c, a, i).cache.sets[s]);
  }

  lemma MissBalanced(g: Geometry, c: Cache, a: Access, v: nat)
    requires Shaped(g, c) && Fits(g, a) && v < g.assoc && Balanced(c)
    ensures Balanced(MissAt(g, c, a, v).cache)
  {
    var s, ls := a.id.index, c.sets[a.id.index];
    var ls' := MissAt(g, c, a, v).cache.sets[s];
    CountPlaced(ls, v, ls'[if g.policy.Random? then v else 0]);
    TotalUpdate(c.sets, s, ls');
  }

  lemma InvalidatedBalanced(g: Geometry, c: Cache, s: nat, k: nat, to: BlockId)
    requires Shaped(g, c) && s < g.nsets && k < g.assoc && Balanced(c) && c.sets[s][k].valid
    ensures Balanced(Invalidated(g, c, s, k, to))
  {
    CountPlaced(c.sets[s], k, c.sets[s][k].(valid := false));
    TotalUpdate(c.sets, s, c.sets[s][k := c.sets[s][k].(valid := false)]);
  }

  lemma DropBalanced(g: Geometry, c: Cache, id: BlockId)
    requires Shaped(g, c) && id.index < g.nsets && Balanced(c)
    ensures Balanced(DoFlushBlock(g, c, id))
  {
    var s := id.index;
    var i := Find(c.sets[s], id.tag);
    if i >= 0 {
      InvalidatedBalanced(g, c, s, i, id);
      InvalidatedShaped(g, c, s, i, id);
      var m := Invalidated(g, c, s, i, id);
      CountPlaced(m.sets[s], i, m.sets[s][i]);
      TotalUpdate(m.sets, s, ToBack(m.sets[s], i, m.sets[s][i]));
    }
  }

  lemma {:induction false} FlushSetBalanced(g: Geometry, c: Cache, s: nat, k: nat)
    requires Shaped(g, c) && s < g.nsets && k <= g.assoc && Balanced(c)
    ensures Balanced(FlushSetFrom(g, c, s, k))
    decreases g.assoc - k
  {
    if k == g.assoc {
    } else if c.sets[s][k].valid {
      InvalidatedBalanced(g, c, s, k, FlushedAs(g, c.sets[s][k].tag, s));
      FlushSetBalanced(g, FlushedLine(g, c, s, k), s, k + 1);
    } else {
      FlushSetBalanced(g, c, s, k + 1);
    }
  }

  lemma {:induction false} FlushBalanced(g: Geometry, c: Cache, s: nat)
    requires Shaped(g, c) && s <= g.nsets && Balanced(c)
    ensures Balanced(FlushFrom(g, c, s))
    decreases g.nsets - s
  {
    if s < g.nsets {
      FlushSetBalanced(g, c, s, 0);
      FlushBalanced(g, FlushSetFrom(g, c, s, 0), s + 1);
    }
  }

  lemma ServeBalanced(g: Geometry, c: Cache, q: Request)
    requires Sound(g, c) && InRange(g, q) && Balanced(c)
    ensures Balanced(Serve(g, c, q))
  {
    match q {
      case Use(a, choice) =>
        var i := Find(c.sets[a.id.index], a.id.tag);
        if i >= 0 { HitBalanced(g, c, a, i); } else { MissBalanced(g, c, a, Victim(g, choice)); }
      case Drop(id) => DropBalanced(g, c, id);
      case Clear => FlushBalanced(g, c, 0);
    }
  }

  /** Main result: the counters balance after any run that starts balanced. */
  lemma {:induction false} RunBalanced(g: Geometry, c: Cache, qs: seq<Request>)
    requires Sound(g, c) && AllInRange(g, qs) && Balanced(c)
    ensures Balanced(Run(g, c, qs))
    decreases |qs|
  {
    if qs != [] {
      ServeSound(g, c, qs[0]);
      ServeBalanced(g, c, qs[0]);
      RunBalanced(g, Serve(g, c, qs[0]), qs[1..]);
    }
  }

  lemma CreatedBalanced(g: Geometry, store: Store)
    requires g.Ok() && StoreShaped(g, store)
    ensures Sound(g, Created(g, store)) && Balanced(Created(g, store))
  {
    CreatedSound(g, store);
    NoneValid(Created(g, store).sets);
  }

  /** Main result: in particular, they balance in every state a created cache reaches. */
  lemma CreatedRunBalanced(g: Geometry, store: Store, qs: seq<Request>)
    requires g.Accepted() && StoreShaped(g, store) && AllInRange(g, qs)
    ensures Sound(g, Created(g, store)) && Balanced(Run(g, Created(g, store), qs))
  {
    CreatedBalanced(g, store);
    RunBalanced(g, Created(g, store), qs);
  }

  // ----- a private second level

  /** The second-level access made for one block access of the first level: the whole block,
      at its address.  The second level keeps no data, so the bytes are immaterial. */
  ghost function Forwarded(g1: Geometry, g2: Geometry, op: BusOp): Access
    requires g2.bsize > 0 && g2.nsets > 0
  {
    Access(op.WriteBack?, g2.Id(g1.Address(op.id)), g2.Offset(g1.Address(op.id)), seq(g1.bsize, _ => 0), g1.bsize)
  }

  lemma Multiple(q: int, d: nat)
    requires d > 0
    ensures (q * d) % d == 0
  {
    DivUnique(q * d, d, q, 0);
  }

  lemma BlockAddress(g: Geometry, id: BlockId)
    requires g.Ok()
    ensures g.Address(id) % g.bsize == 0 && IsPow2(g.bsize)
    ensures And(g.bsize, g.bsize - 1) == 0
  {
    Multiple(id.tag * g.nsets + id.index, g.bsize);
    assert g.bsize == Pow2(g.setShift);
    PowerOfTwoTest(g.bsize);
  }

  /** A first-level block always lies inside one second-level block. */
  lemma ForwardedFits(g1: Geometry, g2: Geometry, op: BusOp)
    requires g1.Ok() && g2.Ok() && g1.bsize <= g2.bsize
    ensures Fits(g2, Forwarded(g1, g2, op))
  {
    BlockAddress(g1, op.id);
    AlignedFits(g2, g1.Address(op.id), g1.bsize);
  }

  /** The second level's checks accept the access, save in the last second-level block of the
      address space. */
  lemma ForwardedAccepted(g1: Geometry, g2: Geometry, op: BusOp)
    requires g1.Ok() && g2.Ok() && g1.bsize <= g2.bsize && g2.bsize <= WORD64
    requires g1.Address(op.id) < WORD64 - g2.bsize
    ensures g2.AcceptsC(g1.Address(op.id), g1.bsize)
  {
    var addr := g1.Address(op.id);
    BlockAddress(g1, op.id);
    AlignedArithmetic(addr, g1.bsize);
    SpanCheckExact(g2, addr, g1.bsize);
    AlignedFits(g2, addr, g1.bsize);
    AddressOfId(g2, addr);
  }

  /** What the second level sees of a block access: a write for a write-back and a read for a
      fetch, at the block's address, of the block's size. */
  lemma ForwardedMeans(g1: Geometry, g2: Geometry, op: BusOp)
    requires g2.bsize > 0 && g2.nsets > 0
    ensures var a, addr := Forwarded(g1, g2, op), (op.id.tag * g1.nsets + op.id.index) * g1.bsize;
      && a.write == op.WriteBack? && a.len == |a.bytes| == g1.bsize && a.ofs == addr % g2.bsize
      && a.id.index == (addr / g2.bsize) % g2.nsets && a.id.tag == (addr / g2.bsize) / g2.nsets
  {
  }

  ghost predicate Private(g1: Geometry, g2: Geometry) {
    g1.Ok() && g2.Ok() && g1.bsize <= g2.bsize && !g2.balloc
  }

  /** The second level after serving a list of first-level block accesses; pick resolves its
      random choices, the n-th access taking the n-th. */
  ghost function Feed(g1: Geometry, g2: Geometry, c2: Cache, ops: seq<BusOp>, pick: nat -> nat): (r: Cache)
    requires Private(g1, g2) && Sound(g2, c2) && (forall n :: pick(n) < g2.assoc)
    ensures Sound(g2, r)
    decreases |ops|
  {
    if ops == [] then c2 else Feed(g1, g2, FeedOne(g1, g2, c2, ops[0], pick), ops[1..], pick)
  }

  lemma AccessCounted(g: Geometry, c: Cache, a: Access, choice: nat)
    requires Sound(g, c) && Fits(g, a) && choice < g.assoc
    ensures var r := DoAccess(g, c, a, choice).cache.stats;
      r.hits + r.misses == c.stats.hits + c.stats.misses + 1
  {
  }

  /** The second level after the next of those accesses. */
  ghost function FeedOne(g1: Geometry, g2: Geometry, c2: Cache, op: BusOp, pick: nat -> nat): (r: Cache)
    requires Private(g1, g2) && Sound(g2, c2) && (forall n :: pick(n) < g2.assoc)
    ensures Sound(g2, r)
  {
    var a, n := Forwarded(g1, g2, op), pick(c2.stats.hits + c2.stats.misses);
    ForwardedFits(g1, g2, op);
    AccessSound(g2, c2, a, n);
    DoAccess(g2, c2, a, n).cache
  }

  lemma FeedOneCounts(g1: Geometry, g2: Geometry, c2: Cache, op: BusOp, pick: nat -> nat)
    requires Private(g1, g2) && Sound(g2, c2) && (forall n :: pick(n) < g2.assoc)
    ensures var r := FeedOne(g1, g2, c2, op, pick).stats;
      r.hits + r.misses == c2.stats.hits + c2.stats.misses + 1
  {
    ForwardedFits(g1, g2, op);
    AccessCounted(g2, c2, Forwarded(g1, g2, op), pick(c2.stats.hits + c2.stats.misses));
  }

  lemma {:induction false} FeedCounts(g1: Geometry, g2: Geometry, c2: Cache, ops: seq<BusOp>, pick: nat -> nat)
    requires Private(g1, g2) && Sound(g2, c2) && (forall n :: pick(n) < g2.assoc)
    ensures var r := Feed(g1, g2, c2, ops, pick).stats;
      r.hits + r.misses == c2.stats.hits + c2.stats.misses + |ops|
    decreases |ops|
  {
    if ops != [] {
      hide FeedOne, Private, Sound;
      FeedOneCounts(g1, g2, c2, ops[0], pick);
      FeedCounts(g1, g2, FeedOne(g1, g2, c2, ops[0], pick), ops[1..], pick);
    }
  }

  lemma {:induction false} FlushSetBus(g: Geometry, c: Cache, s: nat, k: nat)
    requires Shaped(g, c) && s < g.nsets && k <= g.assoc
    ensures c.bus <= FlushSetFrom(g, c, s, k).bus
    decreases g.assoc - k
  {
    if k == g.assoc {
    } else if c.sets[s][k].valid {
      FlushSetBus(g, FlushedLine(g, c, s, k), s, k + 1);
    } else {
      FlushSetBus(g, c, s, k + 1);
    }
  }

  lemma {:induction false} FlushBus(g: Geometry, c: Cache, s: nat)
    requires Shaped(g, c) && s <= g.nsets
    ensures c.bus <= FlushFrom(g, c, s).bus
    decreases g.nsets - s
  {
    if s < g.nsets {
      FlushSetBus(g, c, s, 0);
      FlushBus(g, FlushSetFrom(g, c, s, 0), s + 1);
    }
  }

  lemma ServeBus(g: Geometry, c: Cache, q: Request)
    requires Sound(g, c) && InRange(g, q)
    ensures c.bus <= Serve(g, c, q).bus
  {
    if q.Clear? { FlushBus(g, c, 0); }
  }

  /** Both levels after a run: each first-level request's block accesses go to the second level. */
  ghost function RunTwo(g1: Geometry, g2: Geometry, c1: Cache, c2: Cache, qs: seq<Request>,
                        pick: nat -> nat): (Cache, Cache)
    requires Private(g1, g2) && Sound(g1, c1) && Sound(g2, c2) && AllInRange(g1, qs)
    requires forall n :: pick(n) < g2.assoc
    decreases |qs|
  {
    if qs == [] then (c1, c2)
    else
      ServeSound(g1, c1, qs[0]);
      ServeBus(g1, c1, qs[0]);
      var d1 := Serve(g1, c1, qs[0]);
      RunTwo(g1, g2, d1, Feed(g1, g2, c2, d1.bus[|c1.bus|..], pick), qs[1..], pick)
  }

  lemma {:induction false} FeedConcat(g1: Geometry, g2: Geometry, c2: Cache, x: seq<BusOp>, y: seq<BusOp>,
                                      pick: nat -> nat)
    requires Private(g1, g2) && Sound(g2, c2) && (forall n :: pick(n) < g2.assoc)
    ensures Feed(g1, g2, c2, x + y, pick) == Feed(g1, g2, Feed(g1, g2, c2, x, pick), y, pick)
    decreases |x|
  {
    if x == [] {
      assert x + y == y;
    } else {
      assert (x + y)[1..] == x[1..] + y;
      FeedConcat(g1, g2, FeedOne(g1, g2, c2, x[0], pick), x[1..], y, pick);
    }
  }

  lemma {:induction false} RunTwoFeeds(g1: Geometry, g2: Geometry, c1: Cache, c2: Cache, qs: seq<Request>,
                                       pick: nat -> nat, w: iset<BlockId>)
    requires Private(g1, g2) && Sound(g1, c1) && Sound(g2, c2) && AllInRange(g1, qs)
    requires (forall n :: pick(n) < g2.assoc) && CacheDirty.DirtyIs(g1, c1, w)
    ensures RunTwo(g1, g2, c1, c2, qs, pick) ==
      (Run(g1, c1, qs), Feed(g1, g2, c2, CacheDirty.SentAll(g1, c1, qs, w), pick))
    decreases |qs|
  {
    if qs != [] {
      ServeSound(g1, c1, qs[0]);
      ServeBus(g1, c1, qs[0]);
      CacheDirty.ServeDirty(g1, c1, qs[0], w);
      CacheDirty.ServeSends(g1, c1, qs[0], w);
      var d1, m, ops := Serve(g1, c1, qs[0]), CacheDirty.Marked(g1, c1, qs[0], w), CacheDirty.Sent(g1, c1, qs[0], w);
      assert d1.bus[|c1.bus|..] == ops;
      RunTwoFeeds(g1, g2, d1, Feed(g1, g2, c2, ops, pick), qs[1..], pick, m);
      FeedConcat(g1, g2, c2, ops, CacheDirty.SentAll(g1, d1, qs[1..], m), pick);
    }
  }

  /** Main result: from creation, the second level serves exactly the fetches of the first level's
      misses, as reads, and its write-backs of written blocks, as writes, in order. */
  lemma CreatedTwoLevelTraffic(g1: Geometry, g2: Geometry, s1: Store, s2: Store, qs: seq<Request>, pick: nat -> nat)
    requires Private(g1, g2) && g1.Accepted() && g2.Accepted() && StoreShaped(g1, s1) && StoreShaped(g2, s2)
    requires AllInRange(g1, qs) && forall n :: pick(n) < g2.assoc
    ensures Sound(g1, Created(g1, s1)) && Sound(g2, Created(g2, s2))
    ensures var c1, c2 := Created(g1, s1), Created(g2, s2);
      RunTwo(g1, g2, c1, c2, qs, pick)
        == (Run(g1, c1, qs), Feed(g1, g2, c2, CacheDirty.SentAll(g1, c1, qs, iset{}), pick))
  {
    CreatedBalanced(g1, s1);
    CreatedBalanced(g2, s2);
    RunTwoFeeds(g1, g2, Created(g1, s1), Created(g2, s2), qs, pick, iset{});
  }

  /** Main result: a private second level is accessed exactly once for each miss and once for
      each write-back of the first level. */
  lemma {:induction false} TwoLevelConservation(g1: Geometry, g2: Geometry, c1: Cache, c2: Cache, qs: seq<Request>,
                                                pick: nat -> nat)
    requires Private(g1, g2) && Sound(g1, c1) && Sound(g2, c2) && AllInRange(g1, qs)
    requires forall n :: pick(n) < g2.assoc
    requires Balanced(c1) && c2.stats.hits + c2.stats.misses == c1.stats.misses + c1.stats.writebacks
    ensures var (d1, d2) := RunTwo(g1, g2, c1, c2, qs, pick);
      d2.stats.hits + d2.stats.misses == d1.stats.misses + d1.stats.writebacks
    decreases |qs|
  {
    if qs != [] {
      ServeSound(g1, c1, qs[0]);
      ServeBus(g1, c1, qs[0]);
      ServeBalanced(g1, c1, qs[0]);
      var d1 := Serve(g1, c1, qs[0]);
      var ops := d1.bus[|c1.bus|..];
      FeedCounts(g1, g2, c2, ops, pick);
      TwoLevelConservation(g1, g2, d1, Feed(g1, g2, c2, ops, pick), qs[1..], pick);
    }
  }

  /** Main result: in particular from creation, over any next level of both. */
  lemma CreatedTwoLevel(g1: Geometry, g2: Geometry, s1: Store, s2: Store, qs: seq<Request>, pick: nat -> nat)
    requires Private(g1, g2) && g1.Accepted() && g2.Accepted() && StoreShaped(g1, s1) && StoreShaped(g2, s2)
    requires AllInRange(g1, qs) && forall n :: pick(n) < g2.assoc
    ensures Sound(g1, Created(g1, s1)) && Sound(g2, Created(g2, s2))
    ensures var (d1, d2) := RunTwo(g1, g2, Created(g1, s1), Created(g2, s2), qs, pick);
      d2.stats.hits + d2.stats.misses == d1.stats.misses + d1.stats.writebacks
  {
    CreatedBalanced(g1, s1);
    CreatedBalanced(g2, s2);
    TwoLevelConservation(g1, g2, Created(g1, s1), Created(g2, s2), qs, pick);
  }
}
