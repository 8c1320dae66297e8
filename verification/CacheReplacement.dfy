/** What LRU and FIFO replacement mean, over whole runs: the valid lines of a set in way order
    are a bounded recency list of tags.  From that follow the order of the way list, the
    choice of victim, and the inclusion of a smaller LRU cache in a larger one. */
module CacheReplacement {
  import opened MoveToFront
  import opened LruStack
  import opened Options
  import opened CacheAddress
  import opened CacheSpec

  // ----- the tags of the valid lines, in way order

  function ValidTags(ls: seq<Line>): seq<Key> {
    if ls == [] then []
    else (if ls[0].valid then [ls[0].tag] else []) + ValidTags(ls[1..])
  }

  /** Every valid line stands before every invalid one. */
  ghost predicate ValidFirst(ls: seq<Line>) {
    forall i, j :: 0 <= i < j < |ls| && ls[j].valid ==> ls[i].valid
  }

  /** vt lists the tags of the first lines, all valid, and no later line is valid. */
  ghost predicate LeadingTags(ls: seq<Line>, vt: seq<Key>) {
    && |vt| <= |ls|
    && (forall i :: 0 <= i < |vt| ==> ls[i].valid && ls[i].tag == vt[i])
    && (forall i :: |vt| <= i < |ls| ==> !ls[i].valid)
  }

  lemma {:induction false} LeadingIsValid(ls: seq<Line>, vt: seq<Key>)
    requires LeadingTags(ls, vt)
    ensures ValidFirst(ls) && ValidTags(ls) == vt
  {
    if ls == [] {
    } else if vt == [] {
      assert LeadingTags(ls[1..], []);
      LeadingIsValid(ls[1..], []);
    } else {
      assert LeadingTags(ls[1..], vt[1..]);
      LeadingIsValid(ls[1..], vt[1..]);
      assert vt == [vt[0]] + vt[1..];
    }
  }

  lemma {:induction false} ValidIsLeading(ls: seq<Line>)
    requires ValidFirst(ls)
    ensures LeadingTags(ls, ValidTags(ls))
  {
    if ls == [] {
    } else {
      forall i, j | 0 <= i < j < |ls[1..]| && ls[1..][j].valid ensures ls[1..][i].valid {
        assert ls[j + 1].valid && ls[i + 1] == ls[1..][i];
      }
      ValidIsLeading(ls[1..]);
      assert |ValidTags(ls[1..])| > 0 ==> ls[1..][0].valid;
    }
  }

  /** The search position of a tag is its position among the valid tags. */
  lemma FindInTags(ls: seq<Line>, t: Key)
    requires ValidFirst(ls) && UniqueTags(ls)
    ensures Distinct(ValidTags(ls)) && |ValidTags(ls)| <= |ls|
    ensures Find(ls, t) >= 0 <==> t in ValidTags(ls)
    ensures Find(ls, t) >= 0 ==> Find(ls, t) < |ValidTags(ls)| && ValidTags(ls)[Find(ls, t)] == t
  {
    ValidIsLeading(ls);
    var vt := ValidTags(ls);
    if t in vt {
      var k :| 0 <= k < |vt| && vt[k] == t;
      assert Matches(ls[k], t);
    }
  }

  // ----- one request, on one set

  lemma HitToFront(ls: seq<Line>, t: Key, l: Line, cap: nat)
    requires ValidFirst(ls) && UniqueTags(ls) && |ls| == cap && Find(ls, t) >= 0
    requires l.valid && l.tag == t
    ensures ValidFirst(ToFront(ls, Find(ls, t), l))
    ensures ValidTags(ToFront(ls, Find(ls, t), l)) == Touch(ValidTags(ls), t, cap)
  {
    var i, vt := Find(ls, t), ValidTags(ls);
    FindInTags(ls, t);
    ValidIsLeading(ls);
    WithoutAt(vt, i);
    LeadingFront(ls, vt, i, l);
    LeadingIsValid(ToFront(ls, i, l), [t] + Without(vt, t));
  }

  lemma LeadingFront(ls: seq<Line>, vt: seq<Key>, i: nat, l: Line)
    requires LeadingTags(ls, vt) && i < |vt| && l.valid
    ensures LeadingTags(ToFront(ls, i, l), [l.tag] + (vt[..i] + vt[i + 1..]))
  {
  }

  lemma LeadingPushed(ls: seq<Line>, vt: seq<Key>, l: Line)
    requires LeadingTags(ls, vt) && l.valid && ls != []
    ensures LeadingTags(ToFront(ls, |ls| - 1, l), Take([l.tag] + vt, |ls|))
  {
  }

  lemma LeadingBack(ls: seq<Line>, vt: seq<Key>, i: nat, l: Line)
    requires LeadingTags(ls, vt) && i < |vt| && !l.valid
    ensures LeadingTags(ToBack(ls, i, l), vt[..i] + vt[i + 1..])
  {
  }

  lemma HitInPlace(ls: seq<Line>, t: Key, l: Line)
    requires ValidFirst(ls) && UniqueTags(ls) && Find(ls, t) >= 0
    requires l.valid && l.tag == t
    ensures ValidFirst(ls[Find(ls, t) := l]) && ValidTags(ls[Find(ls, t) := l]) == ValidTags(ls)
  {
    FindInTags(ls, t);
    ValidIsLeading(ls);
    LeadingIsValid(ls[Find(ls, t) := l], ValidTags(ls));
  }

  lemma MissToFront(ls: seq<Line>, t: Key, l: Line)
    requires ValidFirst(ls) && UniqueTags(ls) && ls != [] && Find(ls, t) < 0
    requires l.valid && l.tag == t
    ensures ValidFirst(ToFront(ls, |ls| - 1, l))
    ensures ValidTags(ToFront(ls, |ls| - 1, l)) == Touch(ValidTags(ls), t, |ls|)
  {
    var vt := ValidTags(ls);
    FindInTags(ls, t);
    ValidIsLeading(ls);
    WithoutAbsent(vt, t);
    LeadingPushed(ls, vt, l);
    LeadingIsValid(ToFront(ls, |ls| - 1, l), Touch(vt, t, |ls|));
  }

  lemma DropToBack(ls: seq<Line>, t: Key, l: Line)
    requires ValidFirst(ls) && UniqueTags(ls) && Find(ls, t) >= 0 && !l.valid
    ensures ValidFirst(ToBack(ls, Find(ls, t), l))
    ensures ValidTags(ToBack(ls, Find(ls, t), l)) == Without(ValidTags(ls), t)
  {
    var i, vt := Find(ls, t), ValidTags(ls);
    FindInTags(ls, t);
    ValidIsLeading(ls);
    WithoutAt(vt, i);
    LeadingBack(ls, vt, i, l);
    LeadingIsValid(ToBack(ls, i, l), Without(vt, t));
  }

  // ----- requests and runs over block names

  /** `choice` is the position a random policy would replace, should the access miss. */
  datatype Request = Use(a: Access, choice: nat) | Drop(id: BlockId) | Clear

  ghost predicate InRange(g: Geometry, q: Request) {
    match q
    case Use(a, choice) => Fits(g, a) && choice < g.assoc
    case Drop(id) => id.index < g.nsets
    case Clear => true
  }

  ghost predicate AllInRange(g: Geometry, qs: seq<Request>) {
    forall i :: 0 <= i < |qs| ==> InRange(g, qs[i])
  }

  /** Under LRU and FIFO, moreover, the valid lines of every set come first. */
  ghost predicate Ordered(g: Geometry, c: Cache) {
    Sound(g, c) && forall s :: 0 <= s < g.nsets ==> ValidFirst(c.sets[s])
  }

  ghost function Serve(g: Geometry, c: Cache, q: Request): Cache
    requires Shaped(g, c) && InRange(g, q)
  {
    match q
    case Use(a, choice) => DoAccess(g, c, a, choice).cache
    case Drop(id) => DoFlushBlock(g, c, id)
    case Clear => DoFlush(g, c)
  }

  /** What a request does to the tags of set s. */
  ghost function TagsAfter(g: Geometry, tags: seq<Key>, q: Request, s: nat): seq<Key>
    requires g.assoc > 0
  {
    match q
    case Use(a, _) =>
      if a.id.index != s || (g.policy.FIFO? && a.id.tag in tags) then tags
      else Touch(tags, a.id.tag, g.assoc)
    case Drop(id) => if id.index == s then Without(tags, id.tag) else tags
    case Clear => []
  }

  lemma HitTags(g: Geometry, c: Cache, a: Access, i: nat)
    requires Ordered(g, c) && Fits(g, a) && !g.policy.Random? && i == Find(c.sets[a.id.index], a.id.tag)
    ensures var s, r := a.id.index, HitAt(g, c, a, i).cache;
      && s < |r.sets| && ValidFirst(r.sets[s])
      && ValidTags(r.sets[s])
         == if g.policy.LRU? then Touch(ValidTags(c.sets[s]), a.id.tag, g.assoc) else ValidTags(c.sets[s])
  {
    var ls := c.sets[a.id.index];
    var l := ls[i].(dirty := ls[i].dirty || a.write, data := Copied(g, a, ls[i].data));
    assert SetShaped(g, ls);
    if g.policy.LRU? { HitToFront(ls, a.id.tag, l, g.assoc); } else { HitInPlace(ls, a.id.tag, l); }
  }

  lemma MissTags(g: Geometry, c: Cache, a: Access)
    requires Ordered(g, c) && Fits(g, a) && !g.policy.Random? && Find(c.sets[a.id.index], a.id.tag) < 0
    ensures var s, r := a.id.index, MissAt(g, c, a, g.assoc - 1).cache;
      && s < |r.sets| && ValidFirst(r.sets[s])
      && ValidTags(r.sets[s]) == Touch(ValidTags(c.sets[s]), a.id.tag, g.assoc)
  {
    var ls := c.sets[a.id.index];
    assert SetShaped(g, ls);
    MissToFront(ls, a.id.tag, MissAt(g, c, a, g.assoc - 1).cache.sets[a.id.index][0]);
  }

  lemma DropTags(g: Geometry, c: Cache, id: BlockId)
    requires Ordered(g, c) && id.index < g.nsets
    ensures var s, r := id.index, DoFlushBlock(g, c, id);
      && s < |r.sets| && ValidFirst(r.sets[s])
      && ValidTags(r.sets[s]) == Without(ValidTags(c.sets[s]), id.tag)
  {
    var s, ls := id.index, c.sets[id.index];
    var i := Find(ls, id.tag);
    if i >= 0 {
      var l := ls[i].(valid := false);
      assert Invalidated(g, c, s, i, id).sets[s] == ls[i := l];
      assert ToBack(ls[i := l], i, l) == ToBack(ls, i, l);
      DropToBack(ls, id.tag, l);
    } else {
      FindInTags(ls, id.tag);
      WithoutAbsent(ValidTags(ls), id.tag);
    }
  }

  /** Every request keeps sound structure under every policy. */
  lemma ServeSound(g: Geometry, c: Cache, q: Request)
    requires Sound(g, c) && InRange(g, q)
    ensures Sound(g, Serve(g, c, q))
  {
    match q {
      case Use(a, choice) => AccessSound(g, c, a, choice);
      case Drop(id) => DropSound(g, c, id);
      case Clear => FlushClears(g, c, 0);
    }
  }

  /** Under LRU and FIFO every request keeps the valid lines first, and acts on the tags of
      each set as a bounded recency list. */
  lemma ServeTags(g: Geometry, c: Cache, q: Request, s: nat)
    requires Ordered(g, c) && InRange(g, q) && !g.policy.Random? && s < g.nsets
    ensures var r := Serve(g, c, q);
      && Sound(g, r) && ValidFirst(r.sets[s])
      && ValidTags(r.sets[s]) == TagsAfter(g, ValidTags(c.sets[s]), q, s)
  {
    ServeSound(g, c, q);
    match q {
      case Use(a, choice) => UseTags(g, c, a, choice, s);
      case Drop(id) => DropTagsAt(g, c, id, s);
      case Clear => ClearTags(g, c, s);
    }
  }

  lemma UseTags(g: Geometry, c: Cache, a: Access, choice: nat, s: nat)
    requires Ordered(g, c) && Fits(g, a) && choice < g.assoc && !g.policy.Random? && s < g.nsets
    ensures var r := DoAccess(g, c, a, choice).cache;
      && s < |r.sets| && ValidFirst(r.sets[s])
      && ValidTags(r.sets[s]) == TagsAfter(g, ValidTags(c.sets[s]), Use(a, choice), s)
  {
    var i := Find(c.sets[a.id.index], a.id.tag);
    if i >= 0 { UseHit(g, c, a, i, s, choice); } else { UseMiss(g, c, a, s, choice); }
  }

  lemma UseHit(g: Geometry, c: Cache, a: Access, i: nat, s: nat, choice: nat)
    requires Ordered(g, c) && Fits(g, a) && !g.policy.Random? && s < g.nsets && i == Find(c.sets[a.id.index], a.id.tag)
    ensures var r := HitAt(g, c, a, i).cache;
      && s < |r.sets| && ValidFirst(r.sets[s])
      && ValidTags(r.sets[s]) == TagsAfter(g, ValidTags(c.sets[s]), Use(a, choice), s)
  {
    FindInTags(c.sets[a.id.index], a.id.tag);
    HitTags(g, c, a, i);
  }

  lemma UseMiss(g: Geometry, c: Cache, a: Access, s: nat, choice: nat)
    requires Ordered(g, c) && Fits(g, a) && !g.policy.Random? && s < g.nsets && Find(c.sets[a.id.index], a.id.tag) < 0
    ensures var r := MissAt(g, c, a, g.assoc - 1).cache;
      && s < |r.sets| && ValidFirst(r.sets[s])
      && ValidTags(r.sets[s]) == TagsAfter(g, ValidTags(c.sets[s]), Use(a, choice), s)
  {
    FindInTags(c.sets[a.id.index], a.id.tag);
    MissTags(g, c, a);
  }

  lemma DropTagsAt(g: Geometry, c: Cache, id: BlockId, s: nat)
    requires Ordered(g, c) && id.index < g.nsets && s < g.nsets
    ensures var r := DoFlushBlock(g, c, id);
      && s < |r.sets| && ValidFirst(r.sets[s])
      && ValidTags(r.sets[s]) == TagsAfter(g, ValidTags(c.sets[s]), Drop(id), s)
  {
    if s == id.index { DropTags(g, c, id); } else { DropElsewhere(g, c, id, s); }
  }

  lemma DropElsewhere(g: Geometry, c: Cache, id: BlockId, s: nat)
    requires Ordered(g, c) && id.index < g.nsets && s < g.nsets && s != id.index
    ensures s < |DoFlushBlock(g, c, id).sets| && DoFlushBlock(g, c, id).sets[s] == c.sets[s]
  {
  }

  lemma ClearTags(g: Geometry, c: Cache, s: nat)
    requires Ordered(g, c) && s < g.nsets && !g.policy.Random?
    ensures |DoFlush(g, c).sets| == g.nsets
    ensures ValidFirst(DoFlush(g, c).sets[s]) && ValidTags(DoFlush(g, c).sets[s]) == []
  {
    FlushClears(g, c, 0);
    var ls := DoFlush(g, c).sets[s];
    forall i | 0 <= i < |ls| ensures !ls[i].valid {
    }
    LeadingIsValid(ls, []);
  }

  lemma ServeOrdered(g: Geometry, c: Cache, q: Request)
    requires Ordered(g, c) && InRange(g, q) && !g.policy.Random?
    ensures Ordered(g, Serve(g, c, q))
  {
    ServeSound(g, c, q);
    forall s | 0 <= s < g.nsets ensures ValidFirst(Serve(g, c, q).sets[s]) {
      ServeTags(g, c, q, s);
    }
  }

  ghost function Run(g: Geometry, c: Cache, qs: seq<Request>): (r: Cache)
    requires Sound(g, c) && AllInRange(g, qs)
    ensures Sound(g, r)
    decreases |qs|
  {
    if qs == [] then c
    else ServeSound(g, c, qs[0]); Run(g, Serve(g, c, qs[0]), qs[1..])
  }

  // ----- inclusion of a smaller LRU cache in a larger one

  /** In every set, the valid blocks of cs are, in way order, the first valid blocks of cl. */
  ghost predicate Included(g: Geometry, cs: Cache, cl: Cache)
    requires |cs.sets| == |cl.sets| == g.nsets
  {
    forall s :: 0 <= s < g.nsets ==> ValidTags(cs.sets[s]) <= ValidTags(cl.sets[s])
  }

  /** Two LRU geometries that differ in associativity only, the first no larger. */
  ghost predicate Comparable(gs: Geometry, gl: Geometry) {
    && gs.nsets == gl.nsets && gs.bsize == gl.bsize && 0 < gs.assoc <= gl.assoc
    && gs.policy.LRU? && gl.policy.LRU?
  }

  ghost predicate Hits(g: Geometry, c: Cache, q: Request)
    requires Shaped(g, c) && InRange(g, q)
  {
    q.Use? && Find(c.sets[q.a.id.index], q.a.id.tag) >= 0
  }

  lemma TagsDistinct(g: Geometry, c: Cache, s: nat)
    requires Ordered(g, c) && s < g.nsets
    ensures Distinct(ValidTags(c.sets[s])) && |ValidTags(c.sets[s])| <= g.assoc
  {
    assert SetShaped(g, c.sets[s]);
    FindInTags(c.sets[s], 0);
  }

  lemma ServeIncluded(gs: Geometry, gl: Geometry, cs: Cache, cl: Cache, q: Request)
    requires Comparable(gs, gl) && Ordered(gs, cs) && Ordered(gl, cl) && Included(gs, cs, cl)
    requires InRange(gs, q)
    ensures InRange(gl, q) && |Serve(gs, cs, q).sets| == |Serve(gl, cl, q).sets| == gs.nsets
    ensures Included(gs, Serve(gs, cs, q), Serve(gl, cl, q))
  {
    ServeSound(gs, cs, q);
    ServeSound(gl, cl, q);
    forall s | 0 <= s < gs.nsets
      ensures ValidTags(Serve(gs, cs, q).sets[s]) <= ValidTags(Serve(gl, cl, q).sets[s])
    {
      SetIncluded(gs, gl, cs, cl, q, s);
    }
  }

  lemma SetIncluded(gs: Geometry, gl: Geometry, cs: Cache, cl: Cache, q: Request, s: nat)
    requires Comparable(gs, gl) && Ordered(gs, cs) && Ordered(gl, cl) && Included(gs, cs, cl)
    requires InRange(gs, q) && InRange(gl, q) && s < gs.nsets
    ensures s < |Serve(gs, cs, q).sets| && s < |Serve(gl, cl, q).sets|
    ensures ValidTags(Serve(gs, cs, q).sets[s]) <= ValidTags(Serve(gl, cl, q).sets[s])
  {
    var vs, vl := ValidTags(cs.sets[s]), ValidTags(cl.sets[s]);
    ServeTags(gs, cs, q, s);
    ServeTags(gl, cl, q, s);
    TagsDistinct(gs, cs, s);
    TagsDistinct(gl, cl, s);
    hide Serve, ValidTags, Touch, Without;
    match q {
      case Use(a, _) => TouchPrefix(vs, vl, a.id.tag, gs.assoc, gl.assoc);
      case Drop(id) => WithoutPrefix(vs, vl, id.tag);
      case Clear =>
    }
  }

  /** Every hit in the smaller cache is a hit in the larger one. */
  lemma SmallHitIsLargeHit(gs: Geometry, gl: Geometry, cs: Cache, cl: Cache, q: Request)
    requires Comparable(gs, gl) && Ordered(gs, cs) && Ordered(gl, cl) && Included(gs, cs, cl)
    requires InRange(gs, q) && InRange(gl, q)
    ensures Hits(gs, cs, q) ==> Hits(gl, cl, q)
  {
    if q.Use? {
      var s := q.a.id.index;
      FindInTags(cs.sets[s], q.a.id.tag);
      FindInTags(cl.sets[s], q.a.id.tag);
      assert ValidTags(cs.sets[s]) <= ValidTags(cl.sets[s]);
    }
  }

  /** The request replaces a valid block. */
  ghost predicate Evicts(g: Geometry, c: Cache, q: Request)
    requires Shaped(g, c) && InRange(g, q)
  {
    q.Use? && DoAccess(g, c, q.a, q.choice).evicted.Some?
  }

  lemma ServeMisses(g: Geometry, c: Cache, q: Request)
    requires Sound(g, c) && InRange(g, q)
    ensures Serve(g, c, q).stats.misses == c.stats.misses + (if q.Use? && !Hits(g, c, q) then 1 else 0)
    ensures Serve(g, c, q).stats.hits == c.stats.hits + (if Hits(g, c, q) then 1 else 0)
    ensures Serve(g, c, q).stats.replacements == c.stats.replacements + (if Evicts(g, c, q) then 1 else 0)
  {
    if q.Clear? { FlushStats(g, c, 0); }
  }

  lemma {:induction false} FlushSetStats(g: Geometry, c: Cache, s: nat, k: nat)
    requires Shaped(g, c) && s < g.nsets && k <= g.assoc
    ensures var r := FlushSetFrom(g, c, s, k).stats;
      r.misses == c.stats.misses && r.hits == c.stats.hits && r.replacements == c.stats.replacements
    decreases g.assoc - k
  {
    if k == g.assoc {
    } else if c.sets[s][k].valid {
      FlushSetStats(g, FlushedLine(g, c, s, k), s, k + 1);
    } else {
      FlushSetStats(g, c, s, k + 1);
    }
  }

  lemma {:induction false} FlushStats(g: Geometry, c: Cache, s: nat)
    requires Shaped(g, c) && s <= g.nsets
    ensures var r := FlushFrom(g, c, s).stats;
      r.misses == c.stats.misses && r.hits == c.stats.hits && r.replacements == c.stats.replacements
    decreases g.nsets - s
  {
    if s < g.nsets {
      FlushSetStats(g, c, s, 0);
      FlushStats(g, FlushSetFrom(g, c, s, 0), s + 1);
    }
  }

  /** Main result: driven by one stream of accesses and flushes, an LRU cache always holds
      what a less associative LRU cache of the same sets and block size holds, so it never
      misses more often.  The set search used (linear up to four ways, hashed above) plays no
      part: CacheImpl proves both find the line Find names. */
  lemma {:induction false} LruInclusion(gs: Geometry, gl: Geometry, cs: Cache, cl: Cache, qs: seq<Request>)
    requires Comparable(gs, gl) && Ordered(gs, cs) && Ordered(gl, cl) && Included(gs, cs, cl)
    requires AllInRange(gs, qs) && AllInRange(gl, qs)
    ensures Included(gs, Run(gs, cs, qs), Run(gl, cl, qs))
    ensures Run(gl, cl, qs).stats.misses - cl.stats.misses <= Run(gs, cs, qs).stats.misses - cs.stats.misses
    decreases |qs|
  {
    if qs != [] {
      var q := qs[0];
      ServeIncluded(gs, gl, cs, cl, q);
      ServeOrdered(gs, cs, q);
      ServeOrdered(gl, cl, q);
      SmallHitIsLargeHit(gs, gl, cs, cl, q);
      ServeMisses(gs, cs, q);
      ServeMisses(gl, cl, q);
      LruInclusion(gs, gl, Serve(gs, cs, q), Serve(gl, cl, q), qs[1..]);
    }
  }

  /** Main result: in particular, of two LRU caches created empty the larger holds what the
      smaller holds after any run, every hit of the smaller is a hit of the larger, and the
      larger has at most as many misses. */
  lemma CreatedInclusion(gs: Geometry, gl: Geometry, ss: Store, sl: Store, qs: seq<Request>, q: Request)
    requires Comparable(gs, gl) && gs.Accepted() && gl.Accepted() && StoreShaped(gs, ss) && StoreShaped(gl, sl)
    requires AllInRange(gs, qs) && AllInRange(gl, qs) && InRange(gs, q) && InRange(gl, q)
    ensures Sound(gs, Created(gs, ss)) && Sound(gl, Created(gl, sl))
    ensures var cs, cl := Run(gs, Created(gs, ss), qs), Run(gl, Created(gl, sl), qs);
      && Included(gs, cs, cl) && cl.stats.misses <= cs.stats.misses
      && (Hits(gs, cs, q) ==> Hits(gl, cl, q))
  {
    var cs, cl := Created(gs, ss), Created(gl, sl);
    CreatedOrdered(gs, ss);
    CreatedOrdered(gl, sl);
    LruInclusion(gs, gl, cs, cl, qs);
    RunOrdered(gs, cs, qs);
    RunOrdered(gl, cl, qs);
    SmallHitIsLargeHit(gs, gl, Run(gs, cs, qs), Run(gl, cl, qs), q);
  }

  lemma CreatedOrdered(g: Geometry, store: Store)
    requires g.Ok() && StoreShaped(g, store)
    ensures Ordered(g, Created(g, store))
    ensures forall s :: 0 <= s < g.nsets ==> ValidTags(Created(g, store).sets[s]) == []
  {
    CreatedSound(g, store);
    forall s | 0 <= s < g.nsets
      ensures ValidFirst(Created(g, store).sets[s]) && ValidTags(Created(g, store).sets[s]) == []
    {
      NoValidTags(Created(g, store).sets[s]);
    }
  }

  lemma {:induction false} RunOrdered(g: Geometry, c: Cache, qs: seq<Request>)
    requires Ordered(g, c) && AllInRange(g, qs) && !g.policy.Random?
    ensures Ordered(g, Run(g, c, qs))
    decreases |qs|
  {
    if qs != [] {
      ServeOrdered(g, c, qs[0]);
      RunOrdered(g, Serve(g, c, qs[0]), qs[1..]);
    }
  }

  // ----- the order of the way list and the choice of victim

  /** The tag a request places at the head of set s, if any: under LRU that of every use,
      under FIFO that of every use that misses. */
  ghost function Placed(g: Geometry, c: Cache, q: Request, s: nat): seq<Key>
    requires Shaped(g, c) && InRange(g, q)
  {
    if q.Use? && q.a.id.index == s && (g.policy.LRU? || !Hits(g, c, q)) then [q.a.id.tag] else []
  }

  ghost function Placements(g: Geometry, c: Cache, qs: seq<Request>, s: nat): seq<Key>
    requires Sound(g, c) && AllInRange(g, qs)
    decreases |qs|
  {
    if qs == [] then []
    else ServeSound(g, c, qs[0]); Placed(g, c, qs[0], s) + Placements(g, Serve(g, c, qs[0]), qs[1..], s)
  }

  lemma PlacedKeepsOrder(g: Geometry, c: Cache, q: Request, s: nat, h: seq<Key>)
    requires Ordered(g, c) && InRange(g, q) && !g.policy.Random? && s < g.nsets
    requires ByLastUse(h, ValidTags(c.sets[s]))
    ensures s < |Serve(g, c, q).sets|
    ensures ByLastUse(h + Placed(g, c, q, s), ValidTags(Serve(g, c, q).sets[s]))
  {
    var tags := ValidTags(c.sets[s]);
    ServeTags(g, c, q, s);
    TagsDistinct(g, c, s);
    if Placed(g, c, q, s) == [] { assert h + Placed(g, c, q, s) == h; }
    match q {
      case Use(a, _) =>
        FindInTags(c.sets[a.id.index], a.id.tag);
        TouchByLastUse(h, tags, a.id.tag, g.assoc);
      case Drop(id) => WithoutByLastUse(h, tags, id.tag);
      case Clear =>
    }
  }

  /** Main result: under LRU (FIFO), after any run, the valid lines of a set stand first in its
      way list, by strictly decreasing time of last use (of fill). */
  lemma {:induction false} WayOrderIsRecency(g: Geometry, c: Cache, qs: seq<Request>, s: nat, h: seq<Key>)
    requires Ordered(g, c) && AllInRange(g, qs) && !g.policy.Random? && s < g.nsets
    requires ByLastUse(h, ValidTags(c.sets[s]))
    ensures Ordered(g, Run(g, c, qs))
    ensures ByLastUse(h + Placements(g, c, qs, s), ValidTags(Run(g, c, qs).sets[s]))
    decreases |qs|
  {
    if qs == [] {
      assert h + [] == h;
    } else {
      var q, c' := qs[0], Serve(g, c, qs[0]);
      ServeOrdered(g, c, q);
      PlacedKeepsOrder(g, c, q, s, h);
      WayOrderIsRecency(g, c', qs[1..], s, h + Placed(g, c, q, s));
      Reassociate(h, Placed(g, c, q, s), Placements(g, c', qs[1..], s));
    }
  }

  lemma Reassociate(a: seq<Key>, b: seq<Key>, c: seq<Key>)
    ensures a + b + c == a + (b + c)
  {
  }

  /** Main result: in a state whose way lists are in order of last use (of fill), a miss evicts
      a valid block exactly when every line of the set is valid, and then the block used
      (filled) longest ago. */
  lemma VictimIsOldest(g: Geometry, c: Cache, a: Access, choice: nat, h: seq<Key>)
    requires Ordered(g, c) && Fits(g, a) && choice < g.assoc && !g.policy.Random?
    requires Find(c.sets[a.id.index], a.id.tag) < 0
    requires ByLastUse(h, ValidTags(c.sets[a.id.index]))
    ensures var ls := c.sets[a.id.index];
      var e := DoAccess(g, c, a, choice).evicted;
      && (e.Some? <==> forall k :: 0 <= k < |ls| ==> ls[k].valid)
      && (e.Some? ==>
            && e.value.index == a.id.index && Find(ls, e.value.tag) >= 0
            && forall k :: 0 <= k < |ls| && ls[k].tag != e.value.tag ==>
                 LastUse(h, ls[k].tag) > LastUse(h, e.value.tag))
  {
    var ls := c.sets[a.id.index];
    assert SetShaped(g, ls);
    MissEvicts(g, c, a, choice);
    LastIsOldest(ls, h);
    hide DoAccess, ByLastUse, ValidTags, LastUse, Ordered, Fits, SetShaped;
  }

  /** Under random replacement a set is not reordered: an access changes only the line it hits or,
      on a miss, the one the random choice names, whose block is evicted if it is valid. */
  lemma RandomInPlace(g: Geometry, c: Cache, a: Access, choice: nat)
    requires Shaped(g, c) && Fits(g, a) && choice < g.assoc && g.policy.Random?
    ensures var ls, r := c.sets[a.id.index], DoAccess(g, c, a, choice);
      var at := if Find(ls, a.id.tag) >= 0 then Find(ls, a.id.tag) else choice;
      var ls' := r.cache.sets[a.id.index];
      && |ls'| == |ls| && ls'[at].valid && ls'[at].tag == a.id.tag
      && (forall k :: 0 <= k < |ls| && k != at ==> ls'[k] == ls[k])
      && r.evicted == if !r.hit && ls[choice].valid then Some(BlockId(ls[choice].tag, a.id.index)) else None
  {
    assert SetShaped(g, c.sets[a.id.index]);
  }

  /** Main result: in every state a created cache reaches, a miss evicts a valid block exactly
      when the set is full, and then the one placed longest ago in the run so far: under LRU the
      least recently used, under FIFO the one filled first. */
  lemma ReachableVictim(g: Geometry, store: Store, qs: seq<Request>, a: Access, choice: nat)
    requires g.Accepted() && StoreShaped(g, store) && AllInRange(g, qs) && !g.policy.Random?
    requires Fits(g, a) && choice < g.assoc
    ensures Ordered(g, Created(g, store)) && Ordered(g, Run(g, Created(g, store), qs))
    ensures var c := Run(g, Created(g, store), qs);
      var h, ls := Placements(g, Created(g, store), qs, a.id.index), c.sets[a.id.index];
      var e := DoAccess(g, c, a, choice).evicted;
      && (Find(ls, a.id.tag) >= 0 ==> e.None?)
      && (Find(ls, a.id.tag) < 0 ==> (e.Some? <==> forall k :: 0 <= k < |ls| ==> ls[k].valid))
      && (e.Some? ==>
            && e.value.index == a.id.index && Find(ls, e.value.tag) >= 0
            && forall k :: 0 <= k < |ls| && ls[k].tag != e.value.tag ==>
                 LastUse(h, ls[k].tag) > LastUse(h, e.value.tag))
  {
    var c0, s := Created(g, store), a.id.index;
    CreatedOrdered(g, store);
    WayOrderIsRecency(g, c0, qs, s, []);
    assert [] + Placements(g, c0, qs, s) == Placements(g, c0, qs, s);
    if Find(Run(g, c0, qs).sets[s], a.id.tag) < 0 {
      VictimIsOldest(g, Run(g, c0, qs), a, choice, Placements(g, c0, qs, s));
    }
  }

  /** What a miss evicts: the last line, if it is valid. */
  lemma MissEvicts(g: Geometry, c: Cache, a: Access, choice: nat)
    requires Ordered(g, c) && Fits(g, a) && choice < g.assoc && !g.policy.Random?
    requires Find(c.sets[a.id.index], a.id.tag) < 0
    ensures var ls := c.sets[a.id.index];
      && |ls| == g.assoc > 0
      && DoAccess(g, c, a, choice).evicted ==
           if ls[|ls| - 1].valid then Some(BlockId(ls[|ls| - 1].tag, a.id.index)) else None
  {
    assert SetShaped(g, c.sets[a.id.index]);
  }

  /** When the last line is valid all are, and its use is the oldest. */
  lemma LastIsOldest(ls: seq<Line>, h: seq<Key>)
    requires ls != [] && ValidFirst(ls) && UniqueTags(ls) && ByLastUse(h, ValidTags(ls))
    ensures var v := ls[|ls| - 1];
      && (v.valid <==> forall k :: 0 <= k < |ls| ==> ls[k].valid)
      && (v.valid ==> Find(ls, v.tag) >= 0)
      && (v.valid ==> forall k :: 0 <= k < |ls| && ls[k].tag != v.tag ==> LastUse(h, ls[k].tag) > LastUse(h, v.tag))
  {
    ValidIsLeading(ls);
    var vt, v := ValidTags(ls), ls[|ls| - 1];
    if v.valid {
      FoundIs(ls, |ls| - 1);
      forall k | 0 <= k < |ls| && ls[k].tag != v.tag
        ensures LastUse(h, ls[k].tag) > LastUse(h, v.tag)
      {
        assert vt[k] == ls[k].tag && vt[|ls| - 1] == v.tag;
      }
    }
  }

  ghost predicate OnlyUses(qs: seq<Request>) {
    forall i :: 0 <= i < |qs| ==> qs[i].Use?
  }

  function UseOf(q: Request, s: nat): seq<Key> {
    if q.Use? && q.a.id.index == s then [q.a.id.tag] else []
  }

  /** The tags used in set s, in order. */
  function UsesOf(qs: seq<Request>, s: nat): seq<Key> {
    if qs == [] then [] else UseOf(qs[0], s) + UsesOf(qs[1..], s)
  }

  lemma UseExtendsHistory(g: Geometry, c: Cache, q: Request, s: nat, h: seq<Key>)
    requires Ordered(g, c) && InRange(g, q) && q.Use? && g.policy.LRU? && s < g.nsets
    requires ValidTags(c.sets[s]) == AfterUses(h, g.assoc)
    ensures s < |Serve(g, c, q).sets|
    ensures ValidTags(Serve(g, c, q).sets[s]) == AfterUses(h + UseOf(q, s), g.assoc)
  {
    ServeTags(g, c, q, s);
    if q.a.id.index == s {
      assert (h + [q.a.id.tag])[..|h|] == h;
    } else {
      assert h + [] == h;
    }
  }

  lemma {:induction false} LruFromHistory(g: Geometry, c: Cache, qs: seq<Request>, s: nat, h: seq<Key>)
    requires Ordered(g, c) && AllInRange(g, qs) && OnlyUses(qs) && g.policy.LRU? && s < g.nsets
    requires ValidTags(c.sets[s]) == AfterUses(h, g.assoc)
    ensures ValidTags(Run(g, c, qs).sets[s]) == AfterUses(h + UsesOf(qs, s), g.assoc)
    decreases |qs|
  {
    if qs == [] {
      assert h + [] == h;
    } else {
      var q := qs[0];
      assert q.Use?;
      ServeOrdered(g, c, q);
      UseExtendsHistory(g, c, q, s, h);
      LruFromHistory(g, Serve(g, c, q), qs[1..], s, h + UseOf(q, s));
      Reassociate(h, UseOf(q, s), UsesOf(qs[1..], s));
    }
  }

  lemma {:induction false} NoValidTags(ls: seq<Line>)
    requires forall k :: 0 <= k < |ls| ==> !ls[k].valid
    ensures ValidFirst(ls) && ValidTags(ls) == []
  {
    LeadingIsValid(ls, []);
  }

  /** Main result: without flushes, a set of an LRU cache holds exactly the `assoc` most
      recently used distinct tags, so an access hits if and only if its tag is among them. */
  lemma LruHoldsMostRecent(g: Geometry, store: Store, qs: seq<Request>, s: nat, tag: Key)
    requires g.Accepted() && StoreShaped(g, store) && AllInRange(g, qs) && OnlyUses(qs)
    requires g.policy.LRU? && s < g.nsets
    ensures Sound(g, Created(g, store))
    ensures var r := Run(g, Created(g, store), qs);
      && ValidTags(r.sets[s]) == Take(Recent(UsesOf(qs, s)), g.assoc)
      && (Find(r.sets[s], tag) >= 0 <==> tag in Take(Recent(UsesOf(qs, s)), g.assoc))
  {
    var c := Created(g, store);
    CreatedOrdered(g, store);
    LruFromHistory(g, c, qs, s, []);
    assert [] + UsesOf(qs, s) == UsesOf(qs, s);
    HoldsMostRecent(UsesOf(qs, s), g.assoc);
    WayOrderIsRecency(g, c, qs, s, []);
    FindInTags(Run(g, c, qs).sets[s], tag);
  }
}
