/** A write-back cache with data blocks is invisible: whatever the geometry and the replacement
    policy, the cache and the next level together behave as one flat memory. */
module CacheTransparency {
  import opened MoveToFront
  import opened Bits
  import opened Options
  import opened CacheAddress
  import opened CacheSpec

  /** A valid line that was not written holds what the next level holds. */
  ghost predicate CleanLine(g: Geometry, store: Store, s: nat, l: Line) {
    l.valid && !l.dirty ==> l.data == StoredBlock(g, store, BlockId(l.tag, s))
  }

  ghost predicate SetCoherent(g: Geometry, store: Store, s: nat, ls: seq<Line>) {
    forall k :: 0 <= k < |ls| ==> CleanLine(g, store, s, ls[k])
  }

  ghost predicate Coherent(g: Geometry, c: Cache)
    requires Shaped(g, c)
  {
    forall s :: 0 <= s < g.nsets ==> SetCoherent(g, c.store, s, c.sets[s])
  }

  ghost predicate Inv(g: Geometry, c: Cache) {
    Sound(g, c) && Coherent(g, c)
  }

  /** Contents of a block as the program sees them: the resident copy, else the next level. */
  ghost function Flat(g: Geometry, c: Cache, id: BlockId): (r: seq<Byte>)
    requires Shaped(g, c) && id.index < g.nsets
    ensures g.balloc ==> |r| == g.bsize
  {
    match Resident(c.sets[id.index], id.tag)
    case Some(l) => l.data
    case None => StoredBlock(g, c.store, id)
  }

  /** What an access should do to one block of flat memory. */
  ghost function FlatAfter(g: Geometry, c: Cache, a: Access, id: BlockId): seq<Byte>
    requires Shaped(g, c) && Fits(g, a) && g.balloc && id.index < g.nsets
  {
    if a.write && id == a.id then Patch(Flat(g, c, id), a.ofs, a.bytes) else Flat(g, c, id)
  }

  // ----- one access

  lemma HitFlat(g: Geometry, c: Cache, a: Access, i: nat, id: BlockId)
    requires Inv(g, c) && Fits(g, a) && g.balloc && id.index < g.nsets
    requires i < g.assoc && Matches(c.sets[a.id.index][i], a.id.tag)
    requires Shaped(g, HitAt(g, c, a, i).cache)
    ensures var r := HitAt(g, c, a, i); Flat(g, r.cache, id) == FlatAfter(g, c, a, id)
  {
    var ls := c.sets[a.id.index];
    var l := ls[i].(dirty := ls[i].dirty || a.write, data := Copied(g, a, ls[i].data));
    FoundIs(ls, i);
    if id.index == a.id.index {
      if g.policy.LRU? { ResidentToFront(ls, i, l, id.tag); } else { ResidentInPlace(ls, i, l, id.tag); }
    } else {
      assert HitAt(g, c, a, i).cache.sets[id.index] == c.sets[id.index];
    }
  }

  /** Replacing line i by a clean line, in place or moved, keeps the set coherent. */
  lemma CoherentPlaced(g: Geometry, store: Store, s: nat, ls: seq<Line>, i: nat, l: Line)
    requires i < |ls| && CleanLine(g, store, s, l)
    requires forall k :: 0 <= k < |ls| && k != i ==> CleanLine(g, store, s, ls[k])
    ensures SetCoherent(g, store, s, ls[i := l])
    ensures SetCoherent(g, store, s, ToFront(ls, i, l)) && SetCoherent(g, store, s, ToBack(ls, i, l))
  {
  }

  lemma HitCoherent(g: Geometry, c: Cache, a: Access, i: nat)
    requires Inv(g, c) && Fits(g, a) && g.balloc
    requires i < g.assoc && Matches(c.sets[a.id.index][i], a.id.tag)
    requires Shaped(g, HitAt(g, c, a, i).cache)
    ensures Coherent(g, HitAt(g, c, a, i).cache)
  {
    var ls := c.sets[a.id.index];
    var l := ls[i].(dirty := ls[i].dirty || a.write, data := Copied(g, a, ls[i].data));
    assert SetCoherent(g, c.store, a.id.index, ls) && CleanLine(g, c.store, a.id.index, ls[i]);
    CoherentPlaced(g, c.store, a.id.index, ls, i, l);
  }

  /** Writing a dirty line back leaves every other line of the cache coherent. */
  lemma EvictionCoherent(g: Geometry, c: Cache, s: nat, v: nat)
    requires Inv(g, c) && s < g.nsets && v < g.assoc
    ensures var store' := StoreAfterEviction(g, c.store, s, c.sets[s][v]);
      && (forall t :: 0 <= t < g.nsets && t != s ==> SetCoherent(g, store', t, c.sets[t]))
      && (forall k :: 0 <= k < g.assoc && k != v ==> CleanLine(g, store', s, c.sets[s][k]))
  {
    var ls, gone := c.sets[s], c.sets[s][v];
    var store' := StoreAfterEviction(g, c.store, s, gone);
    forall t | 0 <= t < g.nsets && t != s ensures SetCoherent(g, store', t, c.sets[t]) {
      assert SetCoherent(g, c.store, t, c.sets[t]);
    }
    forall k | 0 <= k < g.assoc && k != v ensures CleanLine(g, store', s, ls[k]) {
      assert SetCoherent(g, c.store, s, ls) && CleanLine(g, c.store, s, ls[k]);
      if ls[k].valid && gone.valid { FoundIs(ls, v); FoundIs(ls, k); }
    }
  }

  /** Writing back the victim does not touch the block about to be fetched. */
  lemma EvictionElsewhere(g: Geometry, c: Cache, a: Access, v: nat)
    requires Inv(g, c) && Fits(g, a) && v < g.assoc
    requires Find(c.sets[a.id.index], a.id.tag) < 0
    ensures StoredBlock(g, StoreAfterEviction(g, c.store, a.id.index, c.sets[a.id.index][v]), a.id)
         == StoredBlock(g, c.store, a.id)
  {
    assert !Matches(c.sets[a.id.index][v], a.id.tag);
  }

  lemma MissFlat(g: Geometry, c: Cache, a: Access, v: nat, id: BlockId)
    requires Inv(g, c) && Fits(g, a) && g.balloc && id.index < g.nsets && v < g.assoc
    requires Find(c.sets[a.id.index], a.id.tag) < 0
    requires Shaped(g, MissAt(g, c, a, v).cache)
    ensures var r := MissAt(g, c, a, v); Flat(g, r.cache, id) == FlatAfter(g, c, a, id)
  {
    if id.index == a.id.index {
      MissFlatSame(g, c, a, v, id);
    } else {
      assert MissAt(g, c, a, v).cache.sets[id.index] == c.sets[id.index];
    }
  }

  /** In the set of the access only the block fetched and the victim can tell the difference. */
  lemma MissFlatSame(g: Geometry, c: Cache, a: Access, v: nat, id: BlockId)
    requires Inv(g, c) && Fits(g, a) && g.balloc && id.index == a.id.index && v < g.assoc
    requires Find(c.sets[a.id.index], a.id.tag) < 0
    requires Shaped(g, MissAt(g, c, a, v).cache)
    ensures var r := MissAt(g, c, a, v); Flat(g, r.cache, id) == FlatAfter(g, c, a, id)
  {
    var ls := c.sets[a.id.index];
    MissResident(g, c, a, v, id.tag);
    if ls[v].valid { FoundIs(ls, v); }
    MissValue(g, c, a, v, id);
  }

  function MissLine(g: Geometry, c: Cache, a: Access): Line
    requires Shaped(g, c) && Fits(g, a)
  {
    var data := StoredBlock(g, c.store, a.id);
    Line(a.id.tag, true, a.write, if g.balloc then Copied(g, a, data) else data)
  }

  lemma MissResident(g: Geometry, c: Cache, a: Access, v: nat, t: nat)
    requires Inv(g, c) && Fits(g, a) && g.balloc && v < g.assoc
    requires Find(c.sets[a.id.index], a.id.tag) < 0
    ensures var r := MissAt(g, c, a, v).cache;
      && a.id.index < |r.sets| && r.store == StoreAfterEviction(g, c.store, a.id.index, c.sets[a.id.index][v])
      && Resident(r.sets[a.id.index], t) == ResidentAfter(c.sets[a.id.index], v, MissLine(g, c, a), t)
  {
    var ls := c.sets[a.id.index];
    EvictionElsewhere(g, c, a, v);
    if g.policy.Random? {
      ResidentInPlace(ls, v, MissLine(g, c, a), t);
    } else {
      ResidentToFront(ls, v, MissLine(g, c, a), t);
    }
  }

  lemma MissValue(g: Geometry, c: Cache, a: Access, v: nat, id: BlockId)
    requires Inv(g, c) && Fits(g, a) && g.balloc && id.index == a.id.index && v < g.assoc
    requires var ls := c.sets[a.id.index];
      Find(ls, a.id.tag) < 0 && (ls[v].valid ==> Find(ls, ls[v].tag) == v)
    ensures var ls := c.sets[a.id.index];
      FlatAfter(g, c, a, id) == match ResidentAfter(ls, v, MissLine(g, c, a), id.tag)
                                case Some(l) => l.data
                                case None => StoredBlock(g, StoreAfterEviction(g, c.store, a.id.index, ls[v]), id)
  {
    var ls := c.sets[a.id.index];
    if Matches(ls[v], id.tag) {
      assert CleanLine(g, c.store, id.index, ls[v]) by { assert SetCoherent(g, c.store, id.index, ls); }
    }
  }

  lemma MissCoherent(g: Geometry, c: Cache, a: Access, v: nat)
    requires Inv(g, c) && Fits(g, a) && g.balloc && v < g.assoc
    requires Find(c.sets[a.id.index], a.id.tag) < 0
    requires Shaped(g, MissAt(g, c, a, v).cache)
    ensures Coherent(g, MissAt(g, c, a, v).cache)
  {
    var s, ls := a.id.index, c.sets[a.id.index];
    var store' := StoreAfterEviction(g, c.store, s, ls[v]);
    var l := Line(a.id.tag, true, a.write, Copied(g, a, StoredBlock(g, store', a.id)));
    EvictionCoherent(g, c, s, v);
    CoherentPlaced(g, store', s, ls, v, l);
  }

  /** One access keeps the invariant, changes flat memory only where it writes, and a read
      returns flat memory: fills and evictions are invisible. */
  lemma AccessTransparent(g: Geometry, c: Cache, a: Access, choice: nat)
    requires Inv(g, c) && Fits(g, a) && g.balloc && choice < g.assoc
    ensures var r := DoAccess(g, c, a, choice);
      && Inv(g, r.cache)
      && (forall id: BlockId :: id.index < g.nsets ==> Flat(g, r.cache, id) == FlatAfter(g, c, a, id))
      && r.bytes == if a.write then [] else Flat(g, c, a.id)[a.ofs..a.ofs + a.len]
  {
    var i := Find(c.sets[a.id.index], a.id.tag);
    var r := DoAccess(g, c, a, choice);
    AccessSound(g, c, a, choice);
    forall id: BlockId | id.index < g.nsets
      ensures Flat(g, r.cache, id) == FlatAfter(g, c, a, id)
    {
      if i >= 0 { HitFlat(g, c, a, i, id); } else { MissFlat(g, c, a, Victim(g, choice), id); }
    }
    if i >= 0 {
      HitCoherent(g, c, a, i);
    } else {
      MissCoherent(g, c, a, Victim(g, choice));
      EvictionElsewhere(g, c, a, Victim(g, choice));
    }
  }

  // ----- flushes

  lemma InvalidatedFlat(g: Geometry, c: Cache, s: nat, k: nat, to: BlockId)
    requires Inv(g, c) && g.balloc && s < g.nsets && k < g.assoc && c.sets[s][k].valid
    requires to == BlockId(c.sets[s][k].tag, s)
    ensures Inv(g, Invalidated(g, c, s, k, to))
    ensures forall id: BlockId :: id.index < g.nsets ==> Flat(g, Invalidated(g, c, s, k, to), id) == Flat(g, c, id)
  {
    var ls := c.sets[s];
    var l := ls[k].(valid := false);
    var r := Invalidated(g, c, s, k, to);
    assert ls[k] == c.sets[s][k];
    forall id: BlockId | id.index < g.nsets ensures Flat(g, r, id) == Flat(g, c, id) {
      if id.index == s {
        FoundIs(ls, k);
        ResidentInPlace(ls, k, l, id.tag);
      }
    }
    InvalidatedSound(g, c, s, k, to);
    EvictionCoherent(g, c, s, k);
    CoherentPlaced(g, r.store, s, ls, k, l);
  }

  /** Moving a line to the tail of its way list changes nothing the program can see. */
  lemma MovedToBack(g: Geometry, c: Cache, s: nat, i: nat)
    requires Inv(g, c) && s < g.nsets && i < g.assoc
    ensures var r := SentBack(g, c, s, i);
      && Inv(g, r)
      && (forall t :: Resident(r.sets[s], t) == Resident(c.sets[s], t))
      && (forall b: BlockId :: b.index < g.nsets ==> Flat(g, r, b) == Flat(g, c, b))
  {
    var ls := c.sets[s];
    var r := SentBack(g, c, s, i);
    BackKeepsLines(ls, i);
    FrontShaped(g, ls, i, ls[i]);
    SetReplaced(g, c, s, ToBack(ls, i, ls[i]), c.store, c.stats, c.bus);
    assert SetCoherent(g, c.store, s, ls);
    CoherentPlaced(g, c.store, s, ls, i, ls[i]);
    forall t ensures Resident(r.sets[s], t) == Resident(ls, t) {
      ResidentMoved(ls, r.sets[s], t);
    }
    assert forall t :: 0 <= t < g.nsets && t != s ==> r.sets[t] == c.sets[t];
  }

  /** Flushing a block changes nothing the program can see. */
  lemma FlushBlockTransparent(g: Geometry, c: Cache, id: BlockId)
    requires Inv(g, c) && g.balloc && id.index < g.nsets
    ensures Inv(g, DoFlushBlock(g, c, id))
    ensures forall b: BlockId :: b.index < g.nsets ==> Flat(g, DoFlushBlock(g, c, id), b) == Flat(g, c, b)
  {
    var i := Find(c.sets[id.index], id.tag);
    if i >= 0 {
      InvalidatedFlat(g, c, id.index, i, id);
      MovedToBack(g, Invalidated(g, c, id.index, i, id), id.index, i);
    }
  }

  /** Flushing a block removes it and brings the next level up to date for it. */
  lemma FlushBlockWritesBack(g: Geometry, c: Cache, id: BlockId)
    requires Inv(g, c) && g.balloc && id.index < g.nsets
    requires Shaped(g, DoFlushBlock(g, c, id))
    ensures !Holds(g, DoFlushBlock(g, c, id), id)
    ensures StoredBlock(g, DoFlushBlock(g, c, id).store, id) == Flat(g, c, id)
  {
    var i := Find(c.sets[id.index], id.tag);
    if i >= 0 {
      var m := Invalidated(g, c, id.index, i, id);
      InvalidatedFlat(g, c, id.index, i, id);
      InvalidatedGone(g, c, id, i);
      MovedToBack(g, m, id.index, i);
      assert Flat(g, m, id) == StoredBlock(g, m.store, id);
    }
  }

  lemma InvalidatedGone(g: Geometry, c: Cache, id: BlockId, i: nat)
    requires Inv(g, c) && id.index < g.nsets && Find(c.sets[id.index], id.tag) == i
    requires Shaped(g, Invalidated(g, c, id.index, i, id))
    ensures Resident(Invalidated(g, c, id.index, i, id).sets[id.index], id.tag) == None
  {
    var ls := c.sets[id.index];
    FoundIs(ls, i);
    ResidentInPlace(ls, i, ls[i].(valid := false), id.tag);
  }

  /** A line flushed in the first 2^31 bytes of sets is written back where it belongs. */
  lemma FlushedLineFlat(g: Geometry, c: Cache, s: nat, k: nat)
    requires g.Ok() && Inv(g, c) && Named(g, c) && g.balloc && s < g.nsets && s * g.bsize < INT_LIMIT
    requires k < g.assoc && c.sets[s][k].valid
    ensures var r := FlushedLine(g, c, s, k);
      && Inv(g, r) && Named(g, r) && r.sets == c.sets[s := c.sets[s][k := c.sets[s][k].(valid := false)]]
      && (forall id: BlockId :: id.index < g.nsets ==> Flat(g, r, id) == Flat(g, c, id))
  {
    var id := BlockId(c.sets[s][k].tag, s);
    assert SetNamed(g, s, c.sets[s]);
    FlushedHome(g, id);
    InvalidatedFlat(g, c, s, k, id);
    InvalidatedNamed(g, c, s, k, id);
  }

  /** r is c with lines k.. of set s flushed, unnoticed. */
  ghost predicate SetFlushed(g: Geometry, c: Cache, r: Cache, s: nat, k: nat)
    requires Shaped(g, c) && s < g.nsets && k <= g.assoc
  {
    && Inv(g, r) && Named(g, r)
    && (forall b: BlockId :: b.index < g.nsets ==> Flat(g, r, b) == Flat(g, c, b))
    && (forall j :: k <= j < g.assoc ==> !r.sets[s][j].valid)
    && r.sets[s][..k] == c.sets[s][..k]
    && (forall t :: 0 <= t < g.nsets && t != s ==> r.sets[t] == c.sets[t])
  }

  lemma SetFlushedMore(g: Geometry, c: Cache, m: Cache, r: Cache, s: nat, k: nat)
    requires Shaped(g, c) && Shaped(g, m) && s < g.nsets && k < g.assoc && SetFlushed(g, m, r, s, k + 1)
    requires m.sets == c.sets[s := c.sets[s][k := m.sets[s][k]]] && !m.sets[s][k].valid
    requires forall b: BlockId :: b.index < g.nsets ==> Flat(g, m, b) == Flat(g, c, b)
    ensures SetFlushed(g, c, r, s, k)
  {
    assert Shaped(g, r) && SetShaped(g, r.sets[s]) && SetShaped(g, m.sets[s]);
    hide Flat, Inv, Named;
    assert r.sets[s][k] == r.sets[s][..k + 1][k] == m.sets[s][k];
    assert r.sets[s][..k] == r.sets[s][..k + 1][..k] == m.sets[s][..k];
  }

  lemma {:induction false} FlushSetTransparent(g: Geometry, c: Cache, s: nat, k: nat)
    requires g.Ok() && Inv(g, c) && Named(g, c) && g.balloc && s < g.nsets && s * g.bsize < INT_LIMIT && k <= g.assoc
    ensures SetFlushed(g, c, FlushSetFrom(g, c, s, k), s, k)
    decreases g.assoc - k
  {
    assert Shaped(g, c) && SetShaped(g, c.sets[s]);
    if k == g.assoc {
    } else if c.sets[s][k].valid {
      FlushedLineFlat(g, c, s, k);
      hide Inv, Named, Flat, FlushedLine, SetFlushed;
      var m := FlushedLine(g, c, s, k);
      FlushSetTransparent(g, m, s, k + 1);
      SetFlushedMore(g, c, m, FlushSetFrom(g, c, s, k), s, k);
    } else {
      hide Inv, Named, Flat, SetFlushed;
      FlushSetTransparent(g, c, s, k + 1);
      assert c.sets[s] == c.sets[s][k := c.sets[s][k]];
      assert c.sets == c.sets[s := c.sets[s]];
      SetFlushedMore(g, c, c, FlushSetFrom(g, c, s, k), s, k);
    }
  }

  lemma {:induction false} FlushTransparentFrom(g: Geometry, c: Cache, s: nat)
    requires g.Ok() && Inv(g, c) && Named(g, c) && g.balloc && s <= g.nsets && g.nsets * g.bsize <= INT_LIMIT
    ensures var r := FlushFrom(g, c, s);
      && Inv(g, r) && Named(g, r)
      && (forall b: BlockId :: b.index < g.nsets ==> Flat(g, r, b) == Flat(g, c, b))
      && (forall t, j :: s <= t < g.nsets && 0 <= j < g.assoc ==> !r.sets[t][j].valid)
      && r.sets[..s] == c.sets[..s]
    decreases g.nsets - s
  {
    if s < g.nsets {
      var m := FlushSetFrom(g, c, s, 0);
      IndexShiftSmall(g, s);
      FlushSetTransparent(g, c, s, 0);
      FlushTransparentFrom(g, m, s + 1);
      var r := FlushFrom(g, c, s);
      assert r.sets[s] == r.sets[..s + 1][s] == m.sets[s];
      assert r.sets[..s] == r.sets[..s + 1][..s] == m.sets[..s];
    }
  }

  /** The next level holds what the program sees. */
  ghost predicate WrittenBack(g: Geometry, c: Cache, r: Cache)
    requires Shaped(g, c)
  {
    forall b: BlockId :: b.index < g.nsets ==> StoredBlock(g, r.store, b) == Flat(g, c, b)
  }

  /** In a cache of at most 2^31 bytes of sets a whole flush leaves nothing valid and brings the
      next level up to date. */
  lemma FlushTransparent(g: Geometry, c: Cache)
    requires g.Ok() && Inv(g, c) && Named(g, c) && g.balloc && g.nsets * g.bsize <= INT_LIMIT
    ensures var r := DoFlush(g, c);
      && Inv(g, r) && Named(g, r) && WrittenBack(g, c, r)
      && (forall t, j :: 0 <= t < g.nsets && 0 <= j < g.assoc ==> !r.sets[t][j].valid)
  {
    FlushTransparentFrom(g, c, 0);
    var r := DoFlush(g, c);
    forall b: BlockId | b.index < g.nsets ensures StoredBlock(g, r.store, b) == Flat(g, c, b) {
      assert Find(r.sets[b.index], b.tag) < 0;
    }
  }

  lemma CreatedInv(g: Geometry, store: Store)
    requires g.assoc > 0 && g.bsize > 0 && StoreShaped(g, store)
    ensures Inv(g, Created(g, store)) && Named(g, Created(g, store))
    ensures forall b: BlockId :: b.index < g.nsets ==> Flat(g, Created(g, store), b) == StoredBlock(g, store, b)
  {
  }

  // ----- where a whole flush fails

  /** No line that a whole flush has to write back is written back as block b. */
  ghost predicate NotFlushedAs(g: Geometry, c: Cache, b: BlockId)
    requires Shaped(g, c)
  {
    forall s, k :: 0 <= s < g.nsets && 0 <= k < g.assoc && c.sets[s][k].valid && c.sets[s][k].dirty ==>
      FlushedAs(g, c.sets[s][k].tag, s) != b
  }

  lemma {:induction false} FlushSetElsewhere(g: Geometry, c: Cache, s: nat, k: nat, b: BlockId)
    requires Shaped(g, c) && s < g.nsets && k <= g.assoc && NotFlushedAs(g, c, b)
    ensures var r := FlushSetFrom(g, c, s, k);
      NotFlushedAs(g, r, b) && StoredBlock(g, r.store, b) == StoredBlock(g, c.store, b)
    decreases g.assoc - k
  {
    if k == g.assoc {
    } else if c.sets[s][k].valid {
      FlushSetElsewhere(g, FlushedLine(g, c, s, k), s, k + 1, b);
    } else {
      FlushSetElsewhere(g, c, s, k + 1, b);
    }
  }

  lemma {:induction false} FlushElsewhere(g: Geometry, c: Cache, s: nat, b: BlockId)
    requires Shaped(g, c) && s <= g.nsets && NotFlushedAs(g, c, b)
    ensures StoredBlock(g, FlushFrom(g, c, s).store, b) == StoredBlock(g, c.store, b)
    decreases g.nsets - s
  {
    if s < g.nsets {
      FlushSetElsewhere(g, c, s, 0, b);
      FlushElsewhere(g, FlushSetFrom(g, c, s, 0), s + 1, b);
    }
  }

  /** The block that holds address 2^31. */
  ghost function HalfBlock(g: Geometry): BlockId
    requires g.bsize > 0 && g.nsets > 0
  {
    g.Id(INT_LIMIT)
  }

  /** In a larger cache that block has tag 0 and is flushed to another address. */
  lemma HalfBlockStrays(g: Geometry)
    requires g.Ok() && g.nsets * g.bsize > INT_LIMIT
    ensures var b := HalfBlock(g);
      b.tag == 0 && b.index < g.nsets && g.Names(b) && g.Offset(INT_LIMIT) == 0 && FlushedAs(g, b.tag, b.index) != b
  {
    var b := HalfBlock(g);
    HalfSplit(g);
    AddressOfId(g, INT_LIMIT);
    assert g.MakeBlockFlushC(0, b.index) == INT_LIMIT + (WORD64 - WORD32) by {
      assert Shl64(0, g.tagShift) == 0;
    }
    AddressOfId(g, INT_LIMIT + (WORD64 - WORD32));
    AddressOfId(g, g.Address(b));
  }

  lemma HalfSplit(g: Geometry)
    requires g.Ok() && g.nsets * g.bsize > INT_LIMIT
    ensures g.Id(INT_LIMIT) == BlockId(0, INT_LIMIT / g.bsize) && g.Offset(INT_LIMIT) == 0
    ensures (INT_LIMIT / g.bsize) * Pow2(g.setShift) == INT_LIMIT && INT_LIMIT / g.bsize < g.nsets
  {
    Pow2Of31();
    Pow2Divides(g.setShift, 31);
    SplitMultiple(g.bsize, Pow2(31 - g.setShift), g.nsets);
  }

  lemma SplitMultiple(b: nat, q: nat, n: nat)
    requires b > 0 && n > 0 && b * q < n * b
    ensures (b * q) / b == q && (b * q) % b == 0 && q < n && q / n == 0 && q % n == q
  {
    DivUnique(b * q, b, q, 0);
    if q >= n { MulMono(b, n, q); }
    SmallMod(q, n);
  }

  /** A cache created empty, after a write of one byte at address 2^31. */
  ghost function AfterHalfWrite(g: Geometry, store: Store): (r: Cache)
    requires g.Ok() && g.balloc && StoreShaped(g, store)
    ensures Shaped(g, r)
  {
    CreatedInv(g, store);
    HalfFits(g);
    var a := Access(true, HalfBlock(g), g.Offset(INT_LIMIT), [1], 1);
    AccessSound(g, Created(g, store), a, 0);
    DoAccess(g, Created(g, store), a, 0).cache
  }

  lemma HalfFits(g: Geometry)
    requires g.Ok()
    ensures HalfBlock(g).index < g.nsets && g.Offset(INT_LIMIT) + 1 <= g.bsize && g.Names(HalfBlock(g))
  {
    AddressOfId(g, INT_LIMIT);
  }

  /** After that write and a whole flush the next level still lacks the byte. */
  lemma FlushLoses(g: Geometry, store: Store)
    requires g.Ok() && g.balloc && g.nsets * g.bsize > INT_LIMIT && StoreShaped(g, store)
    requires StoredBlock(g, store, HalfBlock(g))[0] != 1
    ensures var c := AfterHalfWrite(g, store);
      && Inv(g, c) && Named(g, c) && HalfBlock(g).index < g.nsets
      && Flat(g, c, HalfBlock(g))[0] == 1
      && StoredBlock(g, DoFlush(g, c).store, HalfBlock(g)) == StoredBlock(g, store, HalfBlock(g))
  {
    var b, c0 := HalfBlock(g), Created(g, store);
    var a := Access(true, b, g.Offset(INT_LIMIT), [1], 1);
    CreatedInv(g, store);
    HalfBlockStrays(g);
    AccessTransparent(g, c0, a, 0);
    AccessNamed(g, c0, a, 0);
    var c := AfterHalfWrite(g, store);
    assert Flat(g, c, b) == FlatAfter(g, c0, a, b);
    OnlyLine(g, store, a);
    FlushElsewhere(g, c, 0, b);
  }

  /** After one access the cache holds at most the line accessed, and the next level is untouched. */
  lemma OnlyLine(g: Geometry, store: Store, a: Access)
    requires g.assoc > 0 && g.bsize > 0 && StoreShaped(g, store)
    requires Shaped(g, Created(g, store)) && Fits(g, a) && Shaped(g, DoAccess(g, Created(g, store), a, 0).cache)
    ensures var c := DoAccess(g, Created(g, store), a, 0).cache;
      && c.store == store
      && forall s, k :: 0 <= s < g.nsets && 0 <= k < g.assoc && c.sets[s][k].valid ==>
           s == a.id.index && c.sets[s][k].tag == a.id.tag
  {
  }

  /** Main result: a whole flush brings the next level up to date, whatever the cache holds, if
      and only if the cache has at most 2^31 bytes of sets. */
  lemma FlushExactly(g: Geometry)
    requires g.Ok() && g.balloc
    ensures g.nsets * g.bsize <= INT_LIMIT
      <==> forall c: Cache :: Inv(g, c) && Named(g, c) ==> WrittenBack(g, c, DoFlush(g, c))
  {
    if g.nsets * g.bsize <= INT_LIMIT {
      forall c: Cache | Inv(g, c) && Named(g, c) ensures WrittenBack(g, c, DoFlush(g, c)) {
        FlushTransparent(g, c);
      }
    } else {
      FlushLoses(g, map[]);
      assert !WrittenBack(g, AfterHalfWrite(g, map[]), DoFlush(g, AfterHalfWrite(g, map[])));
    }
  }

  // ----- runs, byte by byte

  /** Requests to a cache by address. */
  datatype Op = Read(addr: nat, nbytes: nat, choice: nat)
              | Write(addr: nat, bytes: seq<Byte>, choice: nat)
              | FlushBlock(addr: nat)
              | Flush

  /** The access an address-level request performs once its checks pass. */
  function AccessOf(g: Geometry, write: bool, addr: nat, bytes: seq<Byte>, nbytes: nat): Access
    requires g.bsize > 0 && g.nsets > 0
  {
    Access(write, g.Id(addr), g.Offset(addr), bytes, nbytes)
  }

  /** Requests that pass the checks and stay within one block, and whole flushes of caches small
      enough for them. */
  ghost predicate Proceeds(g: Geometry, op: Op) {
    match op
    case Read(addr, n, choice) =>
      0 < g.bsize <= WORD64 && addr < WORD64 && n <= g.bsize && g.AcceptsC(addr, n) && choice < g.assoc
    case Write(addr, bytes, choice) =>
      0 < g.bsize <= WORD64 && addr < WORD64 && |bytes| <= g.bsize && g.AcceptsC(addr, |bytes|) && choice < g.assoc
    case FlushBlock(addr) => addr < WORD64
    case Flush => g.nsets * g.bsize <= INT_LIMIT
  }

  ghost function Step(g: Geometry, c: Cache, op: Op): (Cache, seq<Byte>)
    requires g.Ok() && Shaped(g, c) && Proceeds(g, op)
  {
    match op
    case Read(addr, n, choice) =>
      AcceptedFits(g, addr, n);
      var r := DoAccess(g, c, AccessOf(g, false, addr, [], n), choice); (r.cache, r.bytes)
    case Write(addr, bytes, choice) =>
      AcceptedFits(g, addr, |bytes|);
      var r := DoAccess(g, c, AccessOf(g, true, addr, bytes, |bytes|), choice); (r.cache, r.bytes)
    case FlushBlock(addr) => (DoFlushBlock(g, c, g.Id(addr)), [])
    case Flush => (DoFlush(g, c), [])
  }

  /** Flat memory: every address holds a byte. */
  type Memory = nat -> Byte

  function FlatRead(m: Memory, addr: nat, n: nat): (r: seq<Byte>)
    ensures |r| == n
  {
    if n == 0 then [] else FlatRead(m, addr, n - 1) + [m(addr + (n - 1))]
  }

  function Overwritten(m: Memory, addr: nat, bytes: seq<Byte>): Memory {
    (a: nat) => if addr <= a < addr + |bytes| then bytes[a - addr] else m(a)
  }

  ghost function FlatStep(m: Memory, op: Op): (Memory, seq<Byte>) {
    match op
    case Read(addr, n, _) => (m, FlatRead(m, addr, n))
    case Write(addr, bytes, _) => (Overwritten(m, addr, bytes), [])
    case FlushBlock(_) => (m, [])
    case Flush => (m, [])
  }

  /** The byte the program sees at an address. */
  ghost function ByteAt(g: Geometry, c: Cache, addr: nat): Byte
    requires g.Ok() && g.balloc && Shaped(g, c)
  {
    Flat(g, c, g.Id(addr))[g.Offset(addr)]
  }

  /** The byte the next level holds at an address. */
  ghost function StoreByteAt(g: Geometry, c: Cache, addr: nat): Byte
    requires g.Ok() && Shaped(g, c)
  {
    StoredBlock(g, c.store, g.Id(addr))[g.Offset(addr)]
  }

  ghost predicate Agrees(g: Geometry, c: Cache, m: Memory)
    requires g.Ok() && g.balloc && Shaped(g, c)
  {
    forall addr: nat :: addr < WORD64 ==> ByteAt(g, c, addr) == m(addr)
  }

  /** Address addr + i of an access lies in the accessed block, i bytes further on. */
  lemma WithinBlock(g: Geometry, addr: nat, i: nat)
    requires g.Ok() && g.Offset(addr) + i < g.bsize
    ensures g.Id(addr + i) == g.Id(addr) && g.Offset(addr + i) == g.Offset(addr) + i
  {
    AddressOfId(g, addr);
    IdOfAddress(g, g.Id(addr), g.Offset(addr) + i);
  }

  /** A written block, byte by byte: exactly the addresses of the access change. */
  lemma WriteBytes(g: Geometry, c: Cache, addr: nat, bytes: seq<Byte>, b: nat)
    requires g.Ok() && g.balloc && Shaped(g, c) && g.Offset(addr) + |bytes| <= g.bsize
    ensures FlatAfter(g, c, AccessOf(g, true, addr, bytes, |bytes|), g.Id(b))[g.Offset(b)]
         == if addr <= b < addr + |bytes| then bytes[b - addr] else ByteAt(g, c, b)
  {
    if addr <= b < addr + |bytes| {
      WithinBlock(g, addr, b - addr);
    } else if g.Id(b) == g.Id(addr) {
      AddressOfId(g, addr);
      AddressOfId(g, b);
    }
  }

  lemma ReadAgrees(g: Geometry, c: Cache, addr: nat, n: nat, choice: nat, m: Memory)
    requires g.Ok() && g.balloc && Inv(g, c) && Agrees(g, c, m) && choice < g.assoc
    requires g.Offset(addr) + n <= g.bsize && addr + n <= WORD64
    ensures var r := DoAccess(g, c, AccessOf(g, false, addr, [], n), choice);
      Inv(g, r.cache) && Agrees(g, r.cache, m) && r.bytes == FlatRead(m, addr, n)
  {
    var a := AccessOf(g, false, addr, [], n);
    AccessTransparent(g, c, a, choice);
    ReadReturns(g, c, addr, n, m);
    hide DoAccess;
    FlatAgrees(g, c, DoAccess(g, c, a, choice).cache, m);
  }

  lemma ReadReturns(g: Geometry, c: Cache, addr: nat, n: nat, m: Memory)
    requires g.Ok() && g.balloc && Shaped(g, c) && Agrees(g, c, m)
    requires g.Offset(addr) + n <= g.bsize && addr + n <= WORD64
    ensures g.Id(addr).index < g.nsets
    ensures Flat(g, c, g.Id(addr))[g.Offset(addr)..g.Offset(addr) + n] == FlatRead(m, addr, n)
  {
    IdInRange(g, addr);
    hide Geometry.Ok, Geometry.Id, Geometry.Offset;
    forall i | 0 <= i < n ensures SameByte(Flat(g, c, g.Id(addr)), g.Offset(addr), m, addr, i) {
      ReadByte(g, c, addr, i, m);
    }
    SliceIsRead(Flat(g, c, g.Id(addr)), g.Offset(addr), m, addr, n);
  }

  ghost predicate SameByte(f: seq<Byte>, o: nat, m: Memory, addr: nat, i: nat) {
    o + i < |f| && f[o + i] == m(addr + i)
  }

  lemma {:induction false} SliceIsRead(f: seq<Byte>, o: nat, m: Memory, addr: nat, n: nat)
    requires o + n <= |f|
    requires forall i :: 0 <= i < n ==> SameByte(f, o, m, addr, i)
    ensures f[o..o + n] == FlatRead(m, addr, n)
  {
    if n > 0 {
      SliceIsRead(f, o, m, addr, n - 1);
      assert SameByte(f, o, m, addr, n - 1);
      SliceMore(f, o, n - 1);
    }
  }

  lemma SliceMore(f: seq<Byte>, o: nat, n: nat)
    requires o + n < |f|
    ensures f[o..o + (n + 1)] == f[o..o + n] + [f[o + n]]
  {
  }

  lemma ReadByte(g: Geometry, c: Cache, addr: nat, i: nat, m: Memory)
    requires g.Ok() && g.balloc && Shaped(g, c) && Agrees(g, c, m)
    requires g.Offset(addr) + i < g.bsize && addr + i < WORD64
    ensures SameByte(Flat(g, c, g.Id(addr)), g.Offset(addr), m, addr, i)
  {
    WithinBlock(g, addr, i);
    assert ByteAt(g, c, addr + i) == m(addr + i);
  }

  lemma WriteAgrees(g: Geometry, c: Cache, addr: nat, bytes: seq<Byte>, choice: nat, m: Memory)
    requires g.Ok() && g.balloc && Inv(g, c) && Agrees(g, c, m) && choice < g.assoc
    requires g.Offset(addr) + |bytes| <= g.bsize
    ensures var r := DoAccess(g, c, AccessOf(g, true, addr, bytes, |bytes|), choice);
      Inv(g, r.cache) && Agrees(g, r.cache, FlatStep(m, Write(addr, bytes, choice)).0) && r.bytes == []
  {
    var a := AccessOf(g, true, addr, bytes, |bytes|);
    AccessTransparent(g, c, a, choice);
    PatchedAgrees(g, c, DoAccess(g, c, a, choice).cache, addr, bytes, m);
  }

  lemma PatchedAgrees(g: Geometry, c: Cache, r: Cache, addr: nat, bytes: seq<Byte>, m: Memory)
    requires g.Ok() && g.balloc && Shaped(g, c) && Shaped(g, r) && Agrees(g, c, m)
    requires g.Offset(addr) + |bytes| <= g.bsize
    requires forall id: BlockId :: id.index < g.nsets ==>
      Flat(g, r, id) == FlatAfter(g, c, AccessOf(g, true, addr, bytes, |bytes|), id)
    ensures Agrees(g, r, Overwritten(m, addr, bytes))
  {
    var n := Overwritten(m, addr, bytes);
    forall b: nat | b < WORD64 ensures ByteAt(g, r, b) == n(b) {
      IdInRange(g, b);
      assert ByteAt(g, c, b) == m(b);
      PatchedAt(g, c, r, addr, bytes, b);
    }
  }

  lemma PatchedAt(g: Geometry, c: Cache, r: Cache, addr: nat, bytes: seq<Byte>, b: nat)
    requires g.Ok() && g.balloc && Shaped(g, c) && Shaped(g, r) && g.Offset(addr) + |bytes| <= g.bsize
    requires Flat(g, r, g.Id(b)) == FlatAfter(g, c, AccessOf(g, true, addr, bytes, |bytes|), g.Id(b))
    ensures ByteAt(g, r, b) == if addr <= b < addr + |bytes| then bytes[b - addr] else ByteAt(g, c, b)
  {
    WriteBytes(g, c, addr, bytes, b);
  }

  lemma IdInRange(g: Geometry, b: nat)
    requires g.Ok()
    ensures g.bsize > 0 && g.nsets > 0 && g.Id(b).index < g.nsets && g.Offset(b) < g.bsize
  {
  }

  /** One request: same bytes returned, and the byte view still agrees afterwards. */
  lemma StepAgrees(g: Geometry, c: Cache, op: Op, m: Memory)
    requires g.Ok() && g.balloc && Inv(g, c) && Named(g, c) && Proceeds(g, op) && Agrees(g, c, m)
    ensures var r := Step(g, c, op);
      && Inv(g, r.0) && Agrees(g, r.0, FlatStep(m, op).0) && r.1 == FlatStep(m, op).1
  {
    match op {
      case Read(addr, n, choice) =>
        AcceptedFits(g, addr, n);
        AcceptedBelow(g, addr, n);
        ReadAgrees(g, c, addr, n, choice, m);
      case Write(addr, bytes, choice) =>
        AcceptedFits(g, addr, |bytes|);
        WriteAgrees(g, c, addr, bytes, choice, m);
      case FlushBlock(addr) =>
        FlushBlockTransparent(g, c, g.Id(addr));
        FlatAgrees(g, c, DoFlushBlock(g, c, g.Id(addr)), m);
      case Flush =>
        FlushTransparentFrom(g, c, 0);
        FlatAgrees(g, c, DoFlush(g, c), m);
    }
  }

  lemma StepNamed(g: Geometry, c: Cache, op: Op)
    requires g.Ok() && g.balloc && Inv(g, c) && Named(g, c) && Proceeds(g, op)
    ensures Named(g, Step(g, c, op).0)
  {
    match op {
      case Read(addr, n, choice) =>
        AcceptedFits(g, addr, n);
        AddressOfId(g, addr);
        AccessNamed(g, c, AccessOf(g, false, addr, [], n), choice);
      case Write(addr, bytes, choice) =>
        AcceptedFits(g, addr, |bytes|);
        AddressOfId(g, addr);
        AccessNamed(g, c, AccessOf(g, true, addr, bytes, |bytes|), choice);
      case FlushBlock(addr) => DropNamed(g, c, g.Id(addr));
      case Flush => FlushTransparentFrom(g, c, 0);
    }
  }

  lemma FlatAgrees(g: Geometry, c: Cache, r: Cache, m: Memory)
    requires g.Ok() && g.balloc && Shaped(g, c) && Shaped(g, r) && Agrees(g, c, m)
    requires forall b: BlockId :: b.index < g.nsets ==> Flat(g, r, b) == Flat(g, c, b)
    ensures Agrees(g, r, m)
  {
    forall b: nat | b < WORD64 ensures ByteAt(g, r, b) == m(b) {
      assert ByteAt(g, c, b) == m(b);
    }
  }

  lemma AcceptedBelow(g: Geometry, addr: nat, n: nat)
    requires g.Ok() && addr < WORD64 && g.bsize <= WORD64 && n <= g.bsize && g.AcceptsC(addr, n)
    ensures addr + n <= WORD64
  {
    if n > 0 {
      AlignedArithmetic(addr, n);
      AlignedEnd(addr, n);
    }
  }

  ghost predicate AllProceed(g: Geometry, ops: seq<Op>) {
    forall i :: 0 <= i < |ops| ==> Proceeds(g, ops[i])
  }

  /** The bytes returned by a run, request by request, and the final state. */
  ghost function Run(g: Geometry, c: Cache, ops: seq<Op>): (r: (Cache, seq<seq<Byte>>))
    requires g.Ok() && g.balloc && Inv(g, c) && Named(g, c) && AllProceed(g, ops)
    ensures Inv(g, r.0) && Named(g, r.0)
    decreases |ops|
  {
    if ops == [] then (c, [])
    else
      StepAgrees(g, c, ops[0], Seen(g, c));
      StepNamed(g, c, ops[0]);
      var s := Step(g, c, ops[0]);
      var rest := Run(g, s.0, ops[1..]);
      (rest.0, [s.1] + rest.1)
  }

  /** The memory the program sees. */
  ghost function Seen(g: Geometry, c: Cache): (m: Memory)
    requires g.Ok() && g.balloc && Shaped(g, c)
    ensures Agrees(g, c, m)
  {
    (a: nat) => if a < WORD64 then ByteAt(g, c, a) else 0
  }

  ghost function FlatRun(m: Memory, ops: seq<Op>): (Memory, seq<seq<Byte>>) {
    if ops == [] then (m, [])
    else var s := FlatStep(m, ops[0]); var rest := FlatRun(s.0, ops[1..]); (rest.0, [s.1] + rest.1)
  }

  /** Main result: over any run of reads, writes and flushes, under any replacement policy and
      any random choices, the cache returns what flat memory returns, and (in a cache of at most
      2^31 bytes of sets) a final flush leaves the next level equal to that memory. */
  lemma {:induction false} CacheIsInvisible(g: Geometry, c: Cache, ops: seq<Op>, m: Memory)
    requires g.Ok() && g.balloc && Inv(g, c) && Named(g, c) && AllProceed(g, ops) && Agrees(g, c, m)
    ensures Run(g, c, ops).1 == FlatRun(m, ops).1
    ensures Agrees(g, Run(g, c, ops).0, FlatRun(m, ops).0)
    ensures g.nsets * g.bsize <= INT_LIMIT ==> forall addr: nat :: addr < WORD64 ==>
      StoreByteAt(g, DoFlush(g, Run(g, c, ops).0), addr) == FlatRun(m, ops).0(addr)
    decreases |ops|
  {
    if ops == [] {
      if g.nsets * g.bsize <= INT_LIMIT { FlushedBytes(g, c, m); }
    } else {
      StepAgrees(g, c, ops[0], m);
      StepNamed(g, c, ops[0]);
      CacheIsInvisible(g, Step(g, c, ops[0]).0, ops[1..], FlatStep(m, ops[0]).0);
    }
  }

  lemma FlushedBytes(g: Geometry, c: Cache, m: Memory)
    requires g.Ok() && g.balloc && Inv(g, c) && Named(g, c) && Agrees(g, c, m) && g.nsets * g.bsize <= INT_LIMIT
    ensures forall addr: nat :: addr < WORD64 ==> StoreByteAt(g, DoFlush(g, c), addr) == m(addr)
  {
    FlushTransparent(g, c);
    forall addr: nat | addr < WORD64 ensures StoreByteAt(g, DoFlush(g, c), addr) == m(addr) {
      assert ByteAt(g, c, addr) == m(addr);
    }
  }

  /** What a next level holds, as a memory. */
  ghost function Held(g: Geometry, store: Store): Memory
    requires g.Ok() && StoreShaped(g, store)
  {
    (a: nat) => StoredBlock(g, store, g.Id(a))[g.Offset(a)]
  }

  /** Main result: in particular, a cache created empty over any next level returns, over any
      run, what that memory alone would return. */
  lemma CreatedIsInvisible(g: Geometry, store: Store, ops: seq<Op>)
    requires g.Ok() && g.balloc && StoreShaped(g, store) && AllProceed(g, ops)
    ensures var c := Created(g, store);
      && Inv(g, c) && Named(g, c)
      && Run(g, c, ops).1 == FlatRun(Held(g, store), ops).1
      && (g.nsets * g.bsize <= INT_LIMIT ==> forall addr: nat :: addr < WORD64 ==>
            StoreByteAt(g, DoFlush(g, Run(g, c, ops).0), addr) == FlatRun(Held(g, store), ops).0(addr))
  {
    CreatedInv(g, store);
    CacheIsInvisible(g, Created(g, store), ops, Held(g, store));
  }
}
