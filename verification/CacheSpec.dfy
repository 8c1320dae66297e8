/** What one access, one probe, one block flush and one whole flush do to a cache, on values:
    each set is the sequence of its lines in way order (most recently placed first), and the
    next level is a store of whole blocks.  The class in CacheImpl is proved to do this. */
module CacheSpec {
  import opened Options
  import opened CacheAddress
  import opened Bits
  import opened MoveToFront

  type Byte = bv8

  datatype Line = Line(tag: nat, valid: bool, dirty: bool, data: seq<Byte>)

  /** The next level as seen through the block access function. */
  type Store = map<BlockId, seq<Byte>>

  datatype Stats = Stats(hits: nat, misses: nat, replacements: nat, writebacks: nat, invalidations: nat)

  /** A call of the block access function. */
  datatype BusOp = Fetch(id: BlockId) | WriteBack(id: BlockId)

  /** `bus` lists every call of the block access function made so far. */
  datatype Cache = Cache(sets: seq<seq<Line>>, store: Store, stats: Stats, bus: seq<BusOp>)

  /** One accepted access: len bytes at an offset inside a block. */
  datatype Access = Access(write: bool, id: BlockId, ofs: nat, bytes: seq<Byte>, len: nat)

  datatype Reply = Reply(cache: Cache, hit: bool, bytes: seq<Byte>, evicted: Option<BlockId>)

  function StoredBlock(g: Geometry, store: Store, id: BlockId): seq<Byte> {
    if id in store then store[id] else seq(g.bsize, _ => 0)
  }

  function Patch(block: seq<Byte>, ofs: nat, bytes: seq<Byte>): (r: seq<Byte>)
    requires ofs + |bytes| <= |block|
    ensures |r| == |block|
    ensures forall i :: 0 <= i < |block| ==> r[i] == if ofs <= i < ofs + |bytes| then bytes[i - ofs] else block[i]
  {
    block[..ofs] + bytes + block[ofs + |bytes|..]
  }

  // ----- searching and reordering a set

  predicate Matches(l: Line, tag: nat) {
    l.valid && l.tag == tag
  }

  /** Position of the first valid line with the given tag, or -1. */
  function Find(ls: seq<Line>, tag: nat): (i: int)
    ensures -1 <= i < |ls|
    ensures i >= 0 ==> Matches(ls[i], tag) && forall j :: 0 <= j < i ==> !Matches(ls[j], tag)
    ensures i == -1 ==> forall j :: 0 <= j < |ls| ==> !Matches(ls[j], tag)
  {
    if ls == [] then -1
    else if Matches(ls[0], tag) then 0
    else var i := Find(ls[1..], tag); if i < 0 then -1 else i + 1
  }

  function ToBack<T>(s: seq<T>, i: nat, x: T): seq<T>
    requires i < |s|
  {
    s[..i] + s[i + 1..] + [x]
  }

  // ----- the operations

  ghost predicate SetShaped(g: Geometry, ls: seq<Line>) {
    |ls| == g.assoc && (g.balloc ==> forall k :: 0 <= k < |ls| ==> |ls[k].data| == g.bsize)
  }

  ghost predicate StoreShaped(g: Geometry, store: Store) {
    forall id :: id in store ==> |store[id]| == g.bsize
  }

  ghost predicate Shaped(g: Geometry, c: Cache) {
    && g.assoc > 0 && g.bsize > 0
    && |c.sets| == g.nsets
    && (forall s :: 0 <= s < g.nsets ==> SetShaped(g, c.sets[s]))
    && StoreShaped(g, c.store)
  }

  ghost predicate Fits(g: Geometry, a: Access) {
    && a.id.index < g.nsets
    && a.ofs + a.len <= g.bsize
    && (a.write ==> |a.bytes| == a.len)
  }

  /** Contents of a line after the copy step of an access. */
  function Copied(g: Geometry, a: Access, data: seq<Byte>): seq<Byte>
    requires g.balloc && a.write ==> a.ofs + |a.bytes| <= |data|
  {
    if g.balloc && a.write then Patch(data, a.ofs, a.bytes) else data
  }

  /** What a read leaves in the caller's buffer (nothing is copied without data blocks). */
  function Returned(g: Geometry, a: Access, data: seq<Byte>): seq<Byte>
    requires g.balloc && !a.write ==> a.ofs + a.len <= |data|
  {
    if g.balloc && !a.write then data[a.ofs..a.ofs + a.len] else []
  }

  ghost function HitAt(g: Geometry, c: Cache, a: Access, i: nat): Reply
    requires Shaped(g, c) && Fits(g, a) && i < g.assoc
  {
    var ls := c.sets[a.id.index];
    var l := ls[i].(dirty := ls[i].dirty || a.write, data := Copied(g, a, ls[i].data));
    var ls' := if g.policy.LRU? then ToFront(ls, i, l) else ls[i := l];
    Reply(c.(sets := c.sets[a.id.index := ls'], stats := c.stats.(hits := c.stats.hits + 1)),
          true, Returned(g, a, l.data), None)
  }

  /** Position of the line a miss replaces: the tail of the way list, or under random
      replacement whatever position the random choice names. */
  function Victim(g: Geometry, choice: nat): (v: nat)
    requires g.assoc > 0
    ensures choice < g.assoc ==> v < g.assoc
  {
    if g.policy.Random? then choice else g.assoc - 1
  }

  /** The next level after the line `gone` has been written back, if it has to be, as block `to`. */
  function StoreAfterWriteBack(g: Geometry, store: Store, to: BlockId, gone: Line): Store {
    if g.balloc && gone.valid && gone.dirty then store[to := gone.data] else store
  }

  /** The same under the line's own name. */
  function StoreAfterEviction(g: Geometry, store: Store, index: nat, gone: Line): Store {
    StoreAfterWriteBack(g, store, BlockId(gone.tag, index), gone)
  }

  ghost function MissAt(g: Geometry, c: Cache, a: Access, v: nat): Reply
    requires Shaped(g, c) && Fits(g, a) && v < g.assoc
  {
    var ls := c.sets[a.id.index];
    var gone := ls[v];
    var name := BlockId(gone.tag, a.id.index);
    var back := gone.valid && gone.dirty;
    var store' := StoreAfterEviction(g, c.store, a.id.index, gone);
    var data := if g.balloc then StoredBlock(g, store', a.id) else gone.data;
    var l := Line(a.id.tag, true, a.write, Copied(g, a, data));
    var ls' := if g.policy.Random? then ls[v := l] else ToFront(ls, v, l);
    var stats' := c.stats.(misses := c.stats.misses + 1,
                           replacements := c.stats.replacements + (if gone.valid then 1 else 0),
                           writebacks := c.stats.writebacks + (if back then 1 else 0));
    var bus' := c.bus + (if back then [WriteBack(name)] else []) + [Fetch(a.id)];
    Reply(Cache(c.sets[a.id.index := ls'], store', stats', bus'),
          false, Returned(g, a, data), if gone.valid then Some(name) else None)
  }

  ghost function DoAccess(g: Geometry, c: Cache, a: Access, choice: nat): Reply
    requires Shaped(g, c) && Fits(g, a) && choice < g.assoc
  {
    var i := Find(c.sets[a.id.index], a.id.tag);
    if i >= 0 then HitAt(g, c, a, i) else MissAt(g, c, a, Victim(g, choice))
  }

  ghost predicate Holds(g: Geometry, c: Cache, id: BlockId)
    requires Shaped(g, c) && id.index < g.nsets
  {
    Find(c.sets[id.index], id.tag) >= 0
  }

  /** Invalidation of line i of set `index`, written back as block `to` if it is dirty; the dirty
      bit stays set. */
  ghost function Invalidated(g: Geometry, c: Cache, index: nat, i: nat, to: BlockId): Cache
    requires Shaped(g, c) && index < g.nsets && i < g.assoc
  {
    var gone := c.sets[index][i];
    Cache(c.sets[index := c.sets[index][i := gone.(valid := false)]],
          StoreAfterWriteBack(g, c.store, to, gone),
          c.stats.(invalidations := c.stats.invalidations + 1,
                   writebacks := c.stats.writebacks + (if gone.dirty then 1 else 0)),
          c.bus + if gone.dirty then [WriteBack(to)] else [])
  }

  lemma InvalidatedShaped(g: Geometry, c: Cache, index: nat, i: nat, to: BlockId)
    requires Shaped(g, c) && index < g.nsets && i < g.assoc
    ensures Shaped(g, Invalidated(g, c, index, i, to))
  {
    assert SetShaped(g, c.sets[index]);
  }

  /** Line i of set `index` sent to the tail of its way list. */
  ghost function SentBack(g: Geometry, c: Cache, index: nat, i: nat): Cache
    requires Shaped(g, c) && index < g.nsets && i < g.assoc
  {
    c.(sets := c.sets[index := ToBack(c.sets[index], i, c.sets[index][i])])
  }

  /** Flush of the block named id: an invalidated line goes to the tail of the way list. */
  ghost function DoFlushBlock(g: Geometry, c: Cache, id: BlockId): Cache
    requires Shaped(g, c) && id.index < g.nsets
  {
    var i := Find(c.sets[id.index], id.tag);
    if i < 0 then c
    else
      InvalidatedShaped(g, c, id.index, i, id);
      SentBack(g, Invalidated(g, c, id.index, i, id), id.index, i)
  }

  /** The block that a line is written back as by a whole flush, where its address is computed
      with a 32-bit shift. */
  function FlushedAs(g: Geometry, tag: nat, index: nat): BlockId
    requires g.bsize > 0 && g.nsets > 0
  {
    g.Id(g.MakeBlockFlushC(tag, index))
  }

  /** Line k of set `index` invalidated by a whole flush. */
  ghost function FlushedLine(g: Geometry, c: Cache, index: nat, k: nat): (r: Cache)
    requires Shaped(g, c) && index < g.nsets && k < g.assoc
    ensures Shaped(g, r)
  {
    var to := FlushedAs(g, c.sets[index][k].tag, index);
    InvalidatedShaped(g, c, index, k, to);
    Invalidated(g, c, index, k, to)
  }

  /** Flush of lines k.. of set `index`, in way order; way lists are left alone. */
  ghost function FlushSetFrom(g: Geometry, c: Cache, index: nat, k: nat): (r: Cache)
    requires Shaped(g, c) && index < g.nsets && k <= g.assoc
    ensures Shaped(g, r)
    decreases g.assoc - k
  {
    if k == g.assoc then c
    else if c.sets[index][k].valid then FlushSetFrom(g, FlushedLine(g, c, index, k), index, k + 1)
    else FlushSetFrom(g, c, index, k + 1)
  }

  /** Flush of sets s.. in index order. */
  ghost function FlushFrom(g: Geometry, c: Cache, s: nat): (r: Cache)
    requires Shaped(g, c) && s <= g.nsets
    ensures Shaped(g, r)
    decreases g.nsets - s
  {
    if s == g.nsets then c else FlushFrom(g, FlushSetFrom(g, c, s, 0), s + 1)
  }

  ghost function DoFlush(g: Geometry, c: Cache): Cache
    requires Shaped(g, c)
  {
    FlushFrom(g, c, 0)
  }

  ghost function Created(g: Geometry, store: Store): Cache {
    Cache(seq(g.nsets, _ => seq(g.assoc, _ => Line(0, false, false, seq(if g.balloc then g.bsize else 0, _ => 0)))),
          store, Stats(0, 0, 0, 0, 0), [])
  }

  // ----- one tag per set, and the lookup it determines

  ghost predicate UniqueTags(ls: seq<Line>) {
    forall i, j :: 0 <= i < j < |ls| && ls[i].valid && ls[j].valid ==> ls[i].tag != ls[j].tag
  }

  ghost function Resident(ls: seq<Line>, tag: nat): Option<Line> {
    var i := Find(ls, tag);
    if i < 0 then None else Some(ls[i])
  }

  /** In a set with unique tags, a valid line is the one a search for its tag finds. */
  lemma FoundIs(ls: seq<Line>, k: nat)
    requires UniqueTags(ls) && k < |ls| && ls[k].valid
    ensures Find(ls, ls[k].tag) == k
  {
    var i := Find(ls, ls[k].tag);
    assert Matches(ls[k], ls[k].tag);
    assert i >= 0;
  }

  /** No line other than position i is valid with l's tag. */
  ghost predicate FreshAt(ls: seq<Line>, i: nat, l: Line) {
    l.valid ==> forall j :: 0 <= j < |ls| && j != i ==> !Matches(ls[j], l.tag)
  }

  /** Lookup after the line at position i became l. */
  ghost function ResidentAfter(ls: seq<Line>, i: nat, l: Line, t: nat): Option<Line>
    requires i < |ls|
  {
    if Matches(l, t) then Some(l) else if Matches(ls[i], t) then None else Resident(ls, t)
  }

  lemma ResidentInPlace(ls: seq<Line>, i: nat, l: Line, t: nat)
    requires UniqueTags(ls) && i < |ls| && FreshAt(ls, i, l)
    ensures UniqueTags(ls[i := l]) && Resident(ls[i := l], t) == ResidentAfter(ls, i, l, t)
  {
    var ls' := ls[i := l];
    assert UniqueTags(ls');
    if Matches(l, t) {
      FoundIs(ls', i);
    } else {
      var k := Find(ls, t);
      if k >= 0 && k != i { FoundIs(ls', k); }
      if k < 0 || k == i {
        forall j | 0 <= j < |ls'| ensures !Matches(ls'[j], t) {
          if k == i && j != i && ls[j].valid { assert ls[j].tag != ls[i].tag; }
        }
      }
    }
  }

  /** Moving a line within a set with unique tags does not change lookups. */
  lemma ResidentMoved(ls: seq<Line>, m: seq<Line>, t: nat)
    requires UniqueTags(ls) && UniqueTags(m)
    requires forall l :: l in ls <==> l in m
    ensures Resident(m, t) == Resident(ls, t)
  {
    var i, j := Find(ls, t), Find(m, t);
    if i >= 0 {
      assert ls[i] in m;
      var k :| 0 <= k < |m| && m[k] == ls[i];
      FoundIs(m, k);
    }
    if j >= 0 {
      assert m[j] in ls;
      var k :| 0 <= k < |ls| && ls[k] == m[j];
      FoundIs(ls, k);
    }
  }

  lemma FrontKeepsLines(ls: seq<Line>, i: nat)
    requires UniqueTags(ls) && i < |ls|
    ensures var m := ToFront(ls, i, ls[i]); UniqueTags(m) && forall l :: l in ls <==> l in m
  {
    var m := ToFront(ls, i, ls[i]);
    assert ls == ls[..i] + [ls[i]] + ls[i + 1..];
    forall p, q | 0 <= p < q < |m| && m[p].valid && m[q].valid ensures m[p].tag != m[q].tag {
      var p' := if p == 0 then i else if p <= i then p - 1 else p;
      var q' := if q <= i then q - 1 else q;
      assert m[p] == ls[p'] && m[q] == ls[q'] && p' != q';
    }
  }

  lemma BackKeepsLines(ls: seq<Line>, i: nat)
    requires UniqueTags(ls) && i < |ls|
    ensures var m := ToBack(ls, i, ls[i]); UniqueTags(m) && forall l :: l in ls <==> l in m
  {
    var m := ToBack(ls, i, ls[i]);
    assert ls == ls[..i] + [ls[i]] + ls[i + 1..];
    forall p, q | 0 <= p < q < |m| && m[p].valid && m[q].valid ensures m[p].tag != m[q].tag {
      var p' := if p < i then p else p + 1;
      var q' := if q == |m| - 1 then i else if q < i then q else q + 1;
      assert m[p] == ls[p'] && m[q] == ls[q'] && p' != q';
    }
  }

  lemma ResidentToFront(ls: seq<Line>, i: nat, l: Line, t: nat)
    requires UniqueTags(ls) && i < |ls| && FreshAt(ls, i, l)
    ensures UniqueTags(ToFront(ls, i, l)) && Resident(ToFront(ls, i, l), t) == ResidentAfter(ls, i, l, t)
  {
    ResidentInPlace(ls, i, l, t);
    FrontKeepsLines(ls[i := l], i);
    assert ToFront(ls[i := l], i, l) == ToFront(ls, i, l);
    ResidentMoved(ls[i := l], ToFront(ls, i, l), t);
  }

  // ----- the structure every operation keeps, under every policy

  ghost predicate Sound(g: Geometry, c: Cache) {
    Shaped(g, c) && forall s :: 0 <= s < g.nsets ==> UniqueTags(c.sets[s])
  }

  lemma FrontShaped(g: Geometry, ls: seq<Line>, i: nat, l: Line)
    requires SetShaped(g, ls) && i < |ls| && (g.balloc ==> |l.data| == g.bsize)
    ensures SetShaped(g, ToFront(ls, i, l)) && SetShaped(g, ToBack(ls, i, l)) && SetShaped(g, ls[i := l])
  {
  }

  /** Replacing one set by a well-shaped set with unique tags keeps the structure. */
  lemma SetReplaced(g: Geometry, c: Cache, s: nat, ls: seq<Line>, store: Store, stats: Stats, bus: seq<BusOp>)
    requires Sound(g, c) && s < g.nsets && SetShaped(g, ls) && UniqueTags(ls) && StoreShaped(g, store)
    ensures Sound(g, Cache(c.sets[s := ls], store, stats, bus))
  {
  }

  lemma HitSound(g: Geometry, c: Cache, a: Access, i: nat)
    requires Sound(g, c) && Fits(g, a) && i < g.assoc && Matches(c.sets[a.id.index][i], a.id.tag)
    ensures Sound(g, HitAt(g, c, a, i).cache)
  {
    var ls := c.sets[a.id.index];
    var l := ls[i].(dirty := ls[i].dirty || a.write, data := Copied(g, a, ls[i].data));
    var r := HitAt(g, c, a, i).cache;
    FoundIs(ls, i);
    FrontShaped(g, ls, i, l);
    ResidentInPlace(ls, i, l, 0);
    ResidentToFront(ls, i, l, 0);
    SetReplaced(g, c, a.id.index, r.sets[a.id.index], r.store, r.stats, r.bus);
  }

  lemma EvictionShaped(g: Geometry, c: Cache, s: nat, k: nat)
    requires Shaped(g, c) && s < g.nsets && k < g.assoc
    ensures StoreShaped(g, StoreAfterEviction(g, c.store, s, c.sets[s][k]))
  {
    assert SetShaped(g, c.sets[s]);
  }

  lemma WriteBackShaped(g: Geometry, c: Cache, s: nat, k: nat, to: BlockId)
    requires Shaped(g, c) && s < g.nsets && k < g.assoc
    ensures StoreShaped(g, StoreAfterWriteBack(g, c.store, to, c.sets[s][k]))
  {
    assert SetShaped(g, c.sets[s]);
  }

  lemma MissSound(g: Geometry, c: Cache, a: Access, v: nat)
    requires Sound(g, c) && Fits(g, a) && v < g.assoc && Find(c.sets[a.id.index], a.id.tag) < 0
    ensures Sound(g, MissAt(g, c, a, v).cache)
  {
    var ls := c.sets[a.id.index];
    var r := MissAt(g, c, a, v).cache;
    var l := r.sets[a.id.index][if g.policy.Random? then v else 0];
    EvictionShaped(g, c, a.id.index, v);
    FrontShaped(g, ls, v, l);
    ResidentInPlace(ls, v, l, 0);
    ResidentToFront(ls, v, l, 0);
    SetReplaced(g, c, a.id.index, r.sets[a.id.index], r.store, r.stats, r.bus);
  }

  lemma AccessSound(g: Geometry, c: Cache, a: Access, choice: nat)
    requires Sound(g, c) && Fits(g, a) && choice < g.assoc
    ensures var r := DoAccess(g, c, a, choice).cache;
      Sound(g, r) && forall s :: 0 <= s < g.nsets && s != a.id.index ==> r.sets[s] == c.sets[s]
  {
    var i := Find(c.sets[a.id.index], a.id.tag);
    if i >= 0 { HitSound(g, c, a, i); } else { MissSound(g, c, a, Victim(g, choice)); }
  }

  lemma InvalidatedSound(g: Geometry, c: Cache, s: nat, k: nat, to: BlockId)
    requires Sound(g, c) && s < g.nsets && k < g.assoc
    ensures Sound(g, Invalidated(g, c, s, k, to))
  {
    var ls := c.sets[s];
    var l := ls[k].(valid := false);
    var r := Invalidated(g, c, s, k, to);
    WriteBackShaped(g, c, s, k, to);
    FrontShaped(g, ls, k, l);
    ResidentInPlace(ls, k, l, 0);
    SetReplaced(g, c, s, ls[k := l], r.store, r.stats, r.bus);
  }

  lemma DropSound(g: Geometry, c: Cache, id: BlockId)
    requires Sound(g, c) && id.index < g.nsets
    ensures var r := DoFlushBlock(g, c, id);
      Sound(g, r) && forall s :: 0 <= s < g.nsets && s != id.index ==> r.sets[s] == c.sets[s]
  {
    var i := Find(c.sets[id.index], id.tag);
    if i >= 0 {
      InvalidatedSound(g, c, id.index, i, id);
      var m := Invalidated(g, c, id.index, i, id);
      var ls := m.sets[id.index];
      FrontShaped(g, ls, i, ls[i]);
      BackKeepsLines(ls, i);
      SetReplaced(g, m, id.index, ToBack(ls, i, ls[i]), m.store, m.stats, m.bus);
    }
  }

  lemma {:induction false} FlushSetClears(g: Geometry, c: Cache, s: nat, k: nat)
    requires Sound(g, c) && s < g.nsets && k <= g.assoc
    requires forall j :: 0 <= j < k ==> !c.sets[s][j].valid
    ensures var r := FlushSetFrom(g, c, s, k);
      && Sound(g, r)
      && (forall j :: 0 <= j < g.assoc ==> !r.sets[s][j].valid)
      && (forall t :: 0 <= t < g.nsets && t != s ==> r.sets[t] == c.sets[t])
    decreases g.assoc - k
  {
    if k == g.assoc {
    } else if c.sets[s][k].valid {
      InvalidatedSound(g, c, s, k, FlushedAs(g, c.sets[s][k].tag, s));
      FlushSetClears(g, FlushedLine(g, c, s, k), s, k + 1);
    } else {
      FlushSetClears(g, c, s, k + 1);
    }
  }

  lemma {:induction false} FlushClears(g: Geometry, c: Cache, s: nat)
    requires Sound(g, c) && s <= g.nsets
    requires forall t, j :: 0 <= t < s && 0 <= j < g.assoc ==> !c.sets[t][j].valid
    ensures var r := FlushFrom(g, c, s);
      Sound(g, r) && forall t, j :: 0 <= t < g.nsets && 0 <= j < g.assoc ==> !r.sets[t][j].valid
    decreases g.nsets - s
  {
    if s < g.nsets {
      FlushSetClears(g, c, s, 0);
      FlushClears(g, FlushSetFrom(g, c, s, 0), s + 1);
    }
  }

  lemma CreatedSound(g: Geometry, store: Store)
    requires g.assoc > 0 && g.bsize > 0 && StoreShaped(g, store)
    ensures Sound(g, Created(g, store))
  {
  }

  // ----- names within the address space

  /** Every valid line carries a tag that some 64-bit address has. */
  ghost predicate SetNamed(g: Geometry, s: nat, ls: seq<Line>) {
    forall k :: 0 <= k < |ls| && ls[k].valid ==> g.Names(BlockId(ls[k].tag, s))
  }

  ghost predicate Named(g: Geometry, c: Cache) {
    forall s :: 0 <= s < |c.sets| ==> SetNamed(g, s, c.sets[s])
  }

  lemma NamedPlaced(g: Geometry, s: nat, ls: seq<Line>, i: nat, l: Line)
    requires SetNamed(g, s, ls) && i < |ls| && (l.valid ==> g.Names(BlockId(l.tag, s)))
    ensures SetNamed(g, s, ls[i := l]) && SetNamed(g, s, ToFront(ls, i, l)) && SetNamed(g, s, ToBack(ls, i, l))
  {
  }

  lemma HitNamed(g: Geometry, c: Cache, a: Access, i: nat)
    requires Shaped(g, c) && Fits(g, a) && Named(g, c) && i < g.assoc
    ensures Named(g, HitAt(g, c, a, i).cache)
  {
    var ls := c.sets[a.id.index];
    NamedPlaced(g, a.id.index, ls, i, ls[i].(dirty := ls[i].dirty || a.write, data := Copied(g, a, ls[i].data)));
  }

  lemma MissNamed(g: Geometry, c: Cache, a: Access, v: nat)
    requires Shaped(g, c) && Fits(g, a) && Named(g, c) && v < g.assoc && g.Names(a.id)
    ensures Named(g, MissAt(g, c, a, v).cache)
  {
    var ls := c.sets[a.id.index];
    NamedPlaced(g, a.id.index, ls, v, MissAt(g, c, a, v).cache.sets[a.id.index][if g.policy.Random? then v else 0]);
  }

  lemma InvalidatedNamed(g: Geometry, c: Cache, s: nat, k: nat, to: BlockId)
    requires Shaped(g, c) && Named(g, c) && s < g.nsets && k < g.assoc
    ensures Named(g, Invalidated(g, c, s, k, to))
  {
    NamedPlaced(g, s, c.sets[s], k, c.sets[s][k].(valid := false));
  }

  lemma AccessNamed(g: Geometry, c: Cache, a: Access, choice: nat)
    requires Shaped(g, c) && Fits(g, a) && Named(g, c) && g.Names(a.id) && choice < g.assoc
    ensures Named(g, DoAccess(g, c, a, choice).cache)
  {
    var i := Find(c.sets[a.id.index], a.id.tag);
    if i >= 0 { HitNamed(g, c, a, i); } else { MissNamed(g, c, a, Victim(g, choice)); }
  }

  lemma DropNamed(g: Geometry, c: Cache, id: BlockId)
    requires Shaped(g, c) && Named(g, c) && id.index < g.nsets
    ensures Named(g, DoFlushBlock(g, c, id))
  {
    var i := Find(c.sets[id.index], id.tag);
    if i >= 0 {
      InvalidatedNamed(g, c, id.index, i, id);
      InvalidatedShaped(g, c, id.index, i, id);
      var m := Invalidated(g, c, id.index, i, id);
      NamedPlaced(g, id.index, m.sets[id.index], i, m.sets[id.index][i]);
    }
  }

  // ----- the address a whole flush writes to

  /** In the first 2^31 bytes of sets a line is flushed under its own name. */
  lemma FlushedHome(g: Geometry, id: BlockId)
    requires g.Ok() && g.Names(id) && id.index * g.bsize < INT_LIMIT
    ensures FlushedAs(g, id.tag, id.index) == id
  {
    FlushAddressRight(g, id);
    IdOfAddress(g, id, 0);
  }

  lemma IndexShiftSmall(g: Geometry, index: nat)
    requires index < g.nsets && g.bsize > 0 && g.nsets * g.bsize <= INT_LIMIT
    ensures index * g.bsize < INT_LIMIT
  {
    MulMono(g.bsize, index + 1, g.nsets);
    MulDistrib(g.bsize, index, 1);
  }
}
