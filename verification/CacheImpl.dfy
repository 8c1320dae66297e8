/** The cache itself: sets of linked block objects, counters, and the next level reached
    through the block access function.  Every method is proved to do what CacheSpec says. */
module CacheImpl {
  import opened MoveToFront
  import opened Bits
  import opened CacheAddress
  import opened CacheSpec
  import opened CacheCopy
  import opened CacheSets

  /** Number of hash buckets per set: none up to four ways, else a quarter of the ways. */
  function BucketsFor(assoc: nat): nat {
    if assoc > 4 then Shr(assoc, 2) else 0
  }

  /** What a miss changes besides its set. */
  datatype Traffic = Traffic(store: Store, replacements: nat, writebacks: nat, bus: seq<BusOp>)

  /** The effect of an access on the line it hits. */
  ghost predicate Updated(g: Geometry, a: CacheSpec.Access, was: Line, l: Line, out: seq<Byte>) {
    && (g.balloc ==> |was.data| == g.bsize && a.ofs + a.len <= g.bsize && (a.write ==> |a.bytes| == a.len))
    && l == was.(dirty := was.dirty || a.write, data := Copied(g, a, was.data))
    && out == Returned(g, a, was.data)
  }

  /** The effect of replacing a line `gone` by line l, holding the accessed block. */
  ghost predicate Filled(g: Geometry, a: CacheSpec.Access, gone: Line, before: Traffic, after: Traffic,
                         l: Line, out: seq<Byte>, replAddr: nat) {
    var name := BlockId(gone.tag, a.id.index);
    var back := gone.valid && gone.dirty;
    var data := if g.balloc then StoredBlock(g, after.store, a.id) else gone.data;
    && after.store == StoreAfterEviction(g, before.store, a.id.index, gone)
    && (g.balloc ==> |data| == g.bsize && a.ofs + a.len <= g.bsize && (a.write ==> |a.bytes| == a.len))
    && l == Line(a.id.tag, true, a.write, Copied(g, a, data))
    && out == Returned(g, a, data)
    && replAddr == (if gone.valid then g.Address(name) else 0)
    && after.replacements == before.replacements + (if gone.valid then 1 else 0)
    && after.writebacks == before.writebacks + (if back then 1 else 0)
    && after.bus == before.bus + (if back then [WriteBack(name)] else []) + [Fetch(a.id)]
  }

  lemma HitUpdates(g: Geometry, a: CacheSpec.Access, was: Line, l: Line, out: seq<Byte>)
    requires a.ofs + a.len <= g.bsize && (a.write ==> |a.bytes| == a.len) && (g.balloc ==> |was.data| == g.bsize)
    requires HitLine(was, g.balloc, a.write, a.ofs, a.len, a.bytes, l, out)
    ensures Updated(g, a, was, l, out)
  {
  }

  ghost function EmptyLines(g: Geometry): seq<Line> {
    seq(g.assoc, _ => Line(0, false, false, seq(if g.balloc then g.bsize else 0, _ => 0)))
  }

  ghost predicate SetIn(s: CacheSet, objs: set<object>) {
    s in objs && s.hash in objs && s.members <= objs
  }

  ghost predicate TwoApart(s: CacheSet, t: CacheSet) {
    s != t && s.hash != t.hash && s.members !! t.members
  }

  /** The sets lie in objs and share nothing. */
  ghost predicate SetsApart(ss: seq<CacheSet>, objs: set<object>) {
    && (forall i {:trigger SetIn(ss[i], objs)} :: 0 <= i < |ss| ==> SetIn(ss[i], objs))
    && (forall i, j {:trigger TwoApart(ss[i], ss[j])} :: 0 <= i < |ss| && 0 <= j < |ss| && i != j ==>
      TwoApart(ss[i], ss[j]))
  }

  ghost predicate SetReady(g: Geometry, s: CacheSet)
    reads s, s.hash, s.members
  {
    s.Valid() && |s.blks| == g.assoc && s.hsize == BucketsFor(g.assoc) && LinesOf(s.way) == EmptyLines(g)
  }

  /** Allocates the sets of a cache. */
  method NewSets(g: Geometry) returns (ss: seq<CacheSet>, ghost objs: set<object>)
    requires g.assoc > 0
    ensures |ss| == g.nsets && SetsApart(ss, objs) && fresh(objs)
    ensures forall i :: 0 <= i < |ss| ==> SetReady(g, ss[i])
  {
    hide SetReady;
    ss, objs := [], {};
    for n := 0 to g.nsets
      invariant |ss| == n && SetsApart(ss, objs) && fresh(objs)
      invariant forall i {:trigger SetReady(g, ss[i])} :: 0 <= i < n ==> SetReady(g, ss[i])
    {
      var s := NewSet(g);
      OneMoreApart(ss, objs, s);
      ghost var was := ss;
      ss, objs := ss + [s], objs + {s, s.hash} + s.members;
      forall i | 0 <= i <= n ensures SetReady(g, ss[i]) {
        if i < n { assert SetReady(g, was[i]); }
      }
    }
  }

  method NewSet(g: Geometry) returns (s: CacheSet)
    requires g.assoc > 0
    ensures fresh(s) && fresh(s.hash) && fresh(s.members) && SetReady(g, s)
  {
    s := new CacheSet(g.assoc, if g.balloc then g.bsize else 0, BucketsFor(g.assoc));
  }

  lemma OneMoreApart(ss: seq<CacheSet>, objs: set<object>, s: CacheSet)
    requires SetsApart(ss, objs) && s !in objs && s.hash !in objs && s.members !! objs
    ensures SetsApart(ss + [s], objs + {s, s.hash} + s.members)
  {
    var ts, more := ss + [s], objs + {s, s.hash} + s.members;
    forall i | 0 <= i < |ts| ensures SetIn(ts[i], more) {
      assert i < |ss| ==> SetIn(ss[i], objs);
    }
    forall i, j | 0 <= i < |ts| && 0 <= j < |ts| && i != j ensures TwoApart(ts[i], ts[j]) {
      assert i < |ss| ==> SetIn(ss[i], objs);
      assert j < |ss| ==> SetIn(ss[j], objs);
      assert i < |ss| && j < |ss| ==> TwoApart(ss[i], ss[j]);
    }
  }

  class Cache {
    const g: Geometry
    const sets: seq<CacheSet>
    var store: Store
    var hits: nat
    var misses: nat
    var replacements: nat
    var writebacks: nat
    var invalidations: nat
    ghost var bus: seq<BusOp>

    ghost const repr: set<object>

    ghost predicate Apart() {
      this !in repr && SetsApart(sets, repr)
    }

    ghost predicate SetOk(i: nat)
      requires Apart() && i < |sets|
      reads repr
    {
      && SetIn(sets[i], repr) && sets[i].Blocks() && sets[i].WayOk() && sets[i].ChainsOk({})
      && |sets[i].blks| == g.assoc && sets[i].hsize == BucketsFor(g.assoc)
    }

    ghost predicate Structure()
      reads repr
    {
      && g.Ok() && |sets| == g.nsets && Apart()
      && forall i: nat {:trigger SetOk(i)} :: i < |sets| ==> SetOk(i)
    }

    ghost function Lines(i: nat): (ls: seq<Line>)
      requires Structure() && i < |sets|
      reads repr
      ensures |ls| == g.assoc
    {
      assert SetOk(i);
      LinesOf(sets[i].way)
    }

    ghost function AllLines(n: nat): (ls: seq<seq<Line>>)
      requires Structure() && n <= |sets|
      reads repr
      ensures |ls| == n && forall i :: 0 <= i < n ==> ls[i] == Lines(i)
    {
      if n == 0 then [] else AllLines(n - 1) + [Lines(n - 1)]
    }

    ghost function View(): CacheSpec.Cache
      requires Structure()
      reads this, repr
    {
      CacheSpec.Cache(AllLines(|sets|), store, Stats(hits, misses, replacements, writebacks, invalidations), bus)
    }

    ghost predicate Valid()
      reads this, repr
    {
      Structure() && Sound(g, View()) && Named(g, View())
    }

    /** Builds an empty cache over the given next level. */
    constructor (geometry: Geometry, next: Store)
      requires geometry.Accepted() && StoreShaped(geometry, next)
      ensures g == geometry && Valid() && fresh(repr)
      ensures View() == Created(geometry, next)
    {
      var ss: seq<CacheSet>;
      ghost var objs: set<object>;
      ss, objs := NewSets(geometry);
      g, sets, repr := geometry, ss, objs;
      store := next;
      hits, misses, replacements, writebacks, invalidations := 0, 0, 0, 0, 0;
      bus := [];
      new;
      Built();
    }

    lemma Built()
      requires g.Ok() && |sets| == g.nsets && SetsApart(sets, repr) && this !in repr
      requires forall i :: 0 <= i < |sets| ==> SetReady(g, sets[i])
      requires StoreShaped(g, store) && bus == []
      requires hits == misses == replacements == writebacks == invalidations == 0
      ensures Valid() && View() == Created(g, store)
    {
      forall i: nat | i < |sets| ensures SetOk(i) {
        assert SetReady(g, sets[i]);
      }
      CreatedSound(g, store);
      assert View().sets == Created(g, store).sets;
    }

    // ----- what a change to one set leaves alone

    lemma SetsDisjoint(i: nat, t: nat)
      requires Apart() && i < |sets| && t < |sets| && i != t
      ensures sets[i] != sets[t] && sets[i].hash != sets[t].hash && sets[i].members !! sets[t].members
      ensures sets[t] in repr && sets[t].hash in repr && sets[t].members <= repr
    {
      assert TwoApart(sets[i], sets[t]) && SetIn(sets[t], repr);
    }

    twostate predicate Untouched(t: nat)
      requires t < |sets|
      reads sets[t], sets[t].hash, sets[t].members
    {
      unchanged(sets[t]) && unchanged(sets[t].hash) && unchanged(sets[t].members)
    }

    twostate predicate OthersUntouched(index: nat)
      requires Apart()
      reads repr
    {
      forall t: nat {:trigger Untouched(t)} :: t < |sets| && t != index ==> SetIn(sets[t], repr) && Untouched(t)
    }

    twostate lemma OtherSet(t: nat)
      requires old(Structure()) && t < |sets| && Untouched(t)
      ensures SetOk(t) && LinesOf(sets[t].way) == old(LinesOf(sets[t].way)) && sets[t].way == old(sets[t].way)
    {
      assert old(SetOk(t));
      sets[t].LinksKept({});
      sets[t].ValuesKeptAfter();
    }

    /** After a change confined to one set that leaves it well linked, the whole structure
        stands and only the lines of that set can differ. */
    twostate lemma OneSetChanged(index: nat)
      requires old(Structure()) && index < |sets| && SetOk(index)
      requires OthersUntouched(index)
      ensures Structure()
      ensures View().sets == old(View()).sets[index := Lines(index)]
    {
      forall i: nat | i < |sets|
        ensures SetOk(i) && (i != index ==> LinesOf(sets[i].way) == old(LinesOf(sets[i].way)))
      {
        if i != index {
          assert Untouched(i);
          OtherSet(i);
        }
      }
      forall i: nat | i < |sets| && i != index ensures Lines(i) == old(Lines(i)) {
        assert old(SetOk(i)) && SetOk(i);
      }
    }

    /** The set-level part of a hit; line l replaces the line at position i. */
    method HitOne(set_: CacheSet, ghost index: nat, blk: Blk, ghost tag: nat, write: bool, bofs: nat, nbytes: nat,
                  p: seq<Byte>, ghost i: nat)
        returns (out: seq<Byte>, ghost l: Line)
      requires set_.WayOk() && set_.ChainsOk({}) && i < |set_.way| && set_.way[i] == blk
      requires bofs + nbytes <= g.bsize && Copyable(nbytes) && (write ==> |p| == nbytes)
      requires g.balloc ==> |blk.data| == g.bsize
      modifies set_`wayHead, set_`wayTail, set_`way, set_.members
      ensures set_.WayOk() && set_.ChainsOk({})
      ensures Updated(g, CacheSpec.Access(write, BlockId(tag, index), bofs, p, nbytes), old(blk.Value()), l, out)
      ensures LinesOf(set_.way)
           == if g.policy.LRU? then ToFront(old(LinesOf(set_.way)), i, l) else old(LinesOf(set_.way))[i := l]
    {
      ghost var was := blk.Value();
      out, l := set_.Hit(blk, g.balloc, g.policy.LRU?, write, bofs, nbytes, p, i);
      HitUpdates(g, CacheSpec.Access(write, BlockId(tag, index), bofs, p, nbytes), was, l, out);
    }

    method HitFramed(index: nat, blk: Blk, ghost tag: nat, write: bool, bofs: nat, nbytes: nat, p: seq<Byte>,
                     ghost i: nat)
        returns (out: seq<Byte>, ghost l: Line)
      requires Apart() && index < |sets| && sets[index].WayOk() && sets[index].ChainsOk({}) && i < |sets[index].way|
      requires sets[index].way[i] == blk
      requires bofs + nbytes <= g.bsize && Copyable(nbytes) && (write ==> |p| == nbytes)
      requires g.balloc ==> |blk.data| == g.bsize
      modifies sets[index], sets[index].members
      ensures sets[index].WayOk() && sets[index].ChainsOk({}) && OthersUntouched(index)
      ensures Updated(g, CacheSpec.Access(write, BlockId(tag, index), bofs, p, nbytes), old(blk.Value()), l, out)
      ensures LinesOf(sets[index].way)
           == if g.policy.LRU? then ToFront(old(LinesOf(sets[index].way)), i, l)
             else old(LinesOf(sets[index].way))[i := l]
    {
      hide CacheSet.WayOk, CacheSet.ChainsOk;
      out, l := HitOne(sets[index], index, blk, tag, write, bofs, nbytes, p, i);
      forall t: nat | t < |sets| && t != index ensures Untouched(t) {
        SetsDisjoint(index, t);
      }
    }

    /** The set-level part of a hit, seen on the whole cache. */
    method HitSet(index: nat, blk: Blk, ghost tag: nat, write: bool, bofs: nat, nbytes: nat, p: seq<Byte>, ghost i: nat)
        returns (out: seq<Byte>, ghost l: Line)
      requires Structure() && index < |sets| && i < g.assoc && i < |sets[index].way| && sets[index].way[i] == blk
      requires bofs + nbytes <= g.bsize && Copyable(nbytes) && (write ==> |p| == nbytes)
      requires g.balloc ==> |blk.data| == g.bsize
      modifies sets[index], sets[index].members
      ensures Structure()
      ensures Updated(g, CacheSpec.Access(write, BlockId(tag, index), bofs, p, nbytes), old(Lines(index))[i], l, out)
      ensures View().sets == old(View()).sets[index :=
        if g.policy.LRU? then ToFront(old(Lines(index)), i, l) else old(Lines(index))[i := l]]
    {
      assert SetOk(index);
      out, l := HitFramed(index, blk, tag, write, bofs, nbytes, p, i);
      OneSetChanged(index);
    }

    // ----- the next level

    /** The block access function: moves a whole block between blk and the next level, which
        finds the block by splitting the address it is given. */
    method BlkAccess(write: bool, baddr: nat, blk: Blk)
      requires g.Ok()
      modifies this`store, this`bus, blk`data
      ensures var id := g.Id(baddr);
        && bus == old(bus) + [if write then WriteBack(id) else Fetch(id)]
        && store == (if write && g.balloc then old(store)[id := old(blk.data)] else old(store))
        && blk.data == if !write && g.balloc then StoredBlock(g, old(store), id) else old(blk.data)
    {
      SplitAsComputed(g, baddr);
      var id := BlockId(g.TagC(baddr), g.IndexC(baddr));
      bus := bus + [if write then WriteBack(id) else Fetch(id)];
      if g.balloc {
        if write {
          store := store[id := blk.data];
        } else {
          blk.data := StoredBlock(g, store, id);
        }
      }
    }

    /** Accounts for a valid victim and writes it back if it is dirty. */
    method EvictOld(repl: Blk, index: nat) returns (replAddr: nat)
      requires g.Ok() && index < g.nsets && repl.valid && g.Names(BlockId(repl.tag, index))
      modifies this`store, this`bus, this`replacements, this`writebacks, repl`data
      ensures repl.data == old(repl.data)
      ensures var name := BlockId(repl.tag, index);
        && replAddr == g.Address(name)
        && store == StoreAfterEviction(g, old(store), index, repl.Value())
        && replacements == old(replacements) + 1
        && writebacks == old(writebacks) + (if repl.dirty then 1 else 0)
        && bus == old(bus) + if repl.dirty then [WriteBack(name)] else []
    {
      ghost var name := BlockId(repl.tag, index);
      MakeAsComputed(g, name);
      IdOfAddress(g, name, 0);
      replacements := replacements + 1;
      replAddr := g.MakeBlockC(repl.tag, index);
      if repl.dirty {
        writebacks := writebacks + 1;
        BlkAccess(true, g.MakeBlockC(repl.tag, index), repl);
      }
    }

    ghost function Now(): Traffic
      reads this
    {
      Traffic(store, replacements, writebacks, bus)
    }

    /** The middle of a miss: writes the victim back if it is dirty, gives the block its new tag,
        fetches the new contents and performs the caller's copy. */
    method Refill(repl: Blk, index: nat, tag: nat, addr: nat, write: bool, bofs: nat, nbytes: nat, p: seq<Byte>)
        returns (out: seq<Byte>, replAddr: nat)
      requires g.Ok() && addr < WORD64 && BlockId(tag, index) == g.Id(addr)
      requires repl.valid ==> g.Names(BlockId(repl.tag, index))
      requires bofs + nbytes <= g.bsize && Copyable(nbytes) && (write ==> |p| == nbytes)
      requires StoreShaped(g, store) && (g.balloc ==> |repl.data| == g.bsize)
      modifies this`store, this`bus, this`replacements, this`writebacks
      modifies repl`tag, repl`valid, repl`dirty, repl`data
      ensures Filled(g, CacheSpec.Access(write, BlockId(tag, index), bofs, p, nbytes), old(repl.Value()),
                     old(Now()), Now(), repl.Value(), out, replAddr)
    {
      replAddr := 0;
      if repl.valid {
        replAddr := EvictOld(repl, index);
      }
      repl.tag := tag;
      repl.valid, repl.dirty := true, false;
      BlockAsComputed(g, addr);
      AddressOfId(g, addr);
      IdOfAddress(g, g.Id(addr), 0);
      BlkAccess(false, g.BlockC(addr), repl);
      out := [];
      if g.balloc {
        if write {
          repl.data := CopyIn(repl.data, bofs, p);
        } else {
          out := CopyOut(repl.data, bofs, nbytes);
        }
      }
      if write {
        repl.dirty := true;
      }
    }

    /** Refill, seen on the set that holds the block. */
    method RefillIn(set_: CacheSet, ghost pos: nat, repl: Blk, index: nat, tag: nat, addr: nat, write: bool,
                    bofs: nat, nbytes: nat, p: seq<Byte>)
        returns (out: seq<Byte>, replAddr: nat)
      requires set_.WayOk() && set_.ChainsOk({repl}) && pos < |set_.way| && set_.way[pos] == repl
      requires g.Ok() && addr < WORD64 && BlockId(tag, index) == g.Id(addr)
      requires repl.valid ==> g.Names(BlockId(repl.tag, index))
      requires bofs + nbytes <= g.bsize && Copyable(nbytes) && (write ==> |p| == nbytes)
      requires StoreShaped(g, store) && (g.balloc ==> |repl.data| == g.bsize)
      modifies this`store, this`bus, this`replacements, this`writebacks
      modifies repl`tag, repl`valid, repl`dirty, repl`data
      ensures set_.WayOk() && set_.ChainsOk({repl})
      ensures LinesOf(set_.way) == old(LinesOf(set_.way))[pos := repl.Value()]
      ensures Filled(g, CacheSpec.Access(write, BlockId(tag, index), bofs, p, nbytes), old(repl.Value()),
                     old(Now()), Now(), repl.Value(), out, replAddr)
    {
      out, replAddr := Refill(repl, index, tag, addr, write, bofs, nbytes, p);
      set_.Retagged(repl);
      set_.OneLineChanged(pos);
    }

    /** The set-level part of a miss; line l replaces the victim at position v. */
    method MissOne(set_: CacheSet, index: nat, tag: nat, addr: nat, write: bool, bofs: nat, nbytes: nat,
                   p: seq<Byte>, bindex: nat)
        returns (out: seq<Byte>, replAddr: nat, ghost v: nat, ghost l: Line)
      requires set_.Valid() && bindex < |set_.blks| && g.Ok()
      requires addr < WORD64 && BlockId(tag, index) == g.Id(addr)
      requires forall b :: b in set_.members && b.valid ==> g.Names(BlockId(b.tag, index))
      requires forall b :: b in set_.members && g.balloc ==> |b.data| == g.bsize
      requires bofs + nbytes <= g.bsize && Copyable(nbytes) && (write ==> |p| == nbytes) && StoreShaped(g, store)
      modifies this`store, this`bus, this`replacements, this`writebacks
      modifies set_, set_.hash, set_.members
      ensures set_.WayOk() && set_.ChainsOk({})
      ensures v < |set_.blks| && (!g.policy.Random? ==> v == |set_.blks| - 1)
      ensures Filled(g, CacheSpec.Access(write, BlockId(tag, index), bofs, p, nbytes), old(LinesOf(set_.way))[v],
                     old(Now()), Now(), l, out, replAddr)
      ensures LinesOf(set_.way)
           == if g.policy.Random? then old(LinesOf(set_.way))[v := l] else ToFront(old(LinesOf(set_.way)), v, l)
    {
      var repl: Blk;
      ghost var pos: nat;
      ghost var ls := LinesOf(set_.way);
      repl, v, pos := set_.BeginReplaceLines(g.policy, bindex);
      assert repl.Value() == ls[v];
      out, replAddr := RefillIn(set_, pos, repl, index, tag, addr, write, bofs, nbytes, p);
      l := repl.Value();
      UpdatedFront(ls, v, ls[v], l);
      set_.EndReplaceLines(repl);
    }

    // ----- an access

    /** What validity of the cache says about one of its sets. */
    lemma SetFacts(index: nat)
      requires Valid() && index < |sets|
      ensures SetOk(index) && sets[index].Valid() && Lines(index) == View().sets[index]
      ensures forall b :: b in sets[index].members && b.valid ==> g.Names(BlockId(b.tag, index))
      ensures forall b :: b in sets[index].members && g.balloc ==> |b.data| == g.bsize
    {
      assert SetOk(index);
      var s := sets[index];
      assert View().sets[index] == Lines(index) == LinesOf(s.way);
      assert SetShaped(g, Lines(index)) && UniqueTags(Lines(index));
      forall b | b in s.members
        ensures b.valid ==> g.Names(BlockId(b.tag, index))
        ensures g.balloc ==> |b.data| == g.bsize
      {
        var k := s.InWay(b);
        assert Lines(index)[k] == b.Value();
      }
    }

    method AccessHit(index: nat, blk: Blk, ghost tag: nat, write: bool, bofs: nat, nbytes: nat, p: seq<Byte>,
                     ghost i: nat)
        returns (out: seq<Byte>)
      requires Valid() && index < |sets| && i < |sets[index].way| && sets[index].way[i] == blk
      requires bofs + nbytes <= g.bsize && Copyable(nbytes) && (write ==> |p| == nbytes)
      modifies this`hits, sets[index], sets[index].members
      ensures Structure()
      ensures i < g.assoc && Fits(g, CacheSpec.Access(write, BlockId(tag, index), bofs, p, nbytes))
      ensures var r := HitAt(g, old(View()), CacheSpec.Access(write, BlockId(tag, index), bofs, p, nbytes), i);
        View() == r.cache && out == r.bytes
    {
      ghost var c := View();
      ghost var a := CacheSpec.Access(write, BlockId(tag, index), bofs, p, nbytes);
      ghost var l: Line;
      SetFacts(index);
      assert blk in sets[index].members;
      hide CacheSet.WayOk, CacheSet.ChainsOk, Sound, Named, HitAt;
      CountHit();
      out, l := HitSet(index, blk, tag, write, bofs, nbytes, p, i);
      HitOnValues(g, c, a, i, l, out, View());
    }

    method CountHit()
      requires Structure()
      modifies this`hits
      ensures Structure() && View() == old(View()).(stats := old(View()).stats.(hits := old(View()).stats.hits + 1))
    {
      hits := hits + 1;
    }

    method CountMiss()
      requires Structure()
      modifies this`misses
      ensures Structure() && View() == old(View()).(stats := old(View()).stats.(misses := old(View()).stats.misses + 1))
    {
      misses := misses + 1;
    }

    method MissFramed(index: nat, tag: nat, addr: nat, write: bool, bofs: nat, nbytes: nat, p: seq<Byte>, bindex: nat)
        returns (out: seq<Byte>, replAddr: nat, ghost v: nat, ghost l: Line)
      requires g.Ok() && Apart() && index < |sets| && bindex < g.assoc && sets[index].Valid()
      requires |sets[index].blks| == g.assoc && sets[index].hsize == BucketsFor(g.assoc) && SetIn(sets[index], repr)
      requires forall b :: b in sets[index].members && b.valid ==> g.Names(BlockId(b.tag, index))
      requires forall b :: b in sets[index].members && g.balloc ==> |b.data| == g.bsize
      requires addr < WORD64 && BlockId(tag, index) == g.Id(addr) && StoreShaped(g, store)
      requires bofs + nbytes <= g.bsize && Copyable(nbytes) && (write ==> |p| == nbytes)
      modifies this`store, this`bus, this`replacements, this`writebacks
      modifies sets[index], sets[index].hash, sets[index].members
      ensures sets[index].WayOk() && sets[index].ChainsOk({}) && OthersUntouched(index)
      ensures v < g.assoc && (!g.policy.Random? ==> v == g.assoc - 1)
      ensures Filled(g, CacheSpec.Access(write, BlockId(tag, index), bofs, p, nbytes), old(LinesOf(sets[index].way))[v],
                     old(Now()), Now(), l, out, replAddr)
      ensures LinesOf(sets[index].way) ==
        if g.policy.Random? then old(LinesOf(sets[index].way))[v := l] else ToFront(old(LinesOf(sets[index].way)), v, l)
    {
      hide CacheSet.WayOk, CacheSet.ChainsOk;
      out, replAddr, v, l := MissOne(sets[index], index, tag, addr, write, bofs, nbytes, p, bindex);
      forall t: nat | t < |sets| && t != index ensures Untouched(t) {
        SetsDisjoint(index, t);
      }
    }

    /** The set-level part of a miss, seen on the whole cache. */
    method MissSet(index: nat, tag: nat, addr: nat, write: bool, bofs: nat, nbytes: nat, p: seq<Byte>, bindex: nat)
        returns (out: seq<Byte>, replAddr: nat, ghost v: nat, ghost l: Line)
      requires Structure() && index < |sets| && bindex < g.assoc && sets[index].Valid()
      requires forall b :: b in sets[index].members && b.valid ==> g.Names(BlockId(b.tag, index))
      requires forall b :: b in sets[index].members && g.balloc ==> |b.data| == g.bsize
      requires addr < WORD64 && BlockId(tag, index) == g.Id(addr) && StoreShaped(g, store)
      requires bofs + nbytes <= g.bsize && Copyable(nbytes) && (write ==> |p| == nbytes)
      modifies this`store, this`bus, this`replacements, this`writebacks
      modifies sets[index], sets[index].hash, sets[index].members
      ensures Structure() && v < g.assoc && (!g.policy.Random? ==> v == g.assoc - 1)
      ensures Filled(g, CacheSpec.Access(write, BlockId(tag, index), bofs, p, nbytes), old(Lines(index))[v],
                     old(Now()), Now(), l, out, replAddr)
      ensures View().sets == old(View()).sets[index :=
        if g.policy.Random? then old(Lines(index))[v := l] else ToFront(old(Lines(index)), v, l)]
    {
      assert SetOk(index);
      out, replAddr, v, l := MissFramed(index, tag, addr, write, bofs, nbytes, p, bindex);
      OneSetChanged(index);
    }

    method AccessMiss(index: nat, tag: nat, addr: nat, write: bool, bofs: nat, nbytes: nat, p: seq<Byte>, bindex: nat)
        returns (out: seq<Byte>, replAddr: nat, ghost v: nat)
      requires Valid() && index < |sets| && bindex < g.assoc
      requires addr < WORD64 && BlockId(tag, index) == g.Id(addr)
      requires bofs + nbytes <= g.bsize && Copyable(nbytes) && (write ==> |p| == nbytes)
      modifies this`store, this`bus, this`replacements, this`writebacks, this`misses
      modifies sets[index], sets[index].hash, sets[index].members
      ensures Structure() && v < g.assoc && (!g.policy.Random? ==> v == g.assoc - 1)
      ensures Fits(g, CacheSpec.Access(write, BlockId(tag, index), bofs, p, nbytes))
      ensures var r := MissAt(g, old(View()), CacheSpec.Access(write, BlockId(tag, index), bofs, p, nbytes), v);
        && View() == r.cache && out == r.bytes
        && replAddr == if r.evicted.Some? then g.Address(r.evicted.value) else 0
    {
      ghost var c := View();
      ghost var a := CacheSpec.Access(write, BlockId(tag, index), bofs, p, nbytes);
      ghost var l: Line;
      SetFacts(index);
      hide CacheSet.WayOk, CacheSet.ChainsOk, Sound, Named, MissAt;
      out, replAddr, v, l := MissSet(index, tag, addr, write, bofs, nbytes, p, bindex);
      CountMiss();
      MissOnValues(g, c, a, v, Now(), l, out, replAddr, View());
    }

    /** Reads or writes nbytes bytes at addr.  The access is refused (fatal) exactly when the
        checks at its head fail; otherwise it is the access CacheSpec describes, and replAddr
        is the address of the valid block it replaced, or 0. */
    method Access(write: bool, addr: nat, nbytes: nat, p: seq<Byte>, rand: nat)
        returns (fatal: bool, out: seq<Byte>, replAddr: nat, ghost choice: nat)
      requires Valid() && addr < WORD64 && nbytes < INT_LIMIT && (write ==> |p| == nbytes)
      requires addr + nbytes == WORD64 ==> nbytes <= g.bsize
      modifies this, repr
      ensures Valid() && choice < g.assoc
      ensures fatal <==> !g.AcceptsC(addr, nbytes)
      ensures fatal ==> View() == old(View()) && out == [] && replAddr == 0
      ensures !fatal ==>
        var a := CacheSpec.Access(write, g.Id(addr), g.Offset(addr), p, nbytes);
        && Fits(g, a)
        && var r := DoAccess(g, old(View()), a, choice);
           && View() == r.cache && out == r.bytes
           && replAddr == if r.evicted.Some? then g.Address(r.evicted.value) else 0
    {
      fatal, out, replAddr, choice := false, [], 0, 0;
      if !g.AcceptsC(addr, nbytes) {
        fatal := true;
        return;
      }
      AcceptedShape(g, addr, nbytes);
      SplitAsComputed(g, addr);
      AddressOfId(g, addr);
      var tag, index, bofs := g.TagC(addr), g.IndexC(addr), g.OffsetC(addr);
      out, replAddr, choice := AccessSplit(index, tag, addr, write, bofs, nbytes, p, And(rand, g.assoc - 1));
    }

    method AccessSplit(index: nat, tag: nat, addr: nat, write: bool, bofs: nat, nbytes: nat, p: seq<Byte>, bindex: nat)
        returns (out: seq<Byte>, replAddr: nat, ghost choice: nat)
      requires Valid() && index < |sets| && bindex < g.assoc
      requires addr < WORD64 && BlockId(tag, index) == g.Id(addr) && g.Names(BlockId(tag, index))
      requires bofs + nbytes <= g.bsize && Copyable(nbytes) && (write ==> |p| == nbytes)
      modifies this, repr
      ensures Valid() && choice < g.assoc
      ensures Fits(g, CacheSpec.Access(write, BlockId(tag, index), bofs, p, nbytes))
      ensures var r := DoAccess(g, old(View()), CacheSpec.Access(write, BlockId(tag, index), bofs, p, nbytes), choice);
        && View() == r.cache && out == r.bytes
        && replAddr == if r.evicted.Some? then g.Address(r.evicted.value) else 0
    {
      SetFacts(index);
      ghost var c := View();
      ghost var a := CacheSpec.Access(write, BlockId(tag, index), bofs, p, nbytes);
      var blk: Blk?;
      ghost var i: int;
      blk, i := sets[index].Search(tag);
      replAddr, choice := 0, 0;
      if blk != null {
        out := AccessHit(index, blk, tag, write, bofs, nbytes, p, i);
        HitSound(g, c, a, i);
        HitNamed(g, c, a, i);
      } else {
        out, replAddr, choice := AccessMiss(index, tag, addr, write, bofs, nbytes, p, bindex);
        MissSound(g, c, a, choice);
        MissNamed(g, c, a, choice);
      }
    }

    /** True exactly when the block holding addr is in the cache. */
    method Probe(addr: nat) returns (found: bool)
      requires Valid() && addr < WORD64
      ensures found <==> Holds(g, View(), g.Id(addr))
    {
      SplitAsComputed(g, addr);
      var tag, index := g.TagC(addr), g.IndexC(addr);
      SetFacts(index);
      var blk: Blk?;
      ghost var i: int;
      blk, i := sets[index].Search(tag);
      found := blk != null;
    }

    // ----- flushes

    /** Invalidates one block and writes it back, to the given address, if it is dirty; the
        dirty bit stays set. */
    method InvalidateBlk(baddr: nat, blk: Blk)
      requires g.Ok() && blk.valid
      modifies this`store, this`bus, this`writebacks, this`invalidations, blk`valid, blk`data
      ensures blk.Value() == old(blk.Value()).(valid := false)
      ensures store == StoreAfterWriteBack(g, old(store), g.Id(baddr), old(blk.Value()))
      ensures invalidations == old(invalidations) + 1
      ensures writebacks == old(writebacks) + (if blk.dirty then 1 else 0)
      ensures bus == old(bus) + if blk.dirty then [WriteBack(g.Id(baddr))] else []
    {
      invalidations := invalidations + 1;
      blk.valid := false;
      if blk.dirty {
        writebacks := writebacks + 1;
        BlkAccess(true, baddr, blk);
      }
    }

    method InvalidateOne(set_: CacheSet, baddr: nat, blk: Blk, ghost i: nat)
      requires set_.WayOk() && set_.ChainsOk({}) && i < |set_.way| && set_.way[i] == blk
      requires g.Ok() && blk.valid
      modifies this`store, this`bus, this`writebacks, this`invalidations, blk`valid, blk`data
      ensures set_.WayOk() && set_.ChainsOk({})
      ensures LinesOf(set_.way) == old(LinesOf(set_.way))[i := old(blk.Value()).(valid := false)]
      ensures store == StoreAfterWriteBack(g, old(store), g.Id(baddr), old(blk.Value()))
      ensures invalidations == old(invalidations) + 1
      ensures writebacks == old(writebacks) + (if blk.dirty then 1 else 0)
      ensures bus == old(bus) + if blk.dirty then [WriteBack(g.Id(baddr))] else []
    {
      InvalidateBlk(baddr, blk);
      set_.LinksKept({});
      set_.OneLineChanged(i);
    }

    method InvalidateFramed(index: nat, baddr: nat, blk: Blk, ghost i: nat)
      requires g.Ok() && |sets| == g.nsets && Apart() && index < |sets| && sets[index].WayOk()
      requires sets[index].ChainsOk({}) && i < |sets[index].way| && sets[index].way[i] == blk
      requires blk.valid
      modifies this`store, this`bus, this`writebacks, this`invalidations, sets[index].members
      ensures sets[index].WayOk() && sets[index].ChainsOk({}) && OthersUntouched(index)
      ensures LinesOf(sets[index].way) == old(LinesOf(sets[index].way))[i := old(blk.Value()).(valid := false)]
      ensures store == StoreAfterWriteBack(g, old(store), g.Id(baddr), old(blk.Value()))
      ensures invalidations == old(invalidations) + 1
      ensures writebacks == old(writebacks) + (if old(blk.dirty) then 1 else 0)
      ensures bus == old(bus) + if old(blk.dirty) then [WriteBack(g.Id(baddr))] else []
    {
      assert blk in sets[index].members;
      hide CacheSet.WayOk, CacheSet.ChainsOk;
      InvalidateOne(sets[index], baddr, blk, i);
      forall t: nat | t < |sets| && t != index ensures Untouched(t) {
        SetsDisjoint(index, t);
      }
    }

    method InvalidateSeen(index: nat, baddr: nat, blk: Blk, ghost i: nat)
      requires Structure() && Sound(g, View()) && index < |sets| && i < |sets[index].way| && sets[index].way[i] == blk
      requires blk.valid && i < g.assoc
      modifies this`store, this`bus, this`writebacks, this`invalidations, sets[index].members
      ensures Structure() && View() == Invalidated(g, old(View()), index, i, g.Id(baddr))
    {
      ghost var c := View();
      assert Lines(index)[i] == blk.Value();
      assert SetOk(index);
      InvalidateFramed(index, baddr, blk, i);
      OneSetChanged(index);
      InvalidatedOnValues(g, c, index, i, g.Id(baddr), View());
    }

    method Invalidate(index: nat, baddr: nat, blk: Blk, ghost i: nat)
      requires Valid() && index < |sets| && i < |sets[index].way| && sets[index].way[i] == blk
      requires blk.valid
      modifies this`store, this`bus, this`writebacks, this`invalidations, sets[index].members
      ensures Valid() && i < g.assoc
      ensures View() == Invalidated(g, old(View()), index, i, g.Id(baddr))
    {
      SetFacts(index);
      InvalidatedSound(g, View(), index, i, g.Id(baddr));
      InvalidatedNamed(g, View(), index, i, g.Id(baddr));
      InvalidateSeen(index, baddr, blk, i);
    }

    /** Moves a block to the tail of its way list, in a cache whose structure is sound. */
    method SendBackFramed(index: nat, blk: Blk, ghost i: nat)
      requires g.Ok() && |sets| == g.nsets && Apart() && index < |sets| && sets[index].WayOk()
      requires sets[index].ChainsOk({}) && i < |sets[index].way| && sets[index].way[i] == blk
      modifies sets[index], sets[index].members
      ensures sets[index].WayOk() && sets[index].ChainsOk({}) && OthersUntouched(index)
      ensures LinesOf(sets[index].way) == ToBack(old(LinesOf(sets[index].way)), i, old(blk.Value()))
    {
      hide CacheSet.WayOk, CacheSet.ChainsOk;
      sets[index].DemoteLine(blk, i);
      forall t: nat | t < |sets| && t != index ensures Untouched(t) {
        SetsDisjoint(index, t);
      }
    }

    method SendBack(index: nat, blk: Blk, ghost i: nat)
      requires Valid() && index < |sets| && i < |sets[index].way| && sets[index].way[i] == blk
      modifies sets[index], sets[index].members
      ensures Structure() && i < g.assoc
      ensures View() == SentBack(g, old(View()), index, i)
    {
      SetFacts(index);
      assert Lines(index)[i] == blk.Value();
      assert SetOk(index);
      SendBackFramed(index, blk, i);
      OneSetChanged(index);
    }

    /** Flushes the block holding addr, if it is in the cache. */
    method FlushAddr(addr: nat)
      requires Valid() && addr < WORD64
      modifies this, repr
      ensures Valid() && View() == DoFlushBlock(g, old(View()), g.Id(addr))
    {
      SplitAsComputed(g, addr);
      AddressOfId(g, addr);
      FlushNamed(BlockId(g.TagC(addr), g.IndexC(addr)));
    }

    method FlushNamed(id: BlockId)
      requires Valid() && id.index < g.nsets && g.Names(id)
      modifies this, repr
      ensures Valid() && View() == DoFlushBlock(g, old(View()), id)
    {
      ghost var c := View();
      SetFacts(id.index);
      var blk: Blk?;
      ghost var i: int;
      blk, i := sets[id.index].Search(id.tag);
      DropSound(g, c, id);
      DropNamed(g, c, id);
      if blk != null {
        assert Lines(id.index)[i] == blk.Value();
        DropFound(id, blk, i);
      }
    }

    /** The flush of a block that was found. */
    method DropFound(id: BlockId, blk: Blk, ghost i: nat)
      requires Valid() && id.index < |sets| && i < |sets[id.index].way| && sets[id.index].way[i] == blk
      requires g.Names(id) && blk.valid && blk.tag == id.tag && Find(View().sets[id.index], id.tag) == i
      modifies this`store, this`bus, this`writebacks, this`invalidations, sets[id.index], sets[id.index].members
      ensures Structure() && View() == DoFlushBlock(g, old(View()), id)
    {
      MakeAsComputed(g, id);
      IdOfAddress(g, id, 0);
      Drop(id.index, g.MakeBlockC(blk.tag, id.index), blk, i);
    }

    /** Invalidates a block and sends it to the tail of its set. */
    method Drop(index: nat, baddr: nat, blk: Blk, ghost i: nat)
      requires Valid() && index < |sets| && i < |sets[index].way| && sets[index].way[i] == blk
      requires blk.valid
      modifies this`store, this`bus, this`writebacks, this`invalidations, sets[index], sets[index].members
      ensures Structure() && i < g.assoc
      ensures Shaped(g, Invalidated(g, old(View()), index, i, g.Id(baddr)))
      ensures View() == SentBack(g, Invalidated(g, old(View()), index, i, g.Id(baddr)), index, i)
    {
      Invalidate(index, baddr, blk, i);
      SendBack(index, blk, i);
    }

    /** Flushes the whole cache.  The address of a written-back block is computed with a 32-bit
        shift of the set index. */
    method FlushAll()
      requires Valid()
      modifies this, repr
      ensures Valid() && View() == DoFlush(g, old(View()))
    {
      ghost var c := View();
      for index := 0 to |sets|
        invariant Valid() && FlushFrom(g, View(), index) == DoFlush(g, c)
      {
        assert SetIn(sets[index], repr);
        FlushSet(index, c);
      }
    }

    method FlushSet(index: nat, ghost c: CacheSpec.Cache)
      requires Valid() && index < |sets| && Shaped(g, c)
      requires FlushFrom(g, View(), index) == DoFlush(g, c)
      modifies this`store, this`bus, this`writebacks, this`invalidations, sets[index].members
      ensures Valid() && FlushFrom(g, View(), index + 1) == DoFlush(g, c)
    {
      SetFacts(index);
      var blk := sets[index].wayHead;
      ghost var k := 0;
      while blk != null
        invariant Valid() && 0 <= k <= g.assoc == |sets[index].way| && blk == At(sets[index].way, k)
        invariant FlushFrom(g, FlushSetFrom(g, View(), index, k), index + 1) == DoFlush(g, c)
        decreases g.assoc - k
      {
        blk := FlushLine(index, blk, k);
        k := k + 1;
      }
    }

    /** Flushes one block of the walk along a way list, and steps to the next. */
    method FlushLine(index: nat, blk: Blk, ghost k: nat) returns (next: Blk?)
      requires Valid() && index < |sets| && k < |sets[index].way| && sets[index].way[k] == blk
      modifies this`store, this`bus, this`writebacks, this`invalidations, sets[index].members
      ensures Valid() && k < g.assoc && next == At(sets[index].way, k + 1)
      ensures FlushSetFrom(g, View(), index, k + 1) == FlushSetFrom(g, old(View()), index, k)
    {
      SetFacts(index);
      assert Lines(index)[k] == blk.Value();
      if blk.valid {
        Invalidate(index, g.MakeBlockFlushC(blk.tag, index), blk, k);
        SetFacts(index);
      }
      next := blk.wayNext;
    }
  }

  lemma InvalidatedOnValues(g: Geometry, c: CacheSpec.Cache, s: nat, i: nat, to: BlockId, r: CacheSpec.Cache)
    requires Shaped(g, c) && s < g.nsets && i < g.assoc
    requires var gone := c.sets[s][i];
      && r.sets == c.sets[s := c.sets[s][i := gone.(valid := false)]]
      && r.store == StoreAfterWriteBack(g, c.store, to, gone)
      && r.stats == c.stats.(invalidations := c.stats.invalidations + 1,
                             writebacks := c.stats.writebacks + (if gone.dirty then 1 else 0))
      && r.bus == c.bus + if gone.dirty then [WriteBack(to)] else []
    ensures r == Invalidated(g, c, s, i, to)
  {
  }

  /** What the checks at the head of an access guarantee. */
  lemma AcceptedShape(g: Geometry, addr: nat, nbytes: nat)
    requires g.Ok() && addr < WORD64 && nbytes < INT_LIMIT && g.AcceptsC(addr, nbytes)
    requires addr + nbytes == WORD64 ==> nbytes <= g.bsize
    ensures g.Offset(addr) + nbytes <= g.bsize && Copyable(nbytes)
  {
    if addr + nbytes != WORD64 { AcceptedSize(g, addr, nbytes); }
    AcceptedFits(g, addr, nbytes);
    PowersCopyable(nbytes);
  }

  lemma HitOnValues(g: Geometry, c: CacheSpec.Cache, a: CacheSpec.Access, i: nat, l: Line, out: seq<Byte>,
                    r: CacheSpec.Cache)
    requires Shaped(g, c) && Fits(g, a) && i < g.assoc
    requires Updated(g, a, c.sets[a.id.index][i], l, out)
    requires r.sets == c.sets[a.id.index :=
      if g.policy.LRU? then ToFront(c.sets[a.id.index], i, l) else c.sets[a.id.index][i := l]]
    requires r.store == c.store && r.bus == c.bus && r.stats == c.stats.(hits := c.stats.hits + 1)
    ensures r == HitAt(g, c, a, i).cache && out == HitAt(g, c, a, i).bytes
  {
  }

  lemma MissOnValues(g: Geometry, c: CacheSpec.Cache, a: CacheSpec.Access, v: nat, after: Traffic, l: Line,
                     out: seq<Byte>, replAddr: nat, r: CacheSpec.Cache)
    requires Shaped(g, c) && Fits(g, a) && v < g.assoc
    requires Filled(g, a, c.sets[a.id.index][v], Traffic(c.store, c.stats.replacements, c.stats.writebacks, c.bus),
                    after, l, out, replAddr)
    requires r.sets == c.sets[a.id.index :=
      if g.policy.Random? then c.sets[a.id.index][v := l] else ToFront(c.sets[a.id.index], v, l)]
    requires r.store == after.store && r.bus == after.bus
    requires r.stats ==
      c.stats.(misses := c.stats.misses + 1, replacements := after.replacements, writebacks := after.writebacks)
    ensures var m := MissAt(g, c, a, v);
      r == m.cache && out == m.bytes && replAddr == if m.evicted.Some? then g.Address(m.evicted.value) else 0
  {
  }
}
