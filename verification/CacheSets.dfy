/** One set of the cache as it is built in memory: block objects linked into a doubly linked
    way list and, in highly associative caches, into singly linked hash chains.  Ghost
    sequences name the order of the links; every operation is specified on them. */
module CacheSets {
  import opened MoveToFront
  import opened Bits
  import opened CacheAddress
  import opened CacheSpec
  import opened CacheCopy

  class Blk {
    var wayNext: Blk?
    var wayPrev: Blk?
    var hashNext: Blk?
    var tag: nat
    var valid: bool
    var dirty: bool
    var data: seq<Byte>

    constructor (size: nat)
      ensures Value() == Line(0, false, false, seq(size, _ => 0))
    {
      wayNext, wayPrev, hashNext := null, null, null;
      tag, valid, dirty := 0, false, false;
      data := seq(size, _ => 0);
    }

    function Value(): Line
      reads this
    {
      Line(tag, valid, dirty, data)
    }
  }

  method NewBlks(n: nat, size: nat) returns (bs: seq<Blk>)
    ensures |bs| == n && DistinctBlks(bs)
    ensures forall k :: 0 <= k < n ==> fresh(bs[k]) && bs[k].Value() == Line(0, false, false, seq(size, _ => 0))
  {
    bs := [];
    for i := 0 to n
      invariant |bs| == i && DistinctBlks(bs)
      invariant forall k :: 0 <= k < i ==> fresh(bs[k]) && bs[k].Value() == Line(0, false, false, seq(size, _ => 0))
    {
      var b := new Blk(size);
      bs := bs + [b];
    }
  }

  /** The per-set hash of a tag, given the number of buckets. */
  function Hash(hsize: nat, key: nat): (h: nat)
    requires hsize > 0
    ensures h < hsize
  {
    And(Xor(Xor(Xor(Shr(key, 24), Shr(key, 16)), Shr(key, 8)), key), hsize - 1)
  }

  ghost function At(s: seq<Blk>, i: int): Blk? {
    if 0 <= i < |s| then s[i] else null
  }

  ghost predicate DistinctBlks(s: seq<Blk>) {
    forall i, j :: 0 <= i < j < |s| ==> s[i] != s[j]
  }

  /** The list without its position i. */
  ghost function Cut(s: seq<Blk>, i: nat): seq<Blk>
    requires i < |s|
  {
    s[..i] + s[i + 1..]
  }

  /** The list with its position i moved to one end. */
  ghost function Moved(s: seq<Blk>, i: nat, toHead: bool): seq<Blk>
    requires i < |s|
  {
    if toHead then [s[i]] + Cut(s, i) else Cut(s, i) + [s[i]]
  }

  lemma CutOut(s: seq<Blk>, i: nat)
    requires DistinctBlks(s) && i < |s|
    ensures forall k :: 0 <= k < |s| - 1 ==> Cut(s, i)[k] == if k < i then s[k] else s[k + 1]
    ensures DistinctBlks(Cut(s, i)) && s[i] !in Cut(s, i)
    ensures forall b :: b in Cut(s, i) ==> b in s
    ensures forall b :: b in s ==> b == s[i] || b in Cut(s, i)
  {
    var rest := Cut(s, i);
    forall k | 0 <= k < |rest| ensures rest[k] == if k < i then s[k] else s[k + 1] { }
    forall b | b in s ensures b == s[i] || b in rest {
      var k :| 0 <= k < |s| && s[k] == b;
      if k != i { assert b == rest[if k < i then k else k - 1]; }
    }
  }

  lemma MoveShapes(s: seq<Blk>, i: nat)
    requires i < |s|
    ensures i == 0 ==> Moved(s, i, true) == s && Cut(s, i) == s[1..]
    ensures i == |s| - 1 ==> Moved(s, i, false) == s && Cut(s, i) == s[..i]
  {
  }

  /** s lists exactly the members, each once. */
  ghost predicate Lists(s: seq<Blk>, members: set<Blk>) {
    && DistinctBlks(s)
    && (forall b :: b in s ==> b in members)
    && (forall b :: b in members ==> b in s)
  }

  lemma CutLists(s: seq<Blk>, members: set<Blk>, i: nat)
    requires Lists(s, members) && i < |s|
    ensures Lists(Cut(s, i), members - {s[i]})
  {
    CutOut(s, i);
  }

  lemma EndLists(s: seq<Blk>, members: set<Blk>, b: Blk)
    requires Lists(s, members - {b}) && b in members
    ensures Lists([b] + s, members) && Lists(s + [b], members)
  {
    assert b !in s;
  }

  ghost predicate WayLinked(way: seq<Blk>)
    reads way
  {
    && (forall i {:trigger way[i].wayPrev} :: 0 <= i < |way| ==> way[i].wayPrev == At(way, i - 1))
    && (forall i {:trigger way[i].wayNext} :: 0 <= i < |way| ==> way[i].wayNext == At(way, i + 1))
  }

  ghost predicate ChainLinked(chain: seq<Blk>)
    reads chain
  {
    forall i {:trigger chain[i].hashNext} :: 0 <= i < |chain| ==> chain[i].hashNext == At(chain, i + 1)
  }

  // ----- hash chains as a partition of the blocks

  /** Chain h lists, each once, the blocks other than `out` whose bucket is h. */
  ghost predicate ChainLists(chain: seq<Blk>, buckets: map<Blk, nat>, out: set<Blk>, h: nat) {
    && DistinctBlks(chain)
    && (forall b :: b in chain ==> b in buckets && b !in out && buckets[b] == h)
    && (forall b :: b in buckets && b !in out && buckets[b] == h ==> b in chain)
  }

  ghost predicate Partition(chains: seq<seq<Blk>>, buckets: map<Blk, nat>, out: set<Blk>) {
    forall h :: 0 <= h < |chains| ==> ChainLists(chains[h], buckets, out, h)
  }

  lemma PartitionWithout(chains: seq<seq<Blk>>, buckets: map<Blk, nat>, h: nat, j: nat)
    requires Partition(chains, buckets, {}) && h < |chains| && j < |chains[h]|
    ensures Partition(chains[h := Cut(chains[h], j)], buckets, {chains[h][j]})
  {
    var chain, blk := chains[h], chains[h][j];
    CutOut(chain, j);
    assert ChainLists(chain, buckets, {}, h);
    assert ChainLists(Cut(chain, j), buckets, {blk}, h);
    forall k | 0 <= k < |chains| && k != h ensures ChainLists(chains[k], buckets, {blk}, k) {
      assert ChainLists(chains[k], buckets, {}, k);
    }
  }

  lemma PartitionWith(chains: seq<seq<Blk>>, buckets: map<Blk, nat>, blk: Blk)
    requires Partition(chains, buckets, {blk}) && blk in buckets && buckets[blk] < |chains|
    ensures var h := buckets[blk]; Partition(chains[h := [blk] + chains[h]], buckets, {})
  {
    var h := buckets[blk];
    var chain := [blk] + chains[h];
    assert ChainLists(chains[h], buckets, {blk}, h);
    assert ChainLists(chain, buckets, {}, h);
    forall k | 0 <= k < |chains| && k != h ensures ChainLists(chains[k], buckets, {}, k) {
      assert ChainLists(chains[k], buckets, {blk}, k);
    }
  }

  ghost function LinesOf(way: seq<Blk>): (ls: seq<Line>)
    reads way
    ensures |ls| == |way| && forall i :: 0 <= i < |way| ==> ls[i] == way[i].Value()
  {
    seq(|way|, i requires 0 <= i < |way| reads way => way[i].Value())
  }

  /** What a hit makes of a line, and what it returns. */
  ghost predicate HitLine(was: Line, balloc: bool, write: bool, bofs: nat, nbytes: nat, p: seq<Byte>, l: Line,
                          out: seq<Byte>) {
    && (balloc && write ==> bofs + |p| <= |was.data|)
    && (balloc && !write ==> bofs + nbytes <= |was.data|)
    && l == was.(dirty := was.dirty || write, data := if balloc && write then Patch(was.data, bofs, p) else was.data)
    && out == if balloc && !write then was.data[bofs..bofs + nbytes] else []
  }

  lemma NewLists(bs: seq<Blk>, way: seq<Blk>)
    requires DistinctBlks(bs) && |way| == |bs|
    requires forall k :: 0 <= k < |bs| ==> way[k] == bs[|bs| - 1 - k]
    ensures Lists(way, set b | b in bs)
  {
    forall b | b in bs ensures b in way {
      var k :| 0 <= k < |bs| && bs[k] == b;
      assert way[|bs| - 1 - k] == b;
    }
  }

  /** Moving a block within the way list moves its line. */
  lemma MovedLines(way: seq<Blk>, i: nat)
    requires i < |way|
    ensures LinesOf(Moved(way, i, true)) == ToFront(LinesOf(way), i, way[i].Value())
    ensures LinesOf(Moved(way, i, false)) == ToBack(LinesOf(way), i, way[i].Value())
  {
    LinesJoin([way[i]], Cut(way, i));
    LinesJoin(Cut(way, i), [way[i]]);
    LinesJoin(way[..i], way[i + 1..]);
    assert LinesOf(way[..i]) == LinesOf(way)[..i] && LinesOf(way[i + 1..]) == LinesOf(way)[i + 1..];
    var x := way[i].Value();
    assert LinesOf([way[i]]) == [x];
    assert [x] + (LinesOf(way)[..i] + LinesOf(way)[i + 1..]) == ToFront(LinesOf(way), i, x);
  }

  lemma LinesJoin(s: seq<Blk>, t: seq<Blk>)
    ensures LinesOf(s + t) == LinesOf(s) + LinesOf(t)
  {
  }

  twostate lemma ValuesKept(s: seq<Blk>)
    requires forall b :: b in s ==> b.Value() == old(b.Value())
    ensures LinesOf(s) == old(LinesOf(s))
  {
  }

  lemma UpdatedFront(ls: seq<Line>, v: nat, x: Line, l: Line)
    requires v < |ls|
    ensures ToFront(ls, v, x)[0 := l] == ToFront(ls, v, l)
  {
  }

  lemma FrontOfUpdated(ls: seq<Line>, i: nat, l: Line)
    requires i < |ls|
    ensures ToFront(ls[i := l], i, l) == ToFront(ls, i, l)
  {
  }

  class CacheSet {
    const blks: seq<Blk>
    const hsize: nat
    const hash: array<Blk?>
    var wayHead: Blk?
    var wayTail: Blk?
    ghost const members: set<Blk>
    ghost var way: seq<Blk>
    ghost var chains: seq<seq<Blk>>


    /** The members are the allocated blocks. */
    ghost predicate Blocks() {
      |blks| > 0 && members == set b | b in blks
    }

    /** The way list is a doubly linked permutation of the set's blocks. */
    ghost predicate WayOk()
      reads this, members
    {
      && |way| == |blks| > 0 && Lists(way, members)
      && wayHead == way[0] && wayTail == way[|way| - 1] && WayLinked(way)
    }

    /** The bucket of every block, by the hash of its tag. */
    ghost function Buckets(): map<Blk, nat>
      requires hsize > 0
      reads members`tag
    {
      map b | b in members :: Hash(hsize, b.tag)
    }

    ghost predicate Linked()
      reads this, hash, members
    {
      && hash.Length == hsize == |chains|
      && (forall h :: 0 <= h < hsize ==> forall b :: b in chains[h] ==> b in members)
      && (forall h :: 0 <= h < hsize ==> hash[h] == At(chains[h], 0) && ChainLinked(chains[h]))
    }

    /** The hash chains, if any, partition the set's blocks other than `out` by bucket. */
    ghost predicate ChainsOk(out: set<Blk>)
      reads this, hash, members
    {
      Linked() && (hsize > 0 ==> Partition(chains, Buckets(), out))
    }

    ghost predicate Valid()
      reads this, hash, members
    {
      Blocks() && WayOk() && ChainsOk({}) && UniqueTags(LinesOf(way))
    }

    /** Builds a set of `assoc` invalid blocks with `size` data bytes each and, if buckets is
        not zero, a hash table of that many chains. */
    constructor (assoc: nat, size: nat, buckets: nat)
      requires assoc > 0
      ensures Valid() && fresh(this) && fresh(hash) && fresh(members)
      ensures |blks| == assoc && hsize == buckets
      ensures LinesOf(way) == seq(assoc, _ => Line(0, false, false, seq(size, _ => 0)))
    {
      var bs := NewBlks(assoc, size);
      blks, hsize, members := bs, buckets, set b | b in bs;
      hash := new Blk?[buckets](_ => null);
      wayHead, wayTail, way := null, null, [];
      chains := seq(buckets, _ => []);
      new;
      LinkAll(size);
    }

    method LinkAll(ghost size: nat)
      requires way == [] && wayHead == null && wayTail == null && DistinctBlks(blks)
      requires |chains| == hsize == hash.Length && Blocks()
      requires forall h :: 0 <= h < hsize ==> hash[h] == null && chains[h] == []
      requires forall k :: 0 <= k < |blks| ==> blks[k].Value() == Line(0, false, false, seq(size, _ => 0))
      modifies this, hash, members
      ensures Valid()
      ensures LinesOf(way) == seq(|blks|, _ => Line(0, false, false, seq(size, _ => 0)))
    {
      ghost var home := if hsize > 0 then Hash(hsize, 0) else 0;
      for j := 0 to |blks|
        invariant Building(j, home)
        invariant forall k :: 0 <= k < |blks| ==> blks[k].Value() == Line(0, false, false, seq(size, _ => 0))
      {
        InsertNew(blks[j], j, home);
      }
      Built(home, size);
    }

    lemma Built(home: nat, size: nat)
      requires Building(|blks|, home) && |blks| > 0
      requires forall k :: 0 <= k < |blks| ==> blks[k].Value() == Line(0, false, false, seq(size, _ => 0))
      ensures Valid()
      ensures LinesOf(way) == seq(|blks|, _ => Line(0, false, false, seq(size, _ => 0)))
    {
      NewLists(blks, way);
      if hsize > 0 { NewPartition(home); }
    }

    ghost predicate WayPart()
      reads this, members
    {
      && DistinctBlks(way)
      && (forall b :: b in way ==> b in members)
      && wayHead == At(way, 0) && wayTail == At(way, |way| - 1) && WayLinked(way)
    }

    /** The first j blocks are linked, the latest first, into the way list and one hash chain. */
    ghost predicate Building(j: nat, home: nat)
      reads this, hash, members
    {
      && Blocks() && WayPart() && Linked()
      && |way| == j <= |blks| && DistinctBlks(blks)
      && (forall k :: 0 <= k < j ==> way[k] == blks[j - 1 - k])
      && (forall h :: 0 <= h < hsize ==> chains[h] == if h == home then way else [])
      && (hsize > 0 ==> forall b :: b in members ==> Hash(hsize, b.tag) == home)
    }

    method InsertNew(blk: Blk, ghost j: nat, ghost home: nat)
      requires Building(j, home) && j < |blks| && blk == blks[j]
      modifies this`wayHead, this`wayTail, this`way, `chains, hash
      modifies members`wayNext, members`wayPrev, members`hashNext
      ensures Building(j + 1, home)
    {
      assert blk in members && blk !in way;
      LinkNew(blk, home);
      label linked:
      PushWay(blk);
      LinkedKept@linked();
    }

    /** Puts a new block at the head of its hash chain. */
    method LinkNew(blk: Blk, ghost home: nat)
      requires Linked() && blk in members && blk !in way
      requires forall h :: 0 <= h < hsize ==> chains[h] == if h == home then way else []
      requires hsize > 0 ==> Hash(hsize, blk.tag) == home
      modifies `chains, hash, members`hashNext
      ensures Linked() && forall h :: 0 <= h < hsize ==> chains[h] == if h == home then [blk] + way else []
    {
      if hsize > 0 {
        var index := Hash(hsize, blk.tag);
        LinkAt(index, blk);
      }
    }

    /** Inserts a new block at the head of the way list. */
    method PushWay(blk: Blk)
      requires WayPart() && blk in members && blk !in way
      modifies this`wayHead, this`wayTail, this`way, members`wayNext, members`wayPrev
      ensures WayPart() && way == [blk] + old(way)
    {
      assert wayHead != null ==> wayHead in way;
      blk.wayNext := wayHead;
      blk.wayPrev := null;
      if wayHead != null { wayHead.wayPrev := blk; }
      wayHead := blk;
      if wayTail == null { wayTail := blk; }
      way := [blk] + way;
    }

    lemma NewPartition(home: nat)
      requires hsize > 0 && |chains| == hsize
      requires Lists(way, members) && forall b :: b in members ==> Hash(hsize, b.tag) == home
      requires forall h :: 0 <= h < hsize ==> chains[h] == if h == home then way else []
      ensures Partition(chains, Buckets(), {})
    {
    }

    twostate lemma ValuesKeptAfter()
      requires way == old(way) && (forall b :: b in way ==> b.Value() == old(b.Value()))
      ensures LinesOf(way) == old(LinesOf(way))
    {
    }

    // ----- changes that leave the links alone

    /** Writing to blocks without touching links or tags keeps both structures. */
    twostate lemma LinksKept(out: set<Blk>)
      requires old(WayOk()) && old(ChainsOk(out))
      requires way == old(way) && wayHead == old(wayHead) && wayTail == old(wayTail)
      requires chains == old(chains) && unchanged(hash)
      requires forall b :: b in members ==> b.wayNext == old(b.wayNext) && b.wayPrev == old(b.wayPrev)
      requires forall b :: b in members ==> b.hashNext == old(b.hashNext) && b.tag == old(b.tag)
      ensures WayOk() && ChainsOk(out)
    {
      WayKept();
      ChainsKept(out);
    }

    twostate lemma WayKept()
      requires old(WayOk())
      requires way == old(way) && wayHead == old(wayHead) && wayTail == old(wayTail)
      requires forall b :: b in members ==> b.wayNext == old(b.wayNext) && b.wayPrev == old(b.wayPrev)
      ensures WayOk()
    {
      assert forall i :: 0 <= i < |way| ==> way[i] in members;
    }

    twostate lemma LinkedKept()
      requires old(Linked())
      requires chains == old(chains) && unchanged(hash)
      requires forall b :: b in members ==> b.hashNext == old(b.hashNext)
      ensures Linked()
    {
      forall h | 0 <= h < hsize ensures hash[h] == At(chains[h], 0) && ChainLinked(chains[h]) {
        assert old(ChainLinked(chains[h]));
        assert forall i :: 0 <= i < |chains[h]| ==> chains[h][i] in chains[h];
      }
    }

    twostate lemma ChainsKept(out: set<Blk>)
      requires old(ChainsOk(out))
      requires chains == old(chains) && unchanged(hash)
      requires forall b :: b in members ==> b.hashNext == old(b.hashNext) && b.tag == old(b.tag)
      ensures ChainsOk(out)
    {
      LinkedKept();
      if hsize > 0 {
        assert Buckets() == old(Buckets());
      }
    }

    // ----- the way list

    /** Moves blk to the head or the tail of the way list.  The assertions on the ends of the
        list are those of the original: none of them fails. */
    method UpdateWayList(blk: Blk, toHead: bool, ghost i: nat)
      requires WayOk() && i < |way| && way[i] == blk
      modifies this`wayHead, this`wayTail, this`way, members`wayNext, members`wayPrev
      ensures WayOk() && way == Moved(old(way), i, toHead)
    {
      MoveShapes(way, i);
      assert blk.wayPrev == At(way, i - 1) && blk.wayNext == At(way, i + 1);
      if blk.wayPrev == null && blk.wayNext == null {
        // only one entry in the list
        assert wayHead == blk && wayTail == blk;
        return;
      } else if blk.wayPrev == null {
        assert wayHead == blk && wayTail != blk;
        // at the head
        if toHead { return; }
      } else if blk.wayNext == null {
        assert wayHead != blk && wayTail == blk;
        // at the tail, and not at the head
        if !toHead { return; }
      } else {
        assert wayHead != blk && wayTail != blk;
      }
      Relink(blk, toHead, i);
    }

    method Relink(blk: Blk, toHead: bool, ghost i: nat)
      requires WayOk() && i < |way| && way[i] == blk && |way| > 1
      modifies this`wayHead, this`wayTail, this`way, members`wayNext, members`wayPrev
      ensures WayOk() && way == Moved(old(way), i, toHead)
    {
      ghost var rest := Cut(way, i);
      CutLists(way, members, i);
      Detach(blk, i);
      if toHead {
        AttachHead(blk, rest);
      } else {
        AttachTail(blk, rest);
      }
    }

    /** Unlinks blk from a way list with other entries. */
    method Detach(blk: Blk, ghost i: nat)
      requires WayOk() && i < |way| && way[i] == blk && |way| > 1
      modifies this`wayHead, this`wayTail, members`wayNext, members`wayPrev
      ensures var rest := Cut(way, i);
        wayHead == rest[0] && wayTail == rest[|rest| - 1] && WayLinked(rest)
    {
      assert blk.wayPrev == At(way, i - 1) && blk.wayNext == At(way, i + 1);
      if blk.wayPrev == null {
        DetachHead(blk);
      } else if blk.wayNext == null {
        DetachTail(blk);
      } else {
        DetachMiddle(blk, i);
      }
    }

    /** rest is the linked way list without blk. */
    ghost predicate RestOk(rest: seq<Blk>, blk: Blk)
      reads this, rest
    {
      && rest != [] && Lists(rest, members - {blk}) && blk in members
      && wayHead == rest[0] && wayTail == rest[|rest| - 1] && WayLinked(rest)
    }

    method DetachHead(blk: Blk)
      requires WayOk() && |way| > 1 && way[0] == blk
      modifies this`wayHead, members`wayPrev
      ensures wayHead == way[1] && WayLinked(Cut(way, 0))
    {
      MoveShapes(way, 0);
      assert blk.wayNext == way[1];
      wayHead := blk.wayNext;
      blk.wayNext.wayPrev := null;
    }

    method DetachTail(blk: Blk)
      requires WayOk() && |way| > 1 && way[|way| - 1] == blk
      modifies this`wayTail, members`wayNext
      ensures wayTail == way[|way| - 2] && WayLinked(Cut(way, |way| - 1))
    {
      MoveShapes(way, |way| - 1);
      assert blk.wayPrev == way[|way| - 2];
      wayTail := blk.wayPrev;
      blk.wayPrev.wayNext := null;
    }

    method DetachMiddle(blk: Blk, ghost i: nat)
      requires WayOk() && 0 < i < |way| - 1 && way[i] == blk
      modifies members`wayNext, members`wayPrev
      ensures WayLinked(Cut(way, i))
    {
      CutOut(way, i);
      assert blk.wayPrev == way[i - 1] && blk.wayNext == way[i + 1];
      blk.wayPrev.wayNext := blk.wayNext;
      blk.wayNext.wayPrev := blk.wayPrev;
    }

    method AttachHead(blk: Blk, ghost rest: seq<Blk>)
      requires RestOk(rest, blk) && |rest| + 1 == |blks|
      modifies this`wayHead, this`way, members`wayNext, members`wayPrev
      ensures WayOk() && way == [blk] + rest
    {
      assert wayHead in rest && wayHead in members;
      blk.wayNext := wayHead;
      blk.wayPrev := null;
      wayHead.wayPrev := blk;
      wayHead := blk;
      way := [blk] + rest;
      EndLists(rest, members, blk);
    }

    method AttachTail(blk: Blk, ghost rest: seq<Blk>)
      requires RestOk(rest, blk) && |rest| + 1 == |blks|
      modifies this`wayTail, this`way, members`wayNext, members`wayPrev
      ensures WayOk() && way == rest + [blk]
    {
      assert wayTail in rest && wayTail in members;
      blk.wayPrev := wayTail;
      blk.wayNext := null;
      wayTail.wayNext := blk;
      wayTail := blk;
      way := rest + [blk];
      EndLists(rest, members, blk);
    }

    method PromoteWay(blk: Blk, lru: bool, ghost i: nat)
      requires WayOk() && i < |way| && way[i] == blk
      modifies this`wayHead, this`wayTail, this`way, members`wayNext, members`wayPrev
      ensures WayOk() && way == if lru then Moved(old(way), i, true) else old(way)
    {
      MoveShapes(way, i);
      assert blk.wayPrev == At(way, i - 1);
      if blk.wayPrev != null && lru {
        UpdateWayList(blk, true, i);
      }
    }

    /** The reordering step of a hit: under LRU a block that is not first moves to the head. */
    method Promote(blk: Blk, lru: bool, ghost i: nat)
      requires WayOk() && ChainsOk({}) && i < |way| && way[i] == blk
      modifies this`wayHead, this`wayTail, this`way, members`wayNext, members`wayPrev
      ensures WayOk() && ChainsOk({})
      ensures way == if lru then Moved(old(way), i, true) else old(way)
    {
      PromoteWay(blk, lru, i);
      ChainsKept({});
    }

    /** The copy step: data moves between the block and the caller's buffer, and a write marks
        the block dirty. */
    method CopyStep(blk: Blk, balloc: bool, write: bool, bofs: nat, nbytes: nat, p: seq<Byte>) returns (out: seq<Byte>)
      requires balloc ==> bofs + nbytes <= |blk.data|
      requires Copyable(nbytes) && (write ==> |p| == nbytes)
      modifies blk`data, blk`dirty
      ensures blk.dirty == (old(blk.dirty) || write)
      ensures blk.data == if balloc && write then Patch(old(blk.data), bofs, p) else old(blk.data)
      ensures out == if balloc && !write then old(blk.data)[bofs..bofs + nbytes] else []
    {
      out := [];
      if balloc {
        if write {
          blk.data := CopyIn(blk.data, bofs, p);
        } else {
          out := CopyOut(blk.data, bofs, nbytes);
        }
      }
      if write {
        blk.dirty := true;
      }
    }

    /** Replacing the value of one block replaces one line. */
    twostate lemma OneLineChanged(i: nat)
      requires i < |way| && way == old(way) && DistinctBlks(way)
      requires forall b :: b in way && b != way[i] ==> b.Value() == old(b.Value())
      ensures LinesOf(way) == old(LinesOf(way))[i := way[i].Value()]
    {
    }

    method HitCopy(blk: Blk, balloc: bool, write: bool, bofs: nat, nbytes: nat, p: seq<Byte>, ghost i: nat)
        returns (out: seq<Byte>)
      requires WayOk() && ChainsOk({}) && i < |way| && way[i] == blk
      requires balloc ==> bofs + nbytes <= |blk.data|
      requires Copyable(nbytes) && (write ==> |p| == nbytes)
      modifies blk`data, blk`dirty
      ensures WayOk() && ChainsOk({})
      ensures blk.Value() == old(blk.Value()).(dirty := old(blk.dirty) || write,
        data := if balloc && write then Patch(old(blk.data), bofs, p) else old(blk.data))
      ensures LinesOf(way) == old(LinesOf(way))[i := blk.Value()]
      ensures out == if balloc && !write then old(blk.data)[bofs..bofs + nbytes] else []
    {
      out := CopyStep(blk, balloc, write, bofs, nbytes, p);
      LinksKept({});
      OneLineChanged(i);
    }

    method PromoteLine(blk: Blk, lru: bool, ghost i: nat)
      requires WayOk() && ChainsOk({}) && i < |way| && way[i] == blk
      modifies this`wayHead, this`wayTail, this`way, members`wayNext, members`wayPrev
      ensures WayOk() && ChainsOk({})
      ensures LinesOf(way) == if lru then ToFront(old(LinesOf(way)), i, old(blk.Value())) else old(LinesOf(way))
    {
      MovedLines(way, i);
      Promote(blk, lru, i);
      ValuesKept(way);
    }

    /** The reordering step of a block flush: the block moves to the tail. */
    method DemoteLine(blk: Blk, ghost i: nat)
      requires WayOk() && ChainsOk({}) && i < |way| && way[i] == blk
      modifies this`wayHead, this`wayTail, this`way, members`wayNext, members`wayPrev
      ensures WayOk() && ChainsOk({})
      ensures LinesOf(way) == ToBack(old(LinesOf(way)), i, old(blk.Value()))
    {
      MovedLines(way, i);
      UpdateWayList(blk, false, i);
      ChainsKept({});
      ValuesKept(way);
    }

    /** A hit on blk, at position i of the way list; l is what its line becomes. */
    method Hit(blk: Blk, balloc: bool, lru: bool, write: bool, bofs: nat, nbytes: nat, p: seq<Byte>, ghost i: nat)
        returns (out: seq<Byte>, ghost l: Line)
      requires WayOk() && ChainsOk({}) && i < |way| && way[i] == blk
      requires balloc ==> bofs + nbytes <= |blk.data|
      requires Copyable(nbytes) && (write ==> |p| == nbytes)
      modifies this`wayHead, this`wayTail, this`way, members
      ensures WayOk() && ChainsOk({})
      ensures HitLine(old(blk.Value()), balloc, write, bofs, nbytes, p, l, out)
      ensures LinesOf(way) == if lru then ToFront(old(LinesOf(way)), i, l) else old(LinesOf(way))[i := l]
    {
      ghost var ls := LinesOf(way);
      out := HitCopy(blk, balloc, write, bofs, nbytes, p, i);
      l := blk.Value();
      FrontOfUpdated(ls, i, l);
      PromoteLine(blk, lru, i);
    }

    // ----- the hash chains

    /** Position of blk in its hash chain, by the original's walk; the walk always finds it. */
    method FindInChain(blk: Blk) returns (prev: Blk?, ghost j: nat)
      requires ChainsOk({}) && hsize > 0 && blk in members
      ensures var chain := chains[Hash(hsize, blk.tag)];
        j < |chain| && chain[j] == blk && prev == At(chain, j - 1)
    {
      var index := Hash(hsize, blk.tag);
      ghost var chain := chains[index];
      assert ChainLists(chain, Buckets(), {}, index);
      assert ChainLinked(chain);
      prev, j := null, 0;
      var ent := hash[index];
      while ent != null && ent != blk
        invariant 0 <= j <= |chain| && ent == At(chain, j) && prev == At(chain, j - 1)
        invariant blk !in chain[..j]
        decreases |chain| - j
      {
        prev, ent := ent, ent.hashNext;
        j := j + 1;
      }
      assert chain[..|chain|] == chain;
      assert ent != null;
    }

    /** Unlinks blk from its hash chain. */
    method UnlinkHtab(blk: Blk)
      requires ChainsOk({}) && hsize > 0 && blk in members
      modifies hash, `chains, members`hashNext
      ensures ChainsOk({blk})
    {
      var index := Hash(hsize, blk.tag);
      ghost var j: nat;
      var prev: Blk?;
      prev, j := FindInChain(blk);
      PartitionWithout(chains, Buckets(), index, j);
      UnlinkAt(index, prev, blk, j);
    }

    method UnlinkAt(index: nat, prev: Blk?, ent: Blk, ghost j: nat)
      requires Linked() && index < hsize && j < |chains[index]| && chains[index][j] == ent
      requires prev == At(chains[index], j - 1)
      requires forall h :: 0 <= h < hsize && h != index ==> forall b :: b in chains[h] ==> b !in chains[index]
      requires DistinctBlks(chains[index])
      modifies hash, `chains, members`hashNext
      ensures Linked() && chains == old(chains)[index := Cut(old(chains)[index], j)]
    {
      ghost var chain := chains[index];
      assert ChainLinked(chain);
      assert ent.hashNext == At(chain, j + 1);
      CutOut(chain, j);
      assert prev != null ==> prev in chain;
      if prev == null {
        hash[index] := ent.hashNext;
      } else {
        prev.hashNext := ent.hashNext;
      }
      ent.hashNext := null;
      assert ChainLinked(Cut(chain, j)) && hash[index] == At(Cut(chain, j), 0);
      forall h | 0 <= h < hsize && h != index
        ensures hash[h] == At(chains[h], 0) && ChainLinked(chains[h])
      {
        assert old(ChainLinked(chains[h]));
        assert forall i :: 0 <= i < |chains[h]| ==> chains[h][i] in chains[h];
      }
      chains := chains[index := Cut(chain, j)];
    }

    /** Inserts blk at the head of the hash chain of its tag. */
    method LinkHtab(blk: Blk)
      requires ChainsOk({blk}) && hsize > 0 && blk in members
      modifies hash, `chains, members`hashNext
      ensures ChainsOk({})
    {
      var index := Hash(hsize, blk.tag);
      assert Buckets()[blk] == index;
      PartitionWith(chains, Buckets(), blk);
      assert forall h :: 0 <= h < hsize ==> ChainLists(chains[h], Buckets(), {blk}, h);
      assert forall h :: 0 <= h < hsize ==> blk !in chains[h];
      LinkAt(index, blk);
    }

    method LinkAt(index: nat, blk: Blk)
      requires Linked() && index < hsize && blk in members
      requires forall h :: 0 <= h < hsize ==> blk !in chains[h]
      modifies hash, `chains, members`hashNext
      ensures Linked() && chains == old(chains)[index := [blk] + old(chains)[index]]
    {
      blk.hashNext := hash[index];
      hash[index] := blk;
      chains := chains[index := [blk] + chains[index]];
    }

    // ----- searching for a tag

    /** Search of the way list, used up to four ways. */
    method SearchWay(tag: nat) returns (blk: Blk?, ghost i: int)
      requires WayOk()
      ensures i == Find(LinesOf(way), tag) && blk == At(way, i)
    {
      blk, i := wayHead, 0;
      ghost var ls := LinesOf(way);
      while blk != null
        invariant 0 <= i <= |way| && blk == At(way, i)
        invariant forall k :: 0 <= k < i ==> !Matches(ls[k], tag)
        decreases |way| - i
      {
        if blk.tag == tag && blk.valid {
          assert Matches(ls[i], tag);
          return;
        }
        blk := blk.wayNext;
        i := i + 1;
      }
      i := -1;
    }

    /** Search of one hash chain, used above four ways: it finds the block the way list search
        would find. */
    method SearchChain(tag: nat) returns (blk: Blk?, ghost i: int)
      requires Valid() && hsize > 0
      ensures i == Find(LinesOf(way), tag) && blk == At(way, i)
    {
      var hindex := Hash(hsize, tag);
      ghost var chain := chains[hindex];
      assert ChainLists(chain, Buckets(), {}, hindex);
      assert ChainLinked(chain);
      blk := hash[hindex];
      ghost var j := 0;
      while blk != null
        invariant 0 <= j <= |chain| && blk == At(chain, j)
        invariant forall k :: 0 <= k < j ==> !Matches(chain[k].Value(), tag)
        decreases |chain| - j
      {
        if blk.tag == tag && blk.valid {
          i := InWay(blk);
          FoundIs(LinesOf(way), i);
          return;
        }
        blk := blk.hashNext;
        j := j + 1;
      }
      forall k | 0 <= k < |way| ensures !Matches(LinesOf(way)[k], tag) {
        if way[k].tag == tag { assert Buckets()[way[k]] == hindex && way[k] in chain; }
      }
      i := -1;
    }

    lemma InWay(blk: Blk) returns (i: nat)
      requires WayOk() && blk in members
      ensures i < |way| && way[i] == blk
    {
      i :| 0 <= i < |way| && way[i] == blk;
    }

    /** The search at the head of every cache operation. */
    method Search(tag: nat) returns (blk: Blk?, ghost i: int)
      requires Valid()
      ensures i == Find(LinesOf(way), tag) && blk == At(way, i)
    {
      if hsize > 0 {
        blk, i := SearchChain(tag);
      } else {
        blk, i := SearchWay(tag);
      }
    }

    // ----- the two steps of a replacement

    /** Chooses the block a miss replaces, moves it to the head of the way list unless the
        choice was random, and takes it off its hash chain. */
    method BeginReplace(policy: Policy, bindex: nat) returns (repl: Blk, ghost v: nat)
      requires Valid() && bindex < |blks|
      modifies this`wayHead, this`wayTail, this`way, this`chains, hash
      modifies members`wayNext, members`wayPrev, members`hashNext
      ensures WayOk() && ChainsOk({repl}) && repl in members
      ensures v < |old(way)| && old(way)[v] == repl
      ensures policy.Random? ==> repl == blks[bindex] && way == old(way)
      ensures !policy.Random? ==> v == |old(way)| - 1 && way == Moved(old(way), v, true)
    {
      if policy.Random? {
        repl := blks[bindex];
        v := InWay(repl);
      } else {
        repl, v := wayTail, |way| - 1;
        UpdateWayList(repl, true, v);
        ChainsKept({});
      }
      label moved:
      if hsize > 0 {
        UnlinkHtab(repl);
        WayKept@moved();
      }
    }

    /** The same step, seen on the lines of the set. */
    method BeginReplaceLines(policy: Policy, bindex: nat) returns (repl: Blk, ghost v: nat, ghost pos: nat)
      requires Valid() && bindex < |blks|
      modifies this`wayHead, this`wayTail, this`way, this`chains, hash
      modifies members`wayNext, members`wayPrev, members`hashNext
      ensures WayOk() && ChainsOk({repl}) && repl in members
      ensures v < |old(way)| && old(way)[v] == repl && (!policy.Random? ==> v == |old(way)| - 1)
      ensures pos == (if policy.Random? then v else 0) && pos < |way| && way[pos] == repl
      ensures LinesOf(way) ==
        if policy.Random? then old(LinesOf(way)) else ToFront(old(LinesOf(way)), v, old(repl.Value()))
    {
      MovedLines(way, |way| - 1);
      hide CacheSet.ChainsOk;
      repl, v := BeginReplace(policy, bindex);
      pos := if policy.Random? then v else 0;
      ValuesKept(way);
    }

    /** Giving the replaced block a new tag and contents disturbs no link. */
    twostate lemma Retagged(repl: Blk)
      requires old(WayOk()) && old(ChainsOk({repl}))
      requires unchanged(this) && unchanged(hash) && unchanged(members - {repl})
      requires repl.wayNext == old(repl.wayNext) && repl.wayPrev == old(repl.wayPrev)
      requires repl.hashNext == old(repl.hashNext)
      ensures WayOk() && ChainsOk({repl})
    {
      WayKept();
      LinkedKept();
      if hsize > 0 {
        forall h | 0 <= h < |chains| ensures ChainLists(chains[h], Buckets(), {repl}, h) {
          assert ChainLists(chains[h], old(Buckets()), {repl}, h);
        }
      }
    }

    /** Puts the replaced block back on the hash chain of its new tag. */
    method EndReplace(repl: Blk)
      requires WayOk() && ChainsOk({repl}) && repl in members
      modifies hash, `chains, members`hashNext
      ensures WayOk() && ChainsOk({})
    {
      if hsize > 0 {
        LinkHtab(repl);
        WayKept();
      }
    }

    method EndReplaceLines(repl: Blk)
      requires WayOk() && ChainsOk({repl}) && repl in members
      modifies hash, `chains, members`hashNext
      ensures WayOk() && ChainsOk({}) && LinesOf(way) == old(LinesOf(way))
    {
      EndReplace(repl);
      ValuesKeptAfter();
    }
  }
}
