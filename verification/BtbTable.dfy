/** The branch target buffer in place: one flat array of entries, those of a set linked into a
    chain from the most to the least recently taken. */
module BtbTable {
  import opened Bits
  import opened MoveToFront
  import opened Btb

  const NULL := -1

  datatype Entry = Entry(addr: nat, target: nat, prev: int, next: int)

  /** Index of the first entry of a set. */
  function Base(s: nat, assoc: nat): nat {
    if s == 0 then 0 else Base(s - 1, assoc) + assoc
  }

  lemma {:induction false} BaseIs(s: nat, assoc: nat)
    ensures Base(s, assoc) == s * assoc
  {
    if s > 0 { BaseIs(s - 1, assoc); }
  }

  lemma {:induction false} BaseGap(s: nat, t: nat, assoc: nat)
    requires s < t
    ensures Base(s, assoc) + assoc <= Base(t, assoc)
  {
    if s + 1 < t { BaseGap(s, t - 1, assoc); }
  }

  lemma BaseWithin(s: nat, sets: nat, assoc: nat)
    requires s < sets
    ensures Base(s, assoc) + assoc <= Base(sets, assoc)
  {
    BaseGap(s, sets, assoc);
  }

  /** ord lists the indices of the set that starts at base. */
  ghost predicate Covers(ord: seq<nat>, base: nat) {
    && (forall k :: 0 <= k < |ord| ==> base <= ord[k] < base + |ord|)
    && (forall j, k :: 0 <= j < k < |ord| ==> ord[j] != ord[k])
    && (forall i :: base <= i < base + |ord| ==> i in ord)
  }

  /** Entry x has the links of position k of the list ord. */
  ghost predicate LinkedAt(x: Entry, ord: seq<nat>, k: nat)
    requires k < |ord|
  {
    x.prev == PrevIn(ord, k) && x.next == NextIn(ord, k)
  }

  ghost predicate Linked(e: seq<Entry>, ord: seq<nat>) {
    && (forall k :: 0 <= k < |ord| ==> ord[k] < |e|)
    && (forall k {:trigger LinkedAt(e[ord[k]], ord, k)} :: 0 <= k < |ord| ==> LinkedAt(e[ord[k]], ord, k))
  }

  /** The entries from base on are linked, in the order ord, into one chain. */
  ghost predicate Chain(e: seq<Entry>, base: nat, ord: seq<nat>) {
    0 < |ord| && base + |ord| <= |e| && Covers(ord, base) && Linked(e, ord)
  }

  function Items(e: seq<Entry>, ord: seq<nat>): (r: Row)
    requires forall k :: 0 <= k < |ord| ==> ord[k] < |e|
    ensures |r| == |ord| && forall k :: 0 <= k < |ord| ==> r[k] == Item(e[ord[k]].addr, e[ord[k]].target)
  {
    seq(|ord|, k requires 0 <= k < |ord| => Item(e[ord[k]].addr, e[ord[k]].target))
  }

  lemma ChainFrame(e: seq<Entry>, f: seq<Entry>, base: nat, ord: seq<nat>)
    requires Chain(e, base, ord) && |f| == |e| && f[base..base + |ord|] == e[base..base + |ord|]
    ensures Chain(f, base, ord) && Items(f, ord) == Items(e, ord)
  {
    forall k | 0 <= k < |ord| ensures f[ord[k]] == e[ord[k]] {
      assert f[base..base + |ord|][ord[k] - base] == e[base..base + |ord|][ord[k] - base];
    }
  }

  /** Of the entries of a set, only the head has no previous one, only the tail no next one,
      and in a longer chain no entry has the same neighbour on both sides. */
  lemma ChainEnds(e: seq<Entry>, base: nat, ord: seq<nat>, i: nat)
    requires Chain(e, base, ord) && base <= i < base + |ord|
    ensures e[i].prev == NULL <==> i == ord[0]
    ensures e[i].next == NULL <==> i == ord[|ord| - 1]
    ensures |ord| > 1 ==> e[i].prev != e[i].next
  {
    assert i in ord;
    var k :| 0 <= k < |ord| && ord[k] == i;
    assert LinkedAt(e[i], ord, k);
  }

  // ----- moving an entry to the head of its chain

  function LinkNext(e: seq<Entry>, i: int, to: int): (r: seq<Entry>)
    ensures |r| == |e|
  {
    if 0 <= i < |e| then e[i := e[i].(next := to)] else e
  }

  function LinkPrev(e: seq<Entry>, i: int, to: int): (r: seq<Entry>)
    ensures |r| == |e|
  {
    if 0 <= i < |e| then e[i := e[i].(prev := to)] else e
  }

  lemma PromotedCovers(ord: seq<nat>, k: nat, base: nat)
    requires k < |ord| && Covers(ord, base)
    ensures |Promoted(ord, k)| == |ord| && Covers(Promoted(ord, k), base)
  {
    var o := Promoted(ord, k);
    forall i | base <= i < base + |o| ensures i in o {
      assert i in ord;
      var j :| 0 <= j < |ord| && ord[j] == i;
      assert o[if j == k then 0 else if j < k then j + 1 else j] == i;
    }
  }

  /** Entry p, between prev and next, spliced out and put before the head. */
  function Spliced(e: seq<Entry>, p: nat, prev: int, next: int, head: nat): (r: seq<Entry>)
    ensures |r| == |e|
  {
    LinkPrev(LinkPrev(LinkNext(LinkPrev(LinkNext(e, prev, next), next, prev), p, head), p, NULL), head, p)
  }

  lemma SplicedAt(e: seq<Entry>, p: nat, prev: int, next: int, head: nat, i: nat)
    requires p < |e| && head < |e| && prev != p && next != p && p != head && i < |e|
    ensures var x := Spliced(e, p, prev, next, head)[i];
      && x.addr == e[i].addr && x.target == e[i].target
      && x.next == (if i == p then head else if i == prev then next else e[i].next)
      && x.prev == (if i == head then p else if i == p then NULL else if i == next then prev else e[i].prev)
  {
  }

  function PrevIn(ord: seq<nat>, k: nat): int
    requires k < |ord|
  {
    if k == 0 then NULL else ord[k - 1]
  }

  function NextIn(ord: seq<nat>, k: nat): int
    requires k < |ord|
  {
    if k == |ord| - 1 then NULL else ord[k + 1]
  }

  ghost predicate Separate(ord: seq<nat>) {
    forall j, k :: 0 <= j < k < |ord| ==> ord[j] != ord[k]
  }

  /** The links that a splice leaves at position j of the new order. */
  lemma NewNeighbours(ord: seq<nat>, k: nat, j: nat)
    requires Separate(ord) && 0 < k < |ord| && j < |ord|
    ensures var m, o := if j == 0 then k else if j <= k then j - 1 else j, Promoted(ord, k);
      && o[j] == ord[m]
      && PrevIn(o, j) ==
        (if m == 0 then ord[k] else if m == k then NULL else if m == k + 1 then ord[k - 1] else PrevIn(ord, m))
      && NextIn(o, j) == (if m == k then ord[0] else if m == k - 1 then NextIn(ord, k) else NextIn(ord, m))
  {
    var o := Promoted(ord, k);
    assert |o| == |ord|;
    assert j + 1 < |o| ==> o[j + 1] == if j + 1 <= k then ord[j] else ord[j + 1];
  }

  lemma SplicedLinks(e: seq<Entry>, ord: seq<nat>, k: nat, j: nat)
    requires Linked(e, ord) && Separate(ord) && 0 < k < |ord| && j < |ord|
    ensures Promoted(ord, k)[j] < |e|
    ensures LinkedAt(Spliced(e, ord[k], ord[k - 1], NextIn(ord, k), ord[0])[Promoted(ord, k)[j]], Promoted(ord, k), j)
  {
    var m := if j == 0 then k else if j <= k then j - 1 else j;
    NewNeighbours(ord, k, j);
    assert LinkedAt(e[ord[m]], ord, m);
    assert ord[0] < |e| && ord[k] < |e|;
    SplicedAt(e, ord[k], ord[k - 1], NextIn(ord, k), ord[0], ord[m]);
  }

  lemma SpliceChain(e: seq<Entry>, base: nat, ord: seq<nat>, k: nat)
    requires Chain(e, base, ord) && 0 < k < |ord|
    ensures LinkedAt(e[ord[k]], ord, k) && PrevIn(ord, k) == ord[k - 1]
    ensures Chain(Spliced(e, ord[k], ord[k - 1], NextIn(ord, k), ord[0]), base, Promoted(ord, k))
  {
    assert Separate(ord);
    var f, o := Spliced(e, ord[k], ord[k - 1], NextIn(ord, k), ord[0]), Promoted(ord, k);
    PromotedCovers(ord, k, base);
    assert LinkedAt(e[ord[k]], ord, k);
    forall j | 0 <= j < |o| ensures o[j] < |f| && LinkedAt(f[o[j]], o, j) {
      SplicedLinks(e, ord, k, j);
    }
    assert Linked(f, o);
  }

  // ----- the initial chains

  /** Position of an entry within its set. */
  function Way(i: nat, assoc: nat): (w: nat)
    requires assoc > 0
    ensures w < assoc
  {
    if i == 0 then 0
    else var w := Way(i - 1, assoc); if w == assoc - 1 then 0 else w + 1
  }

  lemma {:induction false} WayIs(i: nat, assoc: nat)
    requires assoc > 0
    ensures Way(i, assoc) == i % assoc
  {
    if i > 0 {
      WayIs(i - 1, assoc);
      var q, r := (i - 1) / assoc, (i - 1) % assoc;
      assert i - 1 == assoc * q + r;
      MulDistrib(assoc, q, 1);
      if r == assoc - 1 { DivUnique(i, assoc, q + 1, 0); } else { DivUnique(i, assoc, q, r + 1); }
    }
  }

  lemma {:induction false} WayOf(s: nat, k: nat, assoc: nat)
    requires k < assoc
    ensures Way(Base(s, assoc) + k, assoc) == k
  {
    if k > 0 { WayOf(s, k - 1, assoc); } else if s > 0 { WayOf(s - 1, assoc - 1, assoc); }
  }

  /** The last entry is the last of its set. */
  lemma LastWay(sets: nat, assoc: nat)
    requires sets > 0 && assoc > 0
    ensures Base(sets, assoc) > 0 && Way(Base(sets, assoc) - 1, assoc) == assoc - 1
  {
    WayOf(sets - 1, assoc - 1, assoc);
  }

  function InitialPrev(i: nat, assoc: nat): int
    requires assoc > 0
  {
    if Way(i, assoc) != 0 then i - 1 else NULL
  }

  function InitialNext(i: nat, assoc: nat): int
    requires assoc > 0
  {
    if Way(i, assoc) != assoc - 1 then i + 1 else NULL
  }

  function InitialOrder(base: nat, assoc: nat): seq<nat> {
    seq(assoc, k requires 0 <= k => base + k)
  }

  lemma InitialChain(e: seq<Entry>, s: nat, assoc: nat)
    requires assoc > 0 && Base(s, assoc) + assoc <= |e|
    requires forall j :: 0 <= j < |e| ==> e[j].prev == InitialPrev(j, assoc) && e[j].next == InitialNext(j, assoc)
    ensures Chain(e, Base(s, assoc), InitialOrder(Base(s, assoc), assoc))
  {
    var base := Base(s, assoc);
    var ord := InitialOrder(base, assoc);
    forall i | base <= i < base + assoc ensures i in ord {
      assert ord[i - base] == i;
    }
    forall k | 0 <= k < assoc ensures LinkedAt(e[ord[k]], ord, k) {
      WayOf(s, k, assoc);
    }
  }

  lemma InitialSets(e: seq<Entry>, sets: nat, assoc: nat, order: seq<seq<nat>>)
    requires assoc > 0 && |e| == Base(sets, assoc) && |order| == sets
    requires forall j :: 0 <= j < |e| ==> e[j] == InitialEntry(j, assoc)
    requires forall s :: 0 <= s < sets ==> order[s] == InitialOrder(Base(s, assoc), assoc)
    ensures forall s :: 0 <= s < sets ==>
      Chain(e, Base(s, assoc), order[s]) && Items(e, order[s]) == EmptyRow(assoc)
  {
    forall s | 0 <= s < sets
      ensures Chain(e, Base(s, assoc), order[s]) && Items(e, order[s]) == EmptyRow(assoc)
    {
      BaseWithin(s, sets, assoc);
      InitialChain(e, s, assoc);
    }
  }

  function InitialEntry(i: nat, assoc: nat): Entry
    requires assoc > 0
  {
    Entry(0, 0, InitialPrev(i, assoc), InitialNext(i, assoc))
  }

  /** Entry j after the loop below has run up to i. */
  ghost predicate LinkedUpTo(x: Entry, j: nat, i: nat, assoc: nat)
    requires assoc > 0
  {
    x == Entry(0, 0, if j <= i then InitialPrev(j, assoc) else NULL, if j < i then InitialNext(j, assoc) else NULL)
  }

  method LinkUp(data: array<Entry>, assoc: nat)
    requires assoc > 0 && data.Length > 0 && Way(data.Length - 1, assoc) == assoc - 1
    requires forall j :: 0 <= j < data.Length ==> data[j] == Entry(0, 0, NULL, NULL)
    modifies data
    ensures forall j :: 0 <= j < data.Length ==> data[j] == InitialEntry(j, assoc)
  {
    if assoc == 1 { return; }
    for i := 0 to data.Length
      invariant forall j :: 0 <= j < data.Length ==> LinkedUpTo(data[j], j, i, assoc)
    {
      WayIs(i, assoc);
      assert LinkedUpTo(data[i], i, i, assoc);
      if i % assoc != assoc - 1 {
        assert LinkedUpTo(data[i + 1], i + 1, i, assoc);
        data[i] := data[i].(next := i + 1);
        data[i + 1] := data[i + 1].(prev := i);
      } else {
        data[i] := data[i].(next := NULL);
      }
    }
  }

  // ----- one update, on values

  /** No two items of the row are for branch b. */
  ghost predicate Unique(row: Row, b: nat) {
    forall i, j :: 0 <= i < j < |row| && row[i].addr == b ==> row[j].addr != b
  }

  /** e and f agree outside the set that starts at base. */
  ghost predicate SameElsewhere(e: seq<Entry>, f: seq<Entry>, base: nat, assoc: nat) {
    |f| == |e| && forall i :: 0 <= i < |e| && !(base <= i < base + assoc) ==> f[i] == e[i]
  }

  lemma OtherSet(e: seq<Entry>, f: seq<Entry>, s: nat, t: nat, sets: nat, assoc: nat, ord: seq<nat>)
    requires s < sets && t < sets && s != t && |e| == Base(sets, assoc) && |ord| == assoc
    requires SameElsewhere(e, f, Base(s, assoc), assoc) && Chain(e, Base(t, assoc), ord)
    ensures Chain(f, Base(t, assoc), ord) && Items(f, ord) == Items(e, ord)
  {
    if s < t { BaseGap(s, t, assoc); } else { BaseGap(t, s, assoc); }
    ChainFrame(e, f, Base(t, assoc), ord);
  }

  /** Every set is one chain. */
  ghost predicate Chains(e: seq<Entry>, assoc: nat, order: seq<seq<nat>>) {
    forall t {:trigger Chain(e, Base(t, assoc), order[t])} :: 0 <= t < |order| ==>
      |order[t]| == assoc && Chain(e, Base(t, assoc), order[t])
  }

  lemma PromotedChains(e: seq<Entry>, f: seq<Entry>, s: nat, assoc: nat, order: seq<seq<nat>>, ord: seq<nat>)
    requires s < |order| && |e| == Base(|order|, assoc) && |ord| == assoc
    requires SameElsewhere(e, f, Base(s, assoc), assoc) && Chain(f, Base(s, assoc), ord)
    requires Chains(e, assoc, order)
    ensures Chains(f, assoc, order[s := ord])
  {
    forall t | 0 <= t < |order| && t != s ensures |order[t]| == assoc && Chain(f, Base(t, assoc), order[t]) {
      assert Chain(e, Base(t, assoc), order[t]);
      OtherSet(e, f, s, t, |order|, assoc, order[t]);
    }
  }

  /** The position in the chain of the entry at index i. */
  lemma PositionOf(e: seq<Entry>, base: nat, ord: seq<nat>, i: nat) returns (k: nat)
    requires Chain(e, base, ord) && base <= i < base + |ord|
    ensures k < |ord| && ord[k] == i && Items(e, ord)[k] == Item(e[i].addr, e[i].target)
  {
    assert i in ord;
    k :| 0 <= k < |ord| && ord[k] == i;
  }

  /** The position of the item that a taken branch uses. */
  function Used(row: Row, baddr: nat): (k: nat)
    requires |row| > 0
    ensures k < |row|
  {
    if Find(row, baddr) >= 0 then Find(row, baddr) else |row| - 1
  }

  lemma UsedIs(e: seq<Entry>, base: nat, ord: seq<nat>, baddr: nat, p: nat)
    requires Chain(e, base, ord) && base <= p < base + |ord| && Unique(Items(e, ord), baddr)
    requires e[p].addr == baddr || (p == ord[|ord| - 1] && forall i :: base <= i < base + |ord| ==> e[i].addr != baddr)
    ensures ord[Used(Items(e, ord), baddr)] == p
  {
    var k := PositionOf(e, base, ord, p);
    var row := Items(e, ord);
    if e[p].addr == baddr { assert row[k].addr == baddr; }
  }

  lemma OneMatch(e: seq<Entry>, base: nat, ord: seq<nat>, baddr: nat, p: nat, i: nat)
    requires Chain(e, base, ord) && base <= p < i < base + |ord| && Unique(Items(e, ord), baddr)
    ensures !(e[p].addr == baddr == e[i].addr)
  {
    var j := PositionOf(e, base, ord, p);
    var k := PositionOf(e, base, ord, i);
  }

  /** Items after entry ord[k] has moved to the head and been given new contents. */
  lemma MovedItems(e: seq<Entry>, f: seq<Entry>, base: nat, ord: seq<nat>, k: nat)
    requires Chain(e, base, ord) && k < |ord| && |f| == |e|
    requires forall i :: base <= i < base + |ord| && i != ord[k] ==>
      f[i].addr == e[i].addr && f[i].target == e[i].target
    ensures forall j :: 0 <= j < |ord| ==> Promoted(ord, k)[j] < |f|
    ensures Items(f, Promoted(ord, k)) == ToFront(Items(e, ord), k, Item(f[ord[k]].addr, f[ord[k]].target))
  {
    PromotedCovers(ord, k, base);
    var o, row, x := Promoted(ord, k), Items(e, ord), Item(f[ord[k]].addr, f[ord[k]].target);
    forall j | 0 <= j < |ord| ensures Items(f, o)[j] == ToFront(row, k, x)[j] {
      var m := if j == 0 then k else if j <= k then j - 1 else j;
      assert o[j] == ord[m];
      assert j > 0 ==> ord[m] != ord[k] && ToFront(row, k, x)[j] == row[m];
    }
  }

  /** Finds the entry of a branch, the head and the tail of its set in one pass. */
  method Scan(data: array<Entry>, ghost ord: seq<nat>, index: nat, assoc: nat, baddr: nat)
      returns (p: int, head: int, tail: int)
    requires Chain(data[..], index, ord) && assoc == |ord| > 1 && Unique(Items(data[..], ord), baddr)
    ensures index <= head < index + assoc && head == ord[0] && index <= tail < index + assoc && tail == ord[assoc - 1]
    ensures if p == NULL then forall j :: index <= j < index + assoc ==> data[j].addr != baddr
            else index <= p < index + assoc && data[p].addr == baddr
  {
    p, head, tail := NULL, NULL, NULL;
    for i := index to index + assoc
      invariant p == NULL ==> forall j :: index <= j < i ==> data[j].addr != baddr
      invariant p != NULL ==> index <= p < i && data[p].addr == baddr
      invariant head == if ord[0] < i then ord[0] else NULL
      invariant tail == if ord[assoc - 1] < i then ord[assoc - 1] else NULL
    {
      ChainEnds(data[..], index, ord, i);
      if data[i].addr == baddr {
        if p != NULL { OneMatch(data[..], index, ord, baddr, p, i); }
        assert p == NULL;
        p := i;
      }
      assert data[i].prev != data[i].next;
      if data[i].prev == NULL {
        assert head == NULL;
        head := i;
      }
      if data[i].next == NULL {
        assert tail == NULL;
        tail := i;
      }
    }
    assert head != NULL && tail != NULL;
  }

  /** e and f have the same links. */
  ghost predicate SameLinks(e: seq<Entry>, f: seq<Entry>) {
    |f| == |e| && forall i :: 0 <= i < |e| ==> f[i].prev == e[i].prev && f[i].next == e[i].next
  }

  /** e and f have the same contents. */
  ghost predicate SameContents(e: seq<Entry>, f: seq<Entry>) {
    |f| == |e| && forall i :: 0 <= i < |e| ==> f[i].addr == e[i].addr && f[i].target == e[i].target
  }

  lemma SameLinksChain(e: seq<Entry>, f: seq<Entry>, base: nat, ord: seq<nat>)
    requires Chain(e, base, ord) && SameLinks(e, f)
    ensures Chain(f, base, ord)
  {
    forall k | 0 <= k < |ord| ensures LinkedAt(f[ord[k]], ord, k) {
      assert LinkedAt(e[ord[k]], ord, k);
    }
  }

  lemma SplicedContents(e: seq<Entry>, base: nat, ord: seq<nat>, k: nat)
    requires Chain(e, base, ord) && 0 < k < |ord|
    ensures var f := Spliced(e, ord[k], ord[k - 1], NextIn(ord, k), ord[0]);
      SameContents(e, f) && SameElsewhere(e, f, base, |ord|)
  {
    forall i | 0 <= i < |e|
      ensures var x := Spliced(e, ord[k], ord[k - 1], NextIn(ord, k), ord[0])[i];
        x.addr == e[i].addr && x.target == e[i].target && (!(base <= i < base + |ord|) ==> x == e[i])
    {
      SplicedAt(e, ord[k], ord[k - 1], NextIn(ord, k), ord[0], i);
    }
  }

  /** The entry at p is given a taken branch. */
  function Written(x: Entry, baddr: nat, btarget: nat, correct: bool): Entry {
    if x.addr == baddr then (if correct then x else x.(target := btarget))
    else x.(addr := baddr, target := btarget)
  }

  lemma SetTaken(e: seq<Entry>, f: seq<Entry>, g: seq<Entry>, base: nat, ord: seq<nat>, baddr: nat, btarget: nat,
                 correct: bool)
    requires Chain(e, base, ord) && SameContents(e, f) && |g| == |f|
    requires var p := ord[Used(Items(e, ord), baddr)]; g == f[p := Written(f[p], baddr, btarget, correct)]
    ensures var k := Used(Items(e, ord), baddr);
      && (forall j :: 0 <= j < |ord| ==> Promoted(ord, k)[j] < |g|)
      && Items(g, Promoted(ord, k)) == Taken(Items(e, ord), baddr, btarget, correct)
  {
    MovedItems(e, g, base, ord, Used(Items(e, ord), baddr));
  }

  lemma OtherItems(e: seq<Entry>, f: seq<Entry>, g: seq<Entry>, s: nat, t: nat, sets: nat, assoc: nat, ord: seq<nat>,
                   p: nat)
    requires s < sets && t < sets && s != t && |e| == Base(sets, assoc) && |ord| == assoc && Covers(ord, Base(t, assoc))
    requires SameContents(e, f) && |g| == |f| && p < |f| && g == f[p := g[p]]
    requires Base(s, assoc) <= p < Base(s, assoc) + assoc
    ensures forall j :: 0 <= j < |ord| ==> ord[j] < |g|
    ensures Items(g, ord) == Items(e, ord)
  {
    BaseWithin(t, sets, assoc);
    if s < t { BaseGap(s, t, assoc); } else { BaseGap(t, s, assoc); }
    assert forall j :: 0 <= j < |ord| ==> ord[j] != p && g[ord[j]] == f[ord[j]];
  }

  /** Makes entry p the head of its chain. */
  method MoveToHead(data: array<Entry>, ghost base: nat, ghost ord: seq<nat>, ghost k: nat, p: nat, head: nat)
    requires Chain(data[..], base, ord) && k < |ord| && p == ord[k] && head == ord[0]
    modifies data
    ensures Chain(data[..], base, Promoted(ord, k))
    ensures SameContents(old(data[..]), data[..]) && SameElsewhere(old(data[..]), data[..], base, |ord|)
  {
    if p != head {
      ghost var e := data[..];
      SpliceChain(e, base, ord, k);
      SplicedContents(e, base, ord, k);
      Splice(data, p, head);
    } else {
      assert Promoted(ord, 0) == ord;
    }
  }

  method Splice(data: array<Entry>, p: nat, head: nat)
    requires p < data.Length && head < data.Length && -1 <= data[p].prev < data.Length
    requires -1 <= data[p].next < data.Length
    requires data[p].prev != p && data[p].next != p && data[p].prev != NULL
    modifies data
    ensures data[..] == Spliced(old(data[..]), p, old(data[p].prev), old(data[p].next), head)
  {
    var x := data[p];
    if data[p].prev != NULL {
      data[data[p].prev] := data[data[p].prev].(next := data[p].next);
    }
    assert data[..] == LinkNext(old(data[..]), x.prev, x.next);
    if data[p].next != NULL {
      data[data[p].next] := data[data[p].next].(prev := data[p].prev);
    }
    data[p] := data[p].(next := head);
    data[p] := data[p].(prev := NULL);
    data[head] := data[head].(prev := p);
  }

  // ----- the table

  class Table {
    const data: array<Entry>
    const sets: nat
    const assoc: nat
    ghost var order: seq<seq<nat>>

    ghost predicate Shape()
      reads this
    {
      && sets > 0 && assoc > 0 && data.Length == Base(sets, assoc) && |order| == sets
      && forall s :: 0 <= s < sets ==> |order[s]| == assoc
    }

    ghost predicate Valid()
      reads this, data
    {
      Shape() && Chains(data[..], assoc, order)
    }

    ghost function Set(s: nat): (r: Row)
      requires Valid() && s < sets
      reads this, data
      ensures |r| == assoc
    {
      assert Chain(data[..], Base(s, assoc), order[s]);
      Items(data[..], order[s])
    }

    /** Zeroed entries, those of each set chained in index order. */
    constructor (sets: nat, assoc: nat)
      requires sets > 0 && assoc > 0 && sets * assoc < 0x8000_0000
      ensures Valid() && fresh(data) && this.sets == sets && this.assoc == assoc
      ensures forall s :: 0 <= s < sets ==> Set(s) == EmptyRow(assoc)
    {
      this.sets, this.assoc := sets, assoc;
      BaseIs(sets, assoc);
      LastWay(sets, assoc);
      data := new Entry[sets * assoc](_ => Entry(0, 0, NULL, NULL));
      order := seq(sets, s requires 0 <= s => InitialOrder(Base(s, assoc), assoc));
      new;
      LinkUp(data, assoc);
      InitialSets(data[..], sets, assoc, order);
    }

    function SetOf(baddr: nat): (s: nat)
      requires sets > 0
      ensures s < sets
    {
      And(Shr(baddr, 2), sets - 1)
    }

    /** Looks a branch up by address; with several entries for it the first is taken. */
    method Lookup(baddr: nat) returns (hit: bool, target: nat)
      requires Valid()
      ensures hit <==> Find(Set(SetOf(baddr)), baddr) >= 0
      ensures hit ==> Item(baddr, target) in Set(SetOf(baddr))
    {
      var s := And(Shr(baddr, 2), sets - 1);
      BaseIs(s, assoc);
      BaseWithin(s, sets, assoc);
      assert Chain(data[..], Base(s, assoc), order[s]);
      var index := s * assoc;
      for i := index to index + assoc
        invariant forall j :: index <= j < i ==> data[j].addr != baddr
      {
        if data[i].addr == baddr {
          ghost var k := PositionOf(data[..], index, order[s], i);
          return true, data[i].target;
        }
      }
      return false, 0;
    }

    /** Brings the entry of a branch, or the victim that makes room for it, to the head of its
        set. */
    method Promote(baddr: nat) returns (p: nat)
      requires Valid() && Unique(Set(SetOf(baddr)), baddr)
      modifies this`order, data
      ensures Valid() && p < data.Length && p == order[SetOf(baddr)][0] && SameContents(old(data[..]), data[..])
      ensures var s := SetOf(baddr); var k := Used(old(Set(s)), baddr);
        order == old(order)[s := Promoted(old(order[s]), k)] && p == old(order[s])[k]
    {
      var s := And(Shr(baddr, 2), sets - 1);
      ghost var ord, e := order[s], data[..];
      assert Chain(e, Base(s, assoc), ord);
      hide Linked, Covers, Spliced;
      BaseIs(s, assoc);
      ghost var k := Used(Set(s), baddr);
      if assoc > 1 {
        var match', head, tail := Scan(data, ord, s * assoc, assoc, baddr);
        p := if match' == NULL then tail else match';
        UsedIs(e, s * assoc, ord, baddr, p);
        MoveToHead(data, s * assoc, ord, k, p, head);
      } else {
        p := s;
        assert ord[0] == s && Promoted(ord, 0) == ord;
      }
      PromotedChains(e, data[..], s, assoc, order, Promoted(ord, k));
      order := order[s := Promoted(ord, k)];
    }

    /** Records a taken branch.  No two entries may match: the original asserts as much. */
    method Update(baddr: nat, btarget: nat, correct: bool)
      requires Valid() && Unique(Set(SetOf(baddr)), baddr)
      modifies this`order, data
      ensures Valid()
      ensures forall t :: 0 <= t < sets ==>
        Set(t) == if t == SetOf(baddr) then Taken(old(Set(t)), baddr, btarget, correct) else old(Set(t))
    {
      ghost var s, e := SetOf(baddr), data[..];
      ghost var ord := order[s];
      assert Chain(e, Base(s, assoc), ord);
      ghost var k := Used(Set(s), baddr);
      hide Taken, Find, Used;
      var p := Promote(baddr);
      label moved:
      ghost var f := data[..];
      assert Chain(f, Base(s, assoc), order[s]);
      if data[p].addr == baddr {
        if !correct { data[p] := data[p].(target := btarget); }
      } else {
        data[p] := data[p].(addr := baddr, target := btarget);
      }
      SetTaken(e, f, data[..], Base(s, assoc), ord, baddr, btarget, correct);
      forall t | 0 <= t < sets
        ensures Chain(data[..], Base(t, assoc), order[t])
        ensures t != s ==> Items(data[..], order[t]) == Items(e, order[t])
      {
        assert Chain(f, Base(t, assoc), order[t]);
        SameLinksChain(f, data[..], Base(t, assoc), order[t]);
        if t != s { OtherItems(e, f, data[..], s, t, sets, assoc, order[t], p); }
      }
    }
  }
}
