/** The page table in place: an array of buckets, each a linked list of entries that lookups
    relink and first writes extend, and pages that writes change. */
module MemoryImpl {
  import opened Bits
  import opened MoveToFront
  import opened Memory
  import opened MemoryAccess

  /** A page table entry; `home` is the bucket it lives in. */
  class Node {
    const tag: nat
    const page: array<Byte>
    ghost const home: nat
    var next: Node?

    constructor (tag: nat, page: array<Byte>, ghost home: nat)
      ensures this.tag == tag && this.page == page && this.home == home && next == null
    {
      this.tag, this.page, this.home, next := tag, page, home, null;
    }
  }

  function NextIn(c: seq<Node>, k: int): Node? {
    if 0 <= k + 1 < |c| then c[k + 1] else null
  }

  /** The nodes of c, none twice, are linked from head. */
  ghost predicate Linked(head: Node?, c: seq<Node>)
    reads c
  {
    && head == NextIn(c, -1)
    && (forall k {:trigger c[k].next} :: 0 <= k < |c| ==> c[k].next == NextIn(c, k))
    && (forall j, k :: 0 <= j < k < |c| ==> c[j] != c[k])
  }

  ghost function Values(c: seq<Node>): (b: Bucket)
    reads set k | 0 <= k < |c| :: c[k].page
    ensures |b| == |c| && forall k :: 0 <= k < |c| ==> b[k] == Pte(c[k].tag, c[k].page[..])
  {
    seq(|c|, k requires 0 <= k < |c| reads set k | 0 <= k < |c| :: c[k].page => Pte(c[k].tag, c[k].page[..]))
  }

  /** Takes entry k, which follows prev, out of its list and puts it first. */
  method Relink(head: Node, prev: Node, pte: Node, ghost c: seq<Node>, ghost k: nat)
    requires Linked(head, c) && 0 < k < |c| && prev == c[k - 1] && pte == c[k]
    modifies prev, pte
    ensures Linked(pte, Promoted(c, k))
  {
    prev.next := pte.next;
    pte.next := head;
    ghost var f := Promoted(c, k);
    forall j | 0 <= j < |f| ensures f[j].next == NextIn(f, j) {
      var m := if j == 0 then k else if j <= k then j - 1 else j;
      assert f[j] == c[m];
    }
  }

  lemma FrontValues(c: seq<Node>, k: nat)
    requires k < |c|
    ensures Values(Promoted(c, k)) == Promoted(Values(c), k)
  {
  }

  ghost predicate Whole(x: Node) {
    x.page.Length == PAGE_SIZE
  }

  ghost predicate Apart(x: Node, y: Node) {
    x != y ==> x.page != y.page
  }

  class MemorySpace {
    const ptab: array<Node?>
    var pageCount: nat
    var misses: nat
    var accesses: nat
    ghost var chains: seq<seq<Node>>
    ghost var nodes: set<Node>

    /** The entries of bucket s are its own. */
    ghost predicate HomeOf(s: nat)
      reads this`chains, this`nodes
    {
      s < |chains| && forall k :: 0 <= k < |chains[s]| ==> chains[s][k] in nodes && chains[s][k].home == s
    }

    ghost predicate LinkedAt(s: nat)
      reads this`chains, ptab, if s < |chains| then set x | x in chains[s] else {}
    {
      s < |chains| && s < ptab.Length && Linked(ptab[s], chains[s])
    }

    /** Buckets share no entries, and entries share no pages. */
    ghost predicate Owned()
      reads this`chains, this`nodes
    {
      && |chains| == PTAB_SIZE
      && (forall s: nat {:trigger HomeOf(s)} :: s < PTAB_SIZE ==> HomeOf(s))
      && (forall x {:trigger Whole(x)} :: x in nodes ==> Whole(x))
      && (forall x, y {:trigger Apart(x, y)} :: x in nodes && y in nodes ==> Apart(x, y))
    }

    ghost predicate Valid()
      reads this`chains, this`nodes, ptab, nodes
    {
      && Owned() && ptab.Length == PTAB_SIZE
      && forall s: nat {:trigger LinkedAt(s)} :: s < PTAB_SIZE ==> HomeOf(s) && LinkedAt(s)
    }

    ghost function Pages(): set<array<Byte>>
      reads this`nodes
    {
      set x | x in nodes :: x.page
    }

    ghost function BucketAt(s: nat): Bucket
      requires Owned() && s < PTAB_SIZE
      reads this`chains, this`nodes, Pages()
    {
      assert HomeOf(s);
      Values(chains[s])
    }

    /** The first n buckets. */
    ghost function Buckets(n: nat): (t: seq<Bucket>)
      requires Owned() && n <= |chains|
      reads this`chains, this`nodes, Pages()
      ensures |t| == n && forall s :: 0 <= s < n ==> t[s] == Values(chains[s])
    {
      if n == 0 then [] else Buckets(n - 1) + [BucketAt(n - 1)]
    }

    ghost function Table(): (t: seq<Bucket>)
      requires Owned()
      reads this`chains, this`nodes, Pages()
      ensures |t| == PTAB_SIZE && forall s :: 0 <= s < PTAB_SIZE ==> t[s] == Values(chains[s])
    {
      Buckets(|chains|)
    }

    ghost function View(): Mem
      requires Owned()
      reads this, Pages()
    {
      Mem(Table(), pageCount, misses, accesses)
    }

    constructor ()
      ensures Valid() && View() == Empty() && fresh(ptab) && nodes == {}
    {
      ptab := new Node?[PTAB_SIZE](_ => null);
      pageCount, misses, accesses := 0, 0, 0;
      chains, nodes := seq(PTAB_SIZE, _ => []), {};
      new;
      assert Table() == seq(PTAB_SIZE, _ => []);
    }

    lemma ElsewhereNot(x: Node, t: nat)
      requires Owned() && t < PTAB_SIZE && x.home != t
      ensures x !in chains[t]
    {
      assert HomeOf(t);
    }

    /** Moves entry k of bucket s to its front. */
    method MoveUp(s: nat, prev: Node, pte: Node, ghost k: nat)
      requires Valid() && s < PTAB_SIZE && 0 < k < |chains[s]| && prev == chains[s][k - 1] && pte == chains[s][k]
      modifies this`chains, ptab, prev, pte
      ensures Valid() && chains == old(chains)[s := Promoted(old(chains[s]), k)]
    {
      ghost var c := chains[s];
      assert LinkedAt(s);
      Relink(ptab[s], prev, pte, c, k);
      ptab[s] := pte;
      chains := chains[s := Promoted(c, k)];
      forall t: nat | t < PTAB_SIZE ensures HomeOf(t) {
        assert old(HomeOf(t));
        if t == s { FrontOwned(c, s, k, nodes); }
      }
      forall x, y | x in nodes && y in nodes ensures Apart(x, y) && Whole(x) {
        assert Apart(x, y) && Whole(x);
      }
      forall t | 0 <= t < PTAB_SIZE && t != s ensures Linked(ptab[t], chains[t]) {
        assert old(LinkedAt(t));
        ElsewhereNot(prev, t);
        ElsewhereNot(pte, t);
      }
    }

    /** Searches the bucket of an address and moves the entry found to its front. */
    method FindPage(addr: nat) returns (page: array?<Byte>)
      requires Valid()
      modifies this`chains, ptab, nodes
      ensures Valid()
      ensures var t, s := old(Table()), SetOf(addr); var i := Find(t[s], TagOf(addr));
        && Table() == (if i >= 0 then t[s := Promoted(t[s], i)] else t)
        && (page == null <==> i < 0)
        && (page != null ==> |chains[s]| > 0 && page == chains[s][0].page)
    {
      var s := SetOf(addr);
      assert LinkedAt(s);
      ghost var t, c := Table(), chains;
      var prev, pte, k := Search(ptab[s], chains[s], TagOf(addr));
      FindAt(chains[s], TagOf(addr), k);
      if pte == null { return null; }
      page := pte.page;
      if prev != null {
        MoveUp(s, prev, pte, k);
        MovedTable(t, c, s, k);
      } else {
        FirstToFront(t, s);
      }
    }

    /** The slow path of a lookup. */
    method Translate(addr: nat) returns (page: array?<Byte>)
      requires Valid()
      modifies this`misses, this`accesses, this`chains, ptab, nodes
      ensures Valid() && View() == Memory.Translate(old(View()), addr)
      ensures page == null <==> !Has(old(View()), PageOf(addr))
      ensures page != null ==> |chains[SetOf(addr)]| > 0 && page == chains[SetOf(addr)][0].page
    {
      ghost var m, t := View(), Table();
      misses, accesses := misses + 1, accesses + 1;
      assert Table() == t;
      page := FindPage(addr);
      TranslateIs(m, Table(), addr);
    }

    /** A lookup: an entry at the front of its bucket is found at once. */
    method PageOfAddr(addr: nat) returns (page: array?<Byte>)
      requires Valid()
      modifies this`misses, this`accesses, this`chains, ptab, nodes
      ensures Valid() && View() == Lookup(old(View()), addr)
      ensures page == null <==> !Has(old(View()), PageOf(addr))
      ensures page != null ==> |chains[SetOf(addr)]| > 0 && page == chains[SetOf(addr)][0].page
    {
      assert LinkedAt(SetOf(addr));
      var head := ptab[SetOf(addr)];
      if head != null && head.tag == TagOf(addr) {
        ghost var t := Table();
        accesses := accesses + 1;
        assert Table() == t;
        page := head.page;
      } else {
        page := Translate(addr);
      }
    }

    /** Puts a new entry at the front of bucket s. */
    method Insert(pte: Node, s: nat)
      requires Valid() && s < PTAB_SIZE && pte.home == s && pte.page.Length == PAGE_SIZE
      requires pte !in nodes && pte.page !in Pages()
      modifies this`chains, this`nodes, ptab, pte
      ensures Valid() && chains == old(chains)[s := [pte] + old(chains[s])] && nodes == old(nodes) + {pte}
    {
      assert LinkedAt(s);
      ghost var c := chains[s];
      pte.next := ptab[s];
      ptab[s] := pte;
      chains, nodes := chains[s := [pte] + chains[s]], nodes + {pte};
      LinkedCons(pte, c);
      forall t: nat | t < PTAB_SIZE ensures HomeOf(t) {
        assert old(HomeOf(t));
      }
      forall x, y | x in nodes && y in nodes ensures Apart(x, y) && Whole(x) {
        assert x != pte && y != pte ==> Apart(x, y);
        assert x != pte ==> Whole(x);
      }
      forall t | 0 <= t < PTAB_SIZE && t != s ensures Linked(ptab[t], chains[t]) {
        assert old(LinkedAt(t)) && old(HomeOf(t));
        assert pte !in chains[t];
      }
    }

    lemma LinkedCons(pte: Node, c: seq<Node>)
      requires pte !in c && Linked(pte.next, c)
      ensures Linked(pte, [pte] + c)
    {
      var d := [pte] + c;
      forall j | 0 <= j < |d| ensures d[j].next == NextIn(d, j) {
        if j > 0 { assert c[j - 1].next == NextIn(c, j - 1); }
      }
    }

    /** Allocates a zeroed page at the front of the bucket. */
    method AllocatePage(addr: nat)
      requires Valid()
      modifies this`pageCount, this`chains, this`nodes, ptab
      ensures Valid() && View() == NewPage(old(View()), addr)
      ensures forall x :: x in nodes && x !in old(nodes) ==> fresh(x) && fresh(x.page)
      ensures |chains[SetOf(addr)]| > 0
    {
      ghost var t, c := Table(), chains;
      var pte := NewEntry(addr);
      Insert(pte, SetOf(addr));
      pageCount := pageCount + 1;
      AddedTable(t, c, SetOf(addr), pte);
    }

    lemma AddedTable(t: seq<Bucket>, was: seq<seq<Node>>, s: nat, pte: Node)
      requires Owned() && |t| == |was| == PTAB_SIZE && s < PTAB_SIZE
      requires chains == was[s := [pte] + was[s]]
      requires forall b :: 0 <= b < PTAB_SIZE ==> Values(was[b]) == t[b]
      ensures Table() == t[s := [Pte(pte.tag, pte.page[..])] + t[s]]
    {
      assert Values([pte] + was[s]) == [Pte(pte.tag, pte.page[..])] + t[s];
    }

    /** The two lookups of a read: if the first finds a page, a second one gets it. */
    method PageToRead(addr: nat) returns (page: array?<Byte>)
      requires Valid()
      modifies this`misses, this`accesses, this`chains, ptab, nodes
      ensures Valid()
      ensures var m := old(View());
        && View() == (if Has(m, PageOf(addr)) then Lookup(Lookup(m, addr), addr) else Lookup(m, addr))
        && (page == null <==> !Has(m, PageOf(addr)))
      ensures page != null ==> |chains[SetOf(addr)]| > 0 && page == chains[SetOf(addr)][0].page
    {
      ghost var m := View();
      page := PageOfAddr(addr);
      if page != null {
        HasAfter(m, addr);
        page := PageOfAddr(addr);
      }
    }

    /** Reads a byte; 0 where no page has been allocated. */
    method ReadByte(addr: nat) returns (v: Byte)
      requires Valid() && Ok(View())
      modifies this`misses, this`accesses, this`chains, ptab, nodes
      ensures Valid() && View() == Do(old(View()), Rd(addr)) && v == ByteAt(old(View()), addr)
    {
      ghost var m := View();
      ReadMeans(m, addr);
      var page := PageToRead(addr);
      if page == null { return 0; }
      SecondLookup(m, addr);
      assert View().ptab[SetOf(addr)][0].page == page[..];
      v := page[Offset(addr)];
    }

    /** Looks a page up and allocates it if absent. */
    method EnsurePage(addr: nat)
      requires Valid()
      modifies this`pageCount, this`misses, this`accesses, this`chains, this`nodes, ptab, nodes
      ensures Valid()
      ensures var m := old(View());
        View() == if Has(m, PageOf(addr)) then Lookup(m, addr) else NewPage(Lookup(m, addr), addr)
      ensures forall x :: x in nodes && x !in old(nodes) ==> fresh(x) && fresh(x.page)
    {
      hide MemorySpace.Valid, MemorySpace.View;
      var found := PageOfAddr(addr);
      if found == null { AllocatePage(addr); }
    }

    /** Makes sure a page is there to be written, and finds it. */
    method Tickle(addr: nat) returns (page: array<Byte>)
      requires Valid() && Ok(View())
      modifies this`pageCount, this`misses, this`accesses, this`chains, this`nodes, ptab, nodes
      ensures Valid() && View() == Tickled(old(View()), addr)
      ensures |chains[SetOf(addr)]| > 0 && page == chains[SetOf(addr)][0].page
      ensures forall x :: x in nodes && x !in old(nodes) ==> fresh(x) && fresh(x.page)
    {
      EnsuredHas(View(), addr);
      EnsurePage(addr);
      var found := PageOfAddr(addr);
      page := found;
    }

    /** Writes a byte. */
    method WriteByte(addr: nat, v: Byte)
      requires Valid() && Ok(View())
      modifies this`pageCount, this`misses, this`accesses, this`chains, this`nodes, ptab, nodes, Pages()
      ensures Valid() && View() == Do(old(View()), Wr(addr, v))
      ensures forall x :: x in nodes && x !in old(nodes) ==> fresh(x) && fresh(x.page)
    {
      ghost var m := View();
      var page := Tickle(addr);
      ghost var t := View();
      assert HomeOf(SetOf(addr));
      StoreByte(page, SetOf(addr), Offset(addr), v);
      WriteIs(m, t, View(), addr, v);
    }

    /** Stores into the page at the front of bucket s. */
    method StoreByte(page: array<Byte>, s: nat, o: nat, v: Byte)
      requires Valid() && s < PTAB_SIZE && o < PAGE_SIZE && |chains[s]| > 0 && page == chains[s][0].page
      modifies page
      ensures Valid() && |old(Table()[s])[0].page| == PAGE_SIZE
      ensures Table() == old(Table())[s := Stored(old(Table()[s]), o, v)]
    {
      ghost var t := Table();
      assert HomeOf(s) && Whole(chains[s][0]);
      page[o] := v;
      assert LinkedAt(s);
      forall b, k | 0 <= b < PTAB_SIZE && 0 <= k < |chains[b]|
        ensures Table()[b][k] == if b == s && k == 0 then Stored(t[s], o, v)[0] else t[b][k]
      {
        assert HomeOf(b) && Apart(chains[b][k], chains[s][0]);
        assert b != s ==> chains[b][k] != chains[s][0];
        assert b == s && k > 0 ==> chains[s][k] != chains[s][0];
      }
      assert Table()[s] == Stored(t[s], o, v);
    }

    /** Storing into a buffer of the host leaves simulated memory alone. */
    method Put(p: array<Byte>, i: nat, v: Byte)
      requires Valid() && i < p.Length && p !in Pages()
      modifies p
      ensures Valid() && View() == old(View())
      ensures p[..] == old(p[..])[i := v]
    {
      p[i] := v;
      assert Table() == old(Table());
      forall s | 0 <= s < PTAB_SIZE ensures Linked(ptab[s], chains[s]) {
        assert old(LinkedAt(s));
      }
    }

    /** p, at first q, holds the first i bytes read from addr in m. */
    ghost predicate Reading(m: Mem, addr: nat, p: array<Byte>, q: seq<Byte>, at: nat, i: nat)
      requires Ok(m) && at + i <= |q|
      reads this, ptab, nodes, Pages(), p
    {
      && Valid() && p !in Pages() && View() == Run(m, ReadOps(addr, i))
      && p[..] == Filled(q, at, Bytes(m, addr, i))
    }

    method ReadStep(ghost m: Mem, addr: nat, p: array<Byte>, ghost q: seq<Byte>, at: nat, i: nat)
      requires Ok(m) && at + i < |q| && Reading(m, addr, p, q, at, i)
      modifies this`misses, this`accesses, this`chains, ptab, nodes, p
      ensures Reading(m, addr, p, q, at, i + 1)
    {
      ReadOpsKeep(m, addr, i, Wrap(addr + i));
      ReadOpsMore(m, addr, i);
      var v := ReadByte(Wrap(addr + i));
      FilledMore(q, at, m, addr, i);
      Put(p, at + i, v);
    }

    /** The loop of a read access: bytes go to p from index at on. */
    method ReadBytes(addr: nat, p: array<Byte>, at: nat, nbytes: nat)
      requires Valid() && Ok(View()) && at + nbytes <= p.Length && p !in Pages()
      modifies this`misses, this`accesses, this`chains, ptab, nodes, p
      ensures Reading(old(View()), addr, p, old(p[..]), at, nbytes)
    {
      ghost var m, q := View(), p[..];
      for i := 0 to nbytes
        invariant Reading(m, addr, p, q, at, i)
      {
        ReadStep(m, addr, p, q, at, i);
      }
    }

    /** Storage that was not there before is fresh. */
    twostate predicate Grown()
      reads this`nodes
    {
      forall x :: x in nodes && x !in old(nodes) ==> fresh(x) && fresh(x.page)
    }

    /** The first i of the bytes, which p holds from index at on, are written from addr on. */
    ghost predicate Writing(m: Mem, addr: nat, p: array<Byte>, at: nat, bytes: seq<Byte>, i: nat)
      requires Ok(m) && i <= |bytes|
      reads this, ptab, nodes, Pages(), p
    {
      && Valid() && p !in Pages() && View() == Run(m, WriteOps(addr, bytes[..i]))
      && at + |bytes| <= p.Length && p[at..at + |bytes|] == bytes
    }

    method WriteStep(ghost m: Mem, addr: nat, p: array<Byte>, at: nat, ghost bytes: seq<Byte>, i: nat)
      requires Ok(m) && i < |bytes| && Writing(m, addr, p, at, bytes, i)
      modifies this`pageCount, this`misses, this`accesses, this`chains, this`nodes, ptab, nodes, Pages()
      ensures Writing(m, addr, p, at, bytes, i + 1) && Grown()
    {
      assert p[at + i] == bytes[i];
      MoreWritten(m, addr, bytes, i);
      WriteByte(Wrap(addr + i), p[at + i]);
      forall x | x in nodes ensures x.page != p {
        if x in old(nodes) { assert x.page in old(Pages()); }
      }
    }

    /** The loop of a write access. */
    method WriteBytes(addr: nat, p: array<Byte>, at: nat, nbytes: nat)
      requires Valid() && Ok(View()) && at + nbytes <= p.Length && p !in Pages()
      modifies this`pageCount, this`misses, this`accesses, this`chains, this`nodes, ptab, nodes, Pages()
      ensures Valid() && View() == Run(old(View()), WriteOps(addr, old(p[at..at + nbytes]))) && Grown() && p !in Pages()
    {
      ghost var m, bytes := View(), p[at..at + nbytes];
      for i := 0 to nbytes
        invariant Writing(m, addr, p, at, bytes, i) && Grown()
      {
        WriteStep(m, addr, p, at, bytes, i);
      }
      assert bytes[..nbytes] == bytes;
    }

    /** A write access.  An access that fails the checks changes nothing. */
    method AccessWrite(addr: nat, p: array<Byte>, at: nat, nbytes: Int32) returns (fault: Fault)
      requires Valid() && Ok(View()) && p !in Pages() && at + Moved(nbytes) <= p.Length
      modifies this`pageCount, this`misses, this`accesses, this`chains, this`nodes, ptab, nodes, Pages()
      ensures Valid() && p !in Pages() && Grown() && fault == Checked(addr, nbytes)
      ensures !fault.NoFault? ==> View() == old(View())
      ensures fault.NoFault? ==> View() == Run(old(View()), WriteOps(addr, old(p[at..at + Moved(nbytes)])))
    {
      hide MemorySpace.Valid, MemorySpace.View, Run;
      fault := Checked(addr, nbytes);
      if fault.NoFault? { WriteBytes(addr, p, at, Moved(nbytes)); }
    }

    /** A read access, into p from index at on. */
    method AccessRead(addr: nat, p: array<Byte>, at: nat, nbytes: Int32) returns (fault: Fault)
      requires Valid() && Ok(View()) && p !in Pages() && at + Moved(nbytes) <= p.Length
      modifies this`misses, this`accesses, this`chains, ptab, nodes, p
      ensures Valid() && p !in Pages() && fault == Checked(addr, nbytes)
      ensures !fault.NoFault? ==> View() == old(View()) && p[..] == old(p[..])
      ensures fault.NoFault? ==>
        && View() == Run(old(View()), ReadOps(addr, Moved(nbytes)))
        && p[..] == Filled(old(p[..]), at, Bytes(old(View()), addr, Moved(nbytes)))
    {
      hide MemorySpace.Valid, MemorySpace.View, Run;
      fault := Checked(addr, nbytes);
      if fault.NoFault? { ReadBytes(addr, p, at, Moved(nbytes)); }
    }

    /** One byte of a copy into memory. */
    method CopyIn(ghost m: Mem, addr: nat, p: array<Byte>, at: nat, ghost bytes: seq<Byte>, i: nat)
        returns (fault: Fault)
      requires Ok(m) && i < |bytes| && Writing(m, addr, p, at, bytes, i)
      modifies this`pageCount, this`misses, this`accesses, this`chains, this`nodes, ptab, nodes, Pages()
      ensures Writing(m, addr, p, at, bytes, i + 1) && Grown() && fault == NoFault
    {
      ghost var was, b := View(), bytes[i];
      assert p[at + i] == b;
      hide MemorySpace.Valid, MemorySpace.View, Run, WriteOps;
      fault := AccessWriteOne(Wrap(addr + i), p, at + i);
      assert p[..] == old(p[..]);
      assert View() == Do(was, Wr(Wrap(addr + i), b));
      MoreWritten(m, addr, bytes, i);
    }

    method AccessWriteOne(addr: nat, p: array<Byte>, at: nat) returns (fault: Fault)
      requires Valid() && Ok(View()) && p !in Pages() && at < p.Length && addr < WORD64
      modifies this`pageCount, this`misses, this`accesses, this`chains, this`nodes, ptab, nodes, Pages()
      ensures Valid() && p !in Pages() && Grown() && fault == NoFault
      ensures View() == Do(old(View()), Wr(addr, old(p[at])))
    {
      assert p[at..at + 1] == [p[at]];
      OneByte(addr, p[at]);
      RunOne(View(), Wr(addr, p[at]));
      fault := AccessWrite(addr, p, at, 1);
    }

    /** One byte of a copy out of memory. */
    method CopyOut(ghost m: Mem, addr: nat, p: array<Byte>, ghost q: seq<Byte>, at: nat, i: nat) returns (fault: Fault)
      requires Ok(m) && at + i < |q| && Reading(m, addr, p, q, at, i)
      modifies this`misses, this`accesses, this`chains, ptab, nodes, p
      ensures Reading(m, addr, p, q, at, i + 1) && fault == NoFault
      ensures p[at + i] == ByteAt(m, Wrap(addr + i))
    {
      ReadOpsKeep(m, addr, i, Wrap(addr + i));
      ReadOpsMore(m, addr, i);
      FilledMore(q, at, m, addr, i);
      fault := AccessReadOne(Wrap(addr + i), p, at + i);
    }

    method AccessReadOne(addr: nat, p: array<Byte>, at: nat) returns (fault: Fault)
      requires Valid() && Ok(View()) && p !in Pages() && at < p.Length && addr < WORD64
      modifies this`misses, this`accesses, this`chains, ptab, nodes, p
      ensures Valid() && p !in Pages() && fault == NoFault
      ensures View() == Do(old(View()), Rd(addr))
      ensures p[..] == old(p[..])[at := ByteAt(old(View()), addr)]
    {
      OneByte(addr, 0);
      RunOne(View(), Rd(addr));
      OneFilled(p[..], at, View(), addr);
      fault := AccessRead(addr, p, at, 1);
    }

    /** Copies the zero-terminated string in s, whose length is n, to addr. */
    method StrcpyWrite(addr: nat, s: array<Byte>, ghost n: nat) returns (fault: Fault)
      requires Valid() && Ok(View()) && s !in Pages() && addr < WORD64
      requires n < s.Length && s[n] == 0 && forall i :: 0 <= i < n ==> s[i] != 0
      modifies this`pageCount, this`misses, this`accesses, this`chains, this`nodes, ptab, nodes, Pages()
      ensures Valid() && Grown() && fault == NoFault
      ensures View() == Run(old(View()), WriteOps(addr, old(s[..n]) + [0]))
    {
      ghost var m, bytes := View(), s[..n] + [0];
      assert s[0..0 + |bytes|] == bytes;
      var i := 0;
      var more := true;
      while more
        invariant i <= |bytes| && Writing(m, addr, s, 0, bytes, i) && Grown()
        invariant more <==> i < |bytes|
        decreases |bytes| - i
      {
        fault := CopyIn(m, addr, s, 0, bytes, i);
        assert s[0..0 + |bytes|][i] == s[i];
        more := s[i] != 0;
        i := i + 1;
      }
      assert bytes[..|bytes|] == bytes;
      fault := NoFault;
    }

    /** Copies the zero-terminated string at addr into s; it must end somewhere, and fit. */
    method StrcpyRead(addr: nat, s: array<Byte>, ghost str: seq<Byte>) returns (fault: Fault)
      requires Valid() && Ok(View()) && s !in Pages() && addr < WORD64
      requires HoldsString(View(), addr, str) && |str| < s.Length
      modifies this`misses, this`accesses, this`chains, ptab, nodes, s
      ensures Valid() && fault == NoFault && View() == Run(old(View()), ReadOps(addr, |str| + 1))
      ensures s[..|str| + 1] == str + [0] && s[|str| + 1..] == old(s[|str| + 1..])
    {
      ghost var m, q := View(), s[..];
      assert Reading(m, addr, s, q, 0, 0);
      fault := ReadString(m, addr, s, q, str);
      StringFilled(m, addr, str, q, s[..]);
    }

    /** The loop: reads up to and including the first zero byte. */
    method ReadString(ghost m: Mem, addr: nat, s: array<Byte>, ghost q: seq<Byte>, ghost str: seq<Byte>)
        returns (fault: Fault)
      requires Ok(m) && addr < WORD64 && HoldsString(m, addr, str) && |str| < |q| && Reading(m, addr, s, q, 0, 0)
      modifies this`misses, this`accesses, this`chains, ptab, nodes, s
      ensures Reading(m, addr, s, q, 0, |str| + 1) && fault == NoFault
    {
      ghost var n := |str|;
      var i := 0;
      var more := true;
      while more
        invariant i <= n + 1 && Reading(m, addr, s, q, 0, i)
        invariant more <==> i <= n
        decreases n + 1 - i
      {
        fault, more := ReadStringByte(m, addr, s, q, str, i);
        i := i + 1;
      }
      fault := NoFault;
    }

    method ReadStringByte(ghost m: Mem, addr: nat, s: array<Byte>, ghost q: seq<Byte>, ghost str: seq<Byte>, i: nat)
        returns (fault: Fault, more: bool)
      requires Ok(m) && addr < WORD64 && HoldsString(m, addr, str) && i <= |str| < |q| && Reading(m, addr, s, q, 0, i)
      modifies this`misses, this`accesses, this`chains, ptab, nodes, s
      ensures Reading(m, addr, s, q, 0, i + 1) && fault == NoFault && (more <==> i < |str|)
    {
      fault := CopyOut(m, addr, s, q, 0, i);
      StringByte(m, addr, str, i);
      more := s[i] != 0;
    }

    /** Copies nbytes bytes into memory, or out of it. */
    method BcopyWrite(addr: nat, p: array<Byte>, nbytes: nat) returns (fault: Fault)
      requires Valid() && Ok(View()) && p !in Pages() && addr < WORD64 && nbytes <= p.Length
      modifies this`pageCount, this`misses, this`accesses, this`chains, this`nodes, ptab, nodes, Pages()
      ensures Valid() && Grown() && fault == NoFault
      ensures View() == Run(old(View()), WriteOps(addr, old(p[..nbytes])))
    {
      ghost var m, bytes := View(), p[..nbytes];
      assert p[0..0 + |bytes|] == bytes;
      fault := NoFault;
      for i := 0 to nbytes
        invariant Writing(m, addr, p, 0, bytes, i) && Grown() && fault == NoFault
      {
        fault := CopyIn(m, addr, p, 0, bytes, i);
      }
      assert bytes[..nbytes] == bytes;
    }

    method BcopyRead(addr: nat, p: array<Byte>, nbytes: nat) returns (fault: Fault)
      requires Valid() && Ok(View()) && p !in Pages() && addr < WORD64 && nbytes <= p.Length
      modifies this`misses, this`accesses, this`chains, ptab, nodes, p
      ensures Valid() && fault == NoFault && View() == Run(old(View()), ReadOps(addr, nbytes))
      ensures Holds(old(View()), addr, p[..nbytes])
    {
      ghost var m, q := View(), p[..];
      fault := NoFault;
      for i := 0 to nbytes
        invariant Reading(m, addr, p, q, 0, i) && fault == NoFault
      {
        fault := CopyOut(m, addr, p, q, 0, i);
      }
      assert p[0..0 + nbytes] == Bytes(m, addr, nbytes);
    }

    /** The first i bytes from addr on are zeroed, c holding a zero. */
    ghost predicate Zeroing(m: Mem, addr: nat, c: array<Byte>, zeros: seq<Byte>, i: nat)
      requires Ok(m) && i <= |zeros|
      reads this, ptab, nodes, Pages(), c
    {
      && Valid() && c !in Pages() && View() == Run(m, WriteOps(addr, zeros[..i]))
      && c.Length == 1 && c[0] == 0
    }

    /** Zeroes byte i. */
    method ZeroOne(ghost m: Mem, addr: nat, c: array<Byte>, ghost zeros: seq<Byte>, i: nat) returns (fault: Fault)
      requires Ok(m) && i < |zeros| && zeros[i] == 0 && Zeroing(m, addr, c, zeros, i)
      modifies this`pageCount, this`misses, this`accesses, this`chains, this`nodes, ptab, nodes, Pages()
      ensures Zeroing(m, addr, c, zeros, i + 1) && Grown() && fault == NoFault
    {
      hide MemorySpace.Valid, MemorySpace.View, Run, WriteOps;
      MoreWritten(m, addr, zeros, i);
      fault := AccessWriteOne(Wrap(addr + i), c, 0);
    }

    /** Zeroes nbytes bytes of memory. */
    method Bzero(addr: nat, nbytes: nat) returns (fault: Fault)
      requires Valid() && Ok(View()) && addr < WORD64
      modifies this`pageCount, this`misses, this`accesses, this`chains, this`nodes, ptab, nodes, Pages()
      ensures Valid() && Grown() && fault == NoFault
      ensures View() == Run(old(View()), WriteOps(addr, seq(nbytes, _ => 0)))
    {
      ghost var m, zeros: seq<Byte> := View(), seq(nbytes, _ => 0);
      var c := new Byte[1](_ => 0);
      fault := NoFault;
      for i := 0 to nbytes
        invariant Zeroing(m, addr, c, zeros, i) && Grown() && fault == NoFault
      {
        fault := ZeroOne(m, addr, c, zeros, i);
      }
      assert zeros[..nbytes] == zeros;
    }

    /** The table after bucket s has been reordered. */
    lemma MovedTable(t: seq<Bucket>, was: seq<seq<Node>>, s: nat, k: nat)
      requires Owned() && |t| == |was| == PTAB_SIZE && s < PTAB_SIZE && k < |was[s]|
      requires chains == was[s := Promoted(was[s], k)]
      requires forall b :: 0 <= b < PTAB_SIZE ==> Values(was[b]) == t[b]
      ensures k < |t[s]| && Table() == t[s := Promoted(t[s], k)]
    {
      FrontValues(was[s], k);
    }
  }

  lemma TranslateIs(m: Mem, t: seq<Bucket>, addr: nat)
    requires |m.ptab| == PTAB_SIZE
    requires var b := m.ptab[SetOf(addr)]; var i := Find(b, TagOf(addr));
      t == if i >= 0 then m.ptab[SetOf(addr) := Promoted(b, i)] else m.ptab
    ensures Mem(t, m.pageCount, m.misses + 1, m.accesses + 1) == Memory.Translate(m, addr)
  {
  }

  lemma WriteIs(m: Mem, t: Mem, p: Mem, addr: nat, v: Byte)
    requires Ok(m) && t == Tickled(m, addr) && |t.ptab[SetOf(addr)]| > 0 && |t.ptab[SetOf(addr)][0].page| == PAGE_SIZE
    requires p == t.(ptab := t.ptab[SetOf(addr) := Stored(t.ptab[SetOf(addr)], Offset(addr), v)])
    ensures p == Do(m, Wr(addr, v))
  {
  }

  lemma HasAfter(m: Mem, addr: nat)
    requires |m.ptab| == PTAB_SIZE && Has(m, PageOf(addr))
    ensures Has(Lookup(m, addr), PageOf(addr))
  {
    var b := m.ptab[SetOf(addr)];
    assert Find(b, TagOf(addr)) >= 0 && Promoted(b, Find(b, TagOf(addr)))[0].tag == TagOf(addr);
  }

  lemma EnsuredHas(m: Mem, addr: nat)
    requires |m.ptab| == PTAB_SIZE
    ensures Has(if Has(m, PageOf(addr)) then Lookup(m, addr) else NewPage(Lookup(m, addr), addr), PageOf(addr))
  {
    if Has(m, PageOf(addr)) { HasAfter(m, addr); }
  }

  lemma SecondLookup(m: Mem, addr: nat)
    requires Ok(m) && Has(m, PageOf(addr))
    ensures var p := Lookup(Lookup(m, addr), addr);
      p == Read(m, addr).mem && AtFront(p, addr) && BucketOk(p.ptab[SetOf(addr)])
      && p.ptab[SetOf(addr)][0].page[Offset(addr)] == ByteAt(m, addr)
  {
    ReadMeans(m, addr);
    LookupKeeps(m, addr);
    FrontHit(Lookup(m, addr), addr);
  }

  /** q with bs put in from index at on. */
  function Filled(q: seq<Byte>, at: nat, bs: seq<Byte>): (r: seq<Byte>)
    requires at + |bs| <= |q|
    ensures |r| == |q| && r[at..at + |bs|] == bs && r[..at] == q[..at] && r[at + |bs|..] == q[at + |bs|..]
  {
    q[..at] + bs + q[at + |bs|..]
  }

  lemma FilledMore(q: seq<Byte>, at: nat, m: Mem, addr: nat, i: nat)
    requires Ok(m) && at + i < |q|
    ensures Filled(q, at, Bytes(m, addr, i))[at + i := ByteAt(m, Wrap(addr + i))] ==
      Filled(q, at, Bytes(m, addr, i + 1))
  {
  }

  lemma StringByte(m: Mem, addr: nat, str: seq<Byte>, i: nat)
    requires Ok(m) && HoldsString(m, addr, str) && i <= |str|
    ensures ByteAt(m, Wrap(addr + i)) == 0 <==> i == |str|
  {
    EndsAtZero(str, i);
    assert ByteAt(m, Wrap(addr + i)) == (str + [0])[i];
  }

  lemma StringFilled(m: Mem, addr: nat, str: seq<Byte>, q: seq<Byte>, r: seq<Byte>)
    requires Ok(m) && HoldsString(m, addr, str) && |str| < |q| && r == Filled(q, 0, Bytes(m, addr, |str| + 1))
    ensures r[..|str| + 1] == str + [0] && r[|str| + 1..] == q[|str| + 1..]
  {
    var t, u := Bytes(m, addr, |str| + 1), str + [0];
    forall i | 0 <= i < |t| ensures t[i] == u[i] {
      assert ByteAt(m, Wrap(addr + i)) == t[i];
      assert ByteAt(m, Wrap(addr + i)) == u[i];
    }
    assert t == u && r[0..0 + |t|] == t && r[0 + |t|..] == q[0 + |t|..];
  }

  lemma MoreWritten(m: Mem, addr: nat, bytes: seq<Byte>, i: nat)
    requires Ok(m) && i < |bytes|
    ensures Run(m, WriteOps(addr, bytes[..i + 1])) ==
      Do(Run(m, WriteOps(addr, bytes[..i])), Wr(Wrap(addr + i), bytes[i]))
  {
    MoreOps(addr, bytes, i);
    RunMore(m, WriteOps(addr, bytes[..i]), Wr(Wrap(addr + i), bytes[i]));
  }

  lemma MoreOps(addr: nat, bytes: seq<Byte>, i: nat)
    requires i < |bytes|
    ensures WriteOps(addr, bytes[..i + 1]) == WriteOps(addr, bytes[..i]) + [Wr(Wrap(addr + i), bytes[i])]
  {
  }

  lemma OneByte(addr: nat, v: Byte)
    requires addr < WORD64
    ensures Checked(addr, 1) == NoFault && WriteOps(addr, [v]) == [Wr(addr, v)] && ReadOps(addr, 1) == [Rd(addr)]
  {
    SmallMod(addr, WORD64);
    assert WriteOps(addr, [v])[0] == Wr(addr, v) && ReadOps(addr, 1)[0] == Rd(addr);
    assert And(1, 0) == 0 && And(addr, 0) == 0;
  }

  lemma RunOne(m: Mem, op: Op)
    requires Ok(m)
    ensures Run(m, [op]) == Do(m, op)
  {
    assert [op][..0] == [];
  }

  lemma OneFilled(q: seq<Byte>, at: nat, m: Mem, addr: nat)
    requires Ok(m) && at < |q| && addr < WORD64
    ensures Filled(q, at, Bytes(m, addr, 1)) == q[at := ByteAt(m, addr)]
  {
    SmallMod(addr, WORD64);
    var b := ByteAt(m, addr);
    assert Bytes(m, addr, 0) == [];
    assert Bytes(m, addr, 1) == [b];
    FillOne(q, at, b);
  }

  lemma FillOne(q: seq<Byte>, at: nat, b: Byte)
    requires at < |q|
    ensures Filled(q, at, [b]) == q[at := b]
  {
  }

  method NewEntry(addr: nat) returns (pte: Node)
    ensures fresh(pte) && fresh(pte.page) && pte.tag == TagOf(addr) && pte.home == SetOf(addr)
    ensures pte.page.Length == PAGE_SIZE && pte.page[..] == seq(PAGE_SIZE, _ => 0)
  {
    var page := new Byte[PAGE_SIZE](_ => 0);
    pte := new Node(TagOf(addr), page, SetOf(addr));
  }

  lemma FrontOwned(c: seq<Node>, s: nat, k: nat, nodes: set<Node>)
    requires k < |c| && forall j :: 0 <= j < |c| ==> c[j] in nodes && c[j].home == s
    ensures var f := Promoted(c, k); forall j :: 0 <= j < |f| ==> f[j] in nodes && f[j].home == s
  {
  }

  /** Walks a bucket to the entry for a tag. */
  method Search(head: Node?, ghost c: seq<Node>, tag: nat) returns (prev: Node?, pte: Node?, ghost k: nat)
    requires Linked(head, c)
    ensures k <= |c| && pte == NextIn(c, k - 1) && prev == (if k == 0 then null else c[k - 1])
    ensures forall j :: 0 <= j < k ==> c[j].tag != tag
    ensures k < |c| ==> c[k].tag == tag
  {
    prev, pte, k := null, head, 0;
    while pte != null && pte.tag != tag
      invariant 0 <= k <= |c| && pte == NextIn(c, k - 1)
      invariant prev == if k == 0 then null else c[k - 1]
      invariant forall j :: 0 <= j < k ==> c[j].tag != tag
      decreases |c| - k
    {
      assert c[k].next == NextIn(c, k);
      prev, pte := pte, pte.next;
      k := k + 1;
    }
  }

  lemma FindAt(c: seq<Node>, tag: nat, k: nat)
    requires k <= |c| && (forall j :: 0 <= j < k ==> c[j].tag != tag) && (k < |c| ==> c[k].tag == tag)
    ensures Find(Values(c), tag) == if k < |c| then k else -1
  {
  }

  lemma FirstToFront(t: seq<Bucket>, s: nat)
    requires s < |t| && |t[s]| > 0
    ensures t[s := Promoted(t[s], 0)] == t
  {
    assert Promoted(t[s], 0) == t[s];
  }
}
