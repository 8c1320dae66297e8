/** The access recorder in place, with its blobs of padded storage, and the replay loops over
    simulated memory. */
module EioImpl {
  import opened Bits
  import opened Options
  import opened Memory
  import opened MemoryAccess
  import opened MemoryImpl
  import opened Eio

  /** A blob term: `size` bytes of the storage allocated are in use. */
  class BlobTerm {
    const addr: nat
    const data: array<Byte>
    var size: nat

    constructor (addr: nat, capacity: nat)
      ensures this.addr == addr && fresh(data) && data.Length == capacity && size == 0
    {
      this.addr, size := addr, 0;
      data := new Byte[capacity](_ => 0);
    }

    ghost predicate Valid()
      reads this
    {
      size <= data.Length
    }

    ghost function View(): Blob
      requires Valid()
      reads this, data
    {
      Blob(addr, data[..size], data.Length)
    }

    /** Copies nbytes bytes to the end of the data in use. */
    method Append(p: array<Byte>, nbytes: nat)
      requires Valid() && size + nbytes <= data.Length && nbytes <= p.Length && p != data
      modifies this`size, data
      ensures size == old(size) + nbytes && Valid()
      ensures View() == old(View()).(data := old(View()).data + old(p[..nbytes]))
    {
      ghost var bytes := data[..size];
      for i := 0 to nbytes
        invariant size == old(size) && data[..size + i] == bytes + p[..i]
      {
        data[size + i] := p[i];
      }
      size := size + nbytes;
    }
  }

  ghost predicate Fits(t: BlobTerm)
    reads t
  {
    t.Valid()
  }

  ghost predicate TwoApart(t: BlobTerm, u: BlobTerm) {
    t != u && t.data != u.data
  }

  ghost predicate TermsOk(ts: seq<BlobTerm>)
    reads ts
  {
    && (forall k {:trigger Fits(ts[k])} :: 0 <= k < |ts| ==> Fits(ts[k]))
    && (forall j, k {:trigger TwoApart(ts[j], ts[k])} :: 0 <= j < k < |ts| ==> TwoApart(ts[j], ts[k]))
  }

  ghost function Blobs(ts: seq<BlobTerm>): (bs: seq<Blob>)
    requires TermsOk(ts)
    reads ts, set k | 0 <= k < |ts| :: ts[k].data
    ensures |bs| == |ts| && forall k :: 0 <= k < |ts| ==> Fits(ts[k]) && bs[k] == ts[k].View()
    decreases |ts|
  {
    if ts == [] then []
    else
      assert Fits(ts[|ts| - 1]);
      PrefixOk(ts);
      Blobs(ts[..|ts| - 1]) + [ts[|ts| - 1].View()]
  }

  lemma PrefixOk(ts: seq<BlobTerm>)
    requires TermsOk(ts) && ts != []
    ensures TermsOk(ts[..|ts| - 1])
  {
    var us := ts[..|ts| - 1];
    forall k | 0 <= k < |us| ensures Fits(us[k]) { assert Fits(ts[k]); }
    forall j, k | 0 <= j < k < |us| ensures TwoApart(us[j], us[k]) { assert TwoApart(ts[j], ts[k]); }
  }

  lemma OneMoreOk(ts: seq<BlobTerm>, t: BlobTerm)
    requires TermsOk(ts) && Fits(t) && forall k :: 0 <= k < |ts| ==> ts[k] != t && ts[k].data != t.data
    ensures TermsOk(ts + [t]) && Blobs(ts + [t]) == Blobs(ts) + [t.View()]
  {
    var us := ts + [t];
    forall k | 0 <= k < |us| ensures Fits(us[k]) { assert k < |ts| ==> Fits(ts[k]); }
    forall j, k | 0 <= j < k < |us| ensures TwoApart(us[j], us[k]) { assert k < |ts| ==> TwoApart(ts[j], ts[k]); }
    assert us[..|us| - 1] == ts;
  }

  method NewTerm(a: nat, p: array<Byte>, nbytes: nat) returns (t: BlobTerm)
    requires nbytes <= p.Length
    ensures fresh(t) && fresh(t.data) && Fits(t) && t.size == nbytes
    ensures t.View() == Blob(a, p[..nbytes], nbytes + BLOB_TAIL)
  {
    t := new BlobTerm(a, nbytes + BLOB_TAIL);
    assert t.data[..0] == [] && [] + p[..nbytes] == p[..nbytes];
    t.Append(p, nbytes);
  }

  /** The list of recorded terms, and what the recorder remembers of the last one. */
  class MemRec {
    var list: seq<BlobTerm>
    var blob: BlobTerm?
    var addr: nat
    var size: nat
    var maxsize: nat

    ghost predicate Valid()
      reads this, list
    {
      && TermsOk(list) && (blob == null <==> list == [])
      && (list != [] ==>
            var t := list[|list| - 1];
            Fits(t) && blob == t && addr == t.addr && size == t.size && maxsize == t.data.Length)
    }

    ghost function Storage(): set<array<Byte>>
      reads this
    {
      set k | 0 <= k < |list| :: list[k].data
    }

    ghost function View(): seq<Blob>
      requires Valid()
      reads this, list, Storage()
    {
      Blobs(list)
    }

    constructor ()
      ensures Valid() && list == []
    {
      list, blob, addr, size, maxsize := [], null, 0, 0, 0;
    }

    /** Adds an access to the last blob. */
    method Extend(p: array<Byte>, nbytes: nat)
      requires Valid() && blob != null && size + nbytes <= maxsize && nbytes <= p.Length && p != blob.data
      modifies this`size, blob`size, blob.data
      ensures Valid() && list == old(list)
      ensures View() == old(View())[..|list| - 1] +
        [Latest(old(View())).(data := Latest(old(View())).data + old(p[..nbytes]))]
    {
      ghost var was, n := View(), |list| - 1;
      blob.Append(p, nbytes);
      size := blob.size;
      forall k | 0 <= k <= n ensures Fits(list[k]) && (k < n ==> list[k].View() == was[k]) {
        assert old(Fits(list[k]));
        if k < n { assert TwoApart(list[k], list[n]); }
      }
      assert forall k :: 0 <= k < n ==> View()[k] == was[k];
      assert View()[n] == blob.View();
    }

    /** Starts a new blob with an access, padded at the end. */
    method AddNew(a: nat, p: array<Byte>, nbytes: nat)
      requires Valid() && nbytes <= p.Length
      modifies this
      ensures Valid() && View() == old(View()) + [Blob(a, p[..nbytes], nbytes + BLOB_TAIL)]
    {
      var t := NewTerm(a, p, nbytes);
      AddTerm(t);
    }

    method AddTerm(t: BlobTerm)
      requires Valid() && Fits(t) && forall k :: 0 <= k < |list| ==> list[k] != t && list[k].data != t.data
      modifies this
      ensures Valid() && View() == old(View()) + [t.View()]
    {
      OneMoreOk(list, t);
      list := list + [t];
      blob, addr, size, maxsize := t, t.addr, t.size, t.data.Length;
    }

    lemma LastBlob()
      requires Valid()
      ensures View() == [] <==> blob == null
      ensures blob != null ==> var b := Latest(View()); b.addr == addr && |b.data| == size && b.max == maxsize
      ensures blob != null ==> blob in list && blob.data in Storage()
    {
    }

    lemma NextBlobs(a: nat, bytes: seq<Byte>)
      requires Valid()
      ensures var bs := View();
        Record(bs, a, bytes) ==
          if blob != null && Wrap(addr + size) == a && size + |bytes| < maxsize
          then bs[..|list| - 1] + [Latest(bs).(data := Latest(bs).data + bytes)]
          else bs + [Blob(a, bytes, |bytes| + BLOB_TAIL)]
    {
      LastBlob();
    }

    /** Records an access of nbytes bytes. */
    method RecordAccess(a: nat, p: array<Byte>, nbytes: nat)
      requires Valid() && nbytes <= p.Length && p !in Storage()
      modifies this, list, Storage()
      ensures Valid() && View() == Record(old(View()), a, old(p[..nbytes]))
    {
      LastBlob();
      NextBlobs(a, p[..nbytes]);
      hide TermsOk, Blobs, Fits, Record;
      if blob != null && Wrap(addr + size) == a && size + nbytes < maxsize {
        Extend(p, nbytes);
      } else {
        AddNew(a, p, nbytes);
      }
    }
  }

  // ----- replaying

  lemma CheckMore(m: Mem, done: seq<ByteAccess>, x: ByteAccess)
    requires Ok(m)
    ensures CheckAll(m, done + [x]) ==
      (var r := CheckAll(m, done);
       if r.None? || ByteAt(r.value, x.addr) != x.value then None else Some(Do(r.value, Rd(x.addr))))
  {
    assert (done + [x])[..|done|] == done;
  }

  lemma {:induction false} CheckFailed(m: Mem, done: seq<ByteAccess>, more: seq<ByteAccess>)
    requires Ok(m) && CheckAll(m, done).None?
    ensures CheckAll(m, done + more).None?
  {
    if more == [] {
      assert done + more == done;
    } else {
      CheckFailed(m, done, more[..|more| - 1]);
      assert (done + more)[..|done + more| - 1] == done + more[..|more| - 1];
    }
  }

  /** What a check so far means: it has passed, and memory is what its reads leave. */
  ghost predicate Passed(mem: MemorySpace, m: Mem, done: seq<ByteAccess>)
    requires Ok(m)
    reads mem, mem.ptab, mem.nodes, mem.Pages()
  {
    mem.Valid() && CheckAll(m, done) == Some(mem.View())
  }

  /** Checks one byte of an input blob against memory. */
  method CheckByte(mem: MemorySpace, c: array<Byte>, x: ByteAccess, ghost m: Mem, ghost done: seq<ByteAccess>)
      returns (ok: bool)
    requires Ok(m) && Passed(mem, m, done) && c.Length == 1 && c !in mem.Pages() && x.addr < WORD64
    modifies mem`misses, mem`accesses, mem`chains, mem.ptab, mem.nodes, c
    ensures mem.Valid() && c !in mem.Pages()
    ensures ok ==> Passed(mem, m, done + [x])
    ensures !ok ==> CheckAll(m, done + [x]).None?
  {
    CheckMore(m, done, x);
    var fault := mem.AccessReadOne(x.addr, c, 0);
    ok := c[0] == x.value;
  }

  /** The bytes checked before byte i of a blob with bytes xs. */
  ghost function Before(done: seq<ByteAccess>, xs: seq<ByteAccess>, i: nat): seq<ByteAccess>
    requires i <= |xs|
  {
    done + xs[..i]
  }

  /** Checks the bytes of one input blob. */
  method CheckBlob(mem: MemorySpace, c: array<Byte>, b: Blob, ghost m: Mem, ghost done: seq<ByteAccess>)
      returns (ok: bool)
    requires Ok(m) && Passed(mem, m, done) && c.Length == 1 && c !in mem.Pages()
    modifies mem`misses, mem`accesses, mem`chains, mem.ptab, mem.nodes, c
    ensures mem.Valid() && c !in mem.Pages()
    ensures ok ==> Passed(mem, m, done + Spread(b.addr, b.data))
    ensures !ok ==> CheckAll(m, done + Spread(b.addr, b.data)).None?
  {
    ghost var xs := Spread(b.addr, b.data);
    BeforeEnds(done, xs);
    assert mem.Valid() && |xs| == |b.data|;
    hide Before, Passed, CheckAll, Spread, MemorySpace.Valid;
    ok := true;
    var i := 0;
    while i < |b.data| && ok
      invariant i <= |b.data| && mem.Valid() && c !in mem.Pages()
      invariant ok ==> Passed(mem, m, Before(done, xs, i))
      invariant !ok ==> CheckAll(m, done + xs).None?
      decreases |b.data| - i
    {
      ok := CheckNext(mem, c, b, i, m, done);
      i := i + 1;
    }
  }

  /** Checks byte i of a blob. */
  method CheckNext(mem: MemorySpace, c: array<Byte>, b: Blob, i: nat, ghost m: Mem, ghost done: seq<ByteAccess>)
      returns (ok: bool)
    requires Ok(m) && i < |b.data| && Passed(mem, m, Before(done, Spread(b.addr, b.data), i)) && c.Length == 1
    requires c !in mem.Pages()
    modifies mem`misses, mem`accesses, mem`chains, mem.ptab, mem.nodes, c
    ensures mem.Valid() && c !in mem.Pages()
    ensures ok ==> Passed(mem, m, Before(done, Spread(b.addr, b.data), i + 1))
    ensures !ok ==> CheckAll(m, done + Spread(b.addr, b.data)).None?
  {
    ghost var xs := Spread(b.addr, b.data);
    var x := ByteAccess(Wrap(b.addr + i), b.data[i]);
    BeforeMore(done, xs, i);
    assert xs[i] == x;
    hide Before, Passed, CheckAll, Spread, MemorySpace.Valid;
    ok := CheckByte(mem, c, x, m, Before(done, xs, i));
    if !ok { CheckFailed(m, Before(done, xs, i + 1), xs[i + 1..]); }
  }

  lemma BeforeEnds(done: seq<ByteAccess>, xs: seq<ByteAccess>)
    ensures Before(done, xs, 0) == done && Before(done, xs, |xs|) == done + xs
  {
  }

  lemma BeforeMore(done: seq<ByteAccess>, xs: seq<ByteAccess>, i: nat)
    requires i < |xs|
    ensures Before(done, xs, i) + [xs[i]] == Before(done, xs, i + 1)
    ensures Before(done, xs, i + 1) + xs[i + 1..] == done + xs
  {
  }

  lemma {:induction false} ExpandConcat(x: seq<Blob>, y: seq<Blob>)
    ensures Expand(x + y) == Expand(x) + Expand(y)
  {
    if y == [] {
      assert x + y == x;
    } else {
      var fore, b := y[..|y| - 1], y[|y| - 1];
      ExpandConcat(x, fore);
      ExpandOneMore(x, fore, b);
      SplitLast(y);
    }
  }

  lemma ExpandOneMore(x: seq<Blob>, y: seq<Blob>, b: Blob)
    requires Expand(x + y) == Expand(x) + Expand(y)
    ensures Expand(x + (y + [b])) == Expand(x) + Expand(y + [b])
  {
    ExpandMore(x + y, b);
    ExpandMore(y, b);
    Associates(x, y, [b]);
    Associates(Expand(x), Expand(y), Spread(b.addr, b.data));
  }

  lemma ExpandSteps(bs: seq<Blob>, k: nat)
    requires k <= |bs|
    ensures Expand(bs[..0]) == [] && Expand(bs[..|bs|]) == Expand(bs)
    ensures k < |bs| ==> Expand(bs[..k + 1]) == Expand(bs[..k]) + Spread(bs[k].addr, bs[k].data)
  {
    assert bs[..|bs|] == bs;
    if k < |bs| { ExpandNext(bs, k); }
  }

  lemma SplitHere<T>(s: seq<T>, k: nat)
    requires k <= |s|
    ensures s[..k] + s[k..] == s
  {
  }

  lemma SplitLast<T>(s: seq<T>)
    requires s != []
    ensures s == s[..|s| - 1] + [s[|s| - 1]]
  {
  }

  lemma ExpandRest(bs: seq<Blob>, k: nat)
    requires k <= |bs|
    ensures Expand(bs) == Expand(bs[..k]) + Expand(bs[k..])
  {
    ExpandConcat(bs[..k], bs[k..]);
    SplitHere(bs, k);
  }

  lemma ExpandNext(bs: seq<Blob>, k: nat)
    requires k < |bs|
    ensures Expand(bs[..k + 1]) == Expand(bs[..k]) + Spread(bs[k].addr, bs[k].data)
  {
    assert bs[..k + 1][..k] == bs[..k];
  }

  /** Checks the input blobs of a recorded call against memory. */
  method CheckInputs(mem: MemorySpace, inputs: seq<Blob>) returns (ok: bool)
    requires mem.Valid() && Ok(mem.View())
    modifies mem`misses, mem`accesses, mem`chains, mem.ptab, mem.nodes
    ensures mem.Valid()
    ensures ok ==> CheckAll(old(mem.View()), Expand(inputs)) == Some(mem.View())
    ensures !ok ==> CheckAll(old(mem.View()), Expand(inputs)).None?
  {
    ghost var m := mem.View();
    var c := new Byte[1](_ => 0);
    ExpandSteps(inputs, 0);
    ok := true;
    var k := 0;
    while k < |inputs| && ok
      invariant k <= |inputs| && mem.Valid() && c !in mem.Pages() && fresh(c)
      invariant ok ==> Passed(mem, m, Expand(inputs[..k]))
      invariant !ok ==> CheckAll(m, Expand(inputs)).None?
      decreases |inputs| - k
    {
      ExpandSteps(inputs, k);
      ok := CheckBlob(mem, c, inputs[k], m, Expand(inputs[..k]));
      if !ok {
        ExpandRest(inputs, k + 1);
        CheckFailed(m, Expand(inputs[..k + 1]), Expand(inputs[k + 1..]));
      }
      k := k + 1;
    }
    ExpandSteps(inputs, k);
  }

  lemma {:induction false} BlockIsWrites(m: Mem, addr: nat, bytes: seq<Byte>)
    requires Ok(m)
    ensures Run(m, WriteOps(addr, bytes)) == WriteAll(m, Spread(addr, bytes))
  {
    if bytes != [] {
      var n := |bytes| - 1;
      var fore, a, v := bytes[..n], Wrap(addr + n), bytes[n];
      BlockIsWrites(m, addr, fore);
      LastByte(addr, bytes);
      RunMore(m, WriteOps(addr, fore), Wr(a, v));
      WriteMore(m, Spread(addr, fore), ByteAccess(a, v));
    }
  }

  lemma LastByte(addr: nat, bytes: seq<Byte>)
    requires bytes != []
    ensures var n := |bytes| - 1;
      && WriteOps(addr, bytes) == WriteOps(addr, bytes[..n]) + [Wr(Wrap(addr + n), bytes[n])]
      && Spread(addr, bytes) == Spread(addr, bytes[..n]) + [ByteAccess(Wrap(addr + n), bytes[n])]
  {
  }

  lemma WriteMore(m: Mem, done: seq<ByteAccess>, x: ByteAccess)
    requires Ok(m)
    ensures WriteAll(m, done + [x]) == Do(WriteAll(m, done), Wr(x.addr, x.value))
  {
    assert (done + [x])[..|done|] == done;
  }

  lemma {:induction false} WriteAllConcat(m: Mem, xs: seq<ByteAccess>, ys: seq<ByteAccess>)
    requires Ok(m)
    ensures WriteAll(m, xs + ys) == WriteAll(WriteAll(m, xs), ys)
  {
    if ys == [] {
      assert xs + ys == xs;
    } else {
      var fore, y := ys[..|ys| - 1], ys[|ys| - 1];
      WriteAllConcat(m, xs, fore);
      WriteOneMore(m, xs, fore, y);
      SplitLast(ys);
    }
  }

  lemma WriteOneMore(m: Mem, xs: seq<ByteAccess>, ys: seq<ByteAccess>, y: ByteAccess)
    requires Ok(m) && WriteAll(m, xs + ys) == WriteAll(WriteAll(m, xs), ys)
    ensures WriteAll(m, xs + (ys + [y])) == WriteAll(WriteAll(m, xs), ys + [y])
  {
    WriteMore(m, xs + ys, y);
    WriteMore(WriteAll(m, xs), ys, y);
    Associates(xs, ys, [y]);
  }

  /** Writes the bytes of one output blob, one at a time. */
  method PutBlob(mem: MemorySpace, b: Blob)
    requires mem.Valid() && Ok(mem.View()) && b.addr < WORD64
    modifies mem, mem.ptab, mem.nodes, mem.Pages()
    ensures mem.Valid() && mem.View() == WriteAll(old(mem.View()), Spread(b.addr, b.data)) && mem.Grown()
  {
    var p := new Byte[|b.data|](i requires 0 <= i < |b.data| => b.data[i]);
    assert p[..|b.data|] == b.data;
    BlockIsWrites(mem.View(), b.addr, b.data);
    var fault := mem.BcopyWrite(b.addr, p, |b.data|);
  }

  /** Writes the output blobs of a recorded call to memory. */
  method WriteOutputs(mem: MemorySpace, outputs: seq<Blob>)
    requires mem.Valid() && Ok(mem.View()) && forall k :: 0 <= k < |outputs| ==> outputs[k].addr < WORD64
    modifies mem, mem.ptab, mem.nodes, mem.Pages()
    ensures mem.Valid() && mem.View() == WriteAll(old(mem.View()), Expand(outputs)) && mem.Grown()
  {
    ghost var m := mem.View();
    ExpandSteps(outputs, 0);
    for k := 0 to |outputs|
      invariant mem.Valid() && mem.View() == WriteAll(m, Expand(outputs[..k])) && mem.Grown()
    {
      ExpandSteps(outputs, k);
      WriteAllConcat(m, Expand(outputs[..k]), Spread(outputs[k].addr, outputs[k].data));
      PutBlob(mem, outputs[k]);
    }
    ExpandSteps(outputs, |outputs|);
  }

  /** Replays the memory side of a recorded call; stops at the first input byte that differs. */
  method ReplayTrace(mem: MemorySpace, inputs: seq<Blob>, outputs: seq<Blob>) returns (ok: bool)
    requires mem.Valid() && Ok(mem.View()) && forall k :: 0 <= k < |outputs| ==> outputs[k].addr < WORD64
    modifies mem, mem.ptab, mem.nodes, mem.Pages()
    ensures mem.Valid()
    ensures var r := Replay(old(mem.View()), inputs, outputs);
      if ok then r == Some(mem.View()) else r.None?
  {
    ok := CheckInputs(mem, inputs);
    if ok { WriteOutputs(mem, outputs); }
  }
}
