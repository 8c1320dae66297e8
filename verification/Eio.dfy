/** Recording and replaying the memory side of a system call.  Accesses are recorded as blobs,
    one blob taking in accesses that follow on; a replay checks the input blobs against memory
    and writes the output blobs. */
module Eio {
  import opened Bits
  import opened Options
  import opened Memory
  import opened MemoryAccess

  /** Room left at the end of a new blob. */
  const BLOB_TAIL := 256

  /** `max` is the size allocated. */
  datatype Blob = Blob(addr: nat, data: seq<Byte>, max: nat)

  /** Records an access: at the end of the last blob if it follows on and fits, else in a new one. */
  function Record(blobs: seq<Blob>, addr: nat, bytes: seq<Byte>): seq<Blob> {
    if blobs != [] && Wrap(Latest(blobs).addr + |Latest(blobs).data|) == addr
       && |Latest(blobs).data| + |bytes| < Latest(blobs).max
    then blobs[..|blobs| - 1] + [Latest(blobs).(data := Latest(blobs).data + bytes)]
    else blobs + [Blob(addr, bytes, |bytes| + BLOB_TAIL)]
  }

  function Latest(blobs: seq<Blob>): Blob
    requires blobs != []
  {
    blobs[|blobs| - 1]
  }

  // ----- what blobs stand for

  /** One byte at one address. */
  datatype ByteAccess = ByteAccess(addr: nat, value: Byte)

  /** The byte accesses of a block, addresses wrapping round. */
  function Spread(addr: nat, bytes: seq<Byte>): (r: seq<ByteAccess>)
    ensures |r| == |bytes|
    ensures forall i :: 0 <= i < |bytes| ==> r[i] == ByteAccess(Wrap(addr + i), bytes[i])
  {
    seq(|bytes|, i requires 0 <= i < |bytes| => ByteAccess(Wrap(addr + i), bytes[i]))
  }

  function Expand(blobs: seq<Blob>): seq<ByteAccess> {
    if blobs == [] then [] else Expand(blobs[..|blobs| - 1]) + Spread(Latest(blobs).addr, Latest(blobs).data)
  }

  ghost predicate Allocated(blobs: seq<Blob>) {
    forall k :: 0 <= k < |blobs| ==> |blobs[k].data| <= blobs[k].max && blobs[k].addr < WORD64
  }

  lemma SpreadMore(addr: nat, x: seq<Byte>, y: seq<Byte>)
    ensures Spread(addr, x + y) == Spread(addr, x) + Spread(Wrap(addr + |x|), y)
  {
    var l, r := Spread(addr, x + y), Spread(addr, x) + Spread(Wrap(addr + |x|), y);
    forall j | 0 <= j < |l| ensures l[j] == r[j] {
      if j >= |x| { WrapTwice(addr + |x|, j - |x|); }
    }
  }

  lemma WrapTwice(a: nat, i: nat)
    ensures Wrap(a + i) == Wrap(Wrap(a) + i)
  {
  }

  lemma ExpandMore(blobs: seq<Blob>, b: Blob)
    ensures Expand(blobs + [b]) == Expand(blobs) + Spread(b.addr, b.data)
  {
    assert (blobs + [b])[..|blobs|] == blobs;
  }

  /** Recording appends exactly the bytes of the access, within the blobs' allocations. */
  lemma RecordExact(blobs: seq<Blob>, addr: nat, bytes: seq<Byte>)
    requires Allocated(blobs) && addr < WORD64
    ensures Expand(Record(blobs, addr, bytes)) == Expand(blobs) + Spread(addr, bytes)
    ensures Allocated(Record(blobs, addr, bytes))
  {
    if blobs != [] { ExtendExact(blobs, addr, bytes); }
    ExpandMore(blobs, Blob(addr, bytes, |bytes| + BLOB_TAIL));
  }

  lemma ExtendExact(blobs: seq<Blob>, addr: nat, bytes: seq<Byte>)
    requires blobs != []
    ensures var b := Latest(blobs);
      Wrap(b.addr + |b.data|) == addr ==>
        Expand(blobs[..|blobs| - 1] + [b.(data := b.data + bytes)]) == Expand(blobs) + Spread(addr, bytes)
  {
    var fore, b := blobs[..|blobs| - 1], Latest(blobs);
    assert blobs == fore + [b];
    ExtendLast(fore, b, bytes);
  }

  lemma ExtendLast(fore: seq<Blob>, b: Blob, bytes: seq<Byte>)
    ensures Expand(fore + [b.(data := b.data + bytes)]) == Expand(fore + [b]) + Spread(Wrap(b.addr + |b.data|), bytes)
  {
    ExpandMore(fore, b);
    ExpandMore(fore, b.(data := b.data + bytes));
    SpreadMore(b.addr, b.data, bytes);
    Associates(Expand(fore), Spread(b.addr, b.data), Spread(Wrap(b.addr + |b.data|), bytes));
  }

  lemma Associates<T>(x: seq<T>, y: seq<T>, z: seq<T>)
    ensures (x + y) + z == x + (y + z)
  {
  }

  // ----- which accesses share a blob

  datatype Access = Access(addr: nat, bytes: seq<Byte>)

  function RecordAll(xs: seq<Access>): seq<Blob> {
    if xs == [] then []
    else var x := xs[|xs| - 1]; Record(RecordAll(xs[..|xs| - 1]), x.addr, x.bytes)
  }

  /** The access that opened the blob of the last one. */
  function Opener(xs: seq<Access>): (f: nat)
    requires xs != []
    ensures f < |xs|
  {
    var rest := xs[..|xs| - 1];
    if rest == [] || |RecordAll(xs)| > |RecordAll(rest)| then |xs| - 1 else Opener(rest)
  }

  function Joined(xs: seq<Access>, f: nat): seq<Byte>
    requires f <= |xs|
  {
    if |xs| == f then [] else Joined(xs[..|xs| - 1], f) + xs[|xs| - 1].bytes
  }

  ghost predicate Addresses(xs: seq<Access>) {
    forall k :: 0 <= k < |xs| ==> xs[k].addr < WORD64
  }

  /** The last blob holds the accesses from its first on. */
  ghost predicate LastBlob(xs: seq<Access>)
    requires xs != []
  {
    var f, bs, x := Opener(xs), RecordAll(xs), xs[|xs| - 1];
    && bs != [] && Latest(bs) == Blob(xs[f].addr, Joined(xs, f), |xs[f].bytes| + 256)
    && Wrap(Latest(bs).addr + |Latest(bs).data|) == Wrap(x.addr + |x.bytes|)
  }

  lemma RecordOne(bs: seq<Blob>, addr: nat, bytes: seq<Byte>)
    ensures var cs := Record(bs, addr, bytes);
      && cs != []
      && (bs != [] && Wrap(Latest(bs).addr + |Latest(bs).data|) == addr
          && |Latest(bs).data + bytes| < Latest(bs).max
          ==> |cs| == |bs| && Latest(cs) == Latest(bs).(data := Latest(bs).data + bytes))
      && (bs == [] || Wrap(Latest(bs).addr + |Latest(bs).data|) != addr
          || |Latest(bs).data + bytes| >= Latest(bs).max
          ==> |cs| == |bs| + 1 && Latest(cs) == Blob(addr, bytes, |bytes| + 256))
  {
  }

  lemma {:induction false} LastBlobHolds(xs: seq<Access>)
    requires xs != [] && Addresses(xs)
    ensures LastBlob(xs)
  {
    hide Record, Wrap, Latest;
    var rest, y := xs[..|xs| - 1], xs[|xs| - 1];
    RecordOne(RecordAll(rest), y.addr, y.bytes);
    assert Joined(xs, |xs| - 1) == [] + y.bytes == y.bytes;
    if rest != [] {
      LastBlobHolds(rest);
      EndOfBlob(Latest(RecordAll(rest)), y.addr, y.bytes);
    }
  }

  /** Main result: an access goes to the blob of the one before exactly if it follows on where
      that ended and the blob stays shorter than its first access and 256 bytes more. */
  lemma BlobsExactly(xs: seq<Access>)
    requires |xs| > 1 && Addresses(xs)
    ensures var rest, x, y := xs[..|xs| - 1], xs[|xs| - 2], xs[|xs| - 1];
      var f := Opener(rest);
      && RecordAll(rest) != [] && Latest(RecordAll(rest)) == Blob(xs[f].addr, Joined(rest, f), |xs[f].bytes| + 256)
      && |RecordAll(xs)| == |RecordAll(rest)| +
           if Wrap(x.addr + |x.bytes|) == y.addr && |Joined(xs, f)| < |xs[f].bytes| + 256 then 0 else 1
  {
    hide Record, Wrap, Latest, Opener;
    var rest, y := xs[..|xs| - 1], xs[|xs| - 1];
    LastBlobHolds(rest);
    RecordOne(RecordAll(rest), y.addr, y.bytes);
    assert rest[|rest| - 1] == xs[|xs| - 2];
  }

  lemma EndOfBlob(b: Blob, addr: nat, bytes: seq<Byte>)
    ensures Wrap(b.addr + |b.data|) == addr ==> Wrap(b.addr + |b.data + bytes|) == Wrap(addr + |bytes|)
  {
    WrapTwice(b.addr + |b.data|, |bytes|);
  }

  // ----- recording a system call

  datatype Op = In(addr: nat, n: nat) | Out(addr: nat, bytes: seq<Byte>)

  datatype Session = Session(mem: Mem, inputs: seq<Blob>, outputs: seq<Blob>, seenWrite: bool)

  /** One access; a read after a write is fatal. */
  ghost function Step(s: Session, op: Op): Option<Session>
    requires Ok(s.mem)
  {
    match op
    case In(a, n) =>
      if s.seenWrite then None
      else Some(s.(mem := Run(s.mem, ReadOps(a, n)), inputs := Record(s.inputs, a, Bytes(s.mem, a, n))))
    case Out(a, bytes) =>
      Some(Session(Run(s.mem, WriteOps(a, bytes)), s.inputs, Record(s.outputs, a, bytes), true))
  }

  ghost function RunSession(m: Mem, ops: seq<Op>): (r: Option<Session>)
    requires Ok(m)
    ensures r.Some? ==> Ok(r.value.mem)
  {
    if ops == [] then Some(Session(m, [], [], false))
    else
      var r := RunSession(m, ops[..|ops| - 1]);
      if r.None? then None else Step(r.value, ops[|ops| - 1])
  }

  ghost predicate InRange(ops: seq<Op>) {
    forall k :: 0 <= k < |ops| ==> ops[k].addr < WORD64 && (ops[k].Out? ==> |ops[k].bytes| <= WORD64)
  }

  ghost predicate SomeWrite(ops: seq<Op>) {
    exists j :: 0 <= j < |ops| && ops[j].Out?
  }

  ghost predicate ReadAfterWrite(ops: seq<Op>) {
    exists j, k :: 0 <= j < k < |ops| && ops[j].Out? && ops[k].In?
  }

  lemma LastOp(ops: seq<Op>)
    requires ops != []
    ensures var n := |ops| - 1;
      && (SomeWrite(ops) <==> SomeWrite(ops[..n]) || ops[n].Out?)
      && (ReadAfterWrite(ops) <==> ReadAfterWrite(ops[..n]) || (SomeWrite(ops[..n]) && ops[n].In?))
  {
    var n := |ops| - 1;
    if SomeWrite(ops[..n]) {
      var j :| 0 <= j < n && ops[..n][j].Out?;
      assert ops[j].Out?;
    }
    if ReadAfterWrite(ops[..n]) {
      var j, k :| 0 <= j < k < n && ops[..n][j].Out? && ops[..n][k].In?;
      assert ops[j].Out? && ops[k].In?;
    }
    if ReadAfterWrite(ops) {
      var j, k :| 0 <= j < k < |ops| && ops[j].Out? && ops[k].In?;
      assert ops[..n][j].Out?;
      assert k < n ==> ops[..n][k].In?;
    }
    if SomeWrite(ops) {
      var j :| 0 <= j < |ops| && ops[j].Out?;
      assert j < n ==> ops[..n][j].Out?;
    }
  }

  /** Recording fails exactly when some read follows some write. */
  lemma {:induction false} FatalExactly(m: Mem, ops: seq<Op>)
    requires Ok(m)
    ensures RunSession(m, ops).None? <==> ReadAfterWrite(ops)
    ensures RunSession(m, ops).Some? ==> (RunSession(m, ops).value.seenWrite <==> SomeWrite(ops))
  {
    if ops != [] {
      FatalExactly(m, ops[..|ops| - 1]);
      LastOp(ops);
    }
  }

  /** The byte writes made. */
  function Writes(ops: seq<Op>): seq<ByteAccess> {
    if ops == [] then []
    else
      var op := ops[|ops| - 1];
      Writes(ops[..|ops| - 1]) + (if op.Out? then Spread(op.addr, op.bytes) else [])
  }

  /** The last value written to an address. */
  function LastWrite(ws: seq<ByteAccess>, a: nat): Option<Byte> {
    if ws == [] then None
    else if ws[|ws| - 1].addr == a then Some(ws[|ws| - 1].value) else LastWrite(ws[..|ws| - 1], a)
  }

  /** Memory m as changed by byte writes, seen at one address. */
  ghost function Changed(m: Mem, ws: seq<ByteAccess>, a: nat): Byte
    requires Ok(m)
  {
    var w := LastWrite(ws, a);
    if w.Some? then w.value else ByteAt(m, a)
  }

  lemma {:induction false} LastWriteConcat(x: seq<ByteAccess>, y: seq<ByteAccess>, a: nat)
    ensures LastWrite(x + y, a) == if LastWrite(y, a).Some? then LastWrite(y, a) else LastWrite(x, a)
  {
    if y == [] {
      assert x + y == x;
    } else {
      LastWriteConcat(x, y[..|y| - 1], a);
      assert (x + y)[..|x + y| - 1] == x + y[..|y| - 1];
    }
  }

  lemma {:induction false} LastOfSpread(addr: nat, bytes: seq<Byte>, a: nat)
    requires addr < WORD64 && a < WORD64 && |bytes| <= WORD64
    ensures LastWrite(Spread(addr, bytes), a) ==
      if Distance(addr, a) < |bytes| then Some(bytes[Distance(addr, a)]) else None
  {
    if bytes != [] {
      var n := |bytes| - 1;
      LastOfSpread(addr, bytes[..n], a);
      assert Spread(addr, bytes)[..n] == Spread(addr, bytes[..n]);
      DistanceMeans(addr, a, n);
    }
  }

  // ----- what a recorded session keeps

  ghost predicate SameBytes(m: Mem, p: Mem)
    requires Ok(m) && Ok(p)
  {
    forall a: nat {:trigger ByteAt(p, a)} :: a < WORD64 ==> ByteAt(p, a) == ByteAt(m, a)
  }

  ghost predicate AllHeld(m: Mem, rs: seq<ByteAccess>)
    requires Ok(m)
  {
    forall k :: 0 <= k < |rs| ==> rs[k].addr < WORD64 && ByteAt(m, rs[k].addr) == rs[k].value
  }

  /** What a session started in m has recorded and done. */
  ghost predicate Faithful(m: Mem, ops: seq<Op>, s: Session)
    requires Ok(m) && Ok(s.mem)
  {
    && Allocated(s.inputs) && Allocated(s.outputs)
    && Expand(s.outputs) == Writes(ops) && (!s.seenWrite ==> Writes(ops) == [])
    && AllHeld(m, Expand(s.inputs))
    && forall a: nat {:trigger Changed(m, Writes(ops), a)} :: a < WORD64 ==>
      ByteAt(s.mem, a) == Changed(m, Writes(ops), a)
  }

  lemma ReadKeepsFaith(m: Mem, ops: seq<Op>, s: Session, addr: nat, n: nat)
    requires Ok(m) && Ok(s.mem) && Faithful(m, ops, s) && !s.seenWrite && addr < WORD64
    ensures Faithful(m, ops + [In(addr, n)], Step(s, In(addr, n)).value)
  {
    var t, bytes := Step(s, In(addr, n)).value, Bytes(s.mem, addr, n);
    assert (ops + [In(addr, n)])[..|ops|] == ops;
    RecordExact(s.inputs, addr, bytes);
    forall a: nat | a < WORD64 ensures ByteAt(t.mem, a) == Changed(m, Writes(ops), a) {
      ReadOpsKeep(s.mem, addr, n, a);
    }
    var old', new' := Expand(s.inputs), Spread(addr, bytes);
    forall k | 0 <= k < |new'| ensures new'[k].addr < WORD64 && ByteAt(m, new'[k].addr) == new'[k].value {
      assert ByteAt(s.mem, Wrap(addr + k)) == bytes[k];
      assert ByteAt(s.mem, Wrap(addr + k)) == Changed(m, Writes(ops), Wrap(addr + k));
    }
    HeldConcat(m, old', new');
  }

  lemma HeldConcat(m: Mem, x: seq<ByteAccess>, y: seq<ByteAccess>)
    requires Ok(m) && AllHeld(m, x) && AllHeld(m, y)
    ensures AllHeld(m, x + y)
  {
  }

  lemma WriteKeepsFaith(m: Mem, ops: seq<Op>, s: Session, addr: nat, bytes: seq<Byte>)
    requires Ok(m) && Ok(s.mem) && Faithful(m, ops, s) && addr < WORD64 && |bytes| <= WORD64
    ensures Faithful(m, ops + [Out(addr, bytes)], Step(s, Out(addr, bytes)).value)
  {
    var t := Step(s, Out(addr, bytes)).value;
    assert (ops + [Out(addr, bytes)])[..|ops|] == ops;
    RecordExact(s.outputs, addr, bytes);
    var ws := Writes(ops) + Spread(addr, bytes);
    forall a: nat | a < WORD64 ensures ByteAt(t.mem, a) == Changed(m, ws, a) {
      BlockWritten(s.mem, addr, bytes, a);
      LastWriteConcat(Writes(ops), Spread(addr, bytes), a);
      LastOfSpread(addr, bytes, a);
      assert ByteAt(s.mem, a) == Changed(m, Writes(ops), a);
    }
  }

  lemma {:induction false} SessionFaithful(m: Mem, ops: seq<Op>)
    requires Ok(m) && InRange(ops) && RunSession(m, ops).Some?
    ensures Faithful(m, ops, RunSession(m, ops).value)
  {
    if ops != [] {
      var n := |ops| - 1;
      PrefixInRange(ops);
      SessionFaithful(m, ops[..n]);
      StepFaithful(m, ops[..n], RunSession(m, ops[..n]).value, ops[n]);
    }
  }

  lemma PrefixInRange(ops: seq<Op>)
    requires InRange(ops) && ops != []
    ensures var n := |ops| - 1; InRange(ops[..n]) && InRange([ops[n]]) && ops[..n] + [ops[n]] == ops
  {
  }

  lemma StepFaithful(m: Mem, fore: seq<Op>, s: Session, op: Op)
    requires Ok(m) && Ok(s.mem) && Faithful(m, fore, s) && Step(s, op).Some? && InRange([op])
    ensures Ok(Step(s, op).value.mem) && Faithful(m, fore + [op], Step(s, op).value)
  {
    assert [op][0] == op;
    match op {
      case In(a, k) => ReadKeepsFaith(m, fore, s, a, k);
      case Out(a, bytes) => WriteKeepsFaith(m, fore, s, a, bytes);
    }
  }

  // ----- replaying

  /** Reads the recorded input bytes; fails at the first that differs. */
  ghost function CheckAll(m: Mem, rs: seq<ByteAccess>): (r: Option<Mem>)
    requires Ok(m)
    ensures r.Some? ==> Ok(r.value)
  {
    if rs == [] then Some(m)
    else
      var r, x := CheckAll(m, rs[..|rs| - 1]), rs[|rs| - 1];
      if r.None? || ByteAt(r.value, x.addr) != x.value then None else Some(Do(r.value, Rd(x.addr)))
  }

  /** Writes the recorded output bytes. */
  ghost function WriteAll(m: Mem, ws: seq<ByteAccess>): (r: Mem)
    requires Ok(m)
    ensures Ok(r)
  {
    if ws == [] then m else Do(WriteAll(m, ws[..|ws| - 1]), Wr(ws[|ws| - 1].addr, ws[|ws| - 1].value))
  }

  ghost function Replay(m: Mem, inputs: seq<Blob>, outputs: seq<Blob>): (r: Option<Mem>)
    requires Ok(m)
    ensures r.Some? ==> Ok(r.value)
  {
    var c := CheckAll(m, Expand(inputs));
    if c.None? then None else Some(WriteAll(c.value, Expand(outputs)))
  }

  /** The check passes exactly when memory holds every recorded byte, and changes none. */
  lemma {:induction false} CheckExactly(m: Mem, rs: seq<ByteAccess>)
    requires Ok(m) && forall k :: 0 <= k < |rs| ==> rs[k].addr < WORD64
    ensures CheckAll(m, rs).Some? <==> AllHeld(m, rs)
    ensures CheckAll(m, rs).Some? ==> SameBytes(m, CheckAll(m, rs).value)
  {
    if rs != [] {
      var fore, x := rs[..|rs| - 1], rs[|rs| - 1];
      CheckExactly(m, fore);
      var r := CheckAll(m, fore);
      if r.Some? {
        OneRead(m, r.value, x.addr);
        assert ByteAt(r.value, x.addr) == ByteAt(m, x.addr);
      }
      assert fore + [x] == rs;
    }
  }

  lemma OneRead(m: Mem, p: Mem, addr: nat)
    requires Ok(m) && Ok(p) && SameBytes(m, p)
    ensures SameBytes(m, Do(p, Rd(addr)))
  {
    forall a: nat | a < WORD64 ensures ByteAt(Do(p, Rd(addr)), a) == ByteAt(m, a) {
      DoByte(p, Rd(addr), a);
      assert ByteAt(p, a) == ByteAt(m, a);
    }
  }

  lemma {:induction false} WriteAllMeans(m: Mem, ws: seq<ByteAccess>, a: nat)
    requires Ok(m)
    ensures ByteAt(WriteAll(m, ws), a) == Changed(m, ws, a)
  {
    if ws != [] {
      WriteAllMeans(m, ws[..|ws| - 1], a);
      DoByte(WriteAll(m, ws[..|ws| - 1]), Wr(ws[|ws| - 1].addr, ws[|ws| - 1].value), a);
    }
  }

  /** Main result: a session that was recorded replays from any memory with the same bytes:
      every input check passes and the resulting memory is byte for byte the recorded one. */
  lemma ReplayReproduces(m: Mem, p: Mem, ops: seq<Op>)
    requires Ok(m) && Ok(p) && SameBytes(m, p) && InRange(ops) && RunSession(m, ops).Some?
    ensures var s := RunSession(m, ops).value;
      var r := Replay(p, s.inputs, s.outputs);
      r.Some? && SameBytes(s.mem, r.value)
  {
    SessionFaithful(m, ops);
    var s := RunSession(m, ops).value;
    var rs := Expand(s.inputs);
    forall k | 0 <= k < |rs| ensures ByteAt(p, rs[k].addr) == rs[k].value {
      assert ByteAt(m, rs[k].addr) == rs[k].value;
    }
    CheckExactly(p, rs);
    var c := CheckAll(p, rs).value;
    forall a: nat | a < WORD64 ensures ByteAt(WriteAll(c, Expand(s.outputs)), a) == ByteAt(s.mem, a) {
      WriteAllMeans(c, Expand(s.outputs), a);
      assert ByteAt(c, a) == ByteAt(p, a) == ByteAt(m, a);
      assert ByteAt(s.mem, a) == Changed(m, Writes(ops), a);
    }
  }
}
