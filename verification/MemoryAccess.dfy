/** Multi-byte accesses: the size and alignment checks, and copies of blocks and strings, as the
    byte reads and writes they make.  Addresses wrap round at the end of the address space. */
module MemoryAccess {
  import opened Bits
  import opened Memory

  datatype Fault = NoFault | AccessFault | AlignmentFault

  type Int32 = x: int | -0x8000_0000 <= x < 0x8000_0000

  /** The 32-bit pattern of an int. */
  function Pattern(x: Int32): (u: nat)
    ensures u < WORD32
  {
    if x < 0 then x + WORD32 else x
  }

  /** The int before, which wraps around at the least int, as a 64-bit mask. */
  function AlignMask(nbytes: Int32): nat {
    var u := (Pattern(nbytes) + WORD32 - 1) % WORD32;
    if u < 0x8000_0000 then u else u + (WORD64 - WORD32)
  }

  /** The checks made before an access. */
  function Checked(addr: nat, nbytes: Int32): Fault {
    if And(Pattern(nbytes), (Pattern(nbytes) + WORD32 - 1) % WORD32) != 0 || nbytes > PAGE_SIZE then AccessFault
    else if And(addr, AlignMask(nbytes)) != 0 then AlignmentFault
    else NoFault
  }

  /** Bytes moved by an access that is let through. */
  function Moved(nbytes: Int32): nat {
    if nbytes < 0 then 0 else nbytes
  }

  /** An access of at least one byte is let through exactly when its size is a power of two up
      to the page size and its address a multiple of it; one of no bytes only at address 0; and
      of negative sizes only the least int passes the size test, at multiples of 2^31. */
  lemma CheckedMeans(addr: nat, nbytes: Int32)
    requires addr < WORD64
    ensures Checked(addr, nbytes).AccessFault? <==>
      nbytes > PAGE_SIZE || (nbytes > 0 && !IsPow2(nbytes)) || -0x8000_0000 < nbytes < 0
    ensures Checked(addr, nbytes).NoFault? <==>
      if nbytes == 0 then addr == 0
      else if nbytes < 0 then nbytes == -0x8000_0000 && addr % 0x8000_0000 == 0
      else nbytes <= PAGE_SIZE && IsPow2(nbytes) && addr % nbytes == 0
  {
    if nbytes > 0 {
      PositiveSize(addr, nbytes);
    } else if nbytes == 0 {
      Pow2Of64();
      AndMask(addr, 64);
      SmallMod(addr, WORD64);
    } else {
      NegativeSize(addr, nbytes);
    }
  }

  lemma PositiveSize(addr: nat, nbytes: Int32)
    requires addr < WORD64 && nbytes > 0
    ensures And(Pattern(nbytes), (Pattern(nbytes) + WORD32 - 1) % WORD32) == 0 <==> IsPow2(nbytes)
    ensures IsPow2(nbytes) ==> And(addr, AlignMask(nbytes)) == addr % nbytes
  {
    assert (Pattern(nbytes) + WORD32 - 1) % WORD32 == nbytes - 1;
    PowerOfTwoTest(nbytes);
    hide And;
    if k: nat :| nbytes == Pow2(k) { AndMask(addr, k); }
  }

  lemma NegativeSize(addr: nat, nbytes: Int32)
    requires addr < WORD64 && nbytes < 0
    ensures And(Pattern(nbytes), (Pattern(nbytes) + WORD32 - 1) % WORD32) == 0 <==> nbytes == -0x8000_0000
    ensures nbytes == -0x8000_0000 ==> And(addr, AlignMask(nbytes)) == addr % 0x8000_0000
  {
    var u := Pattern(nbytes);
    PowerOfTwoTest(u);
    Pow2Of32();
    if k: nat :| u == Pow2(k) {
      if k < 31 { Pow2Monotone(k, 30); } else if k > 31 { Pow2Monotone(32, k); }
    }
    AndMask(addr, 31);
  }

  /** An access that is let through stays within one page. */
  lemma InOnePage(addr: nat, nbytes: Int32, i: nat)
    requires addr < WORD64 && Checked(addr, nbytes).NoFault? && i < nbytes
    ensures PageOf(addr + i) == PageOf(addr) && addr + i < WORD64
  {
    CheckedMeans(addr, nbytes);
    var k: nat :| nbytes == Pow2(k);
    PageConstants();
    if k > LOG_PAGE { Pow2Monotone(LOG_PAGE + 1, k); }
    Pow2Divides(k, LOG_PAGE);
    Within(addr, nbytes, Pow2(LOG_PAGE - k), i);
    SplitMeans(addr);
    SplitMeans(addr + i);
    SameTagSet(addr, addr + i);
  }

  lemma SameTagSet(a: nat, b: nat)
    requires a / 4096 == b / 4096
    ensures a / 134217728 == b / 134217728 && (a / 4096) % 32768 == (b / 4096) % 32768
  {
    DivDiv(a, 4096, 32768);
    DivDiv(b, 4096, 32768);
  }

  /** An aligned piece of a page ends in that page. */
  lemma Within(addr: nat, n: nat, c: nat, i: nat)
    requires n > 0 && n * c == 4096 && addr % n == 0 && i < n && addr < WORD64
    ensures (addr + i) / 4096 == addr / 4096 && addr + i < WORD64
  {
    var q := addr / n;
    assert addr == n * q;
    DivUnique(addr + i, n, q, i);
    MulPos2(n, c);
    DivDiv(addr, n, c);
    DivDiv(addr + i, n, c);
    assert (addr + i) / 4096 == addr / 4096;
    assert WORD64 % 4096 == 0;
  }

  lemma MulPos2(n: nat, c: nat)
    requires n * c > 0
    ensures n > 0 && c > 0
  {
  }

  // ----- sequences of byte accesses

  function Wrap(a: nat): (r: nat)
    ensures r < WORD64
  {
    a % WORD64
  }

  function ReadOps(addr: nat, n: nat): seq<Op> {
    seq(n, i requires 0 <= i => Rd(Wrap(addr + i)))
  }

  function WriteOps(addr: nat, bytes: seq<Byte>): seq<Op> {
    seq(|bytes|, i requires 0 <= i < |bytes| => Wr(Wrap(addr + i), bytes[i]))
  }

  lemma ReadOpsMore(m: Mem, addr: nat, n: nat)
    requires Ok(m)
    ensures Run(m, ReadOps(addr, n + 1)) == Do(Run(m, ReadOps(addr, n)), Rd(Wrap(addr + n)))
  {
    assert ReadOps(addr, n + 1) == ReadOps(addr, n) + [Rd(Wrap(addr + n))];
    RunMore(m, ReadOps(addr, n), Rd(Wrap(addr + n)));
  }

  lemma {:induction false} ReadOpsKeep(m: Mem, addr: nat, n: nat, a: nat)
    requires Ok(m)
    ensures ByteAt(Run(m, ReadOps(addr, n)), a) == ByteAt(m, a)
  {
    MemoryIsFlat(m, ReadOps(addr, n), a);
    FlatReads(m, addr, n, a);
  }

  lemma {:induction false} FlatReads(m: Mem, addr: nat, n: nat, a: nat)
    requires Ok(m)
    ensures Flat(m, ReadOps(addr, n), a) == ByteAt(m, a)
  {
    if n > 0 {
      FlatReads(m, addr, n - 1, a);
      assert ReadOps(addr, n)[..n - 1] == ReadOps(addr, n - 1);
    }
  }

  /** Distance of a past addr, round the end of the address space. */
  function Distance(addr: nat, a: nat): (d: nat)
    ensures d < WORD64
  {
    (a - addr) % WORD64
  }

  lemma DistanceMeans(addr: nat, a: nat, i: nat)
    requires addr < WORD64 && a < WORD64 && i < WORD64
    ensures Wrap(addr + i) == a <==> Distance(addr, a) == i
  {
  }

  lemma {:induction false} FlatWrites(m: Mem, addr: nat, bytes: seq<Byte>, a: nat)
    requires Ok(m) && addr < WORD64 && a < WORD64 && |bytes| <= WORD64
    ensures Flat(m, WriteOps(addr, bytes), a) ==
      if Distance(addr, a) < |bytes| then bytes[Distance(addr, a)] else ByteAt(m, a)
  {
    var n := |bytes|;
    if n > 0 {
      FlatWrites(m, addr, bytes[..n - 1], a);
      assert WriteOps(addr, bytes)[..n - 1] == WriteOps(addr, bytes[..n - 1]);
      DistanceMeans(addr, a, n - 1);
    }
  }

  /** Main result: writing a block changes exactly its bytes. */
  lemma BlockWritten(m: Mem, addr: nat, bytes: seq<Byte>, a: nat)
    requires Ok(m) && addr < WORD64 && a < WORD64 && |bytes| <= WORD64
    ensures ByteAt(Run(m, WriteOps(addr, bytes)), a) ==
      if Distance(addr, a) < |bytes| then bytes[Distance(addr, a)] else ByteAt(m, a)
  {
    MemoryIsFlat(m, WriteOps(addr, bytes), a);
    FlatWrites(m, addr, bytes, a);
  }

  ghost predicate Holds(m: Mem, addr: nat, bytes: seq<Byte>)
    requires Ok(m)
  {
    forall i :: 0 <= i < |bytes| ==> ByteAt(m, Wrap(addr + i)) == bytes[i]
  }

  /** The nbytes bytes of memory from addr on. */
  ghost function Bytes(m: Mem, addr: nat, nbytes: nat): (bs: seq<Byte>)
    requires Ok(m)
    ensures |bs| == nbytes && Holds(m, addr, bs)
  {
    if nbytes == 0 then [] else Bytes(m, addr, nbytes - 1) + [ByteAt(m, Wrap(addr + nbytes - 1))]
  }

  /** What was written is read back, after any further reads. */
  lemma BlockRoundTrip(m: Mem, addr: nat, bytes: seq<Byte>)
    requires Ok(m) && addr < WORD64 && |bytes| <= WORD64
    ensures Holds(Run(m, WriteOps(addr, bytes)), addr, bytes)
  {
    forall i | 0 <= i < |bytes| ensures ByteAt(Run(m, WriteOps(addr, bytes)), Wrap(addr + i)) == bytes[i] {
      BlockWritten(m, addr, bytes, Wrap(addr + i));
      DistanceMeans(addr, Wrap(addr + i), i);
    }
  }

  // ----- strings

  /** The memory holds the string s, which ends at the first zero byte, at addr. */
  ghost predicate HoldsString(m: Mem, addr: nat, s: seq<Byte>)
    requires Ok(m)
  {
    0 !in s && Holds(m, addr, s + [0])
  }

  lemma EndsAtZero(s: seq<Byte>, n: nat)
    requires 0 !in s && n <= |s|
    ensures (s + [0])[n] == 0 <==> n == |s|
  {
    if n < |s| { assert s[n] in s; }
  }

  lemma StringUnique(m: Mem, addr: nat, s: seq<Byte>, t: seq<Byte>)
    requires Ok(m) && HoldsString(m, addr, s) && HoldsString(m, addr, t)
    ensures s == t
  {
    var x, y := s + [0], t + [0];
    var n := if |s| < |t| then |s| else |t|;
    forall i | 0 <= i <= n ensures x[i] == y[i] {
      assert ByteAt(m, Wrap(addr + i)) == x[i];
      assert ByteAt(m, Wrap(addr + i)) == y[i];
    }
    assert x[n] == y[n];
    EndsAtZero(s, n);
    EndsAtZero(t, n);
    assert forall i :: 0 <= i < n ==> s[i] == x[i] && t[i] == y[i];
  }

  /** Main result: a string written, and no other, is the string read back. */
  lemma StringRoundTrip(m: Mem, addr: nat, s: seq<Byte>, t: seq<Byte>)
    requires Ok(m) && addr < WORD64 && 0 !in s && |s| < WORD64
    ensures HoldsString(Run(m, WriteOps(addr, s + [0])), addr, t) <==> t == s
  {
    var r := Run(m, WriteOps(addr, s + [0]));
    BlockRoundTrip(m, addr, s + [0]);
    if HoldsString(r, addr, t) { StringUnique(r, addr, s, t); }
  }
}
