/** Geometry of a set-associative cache and its address arithmetic: the split of a 64-bit
    address into tag, set and block offset, its inverse, and the two places where 64-bit or
    32-bit wrap-around decides whether the split can be trusted.

    Each quantity has a plain arithmetic definition and the mask-and-shift form the cache
    computes (suffix `C`); the lemmas say when the two agree. */
module CacheAddress {
  import opened Bits

  datatype Policy = LRU | Random | FIFO

  /** Name of a memory block: its tag and its set. */
  datatype BlockId = BlockId(tag: nat, index: nat)

  const INT_LIMIT := 0x8000_0000

  /** The parameters of a cache and the shift counts derived from them. */
  datatype Geometry = Geometry(nsets: nat, bsize: nat, assoc: nat, policy: Policy, balloc: bool,
                               setShift: nat, tagShift: nat)
  {
    ghost predicate Ok() {
      && setShift <= 30 && bsize == Pow2(setShift) && bsize >= 8
      && setShift <= tagShift <= setShift + 30 && nsets == Pow2(tagShift - setShift)
      && assoc > 0
      && nsets < INT_LIMIT && bsize < INT_LIMIT && assoc < INT_LIMIT
    }

    /** Creation works for it: the number of blocks fits an int too. */
    ghost predicate Accepted() {
      Ok() && nsets * assoc < INT_LIMIT
    }

    function Index(addr: nat): (s: nat)
      requires bsize > 0 && nsets > 0
      ensures s < nsets
    {
      (addr / bsize) % nsets
    }

    function Tag(addr: nat): nat
      requires bsize > 0 && nsets > 0
    {
      (addr / bsize) / nsets
    }

    function Offset(addr: nat): (o: nat)
      requires bsize > 0
      ensures o < bsize
    {
      addr % bsize
    }

    function Id(addr: nat): BlockId
      requires bsize > 0 && nsets > 0
    {
      BlockId(Tag(addr), Index(addr))
    }

    /** Address of the block holding addr. */
    function Block(addr: nat): nat
      requires bsize > 0
    {
      addr - addr % bsize
    }

    /** Address of the block with a given name. */
    function Address(id: BlockId): nat {
      (id.tag * nsets + id.index) * bsize
    }

    /** Names of the blocks of the 64-bit address space. */
    ghost predicate Names(id: BlockId) {
      id.index < nsets && Address(id) < WORD64
    }

    // ----- the forms the cache computes

    function IndexC(addr: nat): nat
      requires nsets > 0
    {
      And(Shr(addr, setShift), nsets - 1)
    }

    function TagC(addr: nat): nat {
      Shr(addr, tagShift)
    }

    function OffsetC(addr: nat): nat
      requires bsize > 0
    {
      And(addr, bsize - 1)
    }

    function BlockC(addr: nat): nat
      requires 0 < bsize <= WORD64
    {
      And(addr, Not64(bsize - 1))
    }

    function MakeBlockC(tag: nat, index: nat): nat {
      Or(Shl64(tag, tagShift), Shl64(index, setShift))
    }

    /** The form used when the whole cache is flushed: there the set index is a C int, so it
        is shifted in 32 bits and then sign-extended. */
    function MakeBlockFlushC(tag: nat, i: nat): nat {
      Or(Shl64(tag, tagShift), SignExtend32((i * Pow2(setShift)) % WORD32))
    }

    /** The size, alignment and span checks at the head of an access.  All sums wrap at 64
        bits; `nbytes - 1` is all ones when nbytes is zero. */
    predicate AcceptsC(addr: nat, nbytes: nat)
      requires 0 < bsize <= WORD64 && addr < WORD64
    {
      && (nbytes == 0 || And(nbytes, nbytes - 1) == 0)
      && And(addr, if nbytes == 0 then WORD64 - 1 else nbytes - 1) == 0
      && (addr + nbytes) % WORD64 <= (BlockC(addr) + bsize) % WORD64
    }
  }

  function SignExtend32(w: nat): nat
    requires w < WORD32
  {
    if w < INT_LIMIT then w else w + (WORD64 - WORD32)
  }

  /** The test applied to each size: non-zero and `(n & (n - 1)) == 0`. */
  predicate SizeAccepted(n: nat) {
    n != 0 && And(n, n - 1) == 0
  }

  /** What becomes of a request for a cache: some check fails, or the number of blocks is too
      large for the int that holds it, so that fewer than all of them are allocated. */
  datatype Creation = Refused | Oversized | Ready(g: Geometry)

  /** The parameter checks of cache creation; the three sizes are C ints. */
  function Create(nsets: nat, bsize: nat, assoc: nat, policy: Policy, balloc: bool): Creation
    requires nsets < INT_LIMIT && bsize < INT_LIMIT && assoc < INT_LIMIT
  {
    if !SizeAccepted(nsets) then Refused
    else if bsize < 8 || !SizeAccepted(bsize) then Refused
    else if !SizeAccepted(assoc) then Refused
    else if IntProduct(nsets, assoc) != nsets * assoc then Oversized
    else Ready(Geometry(nsets, bsize, assoc, policy, balloc, Log2(bsize), Log2(bsize) + Log2(nsets)))
  }

  // ----- creation

  /** Creation accepts exactly the powers of two, blocks being at least 8 bytes, and works
      exactly when there are fewer than 2^31 blocks in all. */
  lemma CreateExact(nsets: nat, bsize: nat, assoc: nat, policy: Policy, balloc: bool)
    requires nsets < INT_LIMIT && bsize < INT_LIMIT && assoc < INT_LIMIT
    ensures var c := Create(nsets, bsize, assoc, policy, balloc);
      && (!c.Refused? <==> IsPow2(nsets) && IsPow2(bsize) && bsize >= 8 && IsPow2(assoc))
      && (c.Ready? <==> !c.Refused? && nsets * assoc < INT_LIMIT)
  {
    SizeExact(nsets);
    SizeExact(bsize);
    SizeExact(assoc);
    if IsPow2(nsets) && IsPow2(assoc) { IntProductExact(nsets, assoc); }
  }

  /** A request that passes every check, for which no block at all is allocated. */
  lemma OversizedCache()
    ensures Create(65536, 8, 65536, LRU, true).Oversized? && IntProduct(65536, 65536) == 0
  {
    IntProductVanishes();
    assert IsPow2(8) by { assert Pow2(3) == 8; }
    CreateExact(65536, 8, 65536, LRU, true);
    hide IntProduct, IsPow2, SizeAccepted;
  }

  /** A created geometry has the requested sizes, shift counts that match them, and few enough
      blocks. */
  lemma CreateOk(nsets: nat, bsize: nat, assoc: nat, policy: Policy, balloc: bool)
    requires nsets < INT_LIMIT && bsize < INT_LIMIT && assoc < INT_LIMIT
    requires Create(nsets, bsize, assoc, policy, balloc).Ready?
    ensures var g := Create(nsets, bsize, assoc, policy, balloc).g;
      && g.Accepted() && g.nsets == nsets && g.bsize == bsize
      && g.assoc == assoc && g.policy == policy && g.balloc == balloc
  {
    CreateShape(nsets, bsize, assoc, policy, balloc);
    CreateFits(nsets, bsize, assoc, policy, balloc);
  }

  lemma CreateShape(nsets: nat, bsize: nat, assoc: nat, policy: Policy, balloc: bool)
    requires nsets < INT_LIMIT && bsize < INT_LIMIT && assoc < INT_LIMIT
    requires Create(nsets, bsize, assoc, policy, balloc).Ready?
    ensures var g := Create(nsets, bsize, assoc, policy, balloc).g;
      && g.Ok() && g.nsets == nsets && g.bsize == bsize
      && g.assoc == assoc && g.policy == policy && g.balloc == balloc
  {
    SizeExponent(nsets);
    SizeExponent(bsize);
  }

  lemma CreateFits(nsets: nat, bsize: nat, assoc: nat, policy: Policy, balloc: bool)
    requires nsets < INT_LIMIT && bsize < INT_LIMIT && assoc < INT_LIMIT
    requires Create(nsets, bsize, assoc, policy, balloc).Ready?
    ensures nsets * assoc < INT_LIMIT
  {
    CreateExact(nsets, bsize, assoc, policy, balloc);
  }

  lemma SizeExponent(n: nat)
    requires n < INT_LIMIT && SizeAccepted(n)
    ensures n == Pow2(Log2(n)) && Log2(n) <= 30
  {
    SizeExact(n);
  }

  lemma SizeExact(n: nat)
    requires n < INT_LIMIT
    ensures SizeAccepted(n) <==> IsPow2(n)
    ensures IsPow2(n) ==> n == Pow2(Log2(n)) && Log2(n) <= 30
  {
    if n > 0 { PowerOfTwoTest(n); }
    if IsPow2(n) {
      var k: nat :| n == Pow2(k);
      Log2OfPow2(k);
      if k > 30 {
        Pow2Monotone(31, k);
        Pow2Of31();
      }
    }
  }

  lemma Pow2Of31()
    ensures Pow2(31) == INT_LIMIT
  {
    assert Pow2(15) == 0x8000;
    Pow2Add(15, 15);
    assert Pow2(31) == 2 * Pow2(30);
  }

  // ----- plain arithmetic of the split

  lemma Recompose(a: nat, b: nat, n: nat)
    requires b > 0 && n > 0
    ensures (((a / b) / n) * n + (a / b) % n) * b == a - a % b
  {
  }

  lemma Decompose(t: nat, s: nat, b: nat, n: nat, o: nat)
    requires b > 0 && s < n && o < b
    ensures var a := (t * n + s) * b + o;
      a / b == t * n + s && a % b == o && (a / b) % n == s && (a / b) / n == t
  {
    DivUnique((t * n + s) * b + o, b, t * n + s, o);
    DivUnique(t * n + s, n, t, s);
  }

  /** Reassembling the split of an address gives the address of its block. */
  lemma AddressOfId(g: Geometry, addr: nat)
    requires g.bsize > 0 && g.nsets > 0
    ensures g.Address(g.Id(addr)) == g.Block(addr)
    ensures addr == g.Block(addr) + g.Offset(addr)
    ensures addr < WORD64 ==> g.Names(g.Id(addr))
  {
    Recompose(addr, g.bsize, g.nsets);
  }

  /** Splitting any address inside a named block gives back the name and the offset. */
  lemma IdOfAddress(g: Geometry, id: BlockId, o: nat)
    requires o < g.bsize && id.index < g.nsets
    ensures g.Id(g.Address(id) + o) == id && g.Offset(g.Address(id) + o) == o
    ensures g.Block(g.Address(id) + o) == g.Address(id)
  {
    var t, s, b, n := id.tag, id.index, g.bsize, g.nsets;
    Decompose(t, s, b, n, o);
    assert g.Address(id) + o == (t * n + s) * b + o;
  }

  // ----- the computed forms agree with the arithmetic

  /** Shifting and masking computes the same tag, set and offset as dividing. */
  lemma SplitAsComputed(g: Geometry, addr: nat)
    requires g.Ok()
    ensures g.IndexC(addr) == g.Index(addr)
    ensures g.TagC(addr) == g.Tag(addr)
    ensures g.OffsetC(addr) == g.Offset(addr)
  {
    IndexAsComputed(addr, g.setShift, g.tagShift - g.setShift);
    TagAsComputed(addr, g.setShift, g.tagShift - g.setShift);
    AndMask(addr, g.setShift);
  }

  lemma IndexAsComputed(addr: nat, j: nat, k: nat)
    ensures And(Shr(addr, j), Pow2(k) - 1) == (addr / Pow2(j)) % Pow2(k)
  {
    AndMask(Shr(addr, j), k);
  }

  lemma TagAsComputed(addr: nat, j: nat, k: nat)
    ensures Shr(addr, j + k) == (addr / Pow2(j)) / Pow2(k)
  {
    Pow2Add(j, k);
    DivDiv(addr, Pow2(j), Pow2(k));
  }

  /** Clearing the offset bits with `& ~mask` gives the block's address. */
  lemma BlockAsComputed(g: Geometry, addr: nat)
    requires g.Ok() && addr < WORD64
    ensures g.bsize <= WORD64 && g.BlockC(addr) == g.Block(addr)
  {
    Pow2Of64();
    AndNotMask(addr, g.setShift, 64);
  }

  /** The address rebuilt from a tag and a set with shifts and `|` is the block's address. */
  lemma MakeAsComputed(g: Geometry, id: BlockId)
    requires g.Ok() && g.Names(id)
    ensures g.MakeBlockC(id.tag, id.index) == g.Address(id)
  {
    var j, k := g.setShift, g.tagShift - g.setShift;
    Pow2Add(j, k);
    PartsBelow(id.tag, id.index, g.bsize, g.nsets);
    assert Shl64(id.index, j) == id.index * g.bsize by { SmallMod(id.index * g.bsize, WORD64); }
    assert Shl64(id.tag, j + k) == id.tag * Pow2(j + k) by { SmallMod(id.tag * Pow2(j + k), WORD64); }
    OrDisjoint(id.tag, id.index * g.bsize, j + k);
  }

  lemma PartsBelow(t: nat, s: nat, b: nat, n: nat)
    requires b > 0 && s < n
    ensures (t * n + s) * b == t * (b * n) + s * b
    ensures 0 <= s * b < b * n && 0 <= t * (b * n)
  {
    MulAssoc(t, n, b);
    MulMono(b, s + 1, n);
    MulDistrib(b, s, 1);
    MulDistrib(b, t * n, s);
  }

  /** The 32-bit shift in a whole-cache flush yields the right address for every block of a
      set exactly when the shifted set index stays a positive int. */
  lemma FlushAddressExact(g: Geometry, i: nat)
    requires g.Ok() && i < g.nsets
    ensures (forall tag: nat :: g.Names(BlockId(tag, i)) ==> g.MakeBlockFlushC(tag, i) == g.Address(BlockId(tag, i)))
      <==> i * g.bsize < INT_LIMIT
  {
    if i * g.bsize < INT_LIMIT {
      forall tag: nat | g.Names(BlockId(tag, i))
        ensures g.MakeBlockFlushC(tag, i) == g.Address(BlockId(tag, i))
      {
        FlushAddressRight(g, BlockId(tag, i));
      }
    } else {
      FlushAddressWrong(g, i);
    }
  }

  lemma FlushAddressRight(g: Geometry, id: BlockId)
    requires g.Ok() && g.Names(id) && id.index * g.bsize < INT_LIMIT
    ensures g.MakeBlockFlushC(id.tag, id.index) == g.Address(id)
  {
    MakeAsComputed(g, id);
    NarrowShift(id.index, g.setShift, g.bsize);
  }

  /** A set index that stays small survives the 32-bit shift unchanged. */
  lemma NarrowShift(i: nat, k: nat, b: nat)
    requires b == Pow2(k) && i * b < INT_LIMIT
    ensures SignExtend32((i * Pow2(k)) % WORD32) == Shl64(i, k)
  {
    Narrow(i * b);
  }

  lemma Narrow(v: int)
    requires 0 <= v < INT_LIMIT
    ensures v % WORD32 == v && v % WORD64 == v
  {
  }

  lemma FlushAddressWrong(g: Geometry, i: nat)
    requires g.Ok() && i < g.nsets && i * g.bsize >= INT_LIMIT
    ensures g.Names(BlockId(0, i)) && g.MakeBlockFlushC(0, i) != g.Address(BlockId(0, i))
  {
    var v := i * g.bsize;
    PartsBelow(0, i, g.bsize, g.nsets);
    Pow2Add(g.setShift, g.tagShift - g.setShift);
    Pow2Monotone(g.tagShift, 60);
    Pow2Of60();
    assert g.Address(BlockId(0, i)) == v < WORD64 - WORD32;
    assert Shl64(0, g.tagShift) == 0;
    WrappedDiffers(v);
  }

  lemma WrappedDiffers(v: nat)
    requires INT_LIMIT <= v < WORD64 - WORD32
    ensures SignExtend32(v % WORD32) != v
  {
  }

  lemma Pow2Of60()
    ensures Pow2(60) < WORD64 - WORD32
  {
    assert Pow2(15) == 0x8000;
    Pow2Add(15, 15);
    Pow2Add(30, 30);
  }

  // ----- what the checks at the head of an access let through

  /** The alignment test as arithmetic: the checked size divides the address. */
  lemma AlignedArithmetic(addr: nat, nbytes: nat)
    requires nbytes > 0 && And(nbytes, nbytes - 1) == 0
    ensures IsPow2(nbytes) && (And(addr, nbytes - 1) == 0 <==> addr % nbytes == 0)
  {
    PowerOfTwoTest(nbytes);
    var k: nat :| nbytes == Pow2(k);
    AndMask(addr, k);
  }

  lemma DivisorFits(a: nat, n: nat, m: nat)
    requires n > 0 && m > 0 && a % n == 0
    ensures n * m > 0 && a % (n * m) + n <= n * m
  {
    MulPos(n, m);
    var q := a / n;
    assert a == n * q;
    var qm := q / m;
    var r := q % m;
    assert q == m * qm + r;
    assert a == (n * m) * qm + n * r by {
      MulDistrib(n, m * qm, r);
      MulAssoc(n, m, qm);
    }
    MulMono(n, r + 1, m);
    MulDistrib(n, r, 1);
    DivUnique(a, n * m, qm, n * r);
  }

  /** An aligned power-of-two access no larger than a block lies inside one block. */
  lemma AlignedFits(g: Geometry, addr: nat, nbytes: nat)
    requires g.Ok() && IsPow2(nbytes) && nbytes <= g.bsize && addr % nbytes == 0
    ensures g.Offset(addr) + nbytes <= g.bsize
  {
    var k: nat :| nbytes == Pow2(k);
    if k > g.setShift { Pow2Monotone(g.setShift + 1, k); }
    Pow2Divides(k, g.setShift);
    DivisorFits(addr, nbytes, Pow2(g.setShift - k));
  }

  /** An aligned power-of-two access starting below the top of the address space ends at the
      top or below it, unless it is larger than the whole space. */
  lemma AlignedEnd(addr: nat, nbytes: nat)
    requires addr < WORD64 && IsPow2(nbytes) && addr % nbytes == 0
    ensures nbytes <= WORD64 ==> addr + nbytes <= WORD64
  {
    var k: nat :| nbytes == Pow2(k);
    Pow2Of64();
    if nbytes <= WORD64 {
      if k > 64 { Pow2Monotone(65, k); }
      Pow2Divides(k, 64);
      DivisorFits(addr, nbytes, Pow2(64 - k));
      SmallMod(addr, WORD64);
    }
  }

  lemma BlockBelowTop(g: Geometry, addr: nat)
    requires g.Ok() && addr < WORD64
    ensures g.Block(addr) + g.bsize <= WORD64
  {
    Pow2Of64();
    Pow2Divides(g.setShift, 64);
    BlockAligned(addr, g.bsize);
    DivisorFits(g.Block(addr), g.bsize, Pow2(64 - g.setShift));
    SmallMod(g.Block(addr), WORD64);
  }

  lemma BlockAligned(a: nat, b: nat)
    requires b > 0
    ensures (a - a % b) % b == 0
  {
    DivUnique(a - a % b, b, a / b, 0);
  }

  /** The set index 0x80000 of a cache of 4096-byte blocks: its address comes out with the upper
      half of all ones. */
  lemma FlushAddressMisses()
    ensures var g := Geometry(0x10_0000, 0x1000, 1, LRU, true, 12, 32);
      && g.Ok() && g.Names(BlockId(0, 0x8_0000)) && g.Address(BlockId(0, 0x8_0000)) == 0x8000_0000
      && g.MakeBlockFlushC(0, 0x8_0000) == 0xffff_ffff_8000_0000
  {
    assert Pow2(12) == 0x1000;
    Pow2Add(10, 10);
    assert Pow2(20) == 0x10_0000;
    assert Shl64(0, 32) == 0;
  }

  /** The span check is exact away from the top of the address space: it accepts an aligned
      access if and only if the access fits in its block, unless the block is the last one
      and the access stops short of its end, or the access ends the address space and is
      larger than a block. */
  lemma SpanCheckExact(g: Geometry, addr: nat, nbytes: nat)
    requires g.Ok() && addr < WORD64 && g.bsize <= WORD64
    requires 0 < nbytes <= WORD64 && And(nbytes, nbytes - 1) == 0 && And(addr, nbytes - 1) == 0
    ensures (g.AcceptsC(addr, nbytes) <==> addr + nbytes <= g.Block(addr) + g.bsize)
      <==> !(g.Block(addr) + g.bsize == WORD64 && addr + nbytes < WORD64)
           && !(addr + nbytes == WORD64 && nbytes > g.bsize)
  {
    BlockAsComputed(g, addr);
    AlignedArithmetic(addr, nbytes);
    BlockBelowTop(g, addr);
    AlignedEnd(addr, nbytes);
    if nbytes <= g.bsize {
      AlignedFits(g, addr, nbytes);
    }
    hide And, IsPow2, Pow2;
    SpanCases(addr, nbytes, g.Block(addr), g.bsize);
  }

  lemma SpanCases(addr: nat, n: nat, block: nat, b: nat)
    requires block <= addr < block + b <= WORD64 && 0 < n && addr + n <= WORD64
    requires n <= b ==> addr + n <= block + b
    ensures ((addr + n) % WORD64 <= (block + b) % WORD64 <==> addr + n <= block + b)
      <==> !(block + b == WORD64 && addr + n < WORD64) && !(addr + n == WORD64 && n > b)
  {
  }

  /** Every cache refuses a one-byte access at the start of the last block of the address space,
      although it lies inside the block ... */
  lemma LastBlockRefused(g: Geometry)
    requires g.Ok()
    ensures g.bsize < WORD64 && g.Block(WORD64 - g.bsize) == WORD64 - g.bsize
    ensures !g.AcceptsC(WORD64 - g.bsize, 1)
  {
    var addr := WORD64 - g.bsize;
    TopAligned(g.setShift);
    SmallAnd(addr);
    SpanCheckExact(g, addr, 1);
  }

  lemma SmallAnd(a: nat)
    ensures And(1, 0) == 0 && And(a, 0) == 0
  {
  }

  /** The multiples of a power of two include the end of the address space. */
  lemma TopAligned(k: nat)
    requires k <= 31
    ensures 0 < Pow2(k) < WORD64 && (WORD64 - Pow2(k)) % Pow2(k) == 0
  {
    Pow2Of64();
    Pow2Divides(k, 64);
    Pow2Monotone(k, 31);
    Pow2Of31();
    LessOne(WORD64, Pow2(k), Pow2(64 - k));
  }

  lemma LessOne(a: nat, b: nat, q: nat)
    requires b > 0 && a == b * q && b <= a
    ensures (a - b) % b == 0
  {
    MulDistrib(b, q - 1, 1);
    DivUnique(a - b, b, q - 1, 0);
  }

  /** ... and accepts the last two blocks of the address space as one access. */
  lemma TwoBlocksAccepted(g: Geometry)
    requires g.Ok()
    ensures 2 * g.bsize < WORD64 && g.AcceptsC(WORD64 - 2 * g.bsize, 2 * g.bsize)
  {
    var k := g.setShift + 1;
    var n, addr := 2 * g.bsize, WORD64 - 2 * g.bsize;
    assert n == Pow2(k);
    TopAligned(k);
    PowerOfTwoTest(n);
    AndMask(addr, k);
    assert And(addr, n - 1) == 0;
    assert (addr + n) % WORD64 == 0;
  }

  /** An accepted access is no larger than a block, unless it ends the address space. */
  lemma AcceptedSize(g: Geometry, addr: nat, nbytes: nat)
    requires g.Ok() && addr < WORD64 && g.bsize <= WORD64 && nbytes < INT_LIMIT
    requires g.AcceptsC(addr, nbytes) && addr + nbytes != WORD64
    ensures nbytes <= g.bsize
  {
    if nbytes > 0 {
      SpanCheckExact(g, addr, nbytes);
      BlockBelowTop(g, addr);
    }
  }

  /** An accepted access of at most one block lies inside that block. */
  lemma AcceptedFits(g: Geometry, addr: nat, nbytes: nat)
    requires g.Ok() && addr < WORD64 && g.bsize <= WORD64
    requires nbytes <= g.bsize && g.AcceptsC(addr, nbytes)
    ensures g.Offset(addr) + nbytes <= g.bsize
  {
    if nbytes > 0 {
      AlignedArithmetic(addr, nbytes);
      AlignedFits(g, addr, nbytes);
    }
  }
}
