/** The copy step of a cache access, which moves 1, 2 or 4 bytes at once and larger sizes a
    4-byte word at a time. */
module CacheCopy {
  import opened Bits
  import opened CacheSpec

  /** Sizes the copy step moves completely. */
  predicate Copyable(nbytes: nat) {
    nbytes == 1 || nbytes == 2 || nbytes % 4 == 0
  }

  /** Every size that passes the power-of-two test is copied completely. */
  lemma PowersCopyable(nbytes: nat)
    requires nbytes == 0 || And(nbytes, nbytes - 1) == 0
    ensures Copyable(nbytes)
  {
    if nbytes > 0 {
      PowerOfTwoTest(nbytes);
      var k: nat :| nbytes == Pow2(k);
      if k >= 2 {
        assert Pow2(k) == 2 * Pow2(k - 1) && Pow2(k - 1) == 2 * Pow2(k - 2);
      }
    }
  }

  /** Copy out of a block, for a read. */
  method CopyOut(data: seq<Byte>, bofs: nat, nbytes: nat) returns (p: seq<Byte>)
    requires bofs + nbytes <= |data| && Copyable(nbytes)
    ensures p == data[bofs..bofs + nbytes]
  {
    if nbytes == 1 {
      p := [data[bofs]];
    } else if nbytes == 2 {
      p := data[bofs..bofs + 2];
    } else if nbytes == 4 {
      p := data[bofs..bofs + 4];
    } else {
      p := [];
      var words := nbytes / 4;
      while words > 0
        invariant 0 <= words && 4 * words + |p| == nbytes && p == data[bofs..bofs + |p|]
      {
        var at := bofs + |p|;
        p := p + data[at..at + 4];
        words := words - 1;
      }
    }
  }

  /** Copy into a block, for a write. */
  method CopyIn(data: seq<Byte>, bofs: nat, p: seq<Byte>) returns (d: seq<Byte>)
    requires bofs + |p| <= |data| && Copyable(|p|)
    ensures d == Patch(data, bofs, p)
  {
    if |p| == 1 {
      d := data[bofs := p[0]];
    } else if |p| == 2 {
      d := data[bofs := p[0]][bofs + 1 := p[1]];
    } else {
      d := data;
      var done := 0;
      var words := |p| / 4;
      while words > 0
        invariant 0 <= words && 0 <= done && 4 * words + done == |p| && d == Patch(data, bofs, p[..done])
      {
        var at := bofs + done;
        d := d[..at] + p[done..done + 4] + d[at + 4..];
        done := done + 4;
        words := words - 1;
      }
      assert p[..done] == p;
    }
  }
}
