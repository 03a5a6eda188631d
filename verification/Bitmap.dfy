/** The allocation bitmap, one bit per cluster in 64-bit words, and the first-fit search
    over it that skips full words. */
module Bitmaps {

  /** Number of the first data cluster; bit `i` of the bitmap stands for cluster `i + 2`. */
  const FIRST_DATA_CLUSTER: nat := 2

  /** The marker that ends a FAT chain, also returned when no free cluster is left. */
  const CLUSTER_END: nat := 0xffff_ffff

  /** Clusters are numbered below the reserved markers. */
  const MAX_CLUSTER_COUNT: nat := 0xffff_fff5

  function Min(a: int, b: int): int {
    if a < b then a else b
  }

  function Max(a: int, b: int): int {
    if a > b then a else b
  }

  ghost predicate AllSet(bits: seq<bool>, from: int, to: int)
    requires 0 <= from && to <= |bits|
  {
    forall i | from <= i < to :: bits[i]
  }

  /** A bitmap of `size` bits stored in whole words: the storage is a multiple of 64 bits
      long, and the padding after the last used bit holds anything. */
  class Bitmap {
    const chunk: array<bool>
    const size: nat

    ghost predicate Valid() {
      size <= chunk.Length && chunk.Length % 64 == 0
    }

    ghost function Bits(): (b: seq<bool>)
      requires Valid()
      reads chunk
      ensures |b| == size
    {
      chunk[..size]
    }

    /** All bits clear, as `calloc` leaves them. */
    constructor (size: nat)
      ensures Valid() && fresh(chunk) && this.size == size
      ensures Bits() == seq(size, i => false)
    {
      this.size := size;
      chunk := new bool[(size + 63) / 64 * 64](i => false);
    }

    method Get(i: nat) returns (b: bool)
      requires Valid() && i < size
      ensures b == Bits()[i]
    {
      b := chunk[i];
    }

    method Clear(i: nat)
      requires Valid() && i < size
      modifies chunk
      ensures Bits() == old(Bits())[i := false]
    {
      chunk[i] := false;
    }

    /** Word `w` has all its 64 bits set. */
    predicate FullWord(w: nat)
      requires Valid() && 64 * w + 64 <= chunk.Length
      reads chunk
    {
      forall i | 64 * w <= i < 64 * w + 64 :: chunk[i]
    }

    /** First fit in `start .. end`: sets the lowest clear bit and returns its cluster, or
        changes nothing and returns the end marker when every bit there is set. */
    method FindBitAndSet(start: nat, end: nat) returns (cluster: nat)
      requires Valid() && end <= size <= MAX_CLUSTER_COUNT
      modifies chunk
      ensures cluster == CLUSTER_END ==> AllSet(old(Bits()), start, end) && Bits() == old(Bits())
      ensures cluster != CLUSTER_END ==>
                var c := cluster - FIRST_DATA_CLUSTER;
                && start <= c < end
                && AllSet(old(Bits()), start, c)
                && !old(Bits())[c]
                && Bits() == old(Bits())[c := true]
    {
      var i := start / 64;
      var endIndex := (end + 63) / 64;
      while i < endIndex
        invariant Bits() == old(Bits())
        invariant AllSet(Bits(), start, Min(64 * i, end))
      {
        if FullWord(i) {
          i := i + 1;
          continue;
        }
        var c := Max(i * 64, start);
        var endBit := Min((i + 1) * 64, end);
        while c < endBit
          invariant start <= c
          invariant Bits() == old(Bits())
          invariant AllSet(Bits(), start, Min(c, end))
        {
          if !chunk[c] {
            chunk[c] := true;
            return c + FIRST_DATA_CLUSTER;
          }
          c := c + 1;
        }
        i := i + 1;
      }
      return CLUSTER_END;
    }
  }
}
