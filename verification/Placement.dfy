/** Where scorw_write_see_thru_ro appends a write (corw_sparse.c). */
module Placement {
  import opened Common

  /** The first block at or after the end of the file: append_pos / PAGE_SIZE. */
  function AppendBlock(size: nat): nat {
    (size + PAGE - 1) / PAGE
  }

  /** A value stored in a C int, read back as unsigned. */
  function Low32(x: int): nat {
    x % 0x1_0000_0000
  }

  /** nr_blk: both block numbers pass through an int, and the difference is unsigned. */
  function NrBlocks(pos: nat, count: nat): nat {
    Low32(Low32((pos + count - 1) / PAGE) - Low32(pos / PAGE) + 1)
  }

  /** Blocks that count bytes from offset `off` of a page touch. */
  function Touched(off: nat, count: nat): nat {
    (off + count + PAGE - 1) / PAGE
  }

  /** The 32-bit truncation cancels out, at any position, exactly if the number of blocks itself fits. */
  lemma NrBlocksExact(pos: nat, count: nat)
    requires 1 <= count
    ensures NrBlocks(pos, count) == Touched(pos % PAGE, count) <==> Touched(pos % PAGE, count) < 0x1_0000_0000
    ensures Touched(pos % PAGE, count) >= 1
  {
    var q, off := pos / PAGE, pos % PAGE;
    assert pos == q * PAGE + off;
    var z := (pos + count - 1) / PAGE;
    assert z - q + 1 == Touched(off, count);
    LowDiff(z, q);
  }

  /** A write of 2^32 blocks counts as none. */
  lemma NrBlocksWraps()
    ensures NrBlocks(0, 0x1000_0000_0000) == 0 && Touched(0, 0x1000_0000_0000) == 0x1_0000_0000
  {
    assert (0x1000_0000_0000 - 1) / PAGE == 0xffff_ffff;
  }

  lemma LowDiff(z: nat, q: nat)
    ensures Low32(Low32(z) - Low32(q) + 1) == Low32(z - q + 1)
  {
    var m := 0x1_0000_0000;
    assert z == (z / m) * m + z % m;
    assert q == (q / m) * m + q % m;
    assert z - q + 1 == (z / m - q / m) * m + (z % m - q % m + 1);
  }

  /** If n bytes of the write reach the file, the next append starts right after this write's
      blocks exactly when the data reaches into the last of them; then ranges never overlap. */
  lemma NextAppend(size: nat, pos: nat, count: nat, n: nat)
    requires 1 <= count && n <= count
    ensures var p, off, len := AppendBlock(size), pos % PAGE, Touched(pos % PAGE, count);
            var written := p * PAGE + off + n;
            var size' := if n > 0 && written > size then written else size;
            && AppendBlock(size') <= p + len
            && (AppendBlock(size') == p + len <==> n > 0 && off + n > (len - 1) * PAGE)
  {
  }
}
