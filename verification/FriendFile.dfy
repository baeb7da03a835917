/** The friend file of a clone: one bit per block, set once the block is the clone's own
    (scorw_recover_friend_file, scorw_rebuild_friend_file, scorw_set_block_copied_8bytes and
    scorw_is_block_copied of corw_sparse.c).  It is rebuilt in 64-bit words and read in bytes. */
module FriendFile {
  import opened Common
  import opened Clusters
  import opened Extents

  const PAGE_BLOCKS := 32768

  /** The bits of a byte or a word, lowest first; a word lies in memory lowest byte first. */
  type Bits = seq<bool>

  type Pages = map<nat, seq<Bits>>

  function Clear(n: nat): (b: Bits)
    ensures |b| == n && forall i :: 0 <= i < n ==> !b[i]
  {
    seq(n, _ => false)
  }

  predicate IsPage(p: seq<Bits>) {
    |p| == PAGE && forall i :: 0 <= i < |p| ==> |p[i]| == 8
  }

  function ZeroPage(): (p: seq<Bits>)
    ensures IsPage(p) && forall i :: 0 <= i < |p| ==> p[i] == Clear(8)
  {
    seq(PAGE, _ => Clear(8))
  }

  ghost predicate Valid(f: Pages) {
    forall n :: n in f ==> IsPage(f[n])
  }

  /** A page that is not there yet reads as zeros. */
  function Page(f: Pages, n: nat): (p: seq<Bits>)
    requires Valid(f)
    ensures IsPage(p)
  {
    if n in f then f[n] else ZeroPage()
  }

  /** scorw_is_block_copied */
  function IsCopied(f: Pages, b: nat): bool
    requires Valid(f)
  {
    Page(f, b / PAGE_BLOCKS)[b % PAGE_BLOCKS / 8][b % PAGE_BLOCKS % 8]
  }

  /** A word OR-ed into its eight bytes. */
  function OrWord(p: seq<Bits>, w: nat, v: Bits): (p': seq<Bits>)
    requires IsPage(p) && w < PAGE / 8 && |v| == 64
    ensures IsPage(p')
    ensures forall k, j :: 0 <= k < PAGE && 0 <= j < 8 ==>
              (p'[k][j] <==> p[k][j] || (k / 8 == w && v[k % 8 * 8 + j]))
  {
    seq(PAGE, k requires 0 <= k < PAGE =>
      seq(8, j requires 0 <= j < 8 => p[k][j] || (k / 8 == w && v[k % 8 * 8 + j])))
  }

  /** scorw_set_block_copied_8bytes: in terms of blocks, the word's bits are those of the 64 blocks
      around start. */
  method SetWord(f: Pages, start: nat, v: Bits) returns (f': Pages)
    requires Valid(f) && |v| == 64
    ensures Valid(f') && forall b: nat :: IsCopied(f', b) <==> IsCopied(f, b) || (b / 64 == start / 64 && v[b % 64])
  {
    var n := start / PAGE_BLOCKS;
    var at := start % PAGE_BLOCKS;
    f' := f[n := OrWord(Page(f, n), at / 64, v)];
    forall b: nat ensures IsCopied(f', b) <==> IsCopied(f, b) || (b / 64 == start / 64 && v[b % 64]) {
      WordOfBit(b, start);
    }
  }

  /** 512 words to a page, 8 bytes to a word, 8 bits to a byte. */
  lemma Decompose(b: nat) returns (p: nat, w: nat, y: nat, i: nat)
    ensures w < 512 && y < 8 && i < 8 && b / PAGE_BLOCKS == p
    ensures b / 64 == p * 512 + w && b % 64 == y * 8 + i
    ensures b % PAGE_BLOCKS / 64 == w && b % PAGE_BLOCKS / 8 == w * 8 + y && b % PAGE_BLOCKS % 8 == i
  {
    p := b / PAGE_BLOCKS;
    var q := b % PAGE_BLOCKS;
    w := q / 64;
    var x := q % 64;
    y, i := x / 8, x % 8;
    DivUnique(64, b, p * 512 + w, x);
    DivUnique(8, q, w * 8 + y, i);
  }

  /** Byte and bit of a block lie in the word of its 64-block. */
  lemma WordOfBit(b: nat, start: nat)
    ensures b % PAGE_BLOCKS / 8 % 8 * 8 + b % PAGE_BLOCKS % 8 == b % 64
    ensures b / 64 == start / 64 <==>
            b / PAGE_BLOCKS == start / PAGE_BLOCKS && b % PAGE_BLOCKS / 8 / 8 == start % PAGE_BLOCKS / 64
  {
    var p, w, y, i := Decompose(b);
    var p', w', y', i' := Decompose(start);
    DivUnique(8, w * 8 + y, w, y);
    SameWord(p, w, p', w');
  }

  lemma SameWord(p: nat, w: nat, p': nat, w': nat)
    requires w < 512 && w' < 512
    ensures p * 512 + w == p' * 512 + w' <==> p == p' && w == w'
  {
  }

  /** The word for n blocks from bit i on. */
  method WordFor(i: nat, n: nat) returns (v: Bits)
    requires i + n <= 64
    ensures |v| == 64 && forall j :: 0 <= j < 64 ==> (v[j] <==> i <= j < i + n)
  {
    v := Clear(64);
    for bit := i to i + n
      invariant |v| == 64 && forall j :: 0 <= j < 64 ==> (v[j] <==> i <= j < bit)
    {
      v := v[bit := true];
    }
  }

  /** The blocks of one extent, word by word. */
  method SetExtent(f: Pages, lblk: nat, len: nat) returns (f': Pages)
    requires Valid(f)
    ensures Valid(f') && forall b: nat :: IsCopied(f', b) <==> IsCopied(f, b) || lblk <= b < lblk + len
  {
    f' := f;
    var start, pending := lblk, len;
    while pending > 0
      invariant lblk <= start && start + pending == lblk + len && Valid(f')
      invariant forall b: nat :: IsCopied(f', b) <==> IsCopied(f, b) || lblk <= b < start
    {
      var n := if 64 - start % 64 < pending then 64 - start % 64 else pending;
      var v := WordFor(start % 64, n);
      ghost var was := f';
      f' := SetWord(f', start, v);
      forall b: nat ensures IsCopied(f', b) <==> IsCopied(f, b) || lblk <= b < start + n {
        Chunk(b, start, n);
        assert IsCopied(was, b) <==> IsCopied(f, b) || lblk <= b < start;
      }
      start, pending := start + n, pending - n;
    }
  }

  lemma Chunk(b: nat, start: nat, n: nat)
    requires start % 64 + n <= 64
    ensures b / 64 == start / 64 && start % 64 <= b % 64 < start % 64 + n <==> start <= b < start + n
  {
  }

  // ----- rebuilding

  /** The clone has, or will have, data of its own for block b. */
  ghost predicate Own(es: seq<Extent>, b: int) {
    At(es, b).Some? && !At(es, b).value.status.Hole?
  }

  /** One of the first i extents that are not holes covers b. */
  ghost predicate Covered(es: seq<Extent>, i: nat, b: int)
    requires i <= |es|
  {
    i > 0 && (Covered(es, i - 1, b) || (es[i - 1].Covers(b) && !es[i - 1].status.Hole?))
  }

  lemma {:induction false} CoveredOwn(es: seq<Extent>, i: nat, b: int)
    requires Sorted(es) && i <= |es| && Covered(es, i, b)
    ensures Own(es, b)
  {
    if Covered(es, i - 1, b) {
      CoveredOwn(es, i - 1, b);
    } else {
      AtCovered(es, i - 1, b);
    }
  }

  lemma {:induction false} CoveredLater(es: seq<Extent>, k: nat, i: nat, b: int)
    requires k < i <= |es| && es[k].Covers(b) && !es[k].status.Hole?
    ensures Covered(es, i, b)
  {
    if k < i - 1 {
      CoveredLater(es, k, i - 1, b);
    }
  }

  lemma CoveredIsOwn(es: seq<Extent>, b: int)
    requires Sorted(es)
    ensures Covered(es, |es|, b) <==> Own(es, b)
  {
    if Covered(es, |es|, b) {
      CoveredOwn(es, |es|, b);
    }
    if Own(es, b) {
      var k := AtWitness(es, b);
      CoveredLater(es, k, |es|, b);
    }
  }

  /** scorw_rebuild_friend_file, on the clone's extent-status tree. */
  method Rebuild(f: Pages, es: seq<Extent>) returns (f': Pages)
    requires Valid(f) && Sorted(es)
    ensures Valid(f') && forall b: nat :: IsCopied(f', b) <==> IsCopied(f, b) || Own(es, b)
  {
    f' := f;
    var i := 0;
    while i < |es|
      invariant 0 <= i <= |es| && Valid(f')
      invariant forall b: nat :: IsCopied(f', b) <==> IsCopied(f, b) || Covered(es, i, b)
    {
      if !es[i].status.Hole? {
        ghost var was := f';
        f' := SetExtent(f', es[i].lblk, es[i].len);
        forall b: nat ensures IsCopied(f', b) <==> IsCopied(f, b) || Covered(es, i + 1, b) {
          assert IsCopied(was, b) <==> IsCopied(f, b) || Covered(es, i, b);
        }
      } else {
        forall b: nat ensures IsCopied(f', b) <==> IsCopied(f, b) || Covered(es, i + 1, b) {
          assert Covered(es, i + 1, b) <==> Covered(es, i, b);
        }
      }
      i := i + 1;
    }
    forall b: nat ensures Covered(es, |es|, b) <==> Own(es, b) {
      CoveredIsOwn(es, b);
    }
  }

  const PAGE_SPAN := 0x800_0000  // bytes of the clone that one page of bits stands for

  /** scorw_recover_friend_file: pages for a clone of size bytes are zeroed first, so for its blocks the
      bits are exactly those of its own data; bits beyond stay if they were set. */
  method Recovered(f: Pages, es: seq<Extent>, size: nat) returns (f': Pages)
    requires Valid(f) && Sorted(es)
    ensures Valid(f')
    ensures forall b: nat :: IsCopied(f', b) <==> Own(es, b) || (IsCopied(f, b) && b / PAGE_BLOCKS * PAGE_SPAN >= size)
    ensures forall b: nat :: b * 4096 < size ==> (IsCopied(f', b) <==> Own(es, b))
  {
    var pages := if size % PAGE_SPAN == 0 then size / PAGE_SPAN else size / PAGE_SPAN + 1;
    f' := f;
    for i := 0 to pages
      invariant Valid(f')
      invariant forall b: nat :: IsCopied(f', b) <==> IsCopied(f, b) && b / PAGE_BLOCKS >= i
    {
      ghost var was := f';
      f' := f'[i := ZeroPage()];
      forall b: nat ensures IsCopied(f', b) <==> IsCopied(f, b) && b / PAGE_BLOCKS >= i + 1 {
        assert IsCopied(was, b) <==> IsCopied(f, b) && b / PAGE_BLOCKS >= i;
      }
    }
    ghost var zeroed := f';
    f' := Rebuild(f', es);
    forall b: nat ensures IsCopied(f', b) <==> Own(es, b) || (IsCopied(f, b) && b / PAGE_BLOCKS * PAGE_SPAN >= size) {
      assert IsCopied(zeroed, b) <==> IsCopied(f, b) && b / PAGE_BLOCKS >= pages;
    }
  }

  /** The friend inode's page cache. */
  class Friend {
    var pages: Pages

    constructor ()
      ensures Valid(pages) && forall b: nat :: !IsCopied(pages, b)
    {
      pages := map[];
    }

    method Recover(es: seq<Extent>, size: nat)
      requires Valid(pages) && Sorted(es)
      modifies this
      ensures Valid(pages) && forall b: nat :: b * 4096 < size ==> (IsCopied(pages, b) <==> Own(es, b))
      ensures forall b: nat :: IsCopied(pages, b) <==>
          Own(es, b) || (old(IsCopied(pages, b)) && b / PAGE_BLOCKS * PAGE_SPAN >= size)
    {
      pages := Recovered(pages, es, size);
    }
  }
}
