/** Status extents and the partial map from blocks to (status, physical block) that a sorted
    list of them stands for (extents_status.h and the merge rule of extents_status.c). */
module Extents {
  import opened Common
  import opened Clusters

  /** EXTENT_STATUS_*: the type bits are exclusive, so a type is one of four. */
  datatype Status = Written | Unwritten | Delayed | Hole

  /** EXT_MAX_BLOCKS: block numbers are 0 .. 0xfffffffe. */
  const MAX_BLOCKS: nat := 0xffff_ffff

  /** ES_SHIFT leaves 59 bits of es_pblk for the physical block. */
  const PBLK_LIMIT: nat := 0x800_0000_0000_0000

  /** struct extent_status, with the flag bits of es_pblk unpacked. */
  datatype Extent = Extent(lblk: nat, len: nat, pblk: nat, status: Status, referenced: bool) {

    predicate Mapped() {
      status.Written? || status.Unwritten?
    }

    /** ext4_es_end */
    function End(): int {
      lblk + len - 1
    }

    predicate Valid() {
      && 1 <= len && lblk + len <= MAX_BLOCKS
      && pblk < PBLK_LIMIT
      && (Mapped() ==> pblk + len <= PBLK_LIMIT)
    }

    predicate Covers(b: int) {
      lblk <= b <= End()
    }

    /** What the extent says about a block it covers. */
    function CellAt(b: int): Cell
      requires Covers(b)
    {
      Cell(status, if Mapped() then pblk + (b - lblk) else 0)
    }
  }

  /** A block's status and, when it is mapped, its physical block (0 otherwise: es_pblk of a
      delayed or hole extent carries no information). */
  datatype Cell = Cell(status: Status, pblk: nat)

  /** The tree read in order: valid extents, sorted and disjoint. */
  ghost predicate Sorted(s: seq<Extent>) {
    && (forall i :: 0 <= i < |s| ==> s[i].Valid())
    && (forall i, j :: 0 <= i < j < |s| ==> s[i].End() < s[j].lblk)
  }

  /** The partial map the tree stands for. */
  ghost function At(s: seq<Extent>, b: int): Option<Cell> {
    if s == [] then None
    else if s[0].Covers(b) then Some(s[0].CellAt(b))
    else At(s[1..], b)
  }

  ghost predicate IsDelayed(s: seq<Extent>, b: int) {
    At(s, b).Some? && At(s, b).value.status == Delayed
  }

  lemma {:induction false} AtConcat(s: seq<Extent>, t: seq<Extent>, b: int)
    ensures At(s + t, b) == if At(s, b).Some? then At(s, b) else At(t, b)
  {
    if s == [] {
      assert s + t == t;
    } else {
      assert (s + t)[1..] == s[1..] + t;
      AtConcat(s[1..], t, b);
    }
  }

  lemma {:induction false} AtAbsent(s: seq<Extent>, b: int)
    requires forall i :: 0 <= i < |s| ==> !s[i].Covers(b)
    ensures At(s, b) == None
  {
    if s != [] {
      assert forall i :: 0 <= i < |s[1..]| ==> s[1..][i] == s[i + 1];
      AtAbsent(s[1..], b);
    }
  }

  lemma {:induction false} AtCovered(s: seq<Extent>, k: nat, b: int)
    requires Sorted(s) && k < |s| && s[k].Covers(b)
    ensures At(s, b) == Some(s[k].CellAt(b))
  {
    if k > 0 {
      assert !s[0].Covers(b);
      AtCovered(s[1..], k - 1, b);
    }
  }

  lemma {:induction false} AtWitness(s: seq<Extent>, b: int) returns (k: nat)
    requires At(s, b).Some?
    ensures k < |s| && s[k].Covers(b) && At(s, b) == Some(s[k].CellAt(b))
  {
    if s[0].Covers(b) {
      k := 0;
    } else {
      k := AtWitness(s[1..], b);
      k := k + 1;
    }
  }

  /** Three-way concatenation: what a local edit needs. */
  lemma AtConcat3(a: seq<Extent>, m: seq<Extent>, c: seq<Extent>, b: int)
    ensures At(a + m + c, b) ==
            if At(a, b).Some? then At(a, b) else if At(m, b).Some? then At(m, b) else At(c, b)
  {
    AtConcat(a + m, c, b);
    AtConcat(a, m, b);
  }

  /** A replacement in the middle that says the same as what it replaces changes nothing. */
  lemma SameMiddle(a: seq<Extent>, m: seq<Extent>, m': seq<Extent>, c: seq<Extent>)
    requires forall b :: At(m, b) == At(m', b)
    ensures forall b :: At(a + m + c, b) == At(a + m' + c, b)
  {
    forall b ensures At(a + m + c, b) == At(a + m' + c, b) {
      AtConcat3(a, m, c, b);
      AtConcat3(a, m', c, b);
    }
  }

  /** ext4_es_can_be_merged */
  predicate CanMerge(e1: Extent, e2: Extent) {
    && e1.status == e2.status
    && e1.len + e2.len <= MAX_BLOCKS
    && e1.lblk + e1.len == e2.lblk
    && (e1.Mapped() ==> e1.pblk + e1.len == e2.pblk)
  }

  /** No two neighbours could still be merged. */
  ghost predicate Merged(s: seq<Extent>) {
    forall i :: 0 < i < |s| ==> !CanMerge(s[i - 1], s[i])
  }

  /** Gluing two mergeable extents keeps what every block is told. */
  lemma MergeKeepsCells(e1: Extent, e2: Extent, e: Extent)
    requires e1.Valid() && e2.Valid() && CanMerge(e1, e2)
    requires e.lblk == e1.lblk && e.len == e1.len + e2.len && e.status == e1.status
    requires e.Mapped() ==> e.pblk == e1.pblk
    requires e.pblk < PBLK_LIMIT
    ensures e.Valid()
    ensures forall b :: At([e], b) == At([e1, e2], b)
  {
    forall b ensures At([e], b) == At([e1, e2], b) {
      assert [e1, e2][1..] == [e2];
      assert [e2][1..] == [] && [e][1..] == [];
    }
  }

  // ----- the clusters that hold delayed blocks

  /** Clusters of delayed blocks. */
  ghost function DelayedClusters(r: nat, s: seq<Extent>): set<nat>
    requires r >= 1
  {
    set b: nat | b < MAX_BLOCKS && IsDelayed(s, b) :: B2C(r, b)
  }

  /** Clusters of delayed blocks in lo .. hi-1. */
  ghost function DelayedIn(r: nat, s: seq<Extent>, lo: nat, hi: nat): set<nat>
    requires r >= 1
  {
    set b: nat | lo <= b < hi && IsDelayed(s, b) :: B2C(r, b)
  }

  lemma DelayedBounded(s: seq<Extent>, b: int)
    requires Sorted(s) && At(s, b).Some?
    ensures 0 <= b < MAX_BLOCKS
  {
    var k := AtWitness(s, b);
  }

  /** A run of delayed blocks after everything seen so far adds exactly its span. */
  lemma DelayedRun(r: nat, s: seq<Extent>, lo: nat, mid: nat, i: nat, e: nat)
    requires r >= 1 && lo <= mid <= i <= e
    requires forall b: nat :: mid <= b < i ==> !IsDelayed(s, b)
    requires forall b: nat :: i <= b <= e ==> IsDelayed(s, b)
    ensures DelayedIn(r, s, lo, e + 1) == DelayedIn(r, s, lo, mid) + Span(r, i, e)
  {
    var l, t := DelayedIn(r, s, lo, e + 1), DelayedIn(r, s, lo, mid) + Span(r, i, e);
    forall c | c in l ensures c in t {
      var b: nat :| lo <= b < e + 1 && IsDelayed(s, b) && B2C(r, b) == c;
      if b >= mid {
        B2CMono(r, i, b);
        B2CMono(r, b, e);
      }
    }
    forall c | c in t ensures c in l {
      if c in Span(r, i, e) {
        var b := SpanWitness(r, i, e, c);
        assert IsDelayed(s, b);
      }
    }
  }

  /** A stretch without delayed blocks adds nothing. */
  lemma DelayedGap(r: nat, s: seq<Extent>, lo: nat, mid: nat, hi: nat)
    requires r >= 1 && lo <= mid <= hi
    requires forall b: nat :: mid <= b < hi ==> !IsDelayed(s, b)
    ensures DelayedIn(r, s, lo, hi) == DelayedIn(r, s, lo, mid)
  {
  }
}
