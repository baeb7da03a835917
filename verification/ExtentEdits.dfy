/** The two edits every insertion is made of: putting an extent into a gap and gluing two
    neighbours.  Both are stated on the list, on the map it stands for, and on what can still merge. */
module ExtentEdits {
  import opened Common
  import opened Extents

  function Inserted(s: seq<Extent>, k: nat, e: Extent): seq<Extent>
    requires k <= |s|
  {
    s[..k] + [e] + s[k..]
  }

  /** Extents k and k+1 replaced by e. */
  function Glued(s: seq<Extent>, k: nat, e: Extent): seq<Extent>
    requires k + 1 < |s|
  {
    s[..k] + [e] + s[k + 2..]
  }

  /** e lies in the gap before extent k. */
  ghost predicate Fits(s: seq<Extent>, k: nat, e: Extent) {
    && k <= |s|
    && (forall i :: 0 <= i < k ==> s[i].End() < e.lblk)
    && (forall i :: k <= i < |s| ==> e.End() < s[i].lblk)
  }

  /** e says what e1 and e2 said. */
  predicate Joins(e1: Extent, e2: Extent, e: Extent) {
    && e.lblk == e1.lblk && e.len == e1.len + e2.len && e.status == e1.status
    && (e.Mapped() ==> e.pblk == e1.pblk) && e.pblk < PBLK_LIMIT
  }

  /** Only the pairs that end at a listed position may still be mergeable. */
  ghost predicate MergedBut(s: seq<Extent>, at: set<int>) {
    forall i :: 0 < i < |s| && i !in at ==> !CanMerge(s[i - 1], s[i])
  }

  /** The map of t is the map of s with the blocks of e replaced. */
  ghost predicate Updated(s: seq<Extent>, t: seq<Extent>, e: Extent) {
    forall b :: At(t, b) == if e.Covers(b) then Some(e.CellAt(b)) else At(s, b)
  }

  ghost predicate SameMap(s: seq<Extent>, t: seq<Extent>) {
    forall b :: At(t, b) == At(s, b)
  }

  /** Extents left of e and not touching it stay where they are. */
  ghost predicate FarLeftKept(s: seq<Extent>, t: seq<Extent>, e: Extent) {
    forall i :: 0 <= i < |s| && s[i].End() + 1 < e.lblk ==> i < |t| && t[i] == s[i]
  }

  lemma InsertedSorted(s: seq<Extent>, k: nat, e: Extent)
    requires Sorted(s) && e.Valid() && Fits(s, k, e)
    ensures Sorted(Inserted(s, k, e))
    ensures Merged(s) ==> MergedBut(Inserted(s, k, e), {k, k + 1})
  {
    var t := Inserted(s, k, e);
    assert forall i :: 0 <= i < |t| ==> t[i] == if i < k then s[i] else if i == k then e else s[i - 1];
  }

  lemma InsertedAt(s: seq<Extent>, k: nat, e: Extent)
    requires Sorted(s) && e.Valid() && Fits(s, k, e)
    ensures forall b :: At(Inserted(s, k, e), b) == if e.Covers(b) then Some(e.CellAt(b)) else At(s, b)
  {
    forall b ensures At(Inserted(s, k, e), b) == if e.Covers(b) then Some(e.CellAt(b)) else At(s, b) {
      AtConcat3(s[..k], [e], s[k..], b);
      AtConcat(s[..k], s[k..], b);
      assert s == s[..k] + s[k..];
      assert [e][1..] == [];
      if e.Covers(b) {
        AtAbsent(s[..k], b);
      }
    }
  }

  lemma GluedSorted(s: seq<Extent>, k: nat, e: Extent)
    requires Sorted(s) && k + 1 < |s| && CanMerge(s[k], s[k + 1]) && Joins(s[k], s[k + 1], e)
    ensures e.Valid() && Sorted(Glued(s, k, e))
  {
    MergeKeepsCells(s[k], s[k + 1], e);
    var t := Glued(s, k, e);
    assert forall i :: 0 <= i < |t| ==> t[i] == if i < k then s[i] else if i == k then e else s[i + 1];
  }

  lemma GluedAt(s: seq<Extent>, k: nat, e: Extent)
    requires Sorted(s) && k + 1 < |s| && CanMerge(s[k], s[k + 1]) && Joins(s[k], s[k + 1], e)
    ensures forall b :: At(Glued(s, k, e), b) == At(s, b)
  {
    MergeKeepsCells(s[k], s[k + 1], e);
    SameMiddle(s[..k], [s[k], s[k + 1]], [e], s[k + 2..]);
    assert s == s[..k] + [s[k], s[k + 1]] + s[k + 2..];
  }

  /** Gluing removes the pair from the open positions and shifts the later ones. */
  lemma GluedMerged(s: seq<Extent>, k: nat, e: Extent, at: set<int>, at': set<int>)
    requires Sorted(s) && k + 1 < |s| && CanMerge(s[k], s[k + 1]) && Joins(s[k], s[k + 1], e)
    requires MergedBut(s, at)
    requires forall i :: i in at && i <= k ==> i in at'
    requires forall i {:trigger i in at} :: i in at && k + 2 <= i ==> i - 1 in at'
    ensures MergedBut(Glued(s, k, e), at')
  {
    var t := Glued(s, k, e);
    forall i | 0 < i < |t| && i !in at' ensures !CanMerge(t[i - 1], t[i]) {
      if i <= k {
        assert !CanMerge(s[i - 1], s[i]);
      } else {
        assert i + 1 !in at;
        assert !CanMerge(s[i], s[i + 1]);
      }
    }
  }

  /** When no block of e is known, e fits somewhere, next to no overlapping extent. */
  lemma Disjoint(s: seq<Extent>, e: Extent, i: nat)
    requires Sorted(s) && e.Valid() && i < |s|
    requires forall b :: e.Covers(b) ==> At(s, b) == None
    ensures s[i].End() < e.lblk || e.End() < s[i].lblk
  {
    if s[i].End() >= e.lblk && e.End() >= s[i].lblk {
      var b := if s[i].lblk <= e.lblk then e.lblk else s[i].lblk;
      AtCovered(s, i, b);
      assert e.Covers(b);
    }
  }

  ghost predicate Apart(s: seq<Extent>, e: Extent) {
    forall i :: 0 <= i < |s| ==> s[i].End() < e.lblk || e.End() < s[i].lblk
  }

  lemma AllApart(s: seq<Extent>, e: Extent)
    requires Sorted(s) && e.Valid()
    requires forall b :: e.Covers(b) ==> At(s, b) == None
    ensures Apart(s, e)
  {
    forall i | 0 <= i < |s| ensures s[i].End() < e.lblk || e.End() < s[i].lblk {
      Disjoint(s, e, i);
    }
  }

  /** A new extent absorbed by its right neighbour k: as if it were put in and glued. */
  lemma GrownLeft(s: seq<Extent>, k: nat, e: Extent, es: Extent)
    requires Sorted(s) && Merged(s) && e.Valid() && Apart(s, e)
    requires k < |s| && CanMerge(e, s[k]) && Joins(e, s[k], es)
    ensures Sorted(s[k := es]) && MergedBut(s[k := es], {k})
    ensures forall b :: At(s[k := es], b) == if e.Covers(b) then Some(e.CellAt(b)) else At(s, b)
  {
    var plain := Inserted(s, k, e);
    InsertedSorted(s, k, e);
    InsertedAt(s, k, e);
    GluedSorted(plain, k, es);
    GluedAt(plain, k, es);
    GluedMerged(plain, k, es, {k, k + 1}, {k});
    assert s[k := es] == Glued(plain, k, es);
  }

  /** A new extent absorbed by its left neighbour k. */
  lemma GrownRight(s: seq<Extent>, k: nat, e: Extent, es: Extent)
    requires Sorted(s) && Merged(s) && e.Valid() && Apart(s, e)
    requires k < |s| && CanMerge(s[k], e) && Joins(s[k], e, es)
    ensures Sorted(s[k := es]) && MergedBut(s[k := es], {k + 1})
    ensures forall b :: At(s[k := es], b) == if e.Covers(b) then Some(e.CellAt(b)) else At(s, b)
  {
    var plain := Inserted(s, k + 1, e);
    InsertedSorted(s, k + 1, e);
    InsertedAt(s, k + 1, e);
    GluedSorted(plain, k, es);
    GluedAt(plain, k, es);
    GluedMerged(plain, k, es, {k + 1, k + 2}, {k + 1});
    assert s[k := es] == Glued(plain, k, es);
  }

  lemma PutMerged(s: seq<Extent>, k: nat, e: Extent)
    requires Merged(s) && k <= |s|
    requires k > 0 ==> !CanMerge(s[k - 1], e)
    requires k < |s| ==> !CanMerge(e, s[k])
    ensures Merged(Inserted(s, k, e))
  {
    var t := Inserted(s, k, e);
    forall i | 0 < i < |t| ensures !CanMerge(t[i - 1], t[i]) {
      if i < k {
        assert !CanMerge(s[i - 1], s[i]);
      } else if i > k + 1 {
        assert !CanMerge(s[i - 2], s[i - 1]);
      }
    }
  }

  lemma PutKept(s: seq<Extent>, k: nat, e: Extent)
    requires Fits(s, k, e) && (forall i :: k <= i < |s| ==> s[i].len >= 1) && e.len >= 1
    ensures FarLeftKept(s, Inserted(s, k, e), e)
  {
  }

  /** A new extent that merges with neither neighbour. */
  lemma PutBetween(s: seq<Extent>, k: nat, e: Extent)
    requires Sorted(s) && Merged(s) && e.Valid() && Fits(s, k, e)
    requires k > 0 ==> !CanMerge(s[k - 1], e)
    requires k < |s| ==> !CanMerge(e, s[k])
    ensures Sorted(Inserted(s, k, e)) && Merged(Inserted(s, k, e))
    ensures Updated(s, Inserted(s, k, e), e) && FarLeftKept(s, Inserted(s, k, e), e)
  {
    PutMerged(s, k, e);
    PutKept(s, k, e);
    InsertedSorted(s, k, e);
    InsertedAt(s, k, e);
  }
}
