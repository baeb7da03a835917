/** Insertion into the tree, on its in-order sequence: __es_insert_extent and the two attempts to
    merge (extents_status.c). */
module ExtentInsert {
  import opened Common
  import opened Extents
  import opened ExtentEdits

  /** ext4_es_try_to_merge_left; also returns where the node now is. */
  method TryMergeLeft(s: seq<Extent>, k: nat) returns (t: seq<Extent>, k': nat)
    requires Sorted(s) && k < |s| && MergedBut(s, {k})
    ensures Sorted(t) && Merged(t) && SameMap(s, t)
    ensures k' < |t| && (k' == k || (k' == k - 1 && s[k'].End() + 1 == s[k].lblk))
    ensures forall i :: 0 <= i < k' ==> t[i] == s[i]
  {
    t, k' := s, k;
    if k > 0 && CanMerge(s[k - 1], s[k]) {
      var es1 := s[k - 1];
      es1 := es1.(len := es1.len + s[k].len, referenced := es1.referenced || s[k].referenced);
      GluedSorted(s, k - 1, es1);
      GluedAt(s, k - 1, es1);
      GluedMerged(s, k - 1, es1, {k}, {});
      t, k' := Glued(s, k - 1, es1), k - 1;
    }
  }

  /** ext4_es_try_to_merge_right */
  method TryMergeRight(s: seq<Extent>, k: nat) returns (t: seq<Extent>)
    requires Sorted(s) && k < |s| && MergedBut(s, {k + 1})
    ensures Sorted(t) && Merged(t) && SameMap(s, t)
    ensures k < |t| && forall i :: 0 <= i < k ==> t[i] == s[i]
  {
    t := s;
    if k + 1 < |s| && CanMerge(s[k], s[k + 1]) {
      var es := s[k];
      es := es.(len := es.len + s[k + 1].len, referenced := es.referenced || s[k + 1].referenced);
      GluedSorted(s, k, es);
      GluedAt(s, k, es);
      GluedMerged(s, k, es, {k + 1}, {});
      t := Glued(s, k, es);
    }
  }

  /** The new extent is contiguous with its right neighbour k. */
  method GrowLeft(s: seq<Extent>, newes: Extent, k: nat) returns (t: seq<Extent>, k': nat)
    requires Sorted(s) && Merged(s) && newes.Valid() && Apart(s, newes)
    requires k < |s| && CanMerge(newes, s[k])
    ensures Sorted(t) && Merged(t) && k' < |t| && Updated(s, t, newes) && FarLeftKept(s, t, newes)
  {
    var es := s[k].(lblk := newes.lblk, len := s[k].len + newes.len);
    if es.Mapped() {
      es := es.(pblk := newes.pblk);
    }
    GrownLeft(s, k, newes, es);
    t, k' := TryMergeLeft(s[k := es], k);
  }

  /** The new extent is contiguous with its left neighbour k. */
  method GrowRight(s: seq<Extent>, newes: Extent, k: nat) returns (t: seq<Extent>)
    requires Sorted(s) && Merged(s) && newes.Valid() && Apart(s, newes)
    requires k < |s| && CanMerge(s[k], newes)
    ensures Sorted(t) && Merged(t) && k < |t| && Updated(s, t, newes) && FarLeftKept(s, t, newes)
  {
    var es := s[k].(len := s[k].len + newes.len);
    GrownRight(s, k, newes, es);
    t := TryMergeRight(s[k := es], k);
  }

  datatype Place = Gap | RightOf | LeftOf

  lemma AllRight(s: seq<Extent>, e: Extent, k: nat)
    requires Sorted(s) && Apart(s, e) && k < |s| && e.lblk < s[k].lblk
    ensures forall i :: k <= i < |s| ==> e.End() < s[i].lblk
  {
    assert s[k].Valid() && e.End() < s[k].lblk;
  }

  lemma AllLeft(s: seq<Extent>, e: Extent, k: nat)
    requires Sorted(s) && k < |s| && s[k].End() < e.lblk
    ensures forall i :: 0 <= i <= k ==> s[i].End() < e.lblk
  {
    forall i | 0 <= i < k ensures s[i].End() < e.lblk {
      assert s[i].End() < s[k].lblk && s[k].Valid();
    }
  }

  /** The extent goes between lo and hi, and merges with neither side of the window. */
  ghost predicate Window(s: seq<Extent>, e: Extent, lo: nat, hi: nat) {
    && lo <= hi <= |s|
    && (forall i :: 0 <= i < lo ==> s[i].End() < e.lblk) && (forall i :: hi <= i < |s| ==> e.End() < s[i].lblk)
    && (lo > 0 ==> !CanMerge(s[lo - 1], e)) && (hi < |s| ==> !CanMerge(e, s[hi]))
  }

  lemma Narrow(s: seq<Extent>, e: Extent, lo: nat, hi: nat, mid: nat)
    requires Sorted(s) && e.Valid() && Apart(s, e) && Window(s, e, lo, hi) && lo <= mid < hi
    ensures e.lblk < s[mid].lblk && !CanMerge(e, s[mid]) ==> Window(s, e, lo, mid)
    ensures e.lblk >= s[mid].lblk ==> e.lblk > s[mid].End()
    ensures e.lblk >= s[mid].lblk && !CanMerge(s[mid], e) ==> Window(s, e, mid + 1, hi)
  {
    if e.lblk < s[mid].lblk {
      AllRight(s, e, mid);
    } else {
      assert s[mid].End() < e.lblk;
      AllLeft(s, e, mid);
    }
  }

  /** The descent of __es_insert_extent: it stops at a neighbour the new extent merges with, or in
      the gap where the extent goes. */
  method Descend(s: seq<Extent>, newes: Extent) returns (k: nat, place: Place)
    requires Sorted(s) && newes.Valid() && Apart(s, newes)
    ensures place == LeftOf ==> k < |s| && CanMerge(newes, s[k])
    ensures place == RightOf ==> k < |s| && CanMerge(s[k], newes)
    ensures place == Gap ==>
              && Fits(s, k, newes)
              && (k > 0 ==> !CanMerge(s[k - 1], newes))
              && (k < |s| ==> !CanMerge(newes, s[k]))
  {
    var lo: nat, hi: nat := 0, |s|;
    while lo < hi
      invariant Window(s, newes, lo, hi)
    {
      var mid :| lo <= mid < hi;
      Narrow(s, newes, lo, hi, mid);
      if newes.lblk < s[mid].lblk {
        if CanMerge(newes, s[mid]) {
          return mid, LeftOf;
        }
        hi := mid;
      } else {
        assert newes.lblk > s[mid].End();  // otherwise BUG()
        if CanMerge(s[mid], newes) {
          return mid, RightOf;
        }
        lo := mid + 1;
      }
    }
    return lo, Gap;
  }

  /** __es_insert_extent; k is the node that now holds the new blocks. */
  method InsertInto(s: seq<Extent>, newes: Extent) returns (t: seq<Extent>, k: nat)
    requires Sorted(s) && Merged(s) && newes.Valid()
    requires forall b :: newes.Covers(b) ==> At(s, b) == None
    ensures Sorted(t) && Merged(t) && k < |t|
    ensures Updated(s, t, newes) && FarLeftKept(s, t, newes)
  {
    AllApart(s, newes);
    var place;
    k, place := Descend(s, newes);
    match place
    case LeftOf =>
      t, k := GrowLeft(s, newes, k);
    case RightOf =>
      t := GrowRight(s, newes, k);
    case Gap =>
      PutBetween(s, k, newes);
      t := Inserted(s, k, newes);
  }
}
