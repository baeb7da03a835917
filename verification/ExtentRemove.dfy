/** __es_remove_extent on the tree's in-order sequence (extents_status.c). */
module ExtentRemove {
  import opened Common
  import opened Clusters
  import opened Extents
  import opened ExtentCuts
  import opened ExtentEdits
  import opened ExtentInsert
  import opened Release
  import opened Reservations

  /** The map of t is the map of s without the blocks lblk .. end. */
  ghost predicate Erased(s: seq<Extent>, t: seq<Extent>, lblk: nat, end: nat) {
    forall b :: At(t, b) == if lblk <= b <= end then None else At(s, b)
  }

  /** The tally covers the delayed blocks of lo .. pos-1. */
  ghost predicate Progress(r: nat, s: seq<Extent>, rc: Rsvd, lo: nat, pos: nat)
    requires r >= 1
  {
    && Tracks(r, rc, DelayedIn(r, s, lo, pos))
    && (r > 1 && rc.found ==> lo <= rc.first <= rc.last < pos)
  }

  lemma SeenExtent(r: nat, s: seq<Extent>, j: nat, lo: nat, mid: nat, i: nat, e: nat)
    requires r >= 1 && Sorted(s) && j < |s| && lo <= mid <= i <= e && s[j].Covers(i) && s[j].Covers(e)
    requires forall x :: 0 <= x < j ==> s[x].End() < mid
    requires mid < i ==> i == s[j].lblk
    ensures DelayedIn(r, s, lo, e + 1) ==
            DelayedIn(r, s, lo, mid) + (if s[j].status == Delayed then Span(r, i, e) else {})
  {
    forall b: nat | mid <= b < i ensures !IsDelayed(s, b) {
      AtAbsent(s, b);
    }
    forall b: nat | i <= b <= e ensures IsDelayed(s, b) <==> s[j].status == Delayed {
      AtCovered(s, j, b);
    }
    if s[j].status == Delayed {
      DelayedRun(r, s, lo, mid, i, e);
    } else {
      DelayedGap(r, s, lo, mid, e + 1);
    }
  }

  lemma UnitSeen(s: seq<Extent>, lo: nat, pos: nat)
    ensures forall c :: c in DelayedIn(1, s, lo, pos) ==> lo <= c < pos
  {
    forall c | c in DelayedIn(1, s, lo, pos) ensures lo <= c < pos {
      var b: nat :| lo <= b < pos && IsDelayed(s, b) && B2C(1, b) == c;
      UnitClusters(b);
    }
  }

  lemma NothingSeen(r: nat, s: seq<Extent>, lo: nat)
    requires r >= 1
    ensures Progress(r, s, INIT_RSVD, lo, lo)
  {
    assert DelayedIn(r, s, lo, lo) == {};
  }

  /** count_rsvd on the blocks i .. e of extent j, the next ones after pos. */
  method CountNext(r: nat, ghost s: seq<Extent>, ghost j: nat, es: Extent, rc: Rsvd, i: nat, e: nat,
                   ghost lo: nat, ghost pos: nat) returns (rc': Rsvd)
    requires 1 <= r <= 0x8000_0000 && Sorted(s) && j < |s| && es == s[j]
    requires lo <= pos <= i <= e && s[j].Covers(i) && s[j].Covers(e)
    requires forall x :: 0 <= x < j ==> s[x].End() < pos
    requires pos < i ==> i == s[j].lblk
    requires Progress(r, s, rc, lo, pos)
    ensures Progress(r, s, rc', lo, e + 1)
  {
    SeenExtent(r, s, j, lo, pos, i, e);
    if r == 1 {
      UnitSeen(s, lo, pos);
    }
    rc' := CountSeen(r, es, rc, i, e, lo, pos, DelayedIn(r, s, lo, pos), DelayedIn(r, s, lo, e + 1));
  }

  method CountSeen(r: nat, es: Extent, rc: Rsvd, i: nat, e: nat,
                   ghost lo: nat, ghost pos: nat, ghost seen: set<nat>, ghost next: set<nat>) returns (rc': Rsvd)
    requires 1 <= r <= 0x8000_0000 && es.Valid() && lo <= pos <= i <= e && es.Covers(i) && es.Covers(e)
    requires next == seen + (if es.status == Delayed then Span(r, i, e) else {})
    requires r == 1 ==> forall c :: c in seen ==> c < pos
    requires Tracks(r, rc, seen) && (r > 1 && rc.found ==> lo <= rc.first <= rc.last < pos)
    ensures Tracks(r, rc', next) && (r > 1 && rc'.found ==> lo <= rc'.first <= rc'.last < e + 1)
  {
    assert es.status != Delayed ==> next == seen;
    rc' := CountRsvd(r, rc, i, e - i + 1, es, seen);
  }

  /** The range ends inside the first extent it meets: the extent is split or loses its head. */
  method RemoveWithin(r: nat, s: seq<Extent>, k: nat, lblk: nat, end: nat, count: bool)
      returns (t: seq<Extent>, rc: Rsvd, node: Option<nat>)
    requires 1 <= r <= 0x8000_0000 && Sorted(s) && Merged(s) && k < |s| && lblk <= end
    requires forall i :: 0 <= i < k ==> s[i].End() < lblk
    requires s[k].lblk <= end < s[k].End() && lblk <= s[k].End()
    ensures Sorted(t) && Merged(t) && Erased(s, t, lblk, end)
    ensures Parted(t, |KeepLeft(s, k, lblk)|, lblk, end) && k < |t| && |KeepLeft(s, k, lblk)| < |t|
    ensures node.Some? ==> node.value < |t|
    ensures count ==> Progress(r, s, rc, lblk, end + 1)
  {
    var orig := s[k];
    var len1 := if lblk > orig.lblk then lblk - orig.lblk else 0;
    var len2 := orig.End() - end;
    CutOut(s, k, k, lblk, end);
    if len1 > 0 {
      t, node := Split(s, k, lblk, end);
    } else {
      t, node := s[k := Trim(orig, end)], None;
      assert t == KeepLeft(s, k, lblk) + KeepRight(s, k, end);
    }
    rc := INIT_RSVD;
    if count {
      NothingSeen(r, s, lblk);
      rc := CountNext(r, s, k, orig, rc, orig.lblk + len1, orig.lblk + orig.len - len2 - 1, lblk, lblk);
    }
  }

  /** Both ends of extent k survive; the right one is inserted as a new extent. */
  method Split(s: seq<Extent>, k: nat, lblk: nat, end: nat) returns (t: seq<Extent>, node: Option<nat>)
    requires Sorted(s) && Merged(s) && k < |s| && s[k].lblk < lblk <= end < s[k].End()
    ensures Sorted(t) && Merged(t) && Erased(s, t, lblk, end)
    ensures Parted(t, k + 1, lblk, end) && k + 1 < |t|
    ensures node.Some? && node.value < |t|
  {
    var orig := s[k];
    var cut := s[k := orig.(len := lblk - orig.lblk)];
    CutTail(s, k, lblk);
    var len2 := orig.End() - end;
    var block := if orig.Mapped() then orig.pblk + orig.len - len2 else 0x7F_DEAD_BEEF;
    var newes := orig.(lblk := end + 1, len := len2, pblk := block);
    var n;
    t, n := InsertInto(cut, newes);
    node := Some(n);
    SplitDone(s, cut, t, k, lblk, end, newes);
  }

  lemma CutTail(s: seq<Extent>, k: nat, lblk: nat)
    requires Sorted(s) && Merged(s) && k < |s| && s[k].lblk < lblk <= s[k].End()
    ensures var cut := s[k := s[k].(len := lblk - s[k].lblk)];
            Sorted(cut) && Merged(cut) && Erased(s, cut, lblk, s[k].End())
  {
    var cut := s[k := s[k].(len := lblk - s[k].lblk)];
    assert cut == KeepLeft(s, k, lblk) + KeepRight(s, k + 1, s[k].End());
    CutOut(s, k, k + 1, lblk, s[k].End());
  }

  lemma SplitErased(s: seq<Extent>, cut: seq<Extent>, t: seq<Extent>, k: nat, lblk: nat, end: nat, e: Extent)
    requires Sorted(s) && k < |s| && s[k].lblk < lblk <= end < s[k].End()
    requires Erased(s, cut, lblk, s[k].End()) && Updated(cut, t, e)
    requires e.lblk == end + 1 && e.End() == s[k].End() && e.status == s[k].status
    requires e.Mapped() ==> e.pblk == s[k].pblk + (end + 1 - s[k].lblk)
    ensures Erased(s, t, lblk, end)
  {
    forall b ensures At(t, b) == if lblk <= b <= end then None else At(s, b) {
      if e.Covers(b) {
        AtCovered(s, k, b);
      }
    }
  }

  lemma PartedAfter(t: seq<Extent>, m: nat, lblk: nat, end: nat)
    requires Sorted(t) && 0 < m <= |t| && t[m - 1].End() == lblk - 1
    requires forall b :: lblk <= b <= end ==> At(t, b) == None
    ensures Parted(t, m, lblk, end)
  {
    forall i | m <= i < |t| ensures end < t[i].lblk {
      if t[i].lblk <= end {
        AtCovered(t, i, t[i].lblk);
      }
    }
  }

  /** What is left of a split extent, and the list around it. */
  lemma SplitDone(s: seq<Extent>, cut: seq<Extent>, t: seq<Extent>, k: nat, lblk: nat, end: nat, e: Extent)
    requires Sorted(s) && k < |s| && s[k].lblk < lblk <= end < s[k].End() && Sorted(t)
    requires |cut| == |s| && cut[k].End() == lblk - 1
    requires Erased(s, cut, lblk, s[k].End()) && Updated(cut, t, e) && FarLeftKept(cut, t, e)
    requires e.lblk == end + 1 && e.End() == s[k].End() && e.status == s[k].status
    requires e.Mapped() ==> e.pblk == s[k].pblk + (end + 1 - s[k].lblk)
    ensures Erased(s, t, lblk, end) && Parted(t, k + 1, lblk, end) && k + 1 < |t|
  {
    SplitErased(s, cut, t, k, lblk, end, e);
    assert t[k] == cut[k];
    PartedAfter(t, k + 1, lblk, end);
    AtCovered(s, k, end + 1);
    AfterSplit(t, k, lblk, end);
  }

  lemma AfterSplit(t: seq<Extent>, k: nat, lblk: nat, end: nat)
    requires k < |t| && Parted(t, k + 1, lblk, end) && lblk <= end && At(t, end + 1).Some?
    ensures k + 1 < |t|
  {
    if k + 1 == |t| {
      AtAbsent(t, end + 1);
    }
  }

  /** The tail of the first extent, if the range starts behind its first block. */
  method CutTailOff(r: nat, s: seq<Extent>, k: nat, lblk: nat, end: nat, count: bool)
      returns (t: seq<Extent>, rc: Rsvd, es: nat, ghost pos: nat)
    requires 1 <= r <= 0x8000_0000 && Sorted(s) && k < |s| && lblk <= end
    requires forall i :: 0 <= i < k ==> s[i].End() < lblk
    requires s[k].lblk <= end && lblk <= s[k].End() <= end
    ensures k <= es <= |s| && es == |KeepLeft(s, k, lblk)| && t == KeepLeft(s, k, lblk) + s[es..]
    ensures lblk <= pos <= end + 1 && (es < |s| ==> pos <= s[es].lblk)
    ensures forall x :: 0 <= x < es ==> s[x].End() < pos
    ensures count ==> Progress(r, s, rc, lblk, pos)
  {
    var orig := s[k];
    var len1 := if lblk > orig.lblk then lblk - orig.lblk else 0;
    t, rc, es, pos := s, INIT_RSVD, k, lblk;
    NothingSeen(r, s, lblk);
    if len1 > 0 {
      t := t[k := orig.(len := len1)];
      if count {
        rc := CountNext(r, s, k, orig, rc, lblk, orig.End(), lblk, lblk);
      }
      es, pos := k + 1, orig.End() + 1;
    }
    assert t == KeepLeft(s, k, lblk) + s[es..];
  }

  /** The range reaches the end of the first extent it meets: its tail, then whole extents, then
      the head of a last one are removed. */
  method RemoveAcross(r: nat, s: seq<Extent>, k: nat, lblk: nat, end: nat, count: bool)
      returns (t: seq<Extent>, rc: Rsvd)
    requires 1 <= r <= 0x8000_0000 && Sorted(s) && Merged(s) && k < |s| && lblk <= end
    requires forall i :: 0 <= i < k ==> s[i].End() < lblk
    requires s[k].lblk <= end && lblk <= s[k].End() <= end
    ensures Sorted(t) && Merged(t) && Erased(s, t, lblk, end)
    ensures Parted(t, |KeepLeft(s, k, lblk)|, lblk, end)
    ensures count ==> Progress(r, s, rc, lblk, end + 1)
  {
    var es;
    ghost var pos;  // blocks before it are done
    t, rc, es, pos := CutTailOff(r, s, k, lblk, end, count);
    ghost var left := KeepLeft(s, k, lblk);
    ghost var p;    // and so are extents of s before p
    t, rc, p, pos := EraseWhole(r, s, t, es, end, count, rc, left, es, lblk, pos);
    t, rc := CutHead(r, s, t, es, end, count, rc, left, p, lblk, pos);
    CutOut(s, k, p, lblk, end);
  }

  /** The loop over extents that lie wholly in the range. */
  method EraseWhole(r: nat, ghost s: seq<Extent>, t0: seq<Extent>, es: nat, end: nat, count: bool, rc0: Rsvd,
                    ghost left: seq<Extent>, ghost p0: nat, ghost lo: nat, ghost pos0: nat)
      returns (t: seq<Extent>, rc: Rsvd, ghost p: nat, ghost pos: nat)
    requires 1 <= r <= 0x8000_0000 && Sorted(s)
    requires p0 <= |s| && es == |left| && t0 == left + s[p0..]
    requires lo <= pos0 <= end + 1 && (p0 < |s| ==> pos0 <= s[p0].lblk)
    requires forall x :: 0 <= x < p0 ==> s[x].End() < pos0
    requires count ==> Progress(r, s, rc0, lo, pos0)
    ensures p0 <= p <= |s| && t == left + s[p..] && (p < |s| ==> end < s[p].End())
    ensures lo <= pos <= end + 1 && (p < |s| ==> pos <= s[p].lblk)
    ensures forall x :: 0 <= x < p ==> s[x].End() < pos
    ensures count ==> Progress(r, s, rc, lo, pos)
  {
    t, rc, p, pos := t0, rc0, p0, pos0;
    while es < |t| && t[es].End() <= end
      invariant p0 <= p <= |s| && t == left + s[p..]
      invariant lo <= pos <= end + 1 && (p < |s| ==> pos <= s[p].lblk)
      invariant forall x :: 0 <= x < p ==> s[x].End() < pos
      invariant count ==> Progress(r, s, rc, lo, pos)
      decreases |t|
    {
      assert t[es] == s[p];
      if count {
        rc := CountNext(r, s, p, t[es], rc, t[es].lblk, t[es].End(), lo, pos);
      }
      pos := s[p].End() + 1;
      t := t[..es] + t[es + 1..];
      p := p + 1;
    }
    assert p < |s| ==> t[es] == s[p];
  }

  /** The head of the first extent that reaches beyond the range, if it starts in it. */
  method CutHead(r: nat, ghost s: seq<Extent>, t0: seq<Extent>, es: nat, end: nat, count: bool, rc0: Rsvd,
                 ghost left: seq<Extent>, ghost p: nat, ghost lo: nat, ghost pos: nat)
      returns (t: seq<Extent>, rc: Rsvd)
    requires 1 <= r <= 0x8000_0000 && Sorted(s)
    requires p <= |s| && es == |left| && t0 == left + s[p..] && (p < |s| ==> end < s[p].End())
    requires lo <= pos <= end + 1 && (p < |s| ==> pos <= s[p].lblk)
    requires forall x :: 0 <= x < p ==> s[x].End() < pos
    requires count ==> Progress(r, s, rc0, lo, pos)
    ensures t == left + KeepRight(s, p, end)
    ensures count ==> Progress(r, s, rc, lo, end + 1)
  {
    t, rc := t0, rc0;
    assert p < |s| ==> t[es] == s[p];
    if es < |t| && t[es].lblk < end + 1 {
      if count {
        rc := CountNext(r, s, p, t[es], rc, t[es].lblk, end, lo, pos);
      }
      TrimmedTail(left, s, p, end);
      t := t[es := Trim(t[es], end)];
    } else if count {
      NothingLeft(r, s, p, lo, pos, end);
    }
  }

  lemma TrimmedTail(left: seq<Extent>, s: seq<Extent>, p: nat, end: nat)
    requires p < |s| && s[p].lblk <= end < s[p].End()
    ensures (left + s[p..])[|left| := Trim(s[p], end)] == left + KeepRight(s, p, end)
  {
    var x := Trim(s[p], end);
    assert s[p..][0 := x] == [x] + s[p + 1..];
    assert (left + s[p..])[|left| := x] == left + s[p..][0 := x];
  }

  lemma NothingLeft(r: nat, s: seq<Extent>, p: nat, lo: nat, pos: nat, end: nat)
    requires r >= 1 && Sorted(s) && p <= |s| && lo <= pos <= end + 1
    requires p < |s| ==> end < s[p].lblk
    requires forall x :: 0 <= x < p ==> s[x].End() < pos
    ensures DelayedIn(r, s, lo, end + 1) == DelayedIn(r, s, lo, pos)
  {
    forall b: nat | pos <= b < end + 1 ensures !IsDelayed(s, b) {
      AtAbsent(s, b);
    }
    DelayedGap(r, s, lo, pos, end + 1);
  }

  /** Which nodes get_rsvd is handed as the neighbours of the removed range. */
  ghost predicate Neighbours(t: seq<Extent>, m: nat, leftEs: int, rightEs: Option<nat>) {
    && leftEs == m - 1
    && (rightEs.None? <==> m == |t|)
    && (rightEs.Some? ==> rightEs.value == m || rightEs.value + 1 == m)
  }

  /** Taking the range out of the tree; extent k is the first one it meets. */
  method TakeOut(r: nat, s: seq<Extent>, k: nat, lblk: nat, end: nat, count: bool)
      returns (t: seq<Extent>, rc: Rsvd, node: Option<nat>, leftEs: int, rightEs: Option<nat>)
    requires 1 <= r <= 0x8000_0000 && Sorted(s) && Merged(s) && k < |s| && lblk <= end
    requires forall i :: 0 <= i < k ==> s[i].End() < lblk
    requires s[k].lblk <= end && lblk <= s[k].End()
    ensures Sorted(t) && Merged(t) && Erased(s, t, lblk, end)
    ensures -1 <= leftEs && Parted(t, leftEs + 1, lblk, end) && Neighbours(t, leftEs + 1, leftEs, rightEs)
    ensures node.Some? ==> node.value < |t|
    ensures count ==> Progress(r, s, rc, lblk, end + 1)
  {
    leftEs := if lblk > s[k].lblk then k else k - 1;
    if s[k].End() > end {
      t, rc, node := RemoveWithin(r, s, k, lblk, end, count);
      rightEs := Some(k);
    } else {
      t, rc := RemoveAcross(r, s, k, lblk, end, count);
      node := None;
      rightEs := if leftEs + 1 < |t| then Some(leftEs + 1) else None;
    }
  }

  /** __es_remove_extent, once the first extent k of the range is found.  When counting, exactly the
      pending reservations of clusters that ran empty of delayed blocks go. */
  method RemoveFrom(r: nat, s: seq<Extent>, pend: set<nat>, k: nat, lblk: nat, end: nat, count: bool)
      returns (t: seq<Extent>, pend': set<nat>, released: int, node: Option<nat>)
    requires 1 <= r <= 0x8000_0000 && Sorted(s) && Merged(s) && k < |s| && lblk <= end
    requires forall i :: 0 <= i < k ==> s[i].End() < lblk
    requires s[k].lblk <= end && lblk <= s[k].End()
    requires r == 1 ==> pend == {}
    requires count ==> pend <= DelayedClusters(r, s)
    ensures Sorted(t) && Merged(t) && Erased(s, t, lblk, end)
    ensures node.Some? ==> node.value < |t|
    ensures count ==> pend' == pend * DelayedClusters(r, t)
    ensures count ==> released == |DelayedClusters(r, s) - pend| - |DelayedClusters(r, t) - pend'|
    ensures !count ==> pend' == pend && released == 0
  {
    var rc, leftEs, rightEs;
    t, rc, node, leftEs, rightEs := TakeOut(r, s, k, lblk, end, count);
    pend', released := pend, 0;
    if count {
      pend', released := Reckon(r, t, pend, end, leftEs, rightEs, rc, s, lblk);
    }
  }

  /** get_rsvd after the range was taken out of s. */
  method Reckon(r: nat, t: seq<Extent>, pend: set<nat>, end: nat, leftEs: int, rightEs: Option<nat>, rc: Rsvd,
                ghost s: seq<Extent>, ghost lblk: nat) returns (pend': set<nat>, released: int)
    requires 1 <= r && Sorted(s) && Sorted(t) && Erased(s, t, lblk, end) && lblk <= end
    requires -1 <= leftEs && Parted(t, leftEs + 1, lblk, end) && Neighbours(t, leftEs + 1, leftEs, rightEs)
    requires Progress(r, s, rc, lblk, end + 1)
    requires (r == 1 ==> pend == {}) && pend <= DelayedClusters(r, s)
    ensures pend' == pend * DelayedClusters(r, t)
    ensures released == |DelayedClusters(r, s) - pend| - |DelayedClusters(r, t) - pend'|
  {
    ghost var seen := DelayedIn(r, s, lblk, end + 1);
    ErasedClusters(r, s, t, lblk, end);
    if r == 1 {
      UnitSeen(s, lblk, end + 1);
    }
    pend', released := GetRsvd(r, t, pend, end, leftEs, rightEs, rc, lblk, leftEs + 1, seen);
    Balance(DelayedClusters(r, s), DelayedClusters(r, t), seen, pend);
  }

  lemma NothingThere(s: seq<Extent>, k: nat, lblk: nat, end: nat)
    requires Sorted(s) && k <= |s| && lblk <= end
    requires forall i :: 0 <= i < k ==> s[i].End() < lblk
    requires k < |s| ==> end < s[k].lblk
    ensures Erased(s, s, lblk, end)
  {
    forall b | lblk <= b <= end ensures At(s, b) == None {
      AtAbsent(s, b);
    }
  }

  /** Erasing a range takes away the clusters of its delayed blocks, unless they hold others. */
  lemma ErasedClusters(r: nat, s: seq<Extent>, t: seq<Extent>, lblk: nat, end: nat)
    requires r >= 1 && Sorted(s) && Erased(s, t, lblk, end)
    ensures DelayedClusters(r, s) == DelayedClusters(r, t) + DelayedIn(r, s, lblk, end + 1)
  {
    var u := DelayedClusters(r, t) + DelayedIn(r, s, lblk, end + 1);
    forall c | c in DelayedClusters(r, s) ensures c in u {
      var b: nat :| b < MAX_BLOCKS && IsDelayed(s, b) && B2C(r, b) == c;
      assert b < lblk || b > end ==> IsDelayed(t, b);
    }
    forall c | c in u ensures c in DelayedClusters(r, s) {
      if c in DelayedClusters(r, t) {
        var b: nat :| b < MAX_BLOCKS && IsDelayed(t, b) && B2C(r, b) == c;
        assert IsDelayed(s, b);
      } else {
        var b: nat :| lblk <= b < end + 1 && IsDelayed(s, b) && B2C(r, b) == c;
        DelayedBounded(s, b);
      }
    }
  }
}
