/** What get_rsvd has to release after a range was removed, as a statement about sets of clusters. */
module Release {
  import opened Common
  import opened Clusters
  import opened Extents
  import opened Reservations

  /** Cluster c holds a delayed block below lblk. */
  ghost predicate HeldBelow(r: nat, s: seq<Extent>, lblk: nat, c: nat)
    requires r >= 1
  {
    exists b: nat :: b < lblk && IsDelayed(s, b) && B2C(r, b) == c
  }

  /** Cluster c holds a delayed block above end. */
  ghost predicate HeldAbove(r: nat, s: seq<Extent>, end: nat, c: nat)
    requires r >= 1
  {
    exists b: nat :: end < b && IsDelayed(s, b) && B2C(r, b) == c
  }

  /** Between the clusters of the first and the last removed delayed block, only those two can
      still hold delayed blocks: the first one to the left of the range, the last one to the right. */
  lemma StillHeld(r: nat, s: seq<Extent>, lblk: nat, end: nat, first: nat, last: nat, c: nat)
    requires r >= 1 && Sorted(s) && lblk <= first <= last <= end
    requires forall b: nat :: lblk <= b <= end ==> !IsDelayed(s, b)
    requires B2C(r, first) <= c <= B2C(r, last)
    ensures c in DelayedClusters(r, s) <==>
            || (c == B2C(r, first) && HeldBelow(r, s, lblk, c))
            || (c == B2C(r, last) && HeldAbove(r, s, end, c))
  {
    if c in DelayedClusters(r, s) {
      var b: nat :| b < MAX_BLOCKS && IsDelayed(s, b) && B2C(r, b) == c;
      if b < lblk {
        B2CMono(r, b, first);
      } else {
        B2CMono(r, last, b);
      }
    }
    if HeldBelow(r, s, lblk, c) {
      var b: nat :| b < lblk && IsDelayed(s, b) && B2C(r, b) == c;
      DelayedBounded(s, b);
    }
    if HeldAbove(r, s, end, c) {
      var b: nat :| end < b && IsDelayed(s, b) && B2C(r, b) == c;
      DelayedBounded(s, b);
    }
  }

  /** The window of clusters whose pending reservations go away, as get_rsvd computes it. */
  function Window(f: nat, l: nat, left: bool, right: bool): (w: (bool, nat, int)) {
    if f == l then (!(left || right), f, l)
    else
      var f' := if left then f + 1 else f;
      var l' := if right then l - 1 else l;
      (f' <= l', f', l')
  }

  /** `seen`: clusters with a removed delayed block; `held`: clusters with a delayed block left. */
  lemma ReleasedSets(seen: set<nat>, held: set<nat>, pend: set<nat>, f: nat, l: nat, left: bool, right: bool)
    requires Bounds(seen, f, l) && pend <= held + seen
    requires forall c :: f <= c <= l ==> (c in held <==> (c == f && left) || (c == l && right))
    requires f == l ==> !(left && right)
    ensures |seen| - (if left then 1 else 0) - (if right then 1 else 0) == |seen - held|
    ensures var w := Window(f, l, left, right);
            forall c :: c in pend && w.0 && w.1 <= c <= w.2 <==> c in pend * (seen - held)
  {
    var x := (if left then {f} else {}) + (if right then {l} else {});
    assert seen * held == x;
    assert seen - held == seen - x;
  }

  /** The number released is the drop in R, and pending reservations still stand on delayed clusters. */
  lemma Balance(before: set<nat>, after: set<nat>, seen: set<nat>, pend: set<nat>)
    requires before == after + seen && pend <= before
    ensures var pend' := pend - (seen - after);
            && pend' == pend * after
            && |seen - after - pend| == |before - pend| - |after - pend'|
  {
    var pend' := pend - (seen - after);
    var gone := seen - after - pend;
    assert before - pend == (after - pend') + gone;
    assert (after - pend') * gone == {};
  }

  /** The list holds nothing of the range; the extents before index m lie left of it. */
  ghost predicate Parted(s: seq<Extent>, m: nat, lblk: nat, end: nat) {
    && m <= |s|
    && (forall i :: 0 <= i < m ==> s[i].End() < lblk)
    && (forall i :: m <= i < |s| ==> end < s[i].lblk)
  }

  lemma NothingBetween(s: seq<Extent>, m: nat, lblk: nat, end: nat)
    requires Sorted(s) && Parted(s, m, lblk, end)
    ensures forall b: nat :: lblk <= b <= end ==> !IsDelayed(s, b)
  {
    forall b: nat | lblk <= b <= end ensures !IsDelayed(s, b) {
      AtAbsent(s, b);
    }
  }

  /** The left half of get_rsvd: does the cluster of `first` still hold a delayed block to the
      left of the range, in an extent up to index `start`? */
  method ScanLeft(r: nat, s: seq<Extent>, start: int, first: nat, ghost lblk: nat, ghost end: nat)
      returns (delayed: bool)
    requires r >= 1 && Sorted(s) && lblk <= first <= end && -1 <= start
    requires Parted(s, start + 1, lblk, end)
    ensures delayed <==> HeldBelow(r, s, lblk, B2C(r, first))
  {
    var es := start;
    while es >= 0 && s[es].End() >= CMask(r, first)
      invariant -1 <= es <= start
      invariant forall i :: es < i <= start ==> s[i].status != Delayed
    {
      if s[es].status == Delayed {
        ghost var b := s[es].End();
        AtCovered(s, es, b);
        SameCluster(r, first, b);
        return true;
      }
      es := es - 1;
    }
    forall b: nat | b < lblk && IsDelayed(s, b) ensures B2C(r, b) != B2C(r, first) {
      var k := AtWitness(s, b);
      SameCluster(r, first, b);
    }
    return false;
  }

  /** The right half of get_rsvd. */
  method ScanRight(r: nat, s: seq<Extent>, start: nat, last: nat, ghost lblk: nat, ghost end: nat)
      returns (delayed: bool)
    requires r >= 1 && Sorted(s) && lblk <= last <= end
    requires Parted(s, start, lblk, end)
    ensures delayed <==> HeldAbove(r, s, end, B2C(r, last))
  {
    var es := start;
    while es < |s| && s[es].lblk <= CFill(r, last)
      invariant start <= es <= |s|
      invariant forall i :: start <= i < es ==> s[i].status != Delayed
    {
      if s[es].status == Delayed {
        ghost var b := s[es].lblk;
        AtCovered(s, es, b);
        SameCluster(r, last, b);
        return true;
      }
      es := es + 1;
    }
    forall b: nat | end < b && IsDelayed(s, b) ensures B2C(r, b) != B2C(r, last) {
      var k := AtWitness(s, b);
      SameCluster(r, last, b);
    }
    return false;
  }

  /** The pending reservations of clusters f .. l are dropped, and counted. */
  method DropPending(pend: set<nat>, f: nat, l: int) returns (pend': set<nat>, n: nat)
    ensures pend' <= pend && n == |pend - pend'|
    ensures forall c :: c in pend ==> (c in pend' <==> !(f <= c <= l))
  {
    pend', n := pend, 0;
    while exists c :: c in pend' && f <= c <= l
      invariant pend' <= pend && n == |pend - pend'|
      invariant forall c :: c in pend && c !in pend' ==> f <= c <= l
      decreases pend'
    {
      var c :| c in pend' && f <= c <= l;
      assert pend - (pend' - {c}) == (pend - pend') + {c};
      pend', n := pend' - {c}, n + 1;
    }
  }

  /** The two ends of the range: which of the clusters of the first and the last removed delayed
      block still hold a delayed block. */
  method Ends(r: nat, s: seq<Extent>, end: nat, leftEs: int, rightEs: Option<nat>, first: nat, last: nat,
              ghost lblk: nat, ghost m: nat) returns (left: bool, right: bool)
    requires 1 <= r && Sorted(s) && lblk <= first <= last <= end
    requires Parted(s, m, lblk, end) && leftEs == m - 1
    requires rightEs.None? <==> m == |s|
    requires rightEs.Some? ==> rightEs.value == m || rightEs.value + 1 == m
    ensures var f, l := B2C(r, first), B2C(r, last);
            && (f == l ==> !(left && right))
            && forall c :: f <= c <= l ==> (c in DelayedClusters(r, s) <==> (c == f && left) || (c == l && right))
  {
    var f, l := B2C(r, first), B2C(r, last);
    left := ScanLeft(r, s, leftEs, first, lblk, end);
    right := false;
    if rightEs.Some? && (!left || f != l) {
      var es := if end < s[rightEs.value].End() then rightEs.value else rightEs.value + 1;
      right := ScanRight(r, s, es, last, lblk, end);
    } else if rightEs.None? {
      forall b: nat | end < b ensures !IsDelayed(s, b) {
        AtAbsent(s, b);
      }
    }
    NothingBetween(s, m, lblk, end);
    forall c | f <= c <= l ensures c in DelayedClusters(r, s) <==> (c == f && left) || (c == l && right) {
      StillHeld(r, s, lblk, end, first, last, c);
    }
  }

  /** get_rsvd, after the range lblk .. end was removed.  `seen` are the clusters that held a
      removed delayed block.  Released are exactly those that hold no delayed block any more and
      had no pending reservation; the pending reservations of the others that ran empty go. */
  method GetRsvd(r: nat, s: seq<Extent>, pend: set<nat>, end: nat, leftEs: int, rightEs: Option<nat>, rc0: Rsvd,
                 ghost lblk: nat, ghost m: nat, ghost seen: set<nat>) returns (pend': set<nat>, n: int)
    requires 1 <= r && Sorted(s) && (r == 1 ==> pend == {}) && lblk <= end
    requires Tracks(r, rc0, seen)
    requires r > 1 && rc0.found ==> lblk <= rc0.first <= rc0.last <= end
    requires r == 1 ==> forall c :: c in seen ==> lblk <= c <= end
    requires Parted(s, m, lblk, end) && leftEs == m - 1
    requires rightEs.None? <==> m == |s|
    requires rightEs.Some? ==> rightEs.value == m || rightEs.value + 1 == m
    requires pend <= DelayedClusters(r, s) + seen
    ensures pend' == pend - (seen - DelayedClusters(r, s))
    ensures n == |seen - DelayedClusters(r, s) - pend|
  {
    if r == 1 {
      UnitRelease(s, lblk, end, m, seen);
      assert seen - DelayedClusters(1, s) - {} == seen;
      return pend, rc0.ndelayed;
    }
    pend', n := GetBig(r, s, pend, end, leftEs, rightEs, rc0, lblk, m, seen);
  }

  /** get_rsvd on a bigalloc file system. */
  method GetBig(r: nat, s: seq<Extent>, pend: set<nat>, end: nat, leftEs: int, rightEs: Option<nat>, rc0: Rsvd,
                ghost lblk: nat, ghost m: nat, ghost seen: set<nat>) returns (pend': set<nat>, n: int)
    requires 1 < r && Sorted(s) && lblk <= end && TracksBig(r, rc0, seen)
    requires rc0.found ==> lblk <= rc0.first <= rc0.last <= end
    requires Parted(s, m, lblk, end) && leftEs == m - 1
    requires rightEs.None? <==> m == |s|
    requires rightEs.Some? ==> rightEs.value == m || rightEs.value + 1 == m
    requires pend <= DelayedClusters(r, s) + seen
    ensures pend' == pend - (seen - DelayedClusters(r, s))
    ensures n == |seen - DelayedClusters(r, s) - pend|
  {
    ghost var held := DelayedClusters(r, s);
    pend', n := pend, rc0.ndelayed;
    if rc0.partial {
      n := n + 1;
    }
    if n == 0 {
      NoneSeen(seen, held, pend);
      return;
    }
    var f, l := B2C(r, rc0.first), B2C(r, rc0.last);
    assert Bounds(seen, f, l) && n == |seen|;
    var left, right := Ends(r, s, end, leftEs, rightEs, rc0.first, rc0.last, lblk, m);
    pend', n := Settle(n, pend, f, l, left, right, seen, held);
  }

  lemma NoneSeen(seen: set<nat>, held: set<nat>, pend: set<nat>)
    requires |seen| == 0
    ensures pend - (seen - held) == pend && |seen - held - pend| == 0
  {
    assert seen == {};
    assert seen - held - pend == {};
  }

  /** The end of get_rsvd, once it is known which end clusters still hold delayed blocks. */
  method Settle(n0: int, pend: set<nat>, f: nat, l: nat, left: bool, right: bool,
                ghost seen: set<nat>, ghost held: set<nat>) returns (pend': set<nat>, n: int)
    requires n0 == |seen| && Bounds(seen, f, l) && pend <= held + seen
    requires f == l ==> !(left && right)
    requires forall c :: f <= c <= l ==> (c in held <==> (c == f && left) || (c == l && right))
    ensures pend' == pend - (seen - held)
    ensures n == |seen - held - pend|
  {
    ReleasedSets(seen, held, pend, f, l, left, right);
    n := n0 - (if left then 1 else 0) - (if right then 1 else 0);
    var w := Window(f, l, left, right);
    pend' := pend;
    if w.0 {
      var k;
      pend', k := DropPending(pend, w.1, w.2);
      n := n - k;
    }
    Dropped(seen - held, pend, pend');
  }

  lemma Dropped(gone: set<nat>, pend: set<nat>, pend': set<nat>)
    requires pend' <= pend && forall c :: c in pend ==> (c !in pend' <==> c in gone)
    ensures pend' == pend - gone && |gone - pend| == |gone| - |pend - pend'|
  {
    assert pend - pend' == pend * gone;
    assert gone == (gone - pend) + pend * gone;
    assert (gone - pend) * (pend * gone) == {};
  }

  lemma UnitRelease(s: seq<Extent>, lblk: nat, end: nat, m: nat, seen: set<nat>)
    requires Sorted(s) && Parted(s, m, lblk, end)
    requires forall c :: c in seen ==> lblk <= c <= end
    ensures seen - DelayedClusters(1, s) == seen
  {
    NothingBetween(s, m, lblk, end);
    forall c | c in seen ensures c !in DelayedClusters(1, s) {
      forall b: nat | IsDelayed(s, b) ensures B2C(1, b) != c {
        UnitClusters(b);
      }
    }
  }
}
