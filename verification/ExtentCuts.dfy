/** Cutting a block range out of a list of extents: what is kept on either side of it. */
module ExtentCuts {
  import opened Common
  import opened Extents

  /** The extents before index k, and the part of extent k below lblk if there is one. */
  function KeepLeft(s: seq<Extent>, k: nat, lblk: nat): seq<Extent>
    requires k < |s|
  {
    if s[k].lblk < lblk then s[..k] + [s[k].(len := lblk - s[k].lblk)] else s[..k]
  }

  /** The part of e above end: its first blocks are gone, and its physical start moves along. */
  function Trim(e: Extent, end: nat): Extent
    requires e.lblk <= end < e.End()
  {
    e.(lblk := end + 1, len := e.End() - end,
       pblk := if e.Mapped() then e.pblk + (end + 1 - e.lblk) else e.pblk)
  }

  /** The part of extent p above end if it starts at or below end, and the extents after it. */
  function KeepRight(s: seq<Extent>, p: nat, end: nat): seq<Extent>
    requires p <= |s|
    requires p < |s| ==> end < s[p].End()
  {
    if p < |s| && s[p].lblk <= end then [Trim(s[p], end)] + s[p + 1..] else s[p..]
  }

  lemma AtPrefix(s: seq<Extent>, p: nat, b: int)
    requires Sorted(s) && p <= |s|
    ensures At(s[..p], b) == if p == 0 || b > s[p - 1].End() then None else At(s, b)
  {
    AtConcat(s[..p], s[p..], b);
    assert s == s[..p] + s[p..];
    if p == 0 || b > s[p - 1].End() {
      AtAbsent(s[..p], b);
    } else {
      AtAbsent(s[p..], b);
    }
  }

  lemma AtSuffix(s: seq<Extent>, p: nat, b: int)
    requires Sorted(s) && p <= |s|
    ensures At(s[p..], b) == if p == |s| || b < s[p].lblk then None else At(s, b)
  {
    AtConcat(s[..p], s[p..], b);
    assert s == s[..p] + s[p..];
    if p == |s| || b < s[p].lblk {
      AtAbsent(s[p..], b);
    } else {
      AtAbsent(s[..p], b);
    }
  }

  lemma KeepLeftAt(s: seq<Extent>, k: nat, lblk: nat, b: int)
    requires Sorted(s) && k < |s| && lblk <= s[k].End()
    requires forall i :: 0 <= i < k ==> s[i].End() < lblk
    ensures At(KeepLeft(s, k, lblk), b) == if b < lblk then At(s, b) else None
  {
    AtPrefix(s, k, b);
    if s[k].lblk < lblk {
      var e := s[k].(len := lblk - s[k].lblk);
      AtConcat(s[..k], [e], b);
      assert [e][1..] == [];
      if s[k].Covers(b) {
        AtCovered(s, k, b);
      } else if k > 0 && s[k - 1].End() < b < s[k].lblk {
        AtAbsent(s, b);
      } else if k == 0 && b < s[k].lblk {
        AtAbsent(s, b);
      }
    } else if (k == 0 || s[k - 1].End() < b) && b < lblk {
      AtAbsent(s, b);
    }
  }

  lemma KeepRightAt(s: seq<Extent>, p: nat, end: nat, b: int)
    requires Sorted(s) && p <= |s|
    requires forall i :: 0 <= i < p ==> s[i].End() <= end
    requires p < |s| ==> end < s[p].End()
    ensures At(KeepRight(s, p, end), b) == if b > end then At(s, b) else None
  {
    AtSuffix(s, p, b);
    if p < |s| && s[p].lblk <= end {
      var e := Trim(s[p], end);
      AtSuffix(s, p + 1, b);
      AtConcat([e], s[p + 1..], b);
      assert [e][1..] == [];
      if s[p].Covers(b) {
        AtCovered(s, p, b);
      } else if s[p].End() < b && (p + 1 == |s| || b < s[p + 1].lblk) {
        AtAbsent(s, b);
      }
    } else if b > end && (p == |s| || b < s[p].lblk) {
      AtAbsent(s, b);
    }
  }

  /** Keeping both sides is erasing the range; the result is sorted and nothing became mergeable. */
  lemma CutOut(s: seq<Extent>, k: nat, p: nat, lblk: nat, end: nat)
    requires Sorted(s) && Merged(s) && k < |s| && k <= p <= |s| && lblk <= end
    requires forall i :: 0 <= i < k ==> s[i].End() < lblk
    requires lblk <= s[k].End()
    requires forall i :: 0 <= i < p ==> s[i].End() <= end
    requires p < |s| ==> end < s[p].End()
    ensures var l, t := KeepLeft(s, k, lblk), KeepRight(s, p, end);
            && Sorted(l + t) && Merged(l + t)
            && (forall i :: 0 <= i < |l| ==> l[i].End() < lblk)
            && (forall i :: 0 <= i < |t| ==> end < t[i].lblk)
            && (forall b :: At(l + t, b) == if lblk <= b <= end then None else At(s, b))
  {
    var l, t := KeepLeft(s, k, lblk), KeepRight(s, p, end);
    forall b ensures At(l + t, b) == if lblk <= b <= end then None else At(s, b) {
      AtConcat(l, t, b);
      KeepLeftAt(s, k, lblk, b);
      KeepRightAt(s, p, end, b);
    }
    KeepLeftSorted(s, k, lblk);
    KeepRightSorted(s, p, end);
    Join(l, t, lblk, end);
  }

  lemma KeepLeftSorted(s: seq<Extent>, k: nat, lblk: nat)
    requires Sorted(s) && Merged(s) && k < |s| && lblk <= s[k].End()
    requires forall i :: 0 <= i < k ==> s[i].End() < lblk
    ensures var l := KeepLeft(s, k, lblk);
            Sorted(l) && Merged(l) && forall i :: 0 <= i < |l| ==> l[i].End() < lblk
  {
    var l := KeepLeft(s, k, lblk);
    if s[k].lblk < lblk {
      assert forall i :: 0 <= i < |l| ==> l[i] == if i < k then s[i] else s[k].(len := lblk - s[k].lblk);
      forall i | 0 < i < |l| ensures !CanMerge(l[i - 1], l[i]) {
        assert !CanMerge(s[i - 1], s[i]);
      }
    }
  }

  lemma SuffixSorted(s: seq<Extent>, p: nat)
    requires Sorted(s) && Merged(s) && p <= |s|
    ensures Sorted(s[p..]) && Merged(s[p..])
  {
    var u := s[p..];
    forall i | 0 < i < |u| ensures !CanMerge(u[i - 1], u[i]) {
      var j := p + i;
      assert u[i - 1] == s[j - 1] && u[i] == s[j];
    }
  }

  lemma KeepRightSorted(s: seq<Extent>, p: nat, end: nat)
    requires Sorted(s) && Merged(s) && p <= |s|
    requires p < |s| ==> end < s[p].End()
    ensures var t := KeepRight(s, p, end);
            Sorted(t) && Merged(t) && forall i :: 0 <= i < |t| ==> end < t[i].lblk
  {
    var u := s[p..];
    SuffixSorted(s, p);
    if p < |s| && s[p].lblk <= end {
      assert KeepRight(s, p, end) == u[0 := Trim(u[0], end)];
      TrimFirst(u, end);
    }
  }

  lemma TrimFirst(u: seq<Extent>, end: nat)
    requires Sorted(u) && Merged(u) && |u| > 0 && u[0].lblk <= end < u[0].End()
    ensures var t := u[0 := Trim(u[0], end)];
            Sorted(t) && Merged(t) && forall i :: 0 <= i < |t| ==> end < t[i].lblk
  {
    var t := u[0 := Trim(u[0], end)];
    forall i | 0 < i < |t| ensures !CanMerge(t[i - 1], t[i]) {
      assert !CanMerge(u[i - 1], u[i]);
    }
  }

  lemma Join(l: seq<Extent>, t: seq<Extent>, lblk: nat, end: nat)
    requires Sorted(l) && Merged(l) && forall i :: 0 <= i < |l| ==> l[i].End() < lblk
    requires Sorted(t) && Merged(t) && forall i :: 0 <= i < |t| ==> end < t[i].lblk
    requires lblk <= end
    ensures Sorted(l + t) && Merged(l + t)
  {
    var u := l + t;
    assert forall i :: 0 <= i < |u| ==> u[i] == if i < |l| then l[i] else t[i - |l|];
  }
}
