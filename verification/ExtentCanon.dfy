/** The tree is a normal form: since neighbours that could merge never stay apart, the map alone
    determines the extents, whatever the order of the operations that built them. */
module ExtentCanon {
  import opened Common
  import opened Extents
  import opened ExtentCuts
  import opened ExtentEdits

  /** Equal up to the reference bit, and up to the unused es_pblk of unmapped extents. */
  predicate SameExtent(e1: Extent, e2: Extent) {
    e1.lblk == e2.lblk && e1.len == e2.len && e1.status == e2.status && (e1.Mapped() ==> e1.pblk == e2.pblk)
  }

  lemma FirstBlock(s: seq<Extent>, t: seq<Extent>)
    requires Sorted(s) && Sorted(t) && SameMap(s, t) && s != []
    ensures t != [] && t[0].lblk <= s[0].lblk
  {
    AtCovered(s, 0, s[0].lblk);
    var k := AtWitness(t, s[0].lblk);
  }

  /** The first extent of a merged list ends where the map's first run ends. */
  lemma FirstRun(s: seq<Extent>, t: seq<Extent>)
    requires Sorted(s) && Sorted(t) && Merged(s) && SameMap(s, t)
    requires s != [] && t != [] && s[0].lblk == t[0].lblk
    ensures t[0].len <= s[0].len
  {
    if t[0].len > s[0].len {
      var b := s[0].End() + 1;
      AtCovered(t, 0, b);
      AtCovered(t, 0, t[0].lblk);
      AtCovered(s, 0, t[0].lblk);
      var k := AtWitness(s, b);
      assert k == 1 && s[1].lblk == b;
      AtCovered(s, 1, b);
      assert CanMerge(s[0], s[1]);
    }
  }

  lemma {:induction false} MapDeterminesExtents(s: seq<Extent>, t: seq<Extent>)
    requires Sorted(s) && Sorted(t) && Merged(s) && Merged(t) && SameMap(s, t)
    ensures |s| == |t| && forall i :: 0 <= i < |s| ==> SameExtent(s[i], t[i])
  {
    if s == [] {
      if t != [] {
        AtCovered(t, 0, t[0].lblk);
      }
    } else {
      FirstBlock(s, t);
      assert SameMap(t, s);
      FirstBlock(t, s);
      FirstRun(s, t);
      FirstRun(t, s);
      AtCovered(s, 0, s[0].lblk);
      AtCovered(t, 0, s[0].lblk);
      forall b ensures At(s[1..], b) == At(t[1..], b) {
        Rest(s, b);
        Rest(t, b);
      }
      SuffixSorted(s, 1);
      SuffixSorted(t, 1);
      MapDeterminesExtents(s[1..], t[1..]);
    }
  }

  lemma Rest(s: seq<Extent>, b: int)
    requires Sorted(s) && s != []
    ensures At(s[1..], b) == if b <= s[0].End() then None else At(s, b)
  {
    AtSuffix(s, 1, b);
    if s[0].End() < b && (|s| == 1 || b < s[1].lblk) {
      AtAbsent(s, b);
    }
  }
}
