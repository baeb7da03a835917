/** count_rsvd: the running tally of delayed clusters while a range is removed. */
module Reservations {
  import opened Clusters
  import opened Extents

  /** struct rsvd_count, without left_es (the caller keeps it as an index). */
  datatype Rsvd = Rsvd(ndelayed: int, found: bool, first: nat, last: nat, partial: bool, lclu: nat)

  /** init_rsvd */
  const INIT_RSVD := Rsvd(0, false, 0, 0, false, 0)

  /** The tally stands for the set of clusters seen so far.  A tracked partial cluster is the last
      one and is not counted yet; without one the last cluster was seen up to its final block. */
  ghost predicate TracksBig(r: nat, rc: Rsvd, seen: set<nat>)
    requires r > 1
  {
    && rc.ndelayed + (if rc.partial then 1 else 0) == |seen|
    && (rc.found <==> seen != {})
    && (rc.partial ==> rc.found && rc.lclu == B2C(r, rc.last))
    && (rc.found && !rc.partial ==> rc.last == CFill(r, rc.last))
    && (rc.found ==> Bounds(seen, B2C(r, rc.first), B2C(r, rc.last)))
  }

  ghost predicate Bounds(seen: set<nat>, f: nat, l: nat) {
    f in seen && l in seen && forall c :: c in seen ==> f <= c <= l
  }

  ghost predicate Tracks(r: nat, rc: Rsvd, seen: set<nat>)
    requires r >= 1
  {
    if r == 1 then rc.ndelayed == |seen| else TracksBig(r, rc, seen)
  }

  /** A run i .. e that starts on a cluster boundary: n whole clusters, then perhaps a partial one. */
  lemma {:induction false} WholeClusters(r: nat, i: nat, e: int)
    requires r >= 1 && i <= e + 1 && COff(r, i) == 0
    ensures var n := B2C(r, e + 1 - i);
            var j := i + C2B(r, n);
            && j <= e + 1
            && (j <= e ==> B2C(r, j) == B2C(r, e) == B2C(r, i) + n && e != CFill(r, e))
            && (j == e + 1 && i <= e ==> B2C(r, e) + 1 == B2C(r, i) + n && e == CFill(r, e))
            && (i == e + 1 ==> n == 0)
    decreases e + 1 - i
  {
    if i <= e {
      SameCluster(r, i, e);
      if e + 1 - i >= r {
        assert B2C(r, i + r) == B2C(r, i) + 1 && COff(r, i + r) == COff(r, i);
        WholeClusters(r, i + r, e);
      }
    }
  }

  /** count_rsvd: adds the clusters of the range lblk .. lblk+len-1 of es, each once, also when
      its first cluster was already seen at the end of the previous delayed extent. */
  method CountRsvd(r: nat, rc0: Rsvd, lblk: nat, len: nat, es: Extent, ghost seen: set<nat>)
      returns (rc: Rsvd)
    requires 1 <= r <= 0x8000_0000 && es.Valid() && len >= 1
    requires es.Covers(lblk) && es.Covers(lblk + len - 1)
    requires Tracks(r, rc0, seen)
    requires r > 1 && rc0.found ==> rc0.last < lblk
    requires r == 1 ==> forall c :: c in seen ==> c < lblk
    ensures es.status != Delayed ==> rc == rc0
    ensures es.status == Delayed ==>
              && Tracks(r, rc, seen + Span(r, lblk, lblk + len - 1))
              && (r > 1 ==> rc.found && rc.last == lblk + len - 1
                            && rc.first == if rc0.found then rc0.first else lblk)
  {
    rc := rc0;
    if es.status != Delayed {
      return;
    }
    if r == 1 {
      rc := rc.(ndelayed := rc.ndelayed + len);
      UnitSpan(seen, lblk, len);
      return;
    }
    var i := if lblk < es.lblk then es.lblk else lblk;
    var e := lblk + len - 1;
    e := if e > es.End() then es.End() else e;
    rc := CountBig(r, rc0, i, e, seen);
  }

  /** count_rsvd on a bigalloc file system, for the delayed run i .. e. */
  method CountBig(r: nat, rc0: Rsvd, i: nat, e: nat, ghost seen: set<nat>) returns (rc: Rsvd)
    requires 1 < r <= 0x8000_0000 && i <= e < MAX_BLOCKS
    requires TracksBig(r, rc0, seen)
    requires rc0.found ==> rc0.last < i
    ensures TracksBig(r, rc, seen + Span(r, i, e))
    ensures rc.found && rc.last == e && rc.first == if rc0.found then rc0.first else i
  {
    rc := rc0;
    Grow(r, rc0, seen, i, e);
    if !rc.found {
      rc := rc.(first := i, found := true);
    }
    rc := rc.(last := e);
    if rc.partial && rc.lclu != B2C(r, i) {
      rc := rc.(ndelayed := rc.ndelayed + 1, partial := false);
    }
    var n, partial, lclu := CountRun(r, i, e, rc.partial, rc.lclu);
    rc := rc.(ndelayed := rc.ndelayed + n, partial := partial, lclu := lclu);
    BoundsGrow(seen, B2C(r, rc0.first), B2C(r, rc0.last), B2C(r, i), B2C(r, e));
  }

  /** The second half of count_rsvd, from the first block i of the run on: n clusters are
      complete up to the last block e, and a partial cluster at the end is tracked, not counted. */
  method CountRun(r: nat, i0: nat, e: nat, partial0: bool, lclu0: nat)
      returns (n: nat, partial: bool, lclu: nat)
    requires 1 < r <= 0x8000_0000 && i0 <= e < MAX_BLOCKS
    requires partial0 ==> COff(r, i0) != 0 && lclu0 == B2C(r, i0)
    ensures n + (if partial then 1 else 0) == B2C(r, e) - B2C(r, i0) + 1
    ensures partial ==> lclu == B2C(r, e)
    ensures !partial ==> e == CFill(r, e)
  {
    var i := i0;
    n, partial, lclu := 0, partial0, lclu0;
    NextCluster(r, i);
    SameCluster(r, i, e);
    if COff(r, i) != 0 {
      if e >= CFill(r, i) {
        n, partial := 1, false;
        i := CFill(r, i) + 1;
        if i == e + 1 {
          assert e == CFill(r, e);
        }
      }
    }
    if COff(r, i) == 0 {
      WholeClusters(r, i, e);
    } else {
      assert B2C(r, e + 1 - i) == 0;
    }
    if (i + r - 1) % 0x1_0000_0000 <= e {  // 32-bit block numbers: the sum may wrap
      var nclu := B2C(r, e + 1 - i);
      n, i := n + nclu, i + C2B(r, nclu);
    } else {
      assert B2C(r, e + 1 - i) == 0;
    }
    if !partial && i <= e {
      partial, lclu := true, B2C(r, i);
    }
  }

  lemma BoundsGrow(seen: set<nat>, f: nat, l: nat, q: nat, z: nat)
    requires seen != {} ==> l <= q && Bounds(seen, f, l)
    requires q <= z
    ensures Bounds(seen + Range(q, z), if seen == {} then q else f, z)
  {
    assert q in Range(q, z) && z in Range(q, z);
  }

  /** Without bigalloc every block is a cluster. */
  lemma UnitSpan(seen: set<nat>, lblk: nat, len: nat)
    requires len >= 1
    requires forall c :: c in seen ==> c < lblk
    ensures |seen + Span(1, lblk, lblk + len - 1)| == |seen| + len
  {
    UnitClusters(lblk);
    UnitClusters(lblk + len - 1);
    RangeCard(lblk, lblk + len - 1);
    assert seen !! Span(1, lblk, lblk + len - 1);
  }

  /** What a further delayed run after everything seen does to the number of clusters. */
  lemma Grow(r: nat, rc: Rsvd, seen: set<nat>, i: nat, e: nat)
    requires r > 1 && i <= e && TracksBig(r, rc, seen)
    requires rc.found ==> rc.last < i
    ensures var shared := rc.found && B2C(r, rc.last) == B2C(r, i);
            && |seen + Span(r, i, e)| == |seen| + (B2C(r, e) - B2C(r, i) + 1) - (if shared then 1 else 0)
            && (shared ==> rc.partial && COff(r, i) != 0)
    ensures rc.found ==> B2C(r, rc.last) <= B2C(r, i)
    ensures B2C(r, i) <= B2C(r, e)
  {
    B2CMono(r, i, e);
    if rc.found {
      B2CMono(r, rc.last, i);
      SameCluster(r, rc.last, i);
    }
    UnionCard(seen, B2C(r, rc.last), B2C(r, i), B2C(r, e));
  }

  lemma UnionCard(seen: set<nat>, l: nat, q: nat, z: nat)
    requires q <= z
    requires seen != {} ==> l in seen && l <= q && forall c :: c in seen ==> c <= l
    ensures |seen + Range(q, z)| == |seen| + (z - q + 1) - (if seen != {} && l == q then 1 else 0)
  {
    if seen != {} && l == q {
      var rest := Range(q + 1, z);
      assert seen + Range(q, z) == seen + rest by {
        forall c | c in Range(q, z) ensures c in seen + rest {
          assert c == q || c in rest;
        }
      }
      RangeCard(q + 1, z);
      DisjointCard(seen, rest);
    } else {
      RangeCard(q, z);
      DisjointCard(seen, Range(q, z));
    }
  }
}
