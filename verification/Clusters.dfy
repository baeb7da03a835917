/** Arithmetic of bigalloc clusters (EXT4_B2C, EXT4_C2B, EXT4_LBLK_CMASK, EXT4_LBLK_COFF and
    EXT4_LBLK_CFILL of ext4.h).  The kernel's ratio is a power of two, so its shifts and masks are
    division and remainder (`ShiftIsDivision`); nothing below needs more than `r >= 1`.  They are
    written by repeated subtraction so that every proof about them is linear. */
module Clusters {

  /** Cluster of block b. */
  function B2C(r: nat, b: nat): nat
    requires r >= 1
    decreases b
  {
    if b < r then 0 else 1 + B2C(r, b - r)
  }

  /** First block of cluster c. */
  function C2B(r: nat, c: nat): nat
  {
    if c == 0 then 0 else r + C2B(r, c - 1)
  }

  /** Offset of b in its cluster. */
  function COff(r: nat, b: nat): (o: nat)
    requires r >= 1
    ensures o < r && o <= b
    decreases b
  {
    if b < r then b else COff(r, b - r)
  }

  /** First block of b's cluster. */
  function CMask(r: nat, b: nat): nat
    requires r >= 1
  {
    b - COff(r, b)
  }

  /** Last block of b's cluster. */
  function CFill(r: nat, b: nat): nat
    requires r >= 1
  {
    b - COff(r, b) + (r - 1)
  }

  lemma MulGap(a: int, b: int, r: nat)
    requires a < b
    ensures a * r + r <= b * r
  {
    var d := b - (a + 1);
    assert d * r >= 0;
    assert (d + (a + 1)) * r == d * r + (a + 1) * r;
    assert (a + 1) * r == a * r + r;
  }

  lemma DivUnique(r: nat, b: nat, q: nat, m: nat)
    requires r >= 1 && b == q * r + m && m < r
    ensures b / r == q && b % r == m
  {
    var p := b / r;
    assert b == p * r + b % r;
    if p > q {
      MulGap(q, p, r);
    } else if p < q {
      MulGap(p, q, r);
    }
  }

  /** The recursive forms are the kernel's shift right and mask, and its shift left below. */
  lemma {:induction false} ShiftIsDivision(r: nat, b: nat)
    requires r >= 1
    ensures B2C(r, b) == b / r && COff(r, b) == b % r
    decreases b
  {
    if b < r {
      DivUnique(r, b, 0, b);
    } else {
      ShiftIsDivision(r, b - r);
      var q, m := (b - r) / r, (b - r) % r;
      assert q * r + r == (q + 1) * r;
      DivUnique(r, b, q + 1, m);
    }
  }

  lemma {:induction false} ShiftIsProduct(r: nat, c: nat)
    ensures C2B(r, c) == c * r
  {
    if c > 0 {
      ShiftIsProduct(r, c - 1);
    }
  }

  /** Without bigalloc every block is a cluster. */
  lemma {:induction false} UnitClusters(b: nat)
    ensures B2C(1, b) == b
  {
    if b > 0 {
      UnitClusters(b - 1);
    }
  }

  lemma {:induction false} B2CMono(r: nat, a: nat, b: nat)
    requires r >= 1 && a <= b
    ensures B2C(r, a) <= B2C(r, b)
    decreases b
  {
    if a >= r {
      B2CMono(r, a - r, b - r);
    }
  }

  /** Two blocks lie in the same cluster exactly when the second is within CMask .. CFill of the first. */
  lemma {:induction false} SameCluster(r: nat, a: nat, b: nat)
    requires r >= 1
    ensures CMask(r, a) <= b <= CFill(r, a) <==> B2C(r, a) == B2C(r, b)
    ensures B2C(r, a) == B2C(r, b) ==> CMask(r, a) == CMask(r, b)
    decreases a + b
  {
    if a >= r && b >= r {
      SameCluster(r, a - r, b - r);
    }
  }

  /** Adding a block number to a cluster boundary adds the cluster numbers. */
  lemma {:induction false} FromBoundary(r: nat, i: nat, w: nat)
    requires r >= 1 && COff(r, i) == 0
    ensures B2C(r, i + w) == B2C(r, i) + B2C(r, w) && COff(r, i + w) == COff(r, w)
    decreases i
  {
    if i >= r {
      FromBoundary(r, i - r, w);
    }
  }

  /** The block after a cluster's last one starts the next cluster. */
  lemma {:induction false} NextCluster(r: nat, i: nat)
    requires r >= 1
    ensures B2C(r, CFill(r, i) + 1) == B2C(r, i) + 1 && COff(r, CFill(r, i) + 1) == 0
    ensures B2C(r, CFill(r, i)) == B2C(r, i)
    decreases i
  {
    if i >= r {
      NextCluster(r, i - r);
      assert CFill(r, i) == CFill(r, i - r) + r;
    }
  }

  predicate AtLeast(c: nat, a: nat) {
    a <= c
  }

  /** The naturals a..b. */
  ghost function Range(a: nat, b: int): set<nat> {
    set c: nat | c <= b && AtLeast(c, a)
  }

  lemma {:induction false} RangeCard(a: nat, b: int)
    ensures |Range(a, b)| == if a <= b then b + 1 - a else 0
    decreases b + 1 - a
  {
    if a <= b {
      RangeCard(a + 1, b);
      assert Range(a, b) == {a} + Range(a + 1, b);
    } else {
      assert Range(a, b) == {};
    }
  }

  lemma DisjointCard(a: set<nat>, b: set<nat>)
    requires forall c :: c in a ==> c !in b
    ensures |a + b| == |a| + |b|
  {
    assert a * b == {};
  }

  /** The clusters of the blocks lo..hi. */
  ghost function Span(r: nat, lo: nat, hi: nat): set<nat>
    requires r >= 1
  {
    Range(B2C(r, lo), B2C(r, hi))
  }

  /** Every cluster of the span holds one of the blocks. */
  lemma {:induction false} SpanWitness(r: nat, lo: nat, hi: nat, c: nat) returns (b: nat)
    requires r >= 1 && lo <= hi && c in Span(r, lo, hi)
    ensures lo <= b <= hi && B2C(r, b) == c
    decreases hi - lo
  {
    if c == B2C(r, lo) {
      b := lo;
    } else {
      NextCluster(r, lo);
      SameCluster(r, lo, hi);
      if hi < CFill(r, lo) + 1 {
        B2CMono(r, lo, hi);
        assert false;
      }
      b := SpanWitness(r, CFill(r, lo) + 1, hi, c);
    }
  }
}
