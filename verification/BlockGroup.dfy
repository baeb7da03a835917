/** Block groups (balloc.c): where a block lies.  Divisions are by repeated subtraction, as in Clusters. */
module BlockGroup {
  import opened Clusters

  /** Cluster ratio, s_first_data_block, blocks per group, blocks in all, number of groups. */
  datatype Geometry = Geometry(r: nat, first: nat, bpg: nat, total: nat, groups: nat) {
    /** A group is a whole number of clusters; the last one may be cut short. */
    ghost predicate Valid() {
      && r >= 1 && bpg >= 1 && COff(r, bpg) == 0 && groups >= 1
      && Start(groups - 1) < total <= Start(groups - 1) + bpg
    }

    /** ext4_group_first_block_no */
    function Start(g: nat): nat {
      first + C2B(bpg, g)
    }

    /** ext4_get_group_number, by division. */
    function GroupOf(block: nat): nat
      requires bpg >= 1 && first <= block
    {
      B2C(bpg, block - first)
    }

    /** The offset of ext4_get_group_no_and_offset. */
    function OffsetOf(block: nat): nat
      requires r >= 1 && bpg >= 1 && first <= block
    {
      B2C(r, COff(bpg, block - first))
    }

    function BlocksIn(g: nat): int {
      if g == groups - 1 then total - Start(g) else bpg
    }
  }

  // ----- where a block lies

  lemma {:induction false} Quotient(b: nat, x: nat, g: nat)
    requires b >= 1
    ensures B2C(b, x) == g <==> C2B(b, g) <= x < C2B(b, g) + b
    ensures B2C(b, x) == g ==> x == C2B(b, g) + COff(b, x)
    decreases x
  {
    if x >= b && g >= 1 {
      Quotient(b, x - b, g - 1);
    }
  }

  /** ext4_block_in_group, and both ways to a block's cluster within its group. */
  lemma InGroup(geo: Geometry, g: nat, block: nat)
    requires geo.Valid() && geo.first <= block
    ensures geo.GroupOf(block) == g <==> geo.Start(g) <= block < geo.Start(g) + geo.bpg
    ensures geo.GroupOf(block) == g ==> geo.OffsetOf(block) == B2C(geo.r, block - geo.Start(g)) < B2C(geo.r, geo.bpg)
  {
    Quotient(geo.bpg, block - geo.first, g);
    if geo.GroupOf(block) == g {
      BelowBoundary(geo.r, geo.bpg, block - geo.Start(g));
    }
  }

  lemma {:induction false} BelowBoundary(r: nat, n: nat, x: nat)
    requires r >= 1 && COff(r, n) == 0 && x < n
    ensures B2C(r, x) < B2C(r, n)
    decreases x
  {
    if x >= r {
      BelowBoundary(r, n - r, x - r);
    }
  }

  function Pow2(k: nat): (p: nat)
    ensures p >= 1
  {
    if k == 0 then 1 else 2 * Pow2(k - 1)
  }

  /** x shifted right by k. */
  function Shr(x: nat, k: nat): nat {
    if k == 0 then x else Shr(x, k - 1) / 2
  }

  /** The shift that STD_GROUP_SIZE allows is the division. */
  lemma {:induction false} ShiftIsGroup(x: nat, k: nat)
    ensures Shr(x, k) == B2C(Pow2(k), x)
  {
    var g := Shr(x, k);
    if k == 0 {
      UnitClusters(x);
    } else {
      ShiftIsGroup(x, k - 1);
      var p, h := Pow2(k - 1), Shr(x, k - 1);
      Quotient(p, x, h);
      Doubled(p, g);
      Quotient(2 * p, x, g);
    }
  }

  lemma {:induction false} Doubled(p: nat, g: nat)
    ensures C2B(2 * p, g) == C2B(p, 2 * g)
    ensures C2B(p, 2 * g + 1) == C2B(p, 2 * g) + p
  {
    if g > 0 {
      Doubled(p, g - 1);
    }
  }
}
