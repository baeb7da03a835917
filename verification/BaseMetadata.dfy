/** Which groups hold superblock and descriptor backups, and how many blocks these take (test_root,
    ext4_bg_has_super, ext4_bg_num_gdb, ext4_num_base_meta_blocks of balloc.c).
    Divisions and products are by repeated subtraction and addition, as in Clusters. */
module BaseMetadata {
  import opened Clusters

  function Pow(b: nat, k: nat): nat {
    if k == 0 then 1 else C2B(b, Pow(b, k - 1))
  }

  /** a is b to the k, for some k of at least one. */
  ghost predicate IsPower(a: nat, b: nat) {
    exists k: nat :: k >= 1 && a == Pow(b, k)
  }

  /** C2B multiplies. */
  lemma {:induction false} Multiple(b: nat, c: nat)
    requires b >= 1
    ensures COff(b, C2B(b, c)) == 0 && B2C(b, C2B(b, c)) == c && C2B(b, c) >= c
    ensures c >= 1 ==> C2B(b, c) >= b
  {
    if c > 0 {
      Multiple(b, c - 1);
    }
  }

  lemma {:induction false} Remainder(b: nat, a: nat)
    requires b >= 1
    ensures a == C2B(b, B2C(b, a)) + COff(b, a)
    decreases a
  {
    if a >= b {
      Remainder(b, a - b);
    }
  }

  lemma PowOne(b: nat)
    ensures Pow(b, 1) == b
  {
    assert Pow(b, 0) == 1 && C2B(b, 0) == 0;
  }

  lemma {:induction false} PowBounds(b: nat, k: nat)
    requires b >= 2 && k >= 1
    ensures Pow(b, k) >= b && COff(b, Pow(b, k)) == 0 && B2C(b, Pow(b, k)) == Pow(b, k - 1)
  {
    if k >= 2 {
      PowBounds(b, k - 1);
    }
    Multiple(b, Pow(b, k - 1));
  }

  lemma PowerOf(a: nat, b: nat)
    requires b >= 2 && IsPower(a, b)
    ensures a >= b && COff(b, a) == 0
  {
    var k: nat :| k >= 1 && a == Pow(b, k);
    PowBounds(b, k);
  }

  lemma PowerStep(a: nat, b: nat)
    requires b >= 2 && a > b && COff(b, a) == 0
    ensures IsPower(a, b) <==> IsPower(B2C(b, a), b)
  {
    if IsPower(a, b) {
      var k: nat :| k >= 1 && a == Pow(b, k);
      PowBounds(b, k);
      PowOne(b);
      assert k >= 2 && B2C(b, a) == Pow(b, k - 1);
    }
    if IsPower(B2C(b, a), b) {
      var k: nat :| k >= 1 && B2C(b, a) == Pow(b, k);
      Remainder(b, a);
      assert a == Pow(b, k + 1);
    }
  }

  lemma {:induction false} Smaller(b: nat, a: nat)
    requires b >= 2 && a >= 1
    ensures B2C(b, a) < a
    decreases a
  {
    if a > b {
      Smaller(b, a - b);
    }
  }

  /** test_root: divides until it can tell. */
  method TestRoot(group: nat, b: nat) returns (yes: bool)
    requires b >= 2
    ensures yes <==> IsPower(group, b)
  {
    var a: nat := group;
    while true
      invariant IsPower(a, b) <==> IsPower(group, b)
      decreases a
    {
      if a < b {
        if IsPower(a, b) {
          PowerOf(a, b);
        }
        return false;
      }
      if a == b {
        PowOne(b);
        return true;
      }
      if COff(b, a) != 0 {
        if IsPower(a, b) {
          PowerOf(a, b);
        }
        return false;
      }
      PowerStep(a, b);
      Smaller(b, a);
      a := B2C(b, a);
    }
  }

  lemma {:induction false} OddMultiple(b: nat, c: nat)
    requires b % 2 == 1
    ensures C2B(b, c) % 2 == c % 2
  {
    if c > 0 {
      OddMultiple(b, c - 1);
    }
  }

  lemma {:induction false} PowOdd(b: nat, k: nat)
    requires b % 2 == 1
    ensures Pow(b, k) % 2 == 1
  {
    if k > 0 {
      PowOdd(b, k - 1);
      OddMultiple(b, Pow(b, k - 1));
    }
  }

  lemma EvenIsNoPower(a: nat, b: nat)
    requires b % 2 == 1 && IsPower(a, b)
    ensures a % 2 == 1
  {
    var k: nat :| k >= 1 && a == Pow(b, k);
    PowOdd(b, k);
  }

  /** The features and fields that decide: sparse_super2 with its two backup groups, sparse_super,
      meta_bg with its first group, and the sizes of the descriptor table. */
  datatype Super = Super(sparse2: bool, backup0: nat, backup1: nat, sparse: bool, metaBg: bool,
                         firstMetaBg: nat, perBlock: nat, gdbCount: nat, reserved: nat)

  /** Where backups are meant to be. */
  ghost predicate Backup(s: Super, group: nat) {
    || group == 0
    || (if s.sparse2 then group == s.backup0 || group == s.backup1
        else group == 1 || !s.sparse || IsPower(group, 3) || IsPower(group, 5) || IsPower(group, 7))
  }

  /** ext4_bg_has_super; even groups are answered without looking for a root. */
  method HasSuper(s: Super, group: nat) returns (yes: bool)
    ensures yes <==> Backup(s, group)
  {
    if group == 0 {
      return true;
    }
    if s.sparse2 {
      return group == s.backup0 || group == s.backup1;
    }
    if group <= 1 || !s.sparse {
      return true;
    }
    if group % 2 == 0 {
      if IsPower(group, 3) {
        EvenIsNoPower(group, 3);
      }
      if IsPower(group, 5) {
        EvenIsNoPower(group, 5);
      }
      if IsPower(group, 7) {
        EvenIsNoPower(group, 7);
      }
      return false;
    }
    yes := TestRoot(group, 3);
    if !yes {
      yes := TestRoot(group, 5);
      if !yes {
        yes := TestRoot(group, 7);
      }
    }
  }

  /** ext4_bg_num_gdb_meta */
  function GdbMeta(s: Super, group: nat): nat
    requires s.perBlock >= 1
  {
    var first := C2B(s.perBlock, B2C(s.perBlock, group));
    if group == first || group == first + 1 || group == first + s.perBlock - 1 then 1 else 0
  }

  /** ext4_bg_num_gdb_nometa */
  function GdbNoMeta(s: Super, super: bool): nat {
    if !super then 0 else if s.metaBg then s.firstMetaBg else s.gdbCount
  }

  /** ext4_bg_num_gdb */
  function NumGdb(s: Super, group: nat, super: bool): nat
    requires s.perBlock >= 1
  {
    if !s.metaBg || B2C(s.perBlock, group) < s.firstMetaBg then GdbNoMeta(s, super) else GdbMeta(s, group)
  }

  /** ext4_num_base_meta_blocks */
  function BaseBlocks(s: Super, group: nat, super: bool): nat
    requires s.perBlock >= 1
  {
    var num := if super then 1 else 0;
    if !s.metaBg || group < C2B(s.perBlock, s.firstMetaBg) then
      if super then num + GdbNoMeta(s, super) + s.reserved else num
    else num + GdbMeta(s, group)
  }

  /** A group lies in the part of the file system whose descriptors are spread over their own groups. */
  predicate Spread(s: Super, group: nat)
    requires s.perBlock >= 1
  {
    s.metaBg && group >= C2B(s.perBlock, s.firstMetaBg)
  }

  /** There, the first two groups and the last one of those that share a descriptor block hold a copy of it. */
  predicate HoldsCopy(s: Super, group: nat)
    requires s.perBlock >= 1
  {
    var k := COff(s.perBlock, group);
    k == 0 || k == 1 || k == s.perBlock - 1
  }

  lemma GdbMetaExact(s: Super, group: nat)
    requires s.perBlock >= 1
    ensures GdbMeta(s, group) == if HoldsCopy(s, group) then 1 else 0
  {
    Remainder(s.perBlock, group);
  }

  /** The descriptor blocks of a group, and the metadata it begins with.  Both functions draw the line between
      the two layouts at the same group, one by division and one by multiplication. */
  lemma BaseBlocksAre(s: Super, group: nat, super: bool)
    requires s.perBlock >= 1
    ensures NumGdb(s, group, super) ==
            if Spread(s, group) then (if HoldsCopy(s, group) then 1 else 0)
            else if !super then 0 else if s.metaBg then s.firstMetaBg else s.gdbCount
    ensures BaseBlocks(s, group, super) ==
            (if super then 1 else 0) + NumGdb(s, group, super) + if super && !Spread(s, group) then s.reserved else 0
  {
    Line(s.perBlock, group, s.firstMetaBg);
    GdbMetaExact(s, group);
  }

  lemma {:induction false} Line(p: nat, group: nat, f: nat)
    requires p >= 1
    ensures B2C(p, group) < f <==> group < C2B(p, f)
    decreases group
  {
    if group >= p && f > 0 {
      Line(p, group - p, f - 1);
    }
  }
}
