/** The bitmap of an uninitialised group and the closed form for its free clusters
    (ext4_num_overhead_clusters, num_clusters_in_group, ext4_init_block_bitmap,
    ext4_free_clusters_after_init of balloc.c). */
module GroupBitmap {
  import opened Common
  import opened Clusters
  import opened BlockGroup

  /** What the descriptor says, and how many base metadata blocks the group begins with. */
  datatype Desc = Desc(base: nat, blockBitmap: nat, inodeBitmap: nat, inodeTable: nat, itb: nat)

  /** Every metadata block lies in the file system, and the inode table has blocks. */
  ghost predicate Sane(geo: Geometry, g: nat, d: Desc) {
    && geo.Valid() && g < geo.groups && d.itb >= 1
    && d.base <= geo.BlocksIn(g)
    && geo.first <= d.blockBitmap < geo.total && geo.first <= d.inodeBitmap < geo.total
    && geo.first <= d.inodeTable && d.inodeTable + d.itb <= geo.total
  }

  /** EXT4_NUM_B2C: clusters that hold n blocks. */
  function NumB2C(r: nat, n: nat): nat
    requires r >= 1
  {
    B2C(r, n + (r - 1))
  }

  function ClustersIn(geo: Geometry, g: nat): nat
    requires geo.r >= 1 && geo.BlocksIn(g) >= 0
  {
    NumB2C(geo.r, geo.BlocksIn(g))
  }

  lemma StartMono(b: nat, g: nat, h: nat)
    requires g < h
    ensures C2B(b, g) + b <= C2B(b, h)
    decreases h
  {
    if g < h - 1 {
      StartMono(b, g, h - 1);
    }
  }

  /** Blocks of a group are 1..bpg many, and a block of the file system in the group is among them. */
  lemma GroupSize(geo: Geometry, g: nat)
    requires geo.Valid() && g < geo.groups
    ensures 1 <= geo.BlocksIn(g) <= geo.bpg && geo.Start(g) + geo.BlocksIn(g) <= geo.total
    ensures geo.Start(g) + geo.BlocksIn(g) == geo.total || geo.BlocksIn(g) == geo.bpg
    ensures ClustersIn(geo, g) <= B2C(geo.r, geo.bpg)
  {
    if g < geo.groups - 1 {
      StartMono(geo.bpg, g, geo.groups - 1);
    }
    var n := geo.BlocksIn(g);
    B2CMono(geo.r, n + (geo.r - 1), geo.bpg + (geo.r - 1));
    FromBoundary(geo.r, geo.bpg, geo.r - 1);
  }

  lemma ClusterBelow(r: nat, x: nat, n: nat)
    requires r >= 1 && x < n
    ensures B2C(r, x) < NumB2C(r, n)
  {
    B2CMono(r, x + r, n + (r - 1));
  }

  // ----- the closed form

  predicate TableInGroup(geo: Geometry, g: nat, d: Desc) {
    d.inodeTable <= geo.Start(g) + geo.bpg - 1 && d.inodeTable + d.itb - 1 >= geo.Start(g)
  }

  /** itbl_cluster_start */
  function TableFirst(geo: Geometry, g: nat, d: Desc): int
    requires geo.r >= 1
  {
    if TableInGroup(geo, g, d) then B2C(geo.r, Max(d.inodeTable, geo.Start(g)) - geo.Start(g)) else -1
  }

  /** itbl_cluster_end */
  function TableLast(geo: Geometry, g: nat, d: Desc): int
    requires geo.r >= 1 && geo.bpg >= 1 && d.itb >= 1
  {
    if TableInGroup(geo, g, d) then
      B2C(geo.r, Min(d.inodeTable + d.itb - 1, geo.Start(g) + geo.bpg - 1) - geo.Start(g))
    else -1
  }

  /** Cluster of a bitmap block, -1 if it is not in the group. */
  function BitmapCluster(geo: Geometry, g: nat, block: nat): int
    requires geo.Valid() && geo.first <= block
  {
    if geo.GroupOf(block) == g then
      InGroup(geo, g, block);
      B2C(geo.r, block - geo.Start(g))
    else -1
  }

  /** The count, from the clusters of the inode table and the bitmaps (-1 if not in the group). */
  function Counted(base: nat, ts: int, te: int, bb: int, ib: int): int {
    base
    + (if ts >= 0 then te - ts + 1 - (if ts == base - 1 then 1 else 0) else 0)
    + (if bb >= 0 && bb >= base && (bb < ts || bb > te) then 1 else 0)
    + (if ib >= 0 && ib != bb && ib >= base && (ib < ts || ib > te) then 1 else 0)
  }

  /** ext4_num_overhead_clusters */
  function Overhead(geo: Geometry, g: nat, d: Desc): int
    requires Sane(geo, g, d)
  {
    Counted(NumB2C(geo.r, d.base), TableFirst(geo, g, d), TableLast(geo, g, d),
            BitmapCluster(geo, g, d.blockBitmap), BitmapCluster(geo, g, d.inodeBitmap))
  }

  /** ext4_free_clusters_after_init */
  function FreeAfterInit(geo: Geometry, g: nat, d: Desc): int
    requires Sane(geo, g, d)
  {
    ClustersIn(geo, g) - Overhead(geo, g, d)
  }

  // ----- what is in use

  ghost function One(c: int): set<nat> {
    if c >= 0 then {c} else {}
  }

  ghost function Inclusive(a: int, b: int): set<nat> {
    if a >= 0 then Range(a, b) else {}
  }

  /** The clusters that hold metadata. */
  ghost function Used(geo: Geometry, g: nat, d: Desc): set<nat>
    requires Sane(geo, g, d)
  {
    Range(0, NumB2C(geo.r, d.base) - 1) + Inclusive(TableFirst(geo, g, d), TableLast(geo, g, d))
    + One(BitmapCluster(geo, g, d.blockBitmap)) + One(BitmapCluster(geo, g, d.inodeBitmap))
  }

  /** Block x of the group holds metadata. */
  predicate Metadata(geo: Geometry, g: nat, d: Desc, x: nat) {
    && geo.Start(g) <= x < geo.Start(g) + geo.bpg
    && (|| x < geo.Start(g) + d.base || x == d.blockBitmap || x == d.inodeBitmap
        || d.inodeTable <= x < d.inodeTable + d.itb)
  }

  /** A metadata block lies in cluster c. */
  ghost predicate HoldsMetadata(geo: Geometry, g: nat, d: Desc, c: nat)
    requires geo.r >= 1
  {
    exists x: nat :: Metadata(geo, g, d, x) && B2C(geo.r, x - geo.Start(g)) == c
  }

  lemma BaseHolds(geo: Geometry, g: nat, d: Desc, c: nat)
    requires Sane(geo, g, d) && c < NumB2C(geo.r, d.base)
    ensures HoldsMetadata(geo, g, d, c)
  {
    var r := geo.r;
    GroupSize(geo, g);
    Quotient(r, d.base + (r - 1), NumB2C(r, d.base));
    StartMono(r, c, NumB2C(r, d.base));
    Quotient(r, C2B(r, c), c);
    var x := geo.Start(g) + C2B(r, c);
    assert Metadata(geo, g, d, x) && B2C(r, x - geo.Start(g)) == c;
  }

  lemma TableHolds(geo: Geometry, g: nat, d: Desc, c: nat)
    requires Sane(geo, g, d) && TableInGroup(geo, g, d) && TableFirst(geo, g, d) <= c <= TableLast(geo, g, d)
    ensures HoldsMetadata(geo, g, d, c)
  {
    var start := geo.Start(g);
    var lo, hi := Max(d.inodeTable, start) - start, Min(d.inodeTable + d.itb - 1, start + geo.bpg - 1) - start;
    InRange(B2C(geo.r, lo), B2C(geo.r, hi), c);
    var b := SpanWitness(geo.r, lo, hi, c);
    var x := start + b;
    assert Metadata(geo, g, d, x) && B2C(geo.r, x - start) == c;
  }

  lemma BitmapHolds(geo: Geometry, g: nat, d: Desc, block: nat)
    requires Sane(geo, g, d) && (block == d.blockBitmap || block == d.inodeBitmap)
    ensures var c := BitmapCluster(geo, g, block); c >= 0 ==> HoldsMetadata(geo, g, d, c)
  {
    InGroup(geo, g, block);
    if geo.GroupOf(block) == g {
      assert Metadata(geo, g, d, block);
    }
  }

  lemma HeldIsUsed(geo: Geometry, g: nat, d: Desc, x: nat)
    requires Sane(geo, g, d) && Metadata(geo, g, d, x)
    ensures B2C(geo.r, x - geo.Start(g)) in Used(geo, g, d)
  {
    var r, start := geo.r, geo.Start(g);
    var c := B2C(r, x - start);
    if x < start + d.base {
      ClusterBelow(r, x - start, d.base);
      InRange(0, NumB2C(r, d.base) - 1, c);
    } else if x == d.blockBitmap || x == d.inodeBitmap {
      InGroup(geo, g, x);
    } else {
      B2CMono(r, Max(d.inodeTable, start) - start, x - start);
      B2CMono(r, x - start, Min(d.inodeTable + d.itb - 1, start + geo.bpg - 1) - start);
      InRange(TableFirst(geo, g, d), TableLast(geo, g, d), c);
    }
  }

  /** In use are exactly the clusters in which a block of the base metadata, a bitmap or the inode table
      lies. */
  lemma UsedExact(geo: Geometry, g: nat, d: Desc, c: nat)
    requires Sane(geo, g, d)
    ensures c in Used(geo, g, d) <==> HoldsMetadata(geo, g, d, c)
  {
    if HoldsMetadata(geo, g, d, c) {
      var x: nat :| Metadata(geo, g, d, x) && B2C(geo.r, x - geo.Start(g)) == c;
      HeldIsUsed(geo, g, d, x);
    }
    if c in Used(geo, g, d) {
      UsedHolds(geo, g, d, c);
    }
  }

  lemma UsedHolds(geo: Geometry, g: nat, d: Desc, c: nat)
    requires Sane(geo, g, d) && c in Used(geo, g, d)
    ensures HoldsMetadata(geo, g, d, c)
  {
    TableOrder(geo, g, d);
    if c in Range(0, NumB2C(geo.r, d.base) - 1) {
      InRange(0, NumB2C(geo.r, d.base) - 1, c);
      BaseHolds(geo, g, d, c);
    } else if c in Inclusive(TableFirst(geo, g, d), TableLast(geo, g, d)) {
      InRange(TableFirst(geo, g, d), TableLast(geo, g, d), c);
      TableHolds(geo, g, d, c);
    } else {
      BitmapHolds(geo, g, d, d.blockBitmap);
      BitmapHolds(geo, g, d, d.inodeBitmap);
    }
  }

  lemma AddOne(s: set<nat>, c: int)
    ensures |s + One(c)| == |s| + if c >= 0 && c !in s then 1 else 0
  {
    if c < 0 || c in s {
      assert s + One(c) == s;
    }
  }

  lemma AddTwo(s: set<nat>, b: int, c: int)
    ensures |s + One(b) + One(c)| ==
            |s| + (if b >= 0 && b !in s then 1 else 0) + if c >= 0 && c != b && c !in s then 1 else 0
  {
    AddOne(s, b);
    AddOne(s + One(b), c);
  }

  lemma InRange(a: nat, b: int, c: nat)
    ensures c in Range(a, b) <==> a <= c <= b
  {
    assert AtLeast(c, a) <==> a <= c;
  }

  /** What the second range adds to the first. */
  lemma Beyond(base: nat, ts: nat, te: int, from: nat)
    requires from == Max(ts, base)
    ensures Range(0, base - 1) + Range(ts, te) == Range(0, base - 1) + Range(from, te)
    ensures forall c :: c in Range(0, base - 1) ==> c !in Range(from, te)
  {
    var with, rest := Range(0, base - 1) + Range(ts, te), Range(0, base - 1) + Range(from, te);
    forall c: nat ensures c in with <==> c in rest {
      InRange(0, base - 1, c);
      InRange(ts, te, c);
      InRange(from, te, c);
    }
  }

  lemma TwoRanges(base: nat, ts: nat, te: int)
    requires ts <= te
    ensures |Range(0, base - 1) + Range(ts, te)| == base + Max(0, te + 1 - Max(ts, base))
  {
    var from := Max(ts, base);
    Beyond(base, ts, te, from);
    RangeCard(0, base - 1);
    RangeCard(from, te);
    DisjointCard(Range(0, base - 1), Range(from, te));
  }

  /** The layouts on which the border check is enough: the table is elsewhere, or shares at most the last
      of the base metadata's clusters. */
  predicate BorderOnly(geo: Geometry, g: nat, d: Desc)
    requires geo.r >= 1
  {
    !TableInGroup(geo, g, d) || TableFirst(geo, g, d) >= NumB2C(geo.r, d.base) - 1
  }

  lemma TableOrder(geo: Geometry, g: nat, d: Desc)
    requires Sane(geo, g, d)
    ensures TableFirst(geo, g, d) <= TableLast(geo, g, d) && (TableFirst(geo, g, d) >= 0 <==> TableInGroup(geo, g, d))
  {
    if TableInGroup(geo, g, d) {
      B2CMono(geo.r, Max(d.inodeTable, geo.Start(g)) - geo.Start(g),
              Min(d.inodeTable + d.itb - 1, geo.Start(g) + geo.bpg - 1) - geo.Start(g));
    }
  }

  /** How many clusters the table and the base metadata share. */
  function Shared(base: nat, ts: int, te: int): int {
    if ts < 0 then 0 else Max(0, Min(te + 1, base) - ts)
  }

  /** The closed form counts the clusters in use exactly when the table overlaps the base metadata in no
      more than the border cluster; if it overlaps in more, every shared cluster counts twice. */
  lemma OverheadExact(geo: Geometry, g: nat, d: Desc)
    requires Sane(geo, g, d)
    ensures Overhead(geo, g, d) == |Used(geo, g, d)| <==> BorderOnly(geo, g, d)
    ensures !BorderOnly(geo, g, d) ==>
              Overhead(geo, g, d) ==
              |Used(geo, g, d)| + Shared(NumB2C(geo.r, d.base), TableFirst(geo, g, d), TableLast(geo, g, d))
  {
    var base, ts, te := NumB2C(geo.r, d.base), TableFirst(geo, g, d), TableLast(geo, g, d);
    var bb, ib := BitmapCluster(geo, g, d.blockBitmap), BitmapCluster(geo, g, d.inodeBitmap);
    Parts(geo, g, d, base, ts, te, bb, ib);
    CountedExact(base, ts, te, bb, ib);
  }

  lemma Parts(geo: Geometry, g: nat, d: Desc, base: nat, ts: int, te: int, bb: int, ib: int)
    requires Sane(geo, g, d) && base == NumB2C(geo.r, d.base) && ts == TableFirst(geo, g, d) && te == TableLast(geo, g, d)
    requires bb == BitmapCluster(geo, g, d.blockBitmap) && ib == BitmapCluster(geo, g, d.inodeBitmap)
    ensures -1 <= ts <= te && (ts == -1 ==> te == -1) && bb >= -1 && ib >= -1
    ensures Overhead(geo, g, d) == Counted(base, ts, te, bb, ib)
    ensures Used(geo, g, d) == Range(0, base - 1) + Inclusive(ts, te) + One(bb) + One(ib)
    ensures BorderOnly(geo, g, d) <==> ts < 0 || ts >= base - 1
  {
    TableOrder(geo, g, d);
  }

  lemma CountedExact(base: nat, ts: int, te: int, bb: int, ib: int)
    requires -1 <= ts <= te && (ts == -1 ==> te == -1) && bb >= -1 && ib >= -1
    ensures Counted(base, ts, te, bb, ib) == |Range(0, base - 1) + Inclusive(ts, te) + One(bb) + One(ib)| <==>
            ts < 0 || ts >= base - 1
    ensures 0 <= ts < base - 1 ==> Counted(base, ts, te, bb, ib) ==
                                   |Range(0, base - 1) + Inclusive(ts, te) + One(bb) + One(ib)| + Shared(base, ts, te)
  {
    AddTwo(Range(0, base - 1) + Inclusive(ts, te), bb, ib);
    BaseAndTable(base, ts, te);
    Holds(base, ts, te, bb);
    Holds(base, ts, te, ib);
  }

  lemma BaseAndTable(base: nat, ts: int, te: int)
    requires ts <= te
    ensures |Range(0, base - 1) + Inclusive(ts, te)| == base + if ts < 0 then 0 else Max(0, te + 1 - Max(ts, base))
  {
    if ts >= 0 {
      TwoRanges(base, ts, te);
    } else {
      RangeCard(0, base - 1);
      assert Range(0, base - 1) + Inclusive(ts, te) == Range(0, base - 1);
    }
  }

  lemma Holds(base: nat, ts: int, te: int, c: int)
    ensures c >= 0 ==> (c in Range(0, base - 1) + Inclusive(ts, te) <==> c < base || (0 <= ts <= c <= te))
  {
    if c >= 0 {
      InRange(0, base - 1, c);
      if ts >= 0 {
        InRange(ts, te, c);
      }
    }
  }

  /** A layout whose inode table keeps off the base metadata shares at most the border cluster. */
  lemma ApartIsBorderOnly(geo: Geometry, g: nat, d: Desc)
    requires Sane(geo, g, d)
    requires d.base == 0 || d.inodeTable >= geo.Start(g) + d.base || d.inodeTable + d.itb <= geo.Start(g)
    ensures BorderOnly(geo, g, d)
  {
    var r := geo.r;
    if TableInGroup(geo, g, d) && d.base > 0 {
      B2CMono(r, d.base + (r - 1), d.inodeTable - geo.Start(g) + r);
    }
  }

  lemma {:induction false} UnitOffset(b: nat)
    ensures COff(1, b) == 0
  {
    if b > 0 {
      UnitOffset(b - 1);
    }
  }

  /** Single-block clusters and a one-block table on the first of several metadata blocks. */
  ghost predicate Overlapping(geo: Geometry, g: nat, d: Desc) {
    Sane(geo, g, d) && geo.r == 1 && d.base >= 2 && d.inodeTable == geo.Start(g) && d.itb == 1
  }

  lemma OverlapOne(geo: Geometry, g: nat, d: Desc)
    requires Overlapping(geo, g, d)
    ensures !BorderOnly(geo, g, d)
    ensures Shared(NumB2C(geo.r, d.base), TableFirst(geo, g, d), TableLast(geo, g, d)) == 1
  {
    UnitClusters(d.base);
    UnitClusters(0);
  }

  /** In the second of two groups, which begins with a backup superblock and a descriptor block. */
  lemma SecondGroup() returns (geo: Geometry, g: nat, d: Desc)
    ensures Overlapping(geo, g, d) && g > 0
  {
    geo, g, d := Geometry(1, 0, 8, 16, 2), 1, Desc(2, 10, 11, 8, 1);
    UnitOffset(8);
    assert C2B(8, 1) == C2B(8, 0) + 8;
  }

  /** Such a layout is miscounted by one cluster. */
  lemma OverlapMiscounted() returns (geo: Geometry, g: nat, d: Desc)
    ensures Sane(geo, g, d) && g > 0 && Overhead(geo, g, d) == |Used(geo, g, d)| + 1
  {
    geo, g, d := SecondGroup();
    OverlapOne(geo, g, d);
    OverheadExact(geo, g, d);
  }

  // ----- the bitmap

  /** The first n clusters that are in use are marked. */
  ghost predicate Marks(bits: seq<bool>, used: set<nat>) {
    forall c: nat :: c < |bits| ==> (bits[c] <==> c in used)
  }

  method SetBit(a: array<bool>, c: nat, ghost used: set<nat>)
    requires c < a.Length && Marks(a[..], used)
    modifies a
    ensures Marks(a[..], used + {c})
  {
    a[c] := true;
  }

  method SetBits(a: array<bool>, from: nat, to: nat, ghost used: set<nat>)
    requires to <= a.Length && Marks(a[..], used)
    modifies a
    ensures Marks(a[..], used + Range(from, to - 1))
  {
    var c := from;
    assert Range(from, from - 1) == {};
    while c < to
      invariant from <= c && (c <= to || c == from) && Marks(a[..], used + Range(from, c - 1))
    {
      a[c] := true;
      c := c + 1;
    }
    if to < from {
      assert Range(from, to - 1) == {};
    }
  }

  lemma {:induction false} NextBlock(r: nat, x: nat)
    requires r >= 1
    ensures B2C(r, x) <= B2C(r, x + 1) <= B2C(r, x) + 1
    decreases x
  {
    if x >= r {
      NextBlock(r, x - r);
    }
  }

  /** Clusters of the inode table's blocks before tmp, as far as they are in the group. */
  ghost function TableTo(geo: Geometry, g: nat, d: Desc, tmp: nat): set<nat>
    requires geo.r >= 1
  {
    var lo, hi := Max(d.inodeTable, geo.Start(g)), Min(tmp, geo.Start(g) + geo.bpg);
    if lo < hi then Range(B2C(geo.r, lo - geo.Start(g)), B2C(geo.r, hi - 1 - geo.Start(g))) else {}
  }

  lemma TableStep(geo: Geometry, g: nat, d: Desc, tmp: nat)
    requires geo.Valid() && d.inodeTable <= tmp
    ensures TableTo(geo, g, d, tmp + 1) == TableTo(geo, g, d, tmp) +
            if geo.Start(g) <= tmp < geo.Start(g) + geo.bpg then {B2C(geo.r, tmp - geo.Start(g))} else {}
  {
    var start := geo.Start(g);
    if start < tmp < start + geo.bpg {
      NextBlock(geo.r, tmp - 1 - start);
      B2CMono(geo.r, Max(d.inodeTable, start) - start, tmp - start);
      Extend(B2C(geo.r, Max(d.inodeTable, start) - start), B2C(geo.r, tmp - 1 - start), B2C(geo.r, tmp - start));
    }
  }

  lemma Extend(a: nat, b: nat, b': nat)
    requires a <= b' && b <= b' <= b + 1
    ensures Range(a, b') == Range(a, b) + {b'}
    ensures Range(b', b') == {b'}
  {
    var l, r := Range(a, b'), Range(a, b) + {b'};
    forall c: nat ensures c in l <==> c in r {
      InRange(a, b', c);
      InRange(a, b, c);
    }
  }

  /** The loop over the inode table. */
  method SetTable(geo: Geometry, g: nat, d: Desc, a: array<bool>, ghost used: set<nat>)
    requires geo.Valid() && geo.first <= d.inodeTable && B2C(geo.r, geo.bpg) <= a.Length && Marks(a[..], used)
    modifies a
    ensures Marks(a[..], used + TableTo(geo, g, d, d.inodeTable + d.itb))
  {
    var tmp := d.inodeTable;
    ghost var seen := TableTo(geo, g, d, tmp);
    assert seen == {} && used + {} == used;
    while tmp < d.inodeTable + d.itb
      invariant d.inodeTable <= tmp <= d.inodeTable + d.itb
      invariant seen == TableTo(geo, g, d, tmp) && Marks(a[..], used + seen)
    {
      TableStep(geo, g, d, tmp);
      InGroup(geo, g, tmp);
      if geo.GroupOf(tmp) == g {
        SetBit(a, B2C(geo.r, tmp - geo.Start(g)), used + seen);
      }
      tmp := tmp + 1;
      seen := TableTo(geo, g, d, tmp);
    }
  }

  /** A bitmap block's own bit, if it lies in the group. */
  method SetBitmap(geo: Geometry, g: nat, block: nat, a: array<bool>, ghost used: set<nat>)
    requires geo.Valid() && geo.first <= block && B2C(geo.r, geo.bpg) <= a.Length && Marks(a[..], used)
    modifies a
    ensures Marks(a[..], used + One(BitmapCluster(geo, g, block)))
  {
    InGroup(geo, g, block);
    if geo.GroupOf(block) == g {
      SetBit(a, B2C(geo.r, block - geo.Start(g)), used);
    }
  }

  /** ext4_init_block_bitmap: a bit is set exactly for the clusters in use and those past the group's end. */
  method InitBitmap(geo: Geometry, g: nat, d: Desc, csumOk: bool, a: array<bool>) returns (ok: bool)
    requires Sane(geo, g, d) && B2C(geo.r, geo.bpg) <= a.Length
    modifies a
    ensures ok <==> csumOk && NumB2C(geo.r, d.base) < a.Length
    ensures ok ==> Marks(a[..], Used(geo, g, d) + Range(ClustersIn(geo, g), a.Length - 1))
  {
    if !csumOk {
      return false;
    }
    for i := 0 to a.Length
      invariant forall c: nat :: c < i ==> !a[c]
    {
      a[i] := false;
    }
    var max := NumB2C(geo.r, d.base);
    if max >= a.Length {
      return false;
    }
    SetBits(a, 0, max, {});
    ghost var u := {} + Range(0, max - 1);
    SetBitmap(geo, g, d.blockBitmap, a, u);
    u := u + One(BitmapCluster(geo, g, d.blockBitmap));
    SetBitmap(geo, g, d.inodeBitmap, a, u);
    u := u + One(BitmapCluster(geo, g, d.inodeBitmap));
    SetTable(geo, g, d, a, u);
    u := u + TableTo(geo, g, d, d.inodeTable + d.itb);
    WholeTable(geo, g, d);
    assert u == Used(geo, g, d);
    GroupSize(geo, g);
    SetBits(a, ClustersIn(geo, g), a.Length, u);
    ok := true;
  }

  lemma WholeTable(geo: Geometry, g: nat, d: Desc)
    requires Sane(geo, g, d)
    ensures TableTo(geo, g, d, d.inodeTable + d.itb) == Inclusive(TableFirst(geo, g, d), TableLast(geo, g, d))
  {
  }

  // ----- the closed form against the bitmap

  /** Zero bits among the first n. */
  function Zeros(bits: seq<bool>, n: nat): nat
    requires n <= |bits|
  {
    if n == 0 then 0 else Zeros(bits, n - 1) + if bits[n - 1] then 0 else 1
  }

  lemma {:induction false} ZerosCount(bits: seq<bool>, used: set<nat>, n: nat)
    requires Marks(bits, used) && n <= |bits|
    ensures Zeros(bits, n) == n - |used * Range(0, n - 1)|
  {
    if n == 0 {
      assert used * Range(0, -1) == {};
    } else {
      ZerosCount(bits, used, n - 1);
      var below := used * Range(0, n - 2);
      if bits[n - 1] {
        assert used * Range(0, n - 1) == below + {n - 1};
      } else {
        assert used * Range(0, n - 1) == below;
      }
    }
  }

  lemma UsedBelow(geo: Geometry, g: nat, d: Desc, c: nat)
    requires Sane(geo, g, d) && c in Used(geo, g, d)
    ensures c < ClustersIn(geo, g)
  {
    var r, n := geo.r, geo.BlocksIn(g);
    GroupSize(geo, g);
    InRange(0, NumB2C(r, d.base) - 1, c);
    B2CMono(r, d.base + (r - 1), n + (r - 1));
    BitmapBelow(geo, g, d.blockBitmap);
    BitmapBelow(geo, g, d.inodeBitmap);
    if TableInGroup(geo, g, d) {
      InRange(TableFirst(geo, g, d), TableLast(geo, g, d), c);
      ClusterBelow(r, Min(d.inodeTable + d.itb - 1, geo.Start(g) + geo.bpg - 1) - geo.Start(g), n);
    }
  }

  lemma BitmapBelow(geo: Geometry, g: nat, block: nat)
    requires geo.Valid() && g < geo.groups && geo.first <= block < geo.total
    ensures BitmapCluster(geo, g, block) < ClustersIn(geo, g)
  {
    GroupSize(geo, g);
    InGroup(geo, g, block);
    if geo.GroupOf(block) == g {
      ClusterBelow(geo.r, block - geo.Start(g), geo.BlocksIn(g));
    }
  }

  lemma Inside(u: set<nat>, n: nat, m: int)
    requires forall c :: c in u ==> c < n
    ensures (u + Range(n, m)) * Range(0, n - 1) == u
  {
    var inside := (u + Range(n, m)) * Range(0, n - 1);
    forall c: nat ensures c in inside <==> c in u {
      InRange(0, n - 1, c);
      InRange(n, m, c);
    }
  }

  /** The free count of the closed form is the number of zero bits that initialising the bitmap leaves
      within the group, exactly when the inode table overlaps the base metadata in at most the border
      cluster. */
  lemma FreeCountExact(geo: Geometry, g: nat, d: Desc, bits: seq<bool>)
    requires Sane(geo, g, d) && ClustersIn(geo, g) <= |bits|
    requires Marks(bits, Used(geo, g, d) + Range(ClustersIn(geo, g), |bits| - 1))
    ensures Zeros(bits, ClustersIn(geo, g)) == FreeAfterInit(geo, g, d) <==> BorderOnly(geo, g, d)
  {
    ZerosLeft(geo, g, d, bits);
    OverheadExact(geo, g, d);
  }

  lemma ZerosBelow(bits: seq<bool>, used: set<nat>, n: nat)
    requires n <= |bits| && Marks(bits, used + Range(n, |bits| - 1)) && forall c :: c in used ==> c < n
    ensures Zeros(bits, n) == n - |used|
  {
    ZerosCount(bits, used + Range(n, |bits| - 1), n);
    Inside(used, n, |bits| - 1);
  }

  lemma ZerosLeft(geo: Geometry, g: nat, d: Desc, bits: seq<bool>)
    requires Sane(geo, g, d) && ClustersIn(geo, g) <= |bits|
    requires Marks(bits, Used(geo, g, d) + Range(ClustersIn(geo, g), |bits| - 1))
    ensures Zeros(bits, ClustersIn(geo, g)) == ClustersIn(geo, g) - |Used(geo, g, d)|
  {
    var n := ClustersIn(geo, g);
    forall c | c in Used(geo, g, d) ensures c < n {
      UsedBelow(geo, g, d, c);
    }
    ZerosBelow(bits, Used(geo, g, d), n);
  }
}
