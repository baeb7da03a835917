/** The extent status tree of an inode with its pending cluster reservations
    (ext4-module/extents_status.c).

    The red-black tree is its in-order sequence `nodes`; a descent looks at one node after another
    in a shrinking window, and each pivot is an arbitrary node of the window, so whatever is proved
    holds for every shape of the tree.  A node is identified by its first block, so `cache_es` is
    the first block of the cached node. */
module EsTree {
  import opened Common
  import opened Clusters
  import opened Extents
  import opened ExtentCuts
  import opened ExtentEdits
  import opened ExtentInsert
  import opened ExtentRemove
  import opened Release
  import opened Reservations

  class Inode {
    const ratio: nat      // s_cluster_ratio
    const delalloc: bool  // the DELALLOC mount option
    var nodes: seq<Extent>
    var cache: Option<nat>
    var pending: set<nat>
    var reserved: int     // i_reserved_data_blocks, in clusters

    ghost predicate CacheLive()
      reads this
    {
      cache.Some? ==> exists i :: 0 <= i < |nodes| && nodes[i].lblk == cache.value
    }

    ghost predicate TreeOk()
      reads this
    {
      && 1 <= ratio <= 0x8000_0000
      && Sorted(nodes) && Merged(nodes) && CacheLive()
      && (ratio == 1 ==> pending == {})
    }

    /** A pending reservation stands on a cluster that holds a delayed block. */
    ghost predicate Accounted()
      reads this
      requires ratio >= 1
    {
      pending <= DelayedClusters(ratio, nodes)
    }

    /** Clusters that need a reservation: a delayed block and no pending reservation. */
    ghost function R(): nat
      reads this
      requires ratio >= 1
    {
      |DelayedClusters(ratio, nodes) - pending|
    }

    ghost predicate Valid()
      reads this
    {
      TreeOk() && (delalloc ==> Accounted())
    }

    constructor (ratio: nat, delalloc: bool)
      requires 1 <= ratio <= 0x8000_0000
      ensures Valid() && nodes == [] && pending == {} && reserved == 0
      ensures this.ratio == ratio && this.delalloc == delalloc
    {
      this.ratio, this.delalloc := ratio, delalloc;
      nodes, cache, pending, reserved := [], None, {}, 0;
    }

    /** __es_tree_search: the extent that holds lblk, or else the next one. */
    method Search(lblk: nat) returns (k: nat)
      requires Sorted(nodes)
      ensures k <= |nodes|
      ensures forall i :: 0 <= i < k ==> nodes[i].End() < lblk
      ensures forall i :: k <= i < |nodes| ==> lblk <= nodes[i].End()
    {
      var lo, hi := 0, |nodes|;
      while lo < hi
        invariant 0 <= lo <= hi <= |nodes|
        invariant forall i :: 0 <= i < lo ==> nodes[i].End() < lblk
        invariant forall i :: hi <= i < |nodes| ==> lblk < nodes[i].lblk
      {
        var mid :| lo <= mid < hi;
        if lblk < nodes[mid].lblk {
          hi := mid;
        } else if lblk > nodes[mid].End() {
          lo := mid + 1;
        } else {
          return mid;
        }
      }
      return lo;
    }

    /** __es_insert_extent: on a range the tree knows nothing about, the map is updated on exactly
        the blocks of the new extent, whichever neighbours it is merged with. */
    method Insert(newes: Extent)
      requires TreeOk() && newes.Valid()
      requires forall b :: newes.Covers(b) ==> At(nodes, b) == None
      modifies this`nodes, this`cache
      ensures TreeOk() && cache.Some?
      ensures Updated(old(nodes), nodes, newes)
      ensures FarLeftKept(old(nodes), nodes, newes)
    {
      var k;
      nodes, k := InsertInto(nodes, newes);
      cache := Some(nodes[k].lblk);
    }

    /** __es_remove_extent.  When reservations are counted, pending ones stay exactly on clusters
        that still hold a delayed block, and the count it reports is exactly the drop in the number
        of clusters that need a reservation. */
    method Remove(lblk: nat, end: nat, wanted: bool) returns (released: int)
      requires TreeOk() && lblk <= end <= MAX_BLOCKS
      requires wanted && delalloc ==> Accounted()
      modifies this`nodes, this`cache, this`pending
      ensures TreeOk() && Erased(old(nodes), nodes, lblk, end)
      ensures wanted && delalloc ==> pending == old(pending) * DelayedClusters(ratio, nodes)
      ensures wanted && delalloc ==> Accounted() && released == old(R()) - R()
      ensures !(wanted && delalloc) ==> pending == old(pending) && released == 0
    {
      var k := Search(lblk);
      if k == |nodes| || nodes[k].lblk > end {
        NothingThere(nodes, k, lblk, end);
        return 0;
      }
      cache := None;
      var node;
      nodes, pending, released, node := RemoveFrom(ratio, nodes, pending, k, lblk, end, wanted && delalloc);
      if node.Some? {
        cache := Some(nodes[node.value].lblk);
      }
    }

    /** ext4_es_remove_extent: erases the range and hands back its reservations. */
    method RemoveExtent(lblk: nat, len: nat)
      requires Valid() && lblk + len <= 0x1_0000_0000
      modifies this
      ensures Valid()
      ensures len > 0 ==> Erased(old(nodes), nodes, lblk, lblk + len - 1)
      ensures len == 0 ==> nodes == old(nodes) && pending == old(pending)
      ensures pending == if delalloc then old(pending) * DelayedClusters(ratio, nodes) else old(pending)
      ensures if delalloc then reserved - R() == old(reserved - R()) else reserved == old(reserved)
    {
      if len == 0 {
        return;
      }
      var released := Remove(lblk, lblk + len - 1, true);
      reserved := reserved - released;
    }

    /** Where the cached node is, if there is one. */
    method CachedNode() returns (k: nat)
      requires TreeOk()
      ensures k <= |nodes|
      ensures cache.None? ==> k == |nodes|
      ensures cache.Some? ==> k < |nodes| && nodes[k].lblk == cache.value
    {
      if cache.None? {
        return |nodes|;
      }
      k := Search(cache.value);
    }

    /** The cached node if it holds lblk, and the descent otherwise, find the same node. */
    method CachedOrSearch(lblk: nat) returns (k: nat)
      requires TreeOk()
      ensures k <= |nodes|
      ensures forall i :: 0 <= i < k ==> nodes[i].End() < lblk
      ensures k < |nodes| ==> lblk <= nodes[k].End()
    {
      k := CachedNode();
      if !(k < |nodes| && nodes[k].Covers(lblk)) {
        k := Search(lblk);
      }
    }

    /** ext4_es_set_referenced */
    method SetReferenced(k: nat)
      requires TreeOk() && k < |nodes|
      modifies this`nodes
      ensures TreeOk() && SameMap(old(nodes), nodes)
      ensures nodes == old(nodes)[k := old(nodes)[k].(referenced := true)]
    {
      if !nodes[k].referenced {
        Rereferenced(nodes, k);
        nodes := nodes[k := nodes[k].(referenced := true)];
        assert forall i :: 0 <= i < |nodes| ==> nodes[i].lblk == old(nodes)[i].lblk;
      }
    }

    /** __es_find_extent_range for extents of one status: the extent at or after lblk if it has it, and
        otherwise the first such extent that starts up to end. */
    method FindExtentRange(st: Status, lblk: nat, end: nat) returns (k: nat)
      requires TreeOk() && lblk <= end
      modifies this`cache
      ensures TreeOk() && k <= |nodes|
      ensures k < |nodes| ==> nodes[k].status == st && lblk <= nodes[k].End() && cache == Some(nodes[k].lblk)
      ensures k == |nodes| ==> cache == old(cache)
      ensures forall i :: 0 <= i < k && lblk <= nodes[i].End() && nodes[i].lblk <= end ==> nodes[i].status != st
      ensures k < |nodes| && nodes[k].lblk > end ==> forall i :: 0 <= i < k ==> nodes[i].End() < lblk
      ensures k == |nodes| ==> forall i :: 0 <= i < |nodes| && FirstFrom(nodes, lblk, i) ==> nodes[i].status != st
    {
      k := CachedOrSearch(lblk);
      k := FirstWithStatus(nodes, st, k, lblk, end);
      if k < |nodes| {
        cache := Some(nodes[k].lblk);
      }
    }

    /** __es_scan_range: is there a block of the status in start .. end? */
    method ScanRange(st: Status, start: nat, end: nat) returns (found: bool)
      requires TreeOk() && start <= end
      modifies this`cache
      ensures TreeOk()
      ensures found <==> exists b: nat :: start <= b <= end && HasStatus(nodes, b, st)
    {
      var k := FindExtentRange(st, start, end);
      if k == |nodes| {
        found := false;
      } else if nodes[k].lblk <= start < nodes[k].lblk + nodes[k].len {
        found := true;
        AtCovered(nodes, k, start);
        assert HasStatus(nodes, start, st);
      } else if start <= nodes[k].lblk <= end {
        found := true;
        AtCovered(nodes, k, nodes[k].lblk);
        assert HasStatus(nodes, nodes[k].lblk, st);
      } else {
        found := false;
      }
      if !found {
        forall b: nat | start <= b <= end ensures !HasStatus(nodes, b, st) {
          if At(nodes, b).Some? {
            var i := AtWitness(nodes, b);
          }
        }
      }
    }

    /** ext4_es_lookup_extent: the answer is what the map says, and the extent says it for all of
        its blocks; looking changes nothing but a reference bit. */
    method Lookup(lblk: nat) returns (found: bool, es: Extent, next: nat)
      requires TreeOk()
      modifies this`nodes
      ensures TreeOk() && SameMap(old(nodes), nodes)
      ensures found <==> At(nodes, lblk).Some?
      ensures !found ==> nodes == old(nodes) && es.lblk == es.len == es.pblk == 0
      ensures found ==> exists k :: 0 <= k < |old(nodes)| && es == old(nodes)[k]
                                          && nodes == old(nodes)[k := es.(referenced := true)]
      ensures found ==> es.Covers(lblk) && forall b :: es.Covers(b) ==> At(nodes, b) == Some(es.CellAt(b))
      ensures found ==> forall b :: es.End() < b < next ==> At(nodes, b) == None
      ensures found && next == 0 ==> forall b :: es.End() < b ==> At(nodes, b) == None
      ensures found && next != 0 ==> es.End() < next && At(nodes, next).Some?
    {
      es, next := Extent(0, 0, 0, Hole, false), 0;
      var k := CachedOrSearch(lblk);
      found := k < |nodes| && nodes[k].Covers(lblk);
      if found {
        es := nodes[k];
        if k + 1 < |nodes| {
          next := nodes[k + 1].lblk;
        }
        LookedUp(nodes, k);
        SetReferenced(k);
      } else {
        AtAbsent(nodes, lblk);
      }
    }

    /** __insert_pending: 1 if the reservation is new. */
    method InsertPending(lblk: nat) returns (n: nat)
      requires ratio >= 1
      modifies this`pending
      ensures pending == old(pending) + {B2C(ratio, lblk)}
      ensures n == |pending| - |old(pending)|
    {
      var lclu := B2C(ratio, lblk);
      if lclu in pending {
        assert pending == pending + {lclu};
        return 0;
      }
      pending := pending + {lclu};
      return 1;
    }

    /** __remove_pending */
    method RemovePending(lblk: nat)
      requires ratio >= 1
      modifies this`pending
      ensures pending == old(pending) - {B2C(ratio, lblk)}
    {
      pending := pending - {B2C(ratio, lblk)};
    }

    /** Makes or cancels the reservation of a cluster depending on whether it holds a delayed block. */
    method SetPending(lblk: nat, delayed: bool) returns (n: int)
      requires ratio > 1 && Accounted()
      requires delayed <==> B2C(ratio, lblk) in DelayedClusters(ratio, nodes)
      modifies this`pending
      ensures Accounted() && n == old(R()) - R()
      ensures B2C(ratio, lblk) in pending <==> delayed
      ensures forall c :: c != B2C(ratio, lblk) ==> (c in pending <==> c in old(pending))
    {
      ghost var d, p, c := DelayedClusters(ratio, nodes), pending, B2C(ratio, lblk);
      n := 0;
      if delayed {
        n := InsertPending(lblk);
        if c in p {
          assert pending == p;
        } else {
          assert d - p == (d - pending) + {c};
        }
      } else {
        RemovePending(lblk);
        assert d - pending == d - p;
      }
    }

    /** Is there a delayed block in the cluster of lblk before it, if lblk does not start it? */
    method DelayedBefore(lblk: nat) returns (found: bool)
      requires TreeOk()
      modifies this`cache
      ensures TreeOk() && (found <==> HeldBelow(ratio, nodes, lblk, B2C(ratio, lblk)))
    {
      var first := CMask(ratio, lblk);
      found := false;
      if first != lblk {
        found := ScanRange(Delayed, first, lblk - 1);
      }
      EdgeBelow(ratio, nodes, lblk);
    }

    method DelayedAfter(end: nat) returns (found: bool)
      requires TreeOk()
      modifies this`cache
      ensures TreeOk() && (found <==> HeldAbove(ratio, nodes, end, B2C(ratio, end)))
    {
      var last := CMask(ratio, end) + ratio - 1;
      found := false;
      if last != end {
        found := ScanRange(Delayed, end + 1, last);
      }
      EdgeAbove(ratio, nodes, end);
    }

    /** __revise_pending, after lblk .. end stopped being delayed: each end cluster has a pending
        reservation exactly if it still holds a delayed block, and the count of new reservations
        is the drop in R. */
    method RevisePending(lblk: nat, end: nat) returns (pendings: int)
      requires TreeOk() && ratio > 1 && Accounted() && lblk <= end
      requires forall b: nat :: lblk <= b <= end ==> !IsDelayed(nodes, b)
      modifies this`pending, this`cache
      ensures TreeOk() && Accounted() && pendings == old(R()) - R()
      ensures B2C(ratio, lblk) in pending <==> B2C(ratio, lblk) in DelayedClusters(ratio, nodes)
      ensures B2C(ratio, end) in pending <==> B2C(ratio, end) in DelayedClusters(ratio, nodes)
      ensures forall c :: c != B2C(ratio, lblk) && c != B2C(ratio, end) ==> (c in pending <==> c in old(pending))
    {
      B2CMono(ratio, lblk, end);
      StillHeld(ratio, nodes, lblk, end, lblk, end, B2C(ratio, lblk));
      StillHeld(ratio, nodes, lblk, end, lblk, end, B2C(ratio, end));
      var first, last := CMask(ratio, lblk), CMask(ratio, end) + ratio - 1;
      SameCluster(ratio, lblk, first);
      SameCluster(ratio, end, last);
      var before := DelayedBefore(lblk);
      if B2C(ratio, lblk) == B2C(ratio, end) {
        if before {
          pendings := SetPending(first, true);
        } else {
          var after := DelayedAfter(end);
          pendings := SetPending(last, after);
        }
      } else {
        AcrossClusters(ratio, nodes, lblk, end);
        pendings := SetPending(first, before);
        var after := DelayedAfter(end);
        var n := SetPending(last, after);
        pendings := pendings + n;
      }
    }

    /** Removal, counted, and insertion in one: what ext4_es_insert_extent does to the tree. */
    method Replace(newes: Extent) returns (released: int)
      requires Valid() && newes.Valid()
      modifies this`nodes, this`cache, this`pending
      ensures Valid() && Updated(old(nodes), nodes, newes)
      ensures pending == if delalloc then old(pending) * DelayedBeside(ratio, old(nodes), newes) else old(pending)
      ensures delalloc ==> released == old(R()) - R() + Unreserved(ratio, old(nodes), newes)
      ensures !delalloc ==> released == 0
      ensures newes.status != Delayed ==>
                && DelayedClusters(ratio, nodes) == DelayedBeside(ratio, old(nodes), newes)
                && forall b: nat :: newes.Covers(b) ==> !IsDelayed(nodes, b)
    {
      ghost var s := nodes;
      released := Remove(newes.lblk, newes.End(), true);
      ghost var mid := nodes;
      Insert(newes);
      ErasedBeside(ratio, s, mid, newes);
      Replaced(ratio, mid, nodes, newes, pending);
    }

    /** Removal, not counted, and insertion of a delayed extent. */
    method Overlay(newes: Extent)
      requires Valid() && newes.Valid() && newes.status == Delayed
      modifies this`nodes, this`cache, this`pending
      ensures Valid() && Updated(old(nodes), nodes, newes) && pending == old(pending)
      ensures DelayedClusters(ratio, nodes) ==
              old(DelayedClusters(ratio, nodes)) + Span(ratio, newes.lblk, newes.End())
    {
      ghost var s := nodes;
      var released := Remove(newes.lblk, newes.End(), false);
      Insert(newes);
      DelayedRange(ratio, s, nodes, newes);
    }

    /** The rest of an insertion: pending reservations at the borders, and what the quota is owed. */
    method Charge(newes: Extent, resvUsed: int)
      requires Valid() && newes.Valid()
      requires newes.Mapped() ==> forall b: nat :: newes.Covers(b) ==> !IsDelayed(nodes, b)
      modifies this`pending, this`cache, this`reserved
      ensures Valid()
      ensures pending == if ratio > 1 && delalloc && newes.Mapped() then
                           Revised(old(pending), ratio, newes) * DelayedClusters(ratio, nodes)
                         else old(pending)
      ensures if delalloc then reserved - R() == old(reserved - R()) - resvUsed else reserved == old(reserved) - resvUsed
    {
      var n := 0;
      if ratio > 1 && delalloc && newes.Mapped() {
        n := RevisePending(newes.lblk, newes.End());
        RevisedIs(old(pending), pending, DelayedClusters(ratio, nodes), ratio, newes);
      }
      reserved := reserved - (resvUsed + n);
    }

    method InsertAccounted(newes: Extent)
      requires Valid() && newes.Valid()
      modifies this
      ensures Valid() && Updated(old(nodes), nodes, newes)
      ensures PendingAfter(old(nodes), old(pending), newes)
      ensures if delalloc then reserved - R() == old(reserved - R()) - Unreserved(ratio, old(nodes), newes)
              else reserved == old(reserved)
    {
      var resvUsed := Replace(newes);
      Charge(newes, resvUsed);
    }

    /** The pending reservations after newes went into a tree that was s and had pend.  Those of clusters
        that ran empty are gone; the end clusters of a mapped extent have one exactly if they still hold
        a delayed block. */
    ghost predicate PendingAfter(s: seq<Extent>, pend: set<nat>, newes: Extent)
      reads this
      requires ratio >= 1 && newes.Valid()
    {
      pending == if !delalloc || ratio == 1 then pend
                 else (if newes.Mapped() then Revised(pend, ratio, newes) else pend) * DelayedBeside(ratio, s, newes)
    }

    /** ext4_es_insert_extent: the map is updated on the range, whatever it said before, and every
        reservation the range no longer needs is given back, including those that became pending.
        For a delayed extent, of which the source warns, the reservations then are short by the
        clusters that only this extent makes delayed. */
    method InsertExtent(lblk: nat, len: nat, pblk: nat, status: Status)
      requires Valid()
      requires len > 0 ==> Extent(lblk, len, pblk, status, false).Valid()
      modifies this
      ensures Valid()
      ensures len == 0 ==> nodes == old(nodes) && pending == old(pending) && reserved == old(reserved)
      ensures len > 0 ==>
                var newes := Extent(lblk, len, pblk, status, false);
                && Updated(old(nodes), nodes, newes) && PendingAfter(old(nodes), old(pending), newes)
                && if delalloc then reserved - R() == old(reserved - R()) - Unreserved(ratio, old(nodes), newes)
                   else reserved == old(reserved)
    {
      if len > 0 {
        InsertAccounted(Extent(lblk, len, pblk, status, false));
      }
    }

    /** ext4_es_cache_extent: inserts only if nothing is known about the whole range. */
    method CacheExtent(lblk: nat, len: nat, pblk: nat, status: Status)
      requires Valid()
      requires len > 0 ==> Extent(lblk, len, pblk, status, false).Valid()
      modifies this`nodes, this`cache
      ensures Valid()
      ensures var unknown := forall b :: lblk <= b < lblk + len ==> old(At(nodes, b)) == None;
              if len > 0 && unknown then Updated(old(nodes), nodes, Extent(lblk, len, pblk, status, false))
              else nodes == old(nodes)
    {
      if len == 0 {
        return;
      }
      var newes := Extent(lblk, len, pblk, status, false);
      var k := Search(lblk);
      if k == |nodes| || nodes[k].lblk > newes.End() {
        NothingThere(nodes, k, lblk, newes.End());
        ghost var s := nodes;
        Insert(newes);
        GrownClusters(ratio, s, nodes, newes);
      } else {
        AtCovered(nodes, k, if nodes[k].lblk <= lblk then lblk else nodes[k].lblk);
      }
    }

    /** ext4_es_insert_delayed_extent: the range becomes delayed; an end cluster that already is
        allocated gets a pending reservation. */
    method InsertDelayed(lblk: nat, len: nat, lcluAllocated: bool, endAllocated: bool)
      requires Valid() && lblk + len <= MAX_BLOCKS
      requires ratio == 1 ==> !lcluAllocated && !endAllocated
      modifies this
      ensures Valid() && reserved == old(reserved)
      ensures len == 0 ==> nodes == old(nodes) && pending == old(pending)
      ensures len > 0 ==>
                && Updated(old(nodes), nodes, Extent(lblk, len, PBLK_LIMIT - 1, Delayed, false))
                && DelayedClusters(ratio, nodes) ==
                   old(DelayedClusters(ratio, nodes)) + Span(ratio, lblk, lblk + len - 1)
                && pending == old(pending) + (if lcluAllocated then {B2C(ratio, lblk)} else {})
                                           + (if endAllocated then {B2C(ratio, lblk + len - 1)} else {})
    {
      if len == 0 {
        return;
      }
      var end := lblk + len - 1;
      var newes := Extent(lblk, len, PBLK_LIMIT - 1, Delayed, false);
      Overlay(newes);
      MarkAllocated(lblk, end, lcluAllocated, endAllocated);
    }

    method MarkAllocated(lblk: nat, end: nat, lcluAllocated: bool, endAllocated: bool)
      requires TreeOk() && lblk <= end && (ratio == 1 ==> !lcluAllocated && !endAllocated)
      requires delalloc ==> Accounted() && Span(ratio, lblk, end) <= DelayedClusters(ratio, nodes)
      modifies this`pending
      ensures Valid()
      ensures pending == old(pending) + (if lcluAllocated then {B2C(ratio, lblk)} else {})
                                      + (if endAllocated then {B2C(ratio, end)} else {})
    {
      EndsOfSpan(ratio, lblk, end);
      if lcluAllocated {
        var n := InsertPending(lblk);
      }
      if endAllocated {
        var n := InsertPending(end);
      }
    }
  }

  /** Extent i is the one at or after lblk. */
  ghost predicate FirstFrom(s: seq<Extent>, lblk: nat, i: nat)
    requires i < |s|
  {
    lblk <= s[i].End() && forall j :: 0 <= j < i ==> s[j].End() < lblk
  }

  /** The loop of __es_find_extent_range, from extent k on. */
  method FirstWithStatus(s: seq<Extent>, st: Status, k0: nat, lblk: nat, end: nat) returns (k: nat)
    requires Sorted(s) && k0 <= |s|
    requires forall i :: 0 <= i < k0 ==> s[i].End() < lblk
    requires k0 < |s| ==> lblk <= s[k0].End()
    ensures k <= |s| && (k < |s| ==> s[k].status == st && lblk <= s[k].End())
    ensures forall i :: 0 <= i < k && lblk <= s[i].End() && s[i].lblk <= end ==> s[i].status != st
    ensures k0 <= k && (k0 < k < |s| ==> s[k].lblk <= end)
    ensures k0 < |s| && s[k0].status == st ==> k == k0
  {
    k := k0;
    if k < |s| && s[k].status != st {
      k := k + 1;
      while k < |s| && s[k].status != st && s[k].lblk <= end
        invariant k0 < k <= |s|
        invariant forall i :: k0 <= i < k ==> s[i].status != st
      {
        k := k + 1;
      }
      if k < |s| && s[k].lblk > end {
        k := |s|;
      }
    }
  }

  ghost predicate HasStatus(s: seq<Extent>, b: int, st: Status) {
    At(s, b).Some? && At(s, b).value.status == st
  }

  lemma LookedUp(s: seq<Extent>, k: nat)
    requires Sorted(s) && k < |s|
    ensures forall b :: s[k].Covers(b) ==> At(s, b) == Some(s[k].CellAt(b))
    ensures forall b :: s[k].End() < b && (k + 1 < |s| ==> b < s[k + 1].lblk) ==> At(s, b) == None
    ensures k + 1 < |s| ==> At(s, s[k + 1].lblk).Some?
  {
    forall b | s[k].Covers(b) ensures At(s, b) == Some(s[k].CellAt(b)) {
      AtCovered(s, k, b);
    }
    forall b | s[k].End() < b && (k + 1 < |s| ==> b < s[k + 1].lblk) ensures At(s, b) == None {
      AtAbsent(s, b);
    }
    if k + 1 < |s| {
      AtCovered(s, k + 1, s[k + 1].lblk);
    }
  }

  lemma Rereferenced(s: seq<Extent>, k: nat)
    requires Sorted(s) && Merged(s) && k < |s|
    ensures var t := s[k := s[k].(referenced := true)];
            Sorted(t) && Merged(t) && SameMap(s, t)
  {
    var e := s[k].(referenced := true);
    var t := s[k := e];
    forall b ensures At([e], b) == At([s[k]], b) {
      assert [e][1..] == [] && [s[k]][1..] == [];
    }
    SameMiddle(s[..k], [s[k]], [e], s[k + 1..]);
    assert s == s[..k] + [s[k]] + s[k + 1..] && t == s[..k] + [e] + s[k + 1..];
    forall i | 0 < i < |t| ensures !CanMerge(t[i - 1], t[i]) {
      assert !CanMerge(s[i - 1], s[i]);
    }
  }

  lemma EdgeBelow(r: nat, s: seq<Extent>, lblk: nat)
    requires r >= 1
    ensures HeldBelow(r, s, lblk, B2C(r, lblk)) <==>
            exists b: nat :: CMask(r, lblk) <= b <= lblk - 1 && HasStatus(s, b, Delayed)
  {
    if HeldBelow(r, s, lblk, B2C(r, lblk)) {
      var b: nat :| b < lblk && IsDelayed(s, b) && B2C(r, b) == B2C(r, lblk);
      SameCluster(r, lblk, b);
      assert HasStatus(s, b, Delayed);
    }
    if b: nat :| CMask(r, lblk) <= b <= lblk - 1 && HasStatus(s, b, Delayed) {
      SameCluster(r, lblk, b);
      assert IsDelayed(s, b);
    }
  }

  lemma EdgeAbove(r: nat, s: seq<Extent>, end: nat)
    requires r >= 1
    ensures HeldAbove(r, s, end, B2C(r, end)) <==>
            exists b: nat :: end + 1 <= b <= CMask(r, end) + r - 1 && HasStatus(s, b, Delayed)
  {
    if HeldAbove(r, s, end, B2C(r, end)) {
      var b: nat :| end < b && IsDelayed(s, b) && B2C(r, b) == B2C(r, end);
      SameCluster(r, end, b);
      assert HasStatus(s, b, Delayed);
    }
    if b: nat :| end + 1 <= b <= CMask(r, end) + r - 1 && HasStatus(s, b, Delayed) {
      SameCluster(r, end, b);
      assert IsDelayed(s, b);
    }
  }

  /** Over several clusters, the first can only be held from the left and the last from the right. */
  lemma AcrossClusters(r: nat, s: seq<Extent>, lblk: nat, end: nat)
    requires r >= 1 && lblk <= end && B2C(r, lblk) < B2C(r, end)
    ensures !HeldAbove(r, s, end, B2C(r, lblk)) && !HeldBelow(r, s, lblk, B2C(r, end))
  {
    forall b: nat ensures end < b ==> B2C(r, b) != B2C(r, lblk) {
      if end < b {
        B2CMono(r, end, b);
      }
    }
    forall b: nat ensures b < lblk ==> B2C(r, b) != B2C(r, end) {
      if b < lblk {
        B2CMono(r, b, lblk);
      }
    }
  }

  // ----- reservations around an insertion

  /** Clusters that hold a delayed block beside the extent. */
  ghost function DelayedBeside(r: nat, s: seq<Extent>, e: Extent): set<nat>
    requires r >= 1
  {
    set b: nat | b < MAX_BLOCKS && IsDelayed(s, b) && !e.Covers(b) :: B2C(r, b)
  }

  /** Clusters that only this delayed extent makes delayed: nobody made a reservation for them. */
  ghost function Unreserved(r: nat, s: seq<Extent>, e: Extent): nat
    requires r >= 1 && e.Valid()
  {
    if e.status == Delayed then |Span(r, e.lblk, e.End()) - DelayedBeside(r, s, e)| else 0
  }

  /** The end clusters are looked at again. */
  ghost function Revised(pend: set<nat>, r: nat, e: Extent): set<nat>
    requires r >= 1 && e.Valid()
  {
    pend + {B2C(r, e.lblk), B2C(r, e.End())}
  }

  lemma EndsOfSpan(r: nat, lblk: nat, end: nat)
    requires r >= 1 && lblk <= end
    ensures B2C(r, lblk) in Span(r, lblk, end) && B2C(r, end) in Span(r, lblk, end)
  {
    B2CMono(r, lblk, end);
  }

  lemma RevisedIs(pend: set<nat>, pend': set<nat>, delayed: set<nat>, r: nat, e: Extent)
    requires r >= 1 && e.Valid() && pend <= delayed && pend' <= delayed
    requires B2C(r, e.lblk) in pend' <==> B2C(r, e.lblk) in delayed
    requires B2C(r, e.End()) in pend' <==> B2C(r, e.End()) in delayed
    requires forall c :: c != B2C(r, e.lblk) && c != B2C(r, e.End()) ==> (c in pend' <==> c in pend)
    ensures pend' == Revised(pend, r, e) * delayed
  {
  }

  ghost predicate HeldBeside(r: nat, s: seq<Extent>, e: Extent, c: nat)
    requires r >= 1
  {
    exists b: nat :: b < MAX_BLOCKS && IsDelayed(s, b) && !e.Covers(b) && B2C(r, b) == c
  }

  /** The reservations stay right exactly if the extent is not delayed or each of its blocks shares its
      cluster with a delayed block beside the extent. */
  lemma UnreservedExact(r: nat, s: seq<Extent>, e: Extent)
    requires r >= 1 && e.Valid()
    ensures Unreserved(r, s, e) == 0 <==>
            e.status != Delayed || forall x: nat :: e.Covers(x) ==> HeldBeside(r, s, e, B2C(r, x))
  {
    var short := Span(r, e.lblk, e.End()) - DelayedBeside(r, s, e);
    if short == {} {
      forall x: nat | e.Covers(x) ensures HeldBeside(r, s, e, B2C(r, x)) {
        B2CMono(r, e.lblk, x);
        B2CMono(r, x, e.End());
        assert B2C(r, x) in Span(r, e.lblk, e.End()) && B2C(r, x) !in short;
        assert B2C(r, x) in DelayedBeside(r, s, e);
      }
    } else {
      var c :| c in short;
      var x := SpanWitness(r, e.lblk, e.End(), c);
      assert !HeldBeside(r, s, e, B2C(r, x));
    }
  }

  lemma ErasedBeside(r: nat, s: seq<Extent>, t: seq<Extent>, e: Extent)
    requires r >= 1 && e.Valid() && Erased(s, t, e.lblk, e.End())
    ensures DelayedClusters(r, t) == DelayedBeside(r, s, e)
  {
    assert forall b: nat :: IsDelayed(t, b) <==> IsDelayed(s, b) && !e.Covers(b);
  }

  lemma Added(a: set<nat>, s: set<nat>, p: set<nat>)
    requires p <= a
    ensures |a + s - p| == |a - p| + |s - a|
  {
    DisjointCard(a - p, s - a);
    assert a + s - p == (a - p) + (s - a);
  }

  /** Putting an extent where nothing was known: s is the tree before. */
  lemma Replaced(r: nat, s: seq<Extent>, t: seq<Extent>, e: Extent, pending: set<nat>)
    requires r >= 1 && e.Valid() && Updated(s, t, e) && forall b :: e.Covers(b) ==> At(s, b) == None
    ensures DelayedClusters(r, s) <= DelayedClusters(r, t)
    ensures e.status != Delayed ==> DelayedClusters(r, s) == DelayedClusters(r, t)
    ensures e.status != Delayed ==> forall b :: e.Covers(b) ==> !IsDelayed(t, b)
    ensures e.status == Delayed && pending <= DelayedClusters(r, s) ==>
              |DelayedClusters(r, t) - pending| ==
              |DelayedClusters(r, s) - pending| + |Span(r, e.lblk, e.End()) - DelayedClusters(r, s)|
  {
    if e.status == Delayed {
      DelayedRange(r, s, t, e);
      if pending <= DelayedClusters(r, s) {
        Added(DelayedClusters(r, s), Span(r, e.lblk, e.End()), pending);
      }
    } else {
      NotDelayed(r, s, t, e);
    }
  }

  /** Putting a mapped or hole extent where nothing was known changes no delayed block. */
  lemma NotDelayed(r: nat, s: seq<Extent>, t: seq<Extent>, e: Extent)
    requires r >= 1 && Updated(s, t, e) && e.status != Delayed
    requires forall b :: e.Covers(b) ==> At(s, b) == None
    ensures DelayedClusters(r, t) == DelayedClusters(r, s)
    ensures forall b :: e.Covers(b) ==> !IsDelayed(t, b)
  {
    assert forall b: nat :: IsDelayed(t, b) <==> IsDelayed(s, b);
  }

  lemma GrownClusters(r: nat, s: seq<Extent>, t: seq<Extent>, e: Extent)
    requires r >= 1 && Updated(s, t, e)
    requires forall b :: e.Covers(b) ==> At(s, b) == None
    ensures DelayedClusters(r, s) <= DelayedClusters(r, t)
  {
    assert forall b: nat :: IsDelayed(s, b) ==> IsDelayed(t, b);
  }

  /** A delayed extent adds exactly its span of clusters, whatever its blocks were before. */
  lemma DelayedRange(r: nat, s: seq<Extent>, t: seq<Extent>, e: Extent)
    requires r >= 1 && e.Valid() && e.status == Delayed && Updated(s, t, e)
    ensures DelayedClusters(r, t) == DelayedClusters(r, s) + Span(r, e.lblk, e.End())
  {
    var u := DelayedClusters(r, s) + Span(r, e.lblk, e.End());
    forall c | c in DelayedClusters(r, t) ensures c in u {
      var b: nat :| b < MAX_BLOCKS && IsDelayed(t, b) && B2C(r, b) == c;
      if e.Covers(b) {
        B2CMono(r, e.lblk, b);
        B2CMono(r, b, e.End());
      } else {
        assert IsDelayed(s, b);
      }
    }
    forall c | c in u ensures c in DelayedClusters(r, t) {
      if c in DelayedClusters(r, s) {
        var b: nat :| b < MAX_BLOCKS && IsDelayed(s, b) && B2C(r, b) == c;
        assert IsDelayed(t, b);
      } else {
        var b := SpanWitness(r, e.lblk, e.End(), c);
        assert IsDelayed(t, b);
      }
    }
  }

  /** Mapping a range, dropping a part of what is known, and looking up a block of the range: it is known
      exactly if it was not dropped, with the physical block of the same rank behind the first one. */
  method InsertRemoveLookup(inode: Inode, e: Extent, from: nat, n: nat, b: nat) returns (found: bool, es: Extent, next: nat)
    requires inode.Valid() && e.Valid() && (e.status == Written || e.status == Unwritten)
    requires from + n <= 0x1_0000_0000 && e.lblk <= b < e.lblk + e.len
    modifies inode
    ensures found <==> !(from <= b < from + n)
    ensures found ==>
              es.status == e.status && es.lblk <= b < es.lblk + es.len && es.pblk + (b - es.lblk) == e.pblk + (b - e.lblk)
  {
    inode.InsertExtent(e.lblk, e.len, e.pblk, e.status);
    assert At(inode.nodes, b) == Some(Cell(e.status, e.pblk + (b - e.lblk)));
    inode.RemoveExtent(from, n);
    found, es, next := inode.Lookup(b);
  }

  /** On a new inode a delayed block inserted this way leaves the reservations one short. */
  method DelayedInsertGoesShort() returns (inode: Inode)
    ensures inode.Valid() && inode.reserved - inode.R() == -1
  {
    inode := new Inode(4, true);
    var e := Extent(0, 1, 0, Delayed, false);
    assert DelayedBeside(4, [], e) == {};
    assert Span(4, 0, 0) - {} == {0};
    assert DelayedClusters(4, []) - {} == {};
    inode.InsertExtent(0, 1, 0, Delayed);
  }
}
