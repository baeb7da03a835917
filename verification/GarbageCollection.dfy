/** scorw_gc_blocks (corw_sparse.c): which appended blocks of a parent no active version needs. */
module GarbageCollection {
  import opened Common
  import opened VersionLog

  // ----- the log, block by block

  /** The first k blocks of a record as records of one block. */
  function Cut(r: Record, k: nat): (s: seq<Record>)
    requires k <= r.len
    ensures |s| == k
    ensures forall i :: 0 <= i < k ==> s[i] == Record(r.version, r.logical + i, r.physical + i, 1)
  {
    if k == 0 then [] else Cut(r, k - 1) + [Record(r.version, r.logical + k - 1, r.physical + k - 1, 1)]
  }

  function Blocks(log: seq<Record>): seq<Record> {
    if log == [] then [] else Blocks(log[..|log| - 1]) + Cut(log[|log| - 1], log[|log| - 1].len)
  }

  lemma {:induction false} CutView(r: Record, k: nat, v: int, b: nat)
    requires k <= r.len
    ensures LastUpTo(Cut(r, k), v, b) ==
            if r.version <= v && r.logical <= b < r.logical + k then Some(r.Target(b)) else None
  {
    if k == 0 {
      assert Cut(r, 0) == [];
    } else {
      var s, e := Cut(r, k - 1), Record(r.version, r.logical + k - 1, r.physical + k - 1, 1);
      CutView(r, k - 1, v, b);
      LastAppend(s, e, v, b);
      assert Cut(r, k) == s + [e];
    }
  }

  lemma {:induction false} BlocksView(log: seq<Record>, v: int, b: nat)
    ensures LastUpTo(Blocks(log), v, b) == LastUpTo(log, v, b)
  {
    if log != [] {
      var r := log[|log| - 1];
      BlocksView(log[..|log| - 1], v, b);
      CutView(r, r.len, v, b);
      SeenOverlay(Blocks(log[..|log| - 1]), Cut(r, r.len), v, b);
    }
  }

  // ----- what the scan of the log decides

  /** Single blocks in version order. */
  ghost predicate Scanned(d: seq<Record>) {
    && (forall i :: 0 <= i < |d| ==> d[i].len == 1 && d[i].version >= 1)
    && (forall i, j :: 0 <= i < j < |d| ==> d[i].version <= d[j].version)
  }

  /** Block i of the log is what version a sees. */
  ghost predicate Serves(d: seq<Record>, i: nat, a: nat)
    requires i < |d|
  {
    d[i].version <= a && forall j :: i < j < |d| && d[j].logical == d[i].logical ==> a < d[j].version
  }

  ghost predicate Superseded(d: seq<Record>, i: nat)
    requires i < |d|
  {
    exists j :: i < j < |d| && d[j].logical == d[i].logical
  }

  /** Overwritten, and seen by no active version. */
  ghost predicate Garbage(d: seq<Record>, active: seq<nat>, i: nat)
    requires i < |d|
  {
    Superseded(d, i) && forall a :: a in active ==> !Serves(d, i, a)
  }

  ghost function GarbageBlocks(d: seq<Record>, active: seq<nat>): set<nat> {
    set i | 0 <= i < |d| && Garbage(d, active, i) :: d[i].physical
  }

  ghost predicate IsLast(d: seq<Record>, b: nat, i: int) {
    && 0 <= i < |d| && d[i].logical == b
    && forall j :: i < j < |d| ==> d[j].logical != b
  }

  /** state_map: for each logical block seen so far, its last entry. */
  ghost predicate StateOk(d: seq<Record>, state: map<nat, (nat, nat)>) {
    && (forall i :: 0 <= i < |d| ==> d[i].logical in state)
    && (forall b :: b in state ==> exists i :: IsLast(d, b, i) && state[b] == (d[i].version, d[i].physical))
  }

  lemma StateStep(d: seq<Record>, state: map<nat, (nat, nat)>, e: Record)
    requires StateOk(d, state)
    ensures StateOk(d + [e], state[e.logical := (e.version, e.physical)])
  {
    var d', state' := d + [e], state[e.logical := (e.version, e.physical)];
    forall b | b in state' ensures exists i :: IsLast(d', b, i) && state'[b] == (d'[i].version, d'[i].physical) {
      if b == e.logical {
        assert IsLast(d', b, |d|);
      } else {
        var i :| IsLast(d, b, i) && state[b] == (d[i].version, d[i].physical);
        assert IsLast(d', b, i);
      }
    }
    forall i | 0 <= i < |d'| ensures d'[i].logical in state' {
      if i < |d| {
        assert d'[i] == d[i];
      }
    }
  }

  /** A further block on the same logical block decides about the one before it, and about no other. */
  lemma GarbageStep(d: seq<Record>, active: seq<nat>, e: Record, i: nat)
    requires Scanned(d + [e]) && i < |d|
    ensures Garbage(d + [e], active, i) <==>
            if IsLast(d, e.logical, i) then forall a :: a in active ==> !(d[i].version <= a < e.version)
            else Garbage(d, active, i)
  {
    var d' := d + [e];
    assert forall j :: 0 <= j < |d| ==> d'[j] == d[j];
    if IsLast(d, e.logical, i) {
      assert d'[|d|].logical == d'[i].logical;
      assert Superseded(d', i);
      forall a: nat ensures Serves(d', i, a) <==> d[i].version <= a < e.version {
      }
    } else {
      if Superseded(d', i) {
        var j :| i < j < |d'| && d'[j].logical == d'[i].logical;
        if j == |d| {
          var k :| i < k < |d| && d[k].logical == e.logical;
        }
      }
      if Superseded(d, i) {
        var j :| i < j < |d| && d[j].logical == d[i].logical;
        assert d'[j].logical == d'[i].logical;
        assert d'[j].version <= d'[|d|].version;
        forall a: nat ensures Serves(d', i, a) <==> Serves(d, i, a) {
          if Serves(d, i, a) {
            assert a < d[j].version;
          }
          if Serves(d', i, a) {
            forall k | i < k < |d| && d[k].logical == d[i].logical ensures a < d[k].version {
              assert d'[k] == d[k];
            }
          }
        }
      }
    }
  }

  /** What one turn of the scan adds to the garbage. */
  lemma GarbageSetStep(d: seq<Record>, active: seq<nat>, e: Record, state: map<nat, (nat, nat)>)
    requires Scanned(d + [e]) && StateOk(d, state)
    ensures var unused := e.logical in state && forall a :: a in active ==> !(state[e.logical].0 <= a < e.version);
            GarbageBlocks(d + [e], active) ==
            GarbageBlocks(d, active) + (if unused then {state[e.logical].1} else {})
  {
    var d', b := d + [e], e.logical;
    assert d'[|d|] == e && forall i :: 0 <= i < |d| ==> d'[i] == d[i];
    var unused := b in state && forall a :: a in active ==> !(state[b].0 <= a < e.version);
    var g, g' := GarbageBlocks(d, active) + (if unused then {state[b].1} else {}), GarbageBlocks(d', active);
    forall p | p in g' ensures p in g {
      var i :| 0 <= i < |d'| && Garbage(d', active, i) && d'[i].physical == p;
      assert i < |d|;
      GarbageStep(d, active, e, i);
      if IsLast(d, b, i) {
        var k :| IsLast(d, b, k) && state[b] == (d[k].version, d[k].physical);
        assert i == k;
      }
    }
    forall p | p in g ensures p in g' {
      if p in GarbageBlocks(d, active) {
        var i :| 0 <= i < |d| && Garbage(d, active, i) && d[i].physical == p;
        GarbageStep(d, active, e, i);
        assert Garbage(d', active, i);
      } else {
        var k :| IsLast(d, b, k) && state[b] == (d[k].version, d[k].physical);
        GarbageStep(d, active, e, k);
        assert Garbage(d', active, k);
      }
    }
  }

  // ----- the code

  ghost predicate Ascending(s: seq<nat>) {
    forall i, j :: 0 <= i < j < |s| ==> s[i] <= s[j]
  }

  /** scorw_gc_find_next_active: the smallest active version from target on, or -1. */
  method FindNextActive(target: nat, active: seq<nat>) returns (a: int)
    requires Ascending(active)
    ensures a == -1 ==> forall x :: x in active ==> x < target
    ensures a != -1 ==> a >= target && a in active && forall x :: x in active && x >= target ==> a <= x
  {
    for i := 0 to |active|
      invariant forall k :: 0 <= k < i ==> active[k] < target
    {
      if active[i] >= target {
        return active[i];
      }
    }
    return -1;
  }

  /** The inner loop body: one block of a record. */
  method ScanBlock(e: Record, active: seq<nat>, state: map<nat, (nat, nat)>, garbage: set<nat>, ghost d: seq<Record>)
      returns (state': map<nat, (nat, nat)>, garbage': set<nat>)
    requires Ascending(active) && 0 in active
    requires Scanned(d + [e]) && StateOk(d, state) && garbage == GarbageBlocks(d, active)
    ensures StateOk(d + [e], state') && garbage' == GarbageBlocks(d + [e], active)
  {
    var vPrev := if e.logical in state then state[e.logical].0 else 0;
    var pPrev := if e.logical in state then state[e.logical].1 else e.logical;
    var aNext := FindNextActive(vPrev, active);
    GarbageSetStep(d, active, e, state);
    StateStep(d, state, e);
    assert (d + [e])[|d|].version >= 1;
    garbage' := garbage;
    if aNext == -1 || aNext >= e.version {
      assert e.logical in state;
      garbage' := garbage' + {pPrev};
    }
    state' := state[e.logical := (e.version, e.physical)];
  }

  /** The blocks of one record. */
  method ScanRecord(log: seq<Record>, n: nat, active: seq<nat>, state0: map<nat, (nat, nat)>, garbage0: set<nat>)
      returns (state: map<nat, (nat, nat)>, garbage: set<nat>)
    requires LogOk(log) && n < |log| && Ascending(active) && 0 in active
    requires StateOk(Blocks(log[..n]), state0) && garbage0 == GarbageBlocks(Blocks(log[..n]), active)
    ensures StateOk(Blocks(log[..n]) + Cut(log[n], log[n].len), state)
    ensures garbage == GarbageBlocks(Blocks(log[..n]) + Cut(log[n], log[n].len), active)
  {
    state, garbage := state0, garbage0;
    var r := log[n];
    ghost var d := Blocks(log[..n]);
    ghost var done := d + Cut(r, 0);
    assert done == d;
    for k := 0 to r.len
      invariant done == d + Cut(r, k) && StateOk(done, state) && garbage == GarbageBlocks(done, active)
    {
      var e := Record(r.version, r.logical + k, r.physical + k, 1);
      assert d + Cut(r, k + 1) == done + [e];
      InOrder(log, n, k + 1);
      state, garbage := ScanBlock(e, active, state, garbage, done);
      done := done + [e];
    }
  }

  /** The scan of scorw_gc_blocks. */
  method Scan(log: seq<Record>, active: seq<nat>) returns (garbage: set<nat>)
    requires LogOk(log) && Ascending(active) && 0 in active
    ensures garbage == GarbageBlocks(Blocks(log), active)
  {
    var state: map<nat, (nat, nat)> := map[];
    garbage := {};
    var n := 0;
    while n < |log|
      invariant 0 <= n <= |log| && StateOk(Blocks(log[..n]), state)
      invariant garbage == GarbageBlocks(Blocks(log[..n]), active)
    {
      state, garbage := ScanRecord(log, n, active, state, garbage);
      assert log[..n + 1][..n] == log[..n];
      n := n + 1;
    }
    assert log[..n] == log;
  }

  lemma {:induction false} InOrder(log: seq<Record>, n: nat, k: nat)
    requires LogOk(log) && n < |log| && k <= log[n].len
    ensures Scanned(Blocks(log[..n]) + Cut(log[n], k))
    ensures forall i :: 0 <= i < |Blocks(log[..n])| ==> Blocks(log[..n])[i].version <= log[n].version
    decreases n
  {
    if n > 0 {
      InOrder(log, n - 1, log[n - 1].len);
      assert log[..n][..n - 1] == log[..n - 1];
    }
  }

  // ----- what is punched

  /** Appended ranges share no block with each other or with the original file. */
  ghost predicate RangesApart(log: seq<Record>, base: nat) {
    && (forall i :: 0 <= i < |log| ==> base <= log[i].physical)
    && (forall i, j :: 0 <= i < j < |log| ==>
          log[i].physical + log[i].len <= log[j].physical || log[j].physical + log[j].len <= log[i].physical)
  }

  ghost predicate Logged(log: seq<Record>, p: nat) {
    exists i :: 0 <= i < |log| && log[i].Names(p)
  }

  /** An active version's reader gets to block p. */
  ghost predicate Needed(log: seq<Record>, base: nat, active: seq<nat>, p: nat) {
    exists a, b :: a in active && View(log, base, a, b) == Some(p)
  }

  lemma {:induction false} BlockNamed(log: seq<Record>, i: nat) returns (n: nat)
    requires i < |Blocks(log)|
    ensures n < |log| && log[n].Names(Blocks(log)[i].physical)
  {
    var m := |log| - 1;
    if i < |Blocks(log[..m])| {
      n := BlockNamed(log[..m], i);
    } else {
      n := m;
    }
  }

  lemma {:induction false} NamedBlock(log: seq<Record>, n: nat, p: nat) returns (i: nat)
    requires n < |log| && log[n].Names(p)
    ensures i < |Blocks(log)| && Blocks(log)[i].physical == p && Blocks(log)[i].version == log[n].version
  {
    var m := |log| - 1;
    if n < m {
      i := NamedBlock(log[..m], n, p);
    } else {
      i := |Blocks(log[..m])| + (p - log[n].physical);
    }
  }

  lemma {:induction false} BlocksDistinct(log: seq<Record>, base: nat)
    requires RangesApart(log, base)
    ensures forall i, j :: 0 <= i < j < |Blocks(log)| ==> Blocks(log)[i].physical != Blocks(log)[j].physical
  {
    if log != [] {
      var m := |log| - 1;
      var d := Blocks(log[..m]);
      BlocksDistinct(log[..m], base);
      forall i | 0 <= i < |d| ensures !log[m].Names(d[i].physical) {
        var n := BlockNamed(log[..m], i);
      }
    }
  }

  /** With distinct blocks, seeing block i is seeing its physical block. */
  lemma ServesIsSeen(d: seq<Record>, i: nat, a: nat, b: nat)
    requires Scanned(d) && i < |d|
    requires forall j, k :: 0 <= j < k < |d| ==> d[j].physical != d[k].physical
    ensures LastUpTo(d, a, b) == Some(d[i].physical) <==> b == d[i].logical && Serves(d, i, a)
  {
    if LastUpTo(d, a, b).Some? {
      var k := LastWitness(d, a, b);
      if LastUpTo(d, a, b) == Some(d[i].physical) {
        assert k == i;
      }
    }
    if b == d[i].logical && Serves(d, i, a) {
      LastIs(d, a, b, i);
    }
  }

  /** Blocks of the log in version order. */
  lemma AllInOrder(log: seq<Record>)
    requires LogOk(log)
    ensures Scanned(Blocks(log))
  {
    if log != [] {
      var m := |log| - 1;
      InOrder(log, m, log[m].len);
    }
  }

  /** No punched block is needed by an active version, whatever the log holds beyond the parent's
      version; and no block of the original file is punched. */
  lemma GcSound(log: seq<Record>, base: nat, active: seq<nat>, p: nat)
    requires LogOk(log) && RangesApart(log, base)
    requires p in GarbageBlocks(Blocks(log), active)
    ensures Logged(log, p) && p >= base && !Needed(log, base, active, p)
  {
    var d := Blocks(log);
    AllInOrder(log);
    BlocksDistinct(log, base);
    var i :| 0 <= i < |d| && Garbage(d, active, i) && d[i].physical == p;
    var n := BlockNamed(log, i);
    forall a, b | a in active ensures View(log, base, a, b) != Some(p) {
      BlocksView(log, a, b);
      ServesIsSeen(d, i, a, b);
    }
  }

  /** Every record is within reach of some active version. */
  ghost predicate Reached(log: seq<Record>, active: seq<nat>) {
    forall n :: 0 <= n < |log| && log[n].len > 0 ==> exists a :: a in active && log[n].version <= a
  }

  lemma WithinReach(log: seq<Record>, active: seq<nat>, version: nat)
    requires version in active && forall i :: 0 <= i < |log| ==> log[i].version <= version
    ensures Reached(log, active)
  {
  }

  lemma GcComplete(log: seq<Record>, base: nat, active: seq<nat>, p: nat)
    requires LogOk(log) && RangesApart(log, base) && Reached(log, active)
    requires Logged(log, p) && !Needed(log, base, active, p)
    ensures p in GarbageBlocks(Blocks(log), active)
  {
    var d := Blocks(log);
    AllInOrder(log);
    var n :| 0 <= n < |log| && log[n].Names(p);
    var i := NamedBlock(log, n, p);
    var a :| a in active && log[n].version <= a;
    assert Superseded(d, i) || Serves(d, i, a);
    forall x | x in active ensures !Serves(d, i, x) {
      if Serves(d, i, x) {
        IsNeeded(log, base, active, x, i);
      }
    }
    assert Garbage(d, active, i);
  }

  lemma {:induction false} LastOf(d: seq<Record>, i: nat) returns (k: nat)
    requires i < |d|
    ensures i <= k && IsLast(d, d[i].logical, k)
    decreases |d| - i
  {
    k := i;
    if Superseded(d, i) {
      var j :| i < j < |d| && d[j].logical == d[i].logical;
      k := LastOf(d, j);
    }
  }

  /** The last block written beyond all active versions is needed by none and is not punched. */
  lemma OutOfReach(log: seq<Record>, base: nat, active: seq<nat>, n: nat) returns (p: nat)
    requires LogOk(log) && RangesApart(log, base) && n < |log| && log[n].len > 0
    requires forall a :: a in active ==> a < log[n].version
    ensures Logged(log, p) && !Needed(log, base, active, p) && p !in GarbageBlocks(Blocks(log), active)
  {
    var d := Blocks(log);
    AllInOrder(log);
    BlocksDistinct(log, base);
    var i := NamedBlock(log, n, log[n].physical);
    var k := LastOf(d, i);
    p := d[k].physical;
    var m := BlockNamed(log, k);
    forall a, b | a in active ensures View(log, base, a, b) != Some(p) {
      BlocksView(log, a, b);
      ServesIsSeen(d, k, a, b);
    }
  }

  /** A block that no active version needs and that is not found: its record is beyond all of them. */
  lemma UnreachedBlockStays() returns (log: seq<Record>, p: nat)
    ensures LogOk(log) && RangesApart(log, 1)
    ensures Logged(log, p) && !Needed(log, 1, [0], p) && p !in GarbageBlocks(Blocks(log), [0])
  {
    log := [Record(2, 0, 1, 1)];
    p := OutOfReach(log, 1, [0], 0);
  }

  /** The punched blocks are exactly the logged ones that no active version needs if and only if no
      record is beyond all active versions. */
  lemma GcExact(log: seq<Record>, base: nat, active: seq<nat>)
    requires LogOk(log) && RangesApart(log, base)
    ensures (forall p :: p in GarbageBlocks(Blocks(log), active) <==> Logged(log, p) && !Needed(log, base, active, p))
            <==> Reached(log, active)
  {
    forall p | p in GarbageBlocks(Blocks(log), active) ensures Logged(log, p) && !Needed(log, base, active, p) {
      GcSound(log, base, active, p);
    }
    if Reached(log, active) {
      forall p | Logged(log, p) && !Needed(log, base, active, p) ensures p in GarbageBlocks(Blocks(log), active) {
        GcComplete(log, base, active, p);
      }
    } else {
      var n :| 0 <= n < |log| && log[n].len > 0 && forall a :: a in active ==> a < log[n].version;
      var p := OutOfReach(log, base, active, n);
    }
  }

  lemma IsNeeded(log: seq<Record>, base: nat, active: seq<nat>, a: nat, i: nat)
    requires LogOk(log) && RangesApart(log, base) && a in active
    requires i < |Blocks(log)| && Serves(Blocks(log), i, a)
    ensures Needed(log, base, active, Blocks(log)[i].physical)
  {
    var d := Blocks(log);
    AllInOrder(log);
    BlocksDistinct(log, base);
    ServesIsSeen(d, i, a, d[i].logical);
    BlocksView(log, a, d[i].logical);
    assert View(log, base, a, d[i].logical) == Some(d[i].physical);
  }

  // ----- the active versions

  /** Version 0, each child's version and the parent's, without repetition. */
  method CollectActive(children: seq<nat>, version: nat) returns (active: seq<nat>)
    ensures forall x :: x in active <==> x == 0 || x in children || x == version
    ensures forall i, j :: 0 <= i < j < |active| ==> active[i] != active[j]
  {
    active := [0];
    for i := 0 to |children|
      invariant forall x :: x in active <==> x == 0 || x in children[..i]
      invariant forall i, j :: 0 <= i < j < |active| ==> active[i] != active[j]
    {
      if children[i] !in active {
        active := active + [children[i]];
      }
    }
    assert children[..|children|] == children;
    if version !in active {
      active := active + [version];
    }
  }

  /** The first i are in place: none is above anything after it. */
  ghost predicate Placed(s: seq<nat>, i: nat) {
    forall k, l :: 0 <= k < i && k < l < |s| ==> s[k] <= s[l]
  }

  /** One comparison of the sort. */
  method Order(a: array<nat>, i: nat, j: nat)
    requires i < j < a.Length && Placed(a[..], i) && forall l :: i < l < j ==> a[i] <= a[l]
    modifies a
    ensures Placed(a[..], i) && (forall l :: i < l <= j ==> a[i] <= a[l])
    ensures multiset(a[..]) == multiset(old(a[..]))
  {
    if a[i] > a[j] {
      a[i], a[j] := a[j], a[i];
    }
  }

  /** One pass: the smallest of those from i on comes to i. */
  method Pass(a: array<nat>, i: nat)
    requires i < a.Length && Placed(a[..], i)
    modifies a
    ensures Placed(a[..], i + 1) && multiset(a[..]) == multiset(old(a[..]))
  {
    var j := i + 1;
    while j < a.Length
      invariant i < j <= a.Length && Placed(a[..], i) && (forall l :: i < l < j ==> a[i] <= a[l])
      invariant multiset(a[..]) == multiset(old(a[..]))
    {
      Order(a, i, j);
      j := j + 1;
    }
  }

  /** The sort of the active versions, in place. */
  method SortActive(a: array<nat>)
    modifies a
    ensures Ascending(a[..]) && multiset(a[..]) == multiset(old(a[..]))
  {
    var i := 0;
    while i < a.Length - 1
      invariant 0 <= i && (a.Length > 0 ==> i <= a.Length - 1)
      invariant Placed(a[..], i) && multiset(a[..]) == multiset(old(a[..]))
    {
      Pass(a, i);
      i := i + 1;
    }
  }

  /** scorw_gc_blocks: the blocks it punches out of the parent.  None is needed by version 0, a child's
      version or the parent's; and none that is not needed is left, exactly if no record is beyond
      those versions. */
  method Collect(log: seq<Record>, base: nat, children: seq<nat>, version: nat) returns (punched: set<nat>)
    requires LogOk(log) && RangesApart(log, base)
    ensures var all := [0] + children + [version];
            && (forall p :: p in punched ==> Logged(log, p) && base <= p && !Needed(log, base, all, p))
            && ((forall p :: p in punched <==> Logged(log, p) && !Needed(log, base, all, p)) <==> Reached(log, all))
  {
    var collected := CollectActive(children, version);
    var a := new nat[|collected|](i requires 0 <= i < |collected| => collected[i]);
    assert a[..] == collected;
    SortActive(a);
    var active := a[..];
    assert forall x :: x in active <==> x in multiset(active);
    assert forall x :: x in collected <==> x in multiset(collected);
    punched := Scan(log, active);
    ghost var all := [0] + children + [version];
    SameActive(log, base, active, all);
    forall p | p in punched ensures Logged(log, p) && base <= p && !Needed(log, base, all, p) {
      GcSound(log, base, active, p);
    }
    GcExact(log, base, active);
  }

  lemma SameActive(log: seq<Record>, base: nat, s: seq<nat>, t: seq<nat>)
    requires forall x :: x in s <==> x in t
    ensures Reached(log, s) <==> Reached(log, t)
    ensures forall p :: Needed(log, base, s, p) <==> Needed(log, base, t, p)
  {
  }
}
