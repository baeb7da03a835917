/** The in-memory side of a parent's versions: at most four replayed version maps, in FIFO order
    (scorw_get_or_create_version, scorw_replay_log_version, scorw_lookup_physical_block and
    scorw_record_write of corw_sparse.c). */
module VersionCache {
  import opened Common
  import opened VersionLog

  const MAX_RAM_VERSIONS: nat := 4

  ghost predicate Lists(st: seq<Option<map<nat, nat>>>, ld: seq<nat>) {
    && (forall k :: 0 <= k < |st| ==> (st[k].Some? <==> k + 1 in ld))
    && (forall i :: 0 <= i < |ld| ==> 1 <= ld[i] <= |st|)
    && (forall i, j :: 0 <= i < j < |ld| ==> ld[i] != ld[j])
  }

  lemma SameLists(st: seq<Option<map<nat, nat>>>, ld: seq<nat>, k: nat, m: map<nat, nat>)
    requires Lists(st, ld) && k < |st| && st[k].Some?
    ensures Lists(st[k := Some(m)], ld)
  {
  }

  /** Every loaded map is the replay of the log for its version. */
  ghost predicate MapsAre(st: seq<Option<map<nat, nat>>>, log: seq<Record>) {
    forall k :: 0 <= k < |st| && st[k].Some? ==> st[k].value == Replay(log, k + 1)
  }

  /** And with one more record they still are, if it is stored in the map of its version. */
  lemma MapsAppend(st: seq<Option<map<nat, nat>>>, log: seq<Record>, r: Record)
    requires MapsAre(st, log) && 1 <= r.version <= |st| && st[r.version - 1].Some?
    ensures MapsAre(st[r.version - 1 := Some(Store(st[r.version - 1].value, r))], log + [r])
  {
    forall k | 0 <= k < |st| {
      ReplayAppend(log, r, k + 1);
    }
  }

  lemma MapsLoaded(st: seq<Option<map<nat, nat>>>, log: seq<Record>, k: nat)
    requires k < |st| && MapsAre(st[k := None], log)
    ensures MapsAre(st[k := Some(Replay(log, k + 1))], log)
  {
    forall i | 0 <= i < |st| && i != k && st[i].Some? ensures st[i].value == Replay(log, i + 1) {
      assert st[k := None][i] == st[i];
    }
  }

  /** A queue of at most four: the oldest leaves when a fifth arrives. */
  function Pushed(q: seq<nat>, v: nat): seq<nat> {
    (if |q| < MAX_RAM_VERSIONS then q else q[1..]) + [v]
  }

  function Rotated(ld: seq<nat>, h: nat): seq<nat>
    requires h <= |ld|
  {
    ld[h..] + ld[..h]
  }

  lemma PushedOut(ld: seq<nat>, h: nat, v: nat)
    requires |ld| == MAX_RAM_VERSIONS && h < |ld|
    ensures Rotated(ld[h := v], (h + 1) % MAX_RAM_VERSIONS) == Pushed(Rotated(ld, h), v)
  {
    if h + 1 == |ld| {
      assert ld[h := v] == ld[..h] + [v];
    } else {
      assert ld[h := v][h + 1..] == ld[h + 1..] && ld[h := v][..h + 1] == ld[..h] + [v];
    }
  }

  /** Version v takes the place of the one at position h. */
  lemma EvictLists(st: seq<Option<map<nat, nat>>>, ld: seq<nat>, h: nat, v: nat, m: map<nat, nat>)
    requires Lists(st, ld) && h < |ld| && 1 <= v <= |st| && st[v - 1].None?
    ensures Lists(st[ld[h] - 1 := None][v - 1 := Some(m)], ld[h := v])
  {
    var ld' := ld[h := v];
    assert v !in ld && ld'[h] == v;
    forall x ensures x in ld' <==> x == v || (x in ld && x != ld[h]) {
      if x in ld && x != ld[h] {
        var i :| 0 <= i < |ld| && ld[i] == x;
        assert ld'[i] == x;
      }
    }
  }

  lemma AppendLists(st: seq<Option<map<nat, nat>>>, ld: seq<nat>, v: nat, m: map<nat, nat>)
    requires Lists(st, ld) && 1 <= v <= |st| && st[v - 1].None?
    ensures Lists(st[v - 1 := Some(m)], ld + [v])
  {
  }

  /** A record of version v may follow. */
  ghost predicate NextIs(log: seq<Record>, v: nat) {
    2 <= v && forall i :: 0 <= i < |log| ==> log[i].version <= v
  }

  class Parent {
    const base: nat                              // blocks of the original file
    const states: array<Option<map<nat, nat>>>   // version_states: slot v-1 for version v
    const loaded: array<nat>                     // loaded_versions
    var count: nat                               // loaded_version_count
    var head: nat                                // fifo_head
    var version: nat
    var log: seq<Record>

    /** The FIFO array lists exactly the loaded versions, each once. */
    ghost predicate FifoOk()
      reads this, states, loaded
    {
      && states.Length == MAX_VERSIONS && loaded.Length == MAX_RAM_VERSIONS
      && count <= MAX_RAM_VERSIONS && head < MAX_RAM_VERSIONS && (count < MAX_RAM_VERSIONS ==> head == 0)
      && Lists(states[..], loaded[..count])
    }

    /** Every cached map is the replay of the log for its version. */
    ghost predicate MapsOk()
      reads this, states
    {
      MapsAre(states[..], log)
    }

    ghost predicate Valid()
      reads this, states, loaded
    {
      FifoOk() && MapsOk() && LogOk(log)
    }

    /** The loaded versions, oldest first. */
    ghost function Queue(): seq<nat>
      reads this, loaded
      requires head <= count <= loaded.Length
    {
      Rotated(loaded[..count], head)
    }

    constructor (base: nat, version: nat, log: seq<Record>)
      requires LogOk(log)
      ensures Valid() && this.base == base && this.version == version && this.log == log && count == 0
      ensures fresh(states) && fresh(loaded)
    {
      this.base, this.version, this.log := base, version, log;
      count, head := 0, 0;
      states := new Option<map<nat, nat>>[MAX_VERSIONS](_ => None);
      loaded := new nat[MAX_RAM_VERSIONS](_ => 0);
    }

    /** scorw_replay_log_version: fills the empty map of a version from the log. */
    method ReplayVersion(v: nat)
      requires 1 <= v <= MAX_VERSIONS == states.Length && states[v - 1] == Some(map[])
      modifies states
      ensures states[..] == old(states[..])[v - 1 := Some(Replay(log, v))]
    {
      var n := 0;
      while n < |log|
        invariant 0 <= n <= |log|
        invariant states[..] == old(states[..])[v - 1 := Some(Replay(log[..n], v))]
      {
        var r := log[n];
        if r.version == v {
          StoreBlocks(v, r);
        }
        assert log[..n + 1] == log[..n] + [r];
        ReplayAppend(log[..n], r, v);
        n := n + 1;
      }
      assert log[..n] == log;
    }

    /** The xa_store loops of replay and record_write. */
    method StoreBlocks(v: nat, r: Record)
      requires 1 <= v <= states.Length && states[v - 1].Some?
      modifies states
      ensures states[..] == old(states[..])[v - 1 := Some(Store(old(states[v - 1].value), r))]
    {
      for i := 0 to r.len
        invariant states[..] == old(states[..])[v - 1 := Some(StoreFirst(old(states[v - 1].value), r, i))]
      {
        states[v - 1] := Some(states[v - 1].value[r.logical + i := r.physical + i]);
      }
    }

    /** scorw_get_or_create_version: after it the version is loaded, unless it has no slot. */
    method GetOrCreate(v: nat) returns (ok: bool)
      requires Valid()
      modifies this`count, this`head, states, loaded
      ensures Valid()
      ensures ok <==> 1 <= v <= MAX_VERSIONS
      ensures ok ==> states[v - 1] == Some(Replay(log, v))
      ensures Queue() == if !ok || v in old(Queue()) then old(Queue()) else Pushed(old(Queue()), v)
    {
      if v < 1 || v > MAX_VERSIONS {
        return false;
      }
      Queued(v);
      if states[v - 1].None? {
        Load(v);
      }
      return true;
    }

    lemma Queued(v: nat)
      requires FifoOk() && 1 <= v <= MAX_VERSIONS
      ensures v in Queue() <==> states[v - 1].Some?
    {
      assert v in Queue() <==> v in loaded[..count];
      assert states[..][v - 1] == states[v - 1];
    }

    method Load(v: nat)
      requires Valid() && 1 <= v <= MAX_VERSIONS && states[v - 1].None?
      modifies this`count, this`head, states, loaded
      ensures Valid() && states[v - 1] == Some(Replay(log, v)) && Queue() == Pushed(old(Queue()), v)
    {
      Enlist(v);
      ghost var st := states[..];
      ReplayVersion(v);
      SameLists(st, loaded[..count], v - 1, Replay(log, v));
      MapsLoaded(st, log, v - 1);
    }

    /** The FIFO step, with the slot of v set to an empty map: if four versions are loaded, the
        oldest makes room. */
    method Enlist(v: nat)
      requires Valid() && 1 <= v <= MAX_VERSIONS && states[v - 1].None?
      modifies this`count, this`head, states, loaded
      ensures FifoOk() && states[v - 1] == Some(map[]) && Queue() == Pushed(old(Queue()), v)
      ensures MapsAre(states[..][v - 1 := None], log)
    {
      if count == MAX_RAM_VERSIONS {
        EnlistOver(v);
      } else {
        EnlistNew(v);
      }
    }

    /** The list is full: the oldest version loses its state and its place. */
    method EnlistOver(v: nat)
      requires Valid() && 1 <= v <= MAX_VERSIONS && states[v - 1].None? && count == MAX_RAM_VERSIONS
      modifies this`head, states, loaded
      ensures FifoOk() && states[v - 1] == Some(map[]) && Queue() == Pushed(old(Queue()), v)
      ensures MapsAre(states[..][v - 1 := None], log)
    {
      ghost var st, ld := states[..], loaded[..count];
      EvictLists(st, ld, head, v, map[]);
      PushedOut(ld, head, v);
      states[loaded[head] - 1] := None;
      states[v - 1] := Some(map[]);
      assert states[..] == st[ld[head] - 1 := None][v - 1 := Some(map[])];
      loaded[head] := v;
      assert loaded[..count] == ld[head := v];
      head := (head + 1) % MAX_RAM_VERSIONS;
    }

    method EnlistNew(v: nat)
      requires Valid() && 1 <= v <= MAX_VERSIONS && states[v - 1].None? && count < MAX_RAM_VERSIONS
      modifies this`count, states, loaded
      ensures FifoOk() && states[v - 1] == Some(map[]) && Queue() == Pushed(old(Queue()), v)
      ensures MapsAre(states[..][v - 1 := None], log)
    {
      ghost var st, ld := states[..], loaded[..count];
      AppendLists(st, ld, v, map[]);
      states[v - 1] := Some(map[]);
      assert states[..] == st[v - 1 := Some(map[])];
      loaded[count] := v;
      count := count + 1;
      assert loaded[..count] == ld + [v];
    }

    /** One turn of the lookup loop. */
    method FindIn(v: nat, b: nat) returns (p: Option<nat>)
      requires Valid()
      modifies this`count, this`head, states, loaded
      ensures Valid()
      ensures p == if 1 <= v <= MAX_VERSIONS && b in Replay(log, v) then Some(Replay(log, v)[b]) else None
    {
      var ok := GetOrCreate(v);
      p := if ok && b in states[v - 1].value then Some(states[v - 1].value[b]) else None;
    }

    /** scorw_lookup_physical_block for a reader at version v. */
    method Lookup(v: nat, b: nat) returns (p: Option<nat>)
      requires Valid()
      modifies this`count, this`head, states, loaded
      ensures Valid()
      ensures p == View(log, base, v, b)
    {
      var u := v;
      while u >= 1
        invariant Valid() && 0 <= u <= v
        invariant LastUpTo(log, v, b) == LastUpTo(log, u, b)
      {
        p := FindIn(u, b);
        OneVersionDown(log, u, b);
        if p.Some? {
          return;
        }
        if u > MAX_VERSIONS {
          NothingBeyond(log, u, b);
          NothingBeyond(log, u - 1, b);
        }
        u := u - 1;
      }
      NothingBelow(log, 0, b);
      return if b < base then Some(b) else None;
    }

    /** scorw_record_write: the record goes to the cached map of its version and to the log, and all
        cached maps still are the replay of the log. */
    method RecordWrite(logical: nat, physical: nat, len: nat, inTransaction: bool) returns (ok: bool)
      requires Valid()
      requires NextIs(log, if inTransaction then version + 1 else version)
      modifies this`log, this`count, this`head, states, loaded
      ensures Valid()
      ensures var v := if inTransaction then version + 1 else version;
              && (ok <==> v <= MAX_VERSIONS)
              && log == if ok then old(log) + [Record(v, logical, physical, len)] else old(log)
    {
      var v := if inTransaction then version + 1 else version;
      ok := HasMap(v);
      if ok {
        AppendRecord(Record(v, logical, physical, len));
      }
    }

    method HasMap(v: nat) returns (ok: bool)
      requires Valid()
      modifies this`count, this`head, states, loaded
      ensures Valid() && (ok <==> 1 <= v <= MAX_VERSIONS) && (ok ==> states[v - 1].Some?)
    {
      ok := GetOrCreate(v);
    }

    /** The record goes to the loaded map of its version and to the end of the log. */
    method AppendRecord(r: Record)
      requires Valid() && NextIs(log, r.version) && r.version <= MAX_VERSIONS && states[r.version - 1].Some?
      modifies this`log, states
      ensures Valid() && log == old(log) + [r]
    {
      ghost var st, was := states[..], log;
      StoreBlocks(r.version, r);
      log := log + [r];
      SameLists(st, loaded[..count], r.version - 1, Store(st[r.version - 1].value, r));
      MapsAppend(st, was, r);
    }
  }
}
