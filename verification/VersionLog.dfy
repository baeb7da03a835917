/** The version log of a parent file and the block map each version sees (corw_sparse.c). */
module VersionLog {
  import opened Common

  /** struct scorw_log_record */
  datatype Record = Record(version: nat, logical: nat, physical: nat, len: nat) {
    predicate Covers(b: nat) {
      logical <= b < logical + len
    }

    function Target(b: nat): nat
      requires Covers(b)
    {
      physical + (b - logical)
    }

    /** The physical blocks the record names. */
    predicate Names(p: nat) {
      physical <= p < physical + len
    }
  }

  const MAX_VERSIONS: nat := 32

  /** Versions never decrease along the log; the first logged version is 2, and a version without a
      slot in version_states is never logged. */
  ghost predicate LogOk(log: seq<Record>) {
    && (forall i :: 0 <= i < |log| ==> 2 <= log[i].version <= MAX_VERSIONS)
    && (forall i, j :: 0 <= i < j < |log| ==> log[i].version <= log[j].version)
  }

  /** What version v sees of the log: the last record up to v that covers the block. */
  function LastUpTo(log: seq<Record>, v: int, b: nat): Option<nat> {
    if log == [] then None
    else
      var r := log[|log| - 1];
      if r.version <= v && r.Covers(b) then Some(r.Target(b)) else LastUpTo(log[..|log| - 1], v, b)
  }

  /** The block map of version v: logged block, else block of the original file, else nothing. */
  function View(log: seq<Record>, base: nat, v: int, b: nat): Option<nat> {
    var p := LastUpTo(log, v, b);
    if p.Some? then p else if b < base then Some(b) else None
  }

  // ----- the map of one version, as replayed from the log

  /** The first n blocks of the record stored in a version's map. */
  function StoreFirst(m: map<nat, nat>, r: Record, n: nat): (m': map<nat, nat>)
    requires n <= r.len
    ensures forall b :: b in m' <==> b in m || r.logical <= b < r.logical + n
    ensures forall b :: b in m' ==> m'[b] == if r.logical <= b < r.logical + n then r.physical + (b - r.logical) else m[b]
  {
    if n == 0 then m else StoreFirst(m, r, n - 1)[r.logical + n - 1 := r.physical + n - 1]
  }

  function Store(m: map<nat, nat>, r: Record): map<nat, nat> {
    StoreFirst(m, r, r.len)
  }

  /** Records of exactly version v stored in log order. */
  function Replay(log: seq<Record>, v: int): map<nat, nat> {
    if log == [] then map[]
    else
      var m, r := Replay(log[..|log| - 1], v), log[|log| - 1];
      if r.version == v then Store(m, r) else m
  }

  lemma ReplayAppend(log: seq<Record>, r: Record, v: int)
    ensures Replay(log + [r], v) == if r.version == v then Store(Replay(log, v), r) else Replay(log, v)
  {
    assert (log + [r])[..|log|] == log;
  }

  lemma LastAppend(log: seq<Record>, r: Record, v: int, b: nat)
    ensures LastUpTo(log + [r], v, b) ==
            if r.version <= v && r.Covers(b) then Some(r.Target(b)) else LastUpTo(log, v, b)
  {
    assert (log + [r])[..|log|] == log;
  }

  /** A version's map decides where it has the block, and the versions below it elsewhere: looking
      at one version after another finds the last record. */
  lemma {:induction false} OneVersionDown(log: seq<Record>, v: int, b: nat)
    requires LogOk(log)
    ensures LastUpTo(log, v, b) ==
            if b in Replay(log, v) then Some(Replay(log, v)[b]) else LastUpTo(log, v - 1, b)
  {
    if log != [] {
      var n := |log| - 1;
      OneVersionDown(log[..n], v, b);
      if log[n].version < v {
        NothingAt(log, v);
      }
    }
  }

  /** A version above all logged ones has an empty map. */
  lemma {:induction false} NothingAt(log: seq<Record>, v: int)
    requires forall i :: 0 <= i < |log| ==> log[i].version != v
    ensures Replay(log, v) == map[]
  {
    if log != [] {
      NothingAt(log[..|log| - 1], v);
    }
  }

  /** Nothing is seen below version 1. */
  lemma {:induction false} NothingBelow(log: seq<Record>, v: int, b: nat)
    requires LogOk(log) && v < 2
    ensures LastUpTo(log, v, b) == None
  {
    if log != [] {
      NothingBelow(log[..|log| - 1], v, b);
    }
  }

  /** Versions beyond the last slot add nothing. */
  lemma {:induction false} NothingBeyond(log: seq<Record>, v: int, b: nat)
    requires LogOk(log) && v >= MAX_VERSIONS
    ensures LastUpTo(log, v, b) == LastUpTo(log, MAX_VERSIONS, b)
  {
    if log != [] {
      NothingBeyond(log[..|log| - 1], v, b);
    }
  }

  /** A later version's records do not change what an earlier version sees. */
  lemma {:induction false} LaterRecordsUnseen(log: seq<Record>, tail: seq<Record>, v: int, b: nat)
    requires forall i :: 0 <= i < |tail| ==> tail[i].version > v
    ensures LastUpTo(log + tail, v, b) == LastUpTo(log, v, b)
  {
    if tail == [] {
      assert log + tail == log;
    } else {
      var n := |tail| - 1;
      assert log + tail == (log + tail[..n]) + [tail[n]];
      LastAppend(log + tail[..n], tail[n], v, b);
      LaterRecordsUnseen(log, tail[..n], v, b);
    }
  }

  /** Records a version sees lie over everything before them. */
  lemma {:induction false} SeenOverlay(log: seq<Record>, tail: seq<Record>, v: int, b: nat)
    ensures LastUpTo(log + tail, v, b) ==
            if LastUpTo(tail, v, b).Some? then LastUpTo(tail, v, b) else LastUpTo(log, v, b)
  {
    if tail == [] {
      assert log + tail == log;
    } else {
      var n := |tail| - 1;
      assert log + tail == (log + tail[..n]) + [tail[n]];
      LastAppend(log + tail[..n], tail[n], v, b);
      SeenOverlay(log, tail[..n], v, b);
    }
  }

  lemma {:induction false} LastWitness(log: seq<Record>, v: int, b: nat) returns (k: nat)
    requires LastUpTo(log, v, b).Some?
    ensures k < |log| && log[k].version <= v && log[k].Covers(b) && LastUpTo(log, v, b) == Some(log[k].Target(b))
    ensures forall i :: k < i < |log| ==> !(log[i].version <= v && log[i].Covers(b))
  {
    var n := |log| - 1;
    if log[n].version <= v && log[n].Covers(b) {
      k := n;
    } else {
      k := LastWitness(log[..n], v, b);
    }
  }

  lemma {:induction false} LastIs(log: seq<Record>, v: int, b: nat, k: nat)
    requires k < |log| && log[k].version <= v && log[k].Covers(b)
    requires forall i :: k < i < |log| ==> !(log[i].version <= v && log[i].Covers(b))
    ensures LastUpTo(log, v, b) == Some(log[k].Target(b))
  {
    if k < |log| - 1 {
      LastIs(log[..|log| - 1], v, b, k);
    }
  }
}
