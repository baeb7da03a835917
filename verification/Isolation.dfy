/** Snapshot isolation of the runs of Snapshots, and exactly what it depends on. */
module Isolation {
  import opened Common
  import opened GarbageCollection
  import opened Placement
  import opened Snapshots
  import opened SnapshotSteps
  import opened VersionLog

  // ----- one step

  lemma StaysSettled(s: State, e: Event)
    requires VersionInv(s)
    ensures Settled(Step(s, e)) >= Settled(s)
  {
  }

  /** A step appends at most one record, of a version that is not settled. */
  lemma StepLog(s: State, e: Event)
    ensures var t := Step(s, e).log;
            t == s.log || (|t| == |s.log| + 1 && t == s.log + [t[|s.log|]] && t[|s.log|].version > Settled(s))
  {
  }

  predicate InFlight(w: Writer) {
    !w.Idle? && !w.InPlace?
  }

  /** A step writes to no block below the appended ones, except after a failed copy. */
  lemma StepDisk(s: State, base: nat, e: Event, p: nat)
    requires RangeInv(s, base) && (InFlight(s.writer) ==> p < s.writer.w.physical)
    requires s.writer.InPlace? && e.Data? ==> !(s.writer.w.logical <= p < s.writer.w.logical + |e.data|)
    ensures p in Step(s, e).disk <==> p in s.disk
    ensures p in s.disk ==> Step(s, e).disk[p] == s.disk[p]
  {
  }

  lemma ViewBelow(log: seq<Record>, base: nat, v: nat, b: nat, q: nat)
    requires Below(log, q) && base <= q && View(log, base, v, b).Some?
    ensures View(log, base, v, b).value < q
  {
    if LastUpTo(log, v, b).Some? {
      var k := LastWitness(log, v, b);
    }
  }

  /** The record of the write in flight is not seen below its version. */
  lemma BeforeView(log: seq<Record>, w: Write, at: nat, base: nat, v: nat, b: nat)
    requires InLog(log, w, at) && (at <= MAX_VERSIONS ==> v < at)
    ensures View(Before(log, at), base, v, b) == View(log, base, v, b)
  {
    if at <= MAX_VERSIONS {
      var n := |log| - 1;
      assert log == log[..n] + [log[n]];
      LastAppend(log[..n], log[n], v, b);
    }
  }

  /** What a settled version sees lies below the blocks of the write in flight. */
  lemma SettledView(s: State, base: nat, v: nat, b: nat)
    requires Inv(s, base) && v <= Settled(s) && InFlight(s.writer) && View(s.log, base, v, b).Some?
    ensures View(s.log, base, v, b).value < s.writer.w.physical
  {
    var p := s.writer.w.physical;
    if s.writer.Placed? || s.writer.Bumped? {
      ViewBelow(s.log, base, v, b, p);
    } else {
      BeforeView(s.log, s.writer.w, s.writer.at, base, v, b);
      ViewBelow(Before(s.log, s.writer.at), base, v, b, p);
    }
  }

  /** No step changes the map or the contents that a settled version sees, unless it overwrites in place
      what one sees; and settled versions stay settled. */
  lemma StepIsolates(s: State, base: nat, e: Event, v: nat, b: nat)
    requires Inv(s, base) && !Overwrites(s, base, e) && v <= Settled(s)
    ensures Settled(Step(s, e)) >= Settled(s)
    ensures View(Step(s, e).log, base, v, b) == View(s.log, base, v, b)
    ensures Read(Step(s, e), base, v, b) == Read(s, base, v, b)
  {
    var s' := Step(s, e);
    StaysSettled(s, e);
    StepLog(s, e);
    if s'.log != s.log {
      LastAppend(s.log, s'.log[|s.log|], v, b);
    }
    var p := View(s.log, base, v, b);
    if p.Some? {
      if InFlight(s.writer) {
        SettledView(s, base, v, b);
        StepDisk(s, base, e, p.value);
      } else {
        KeptInPlace(s, base, e, v, b, p.value);
      }
    }
  }

  lemma KeptInPlace(s: State, base: nat, e: Event, v: nat, b: nat, p: nat)
    requires RangeInv(s, base) && !Overwrites(s, base, e) && v <= Settled(s) && !InFlight(s.writer)
    requires View(s.log, base, v, b) == Some(p)
    ensures p in Step(s, e).disk <==> p in s.disk
    ensures p in s.disk ==> Step(s, e).disk[p] == s.disk[p]
  {
    assert Seen(s, base, p);
    if s.writer.InPlace? && e.Data? && Reaches(s.writer.w, e.data, e.n) {
      StepDisk(s, base, e, p);
    }
  }

  // ----- whole runs

  /** No step of the run ends a logged write short or overwrites in place what a settled version sees. */
  ghost predicate Orderly(s: State, base: nat, es: seq<Event>) {
    es == [] ||
    var t, e := Run(s, es[..|es| - 1]), es[|es| - 1];
    Orderly(s, base, es[..|es| - 1]) && !EndsShort(t, e) && !Overwrites(t, base, e)
  }

  /** Snapshot isolation over whole runs. */
  lemma {:induction false} RunIsolates(s: State, base: nat, es: seq<Event>, v: nat, b: nat)
    requires Inv(s, base) && Orderly(s, base, es) && v <= Settled(s)
    ensures Inv(Run(s, es), base) && v <= Settled(Run(s, es))
    ensures View(Run(s, es).log, base, v, b) == View(s.log, base, v, b)
    ensures Read(Run(s, es), base, v, b) == Read(s, base, v, b)
  {
    if es != [] {
      var n := |es| - 1;
      RunIsolates(s, base, es[..n], v, b);
      StepInv(Run(s, es[..n]), base, es[n]);
      StepIsolates(Run(s, es[..n]), base, es[n], v, b);
    }
  }

  /** The end of a transaction by its owner makes all its records visible in one step, at the new
      version: before, no reader up to the parent's version saw any of them; after, the new version
      sees them over what the last one saw.  Nobody else can end it. */
  lemma EndPublishes(s: State, base: nat, f: File, b: nat)
    requires VersionInv(s)
    ensures var s' := Step(s, End(f));
            && (s.lock != Txn(f) ==> s'.version == s.version && s'.log == s.log && (s.lock.Txn? ==> s' == s))
            && (s.lock == Txn(f) ==>
                  && s'.version == s.version + 1 && s'.lock.Free? && s'.log == s.log
                  && View(s'.log, base, s'.version, b) ==
                     if b in Replay(s.log, s'.version) then Some(Replay(s.log, s'.version)[b])
                     else View(s.log, base, s.version, b))
  {
    OneVersionDown(s.log, s.version + 1, b);
  }

  lemma OrderlyNext(s: State, base: nat, es: seq<Event>, e: Event)
    requires Orderly(s, base, es) && !EndsShort(Run(s, es), e) && !Overwrites(Run(s, es), base, e)
    ensures Orderly(s, base, es + [e]) && Run(s, es + [e]) == Step(Run(s, es), e)
  {
    assert (es + [e])[..|es|] == es;
  }

}
