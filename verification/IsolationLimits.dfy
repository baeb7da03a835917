/** The conditions of Isolation are exact: what is not settled can change, a logged write that ends short
    costs a later version its data, and so does an overwrite after a failed copy. */
module IsolationLimits {
  import opened Common
  import opened GarbageCollection
  import opened Isolation
  import opened Placement
  import opened Snapshots
  import opened SnapshotSteps
  import opened VersionLog

  // ----- versions that are not settled

  /** The last record decides for a version it is visible at. */
  lemma LastRecordSeen(log: seq<Record>, base: nat, v: nat, b: nat)
    requires log != [] && log[|log| - 1].version <= v && log[|log| - 1].Covers(b)
    ensures View(log, base, v, b) == Some(log[|log| - 1].Target(b))
  {
  }

  /** A version the write's record is about to join sees another block afterwards. */
  lemma BumpedUnsettled(s: State, base: nat)
    requires Inv(s, base) && s.writer.Bumped? && s.version <= MAX_VERSIONS
    ensures var b := s.writer.w.logical;
            View(Step(s, Log).log, base, s.version, b) != View(s.log, base, s.version, b)
  {
    var w := s.writer.w;
    LastRecordSeen(Step(s, Log).log, base, s.version, w.logical);
    if View(s.log, base, s.version, w.logical).Some? {
      ViewBelow(s.log, base, s.version, w.logical, w.physical);
    }
  }

  /** All of the write's data, each block being x. */
  function AllData(w: Write, x: int): Event {
    Data(seq(w.len, _ => x), w.count)
  }

  lemma AllDataReaches(size: nat, base: nat, w: Write, x: int)
    requires WriteOk(size, base, w)
    ensures Reaches(w, AllData(w, x).data, w.count)
  {
  }

  /** A version that sees the record of a write reads new contents when the data arrives. */
  lemma WritingUnsettled(s: State, base: nat, v: nat, x: int)
    requires Inv(s, base) && s.writer.Writing? && s.writer.at <= MAX_VERSIONS && s.writer.at <= v
    ensures var e := AllData(s.writer.w, x);
            !EndsShort(s, e) && Read(Step(s, e), base, v, s.writer.w.logical) == Some(x)
  {
    var w := s.writer.w;
    AllDataReaches(s.size, base, w, x);
    LastRecordSeen(s.log, base, v, w.logical);
  }

  /** t is s, but the write has come to writing its data. */
  predicate ComesToWrite(s: State, t: State) {
    && s.writer.Logged? && t.writer == Writing(s.writer.w, s.writer.at)
    && t.log == s.log && t.disk == s.disk && t.size == s.size && t.version >= s.version
  }

  /** Another thread of the file can come to have the lock. */
  lemma ToOwner(s: State, base: nat, f: File) returns (es: seq<Event>)
    requires s.writer.Logged? && s.lock != Normal(f)
    ensures Orderly(s, base, es) && Run(s, es) == s.(lock := Txn(f))
  {
    es := [];
    if s.lock != Txn(f) {
      if !s.lock.Free? {
        OrderlyNext(s, base, [], Abort(s.lock.owner));
        es := [] + [Abort(s.lock.owner)];
      }
      assert Run(s, es) == s.(lock := Free);
      OrderlyNext(s, base, es, Begin(f));
      es := es + [Begin(f)];
    }
  }

  lemma UnlockWrites(s: State)
    requires s.writer.Logged? && (s.writer.w.txn || s.lock == Normal(s.writer.w.file) || s.lock == Txn(s.writer.w.file))
    ensures ComesToWrite(s, Step(s, Unlock)) && !EndsShort(s, Unlock)
  {
  }

  /** From any state of the lock a logged write can come to writing its data. */
  lemma ToWriting(s: State, base: nat) returns (es: seq<Event>)
    requires s.writer.Logged?
    ensures Orderly(s, base, es) && ComesToWrite(s, Run(s, es))
  {
    var f := s.writer.w.file;
    es := [];
    if !s.writer.w.txn && s.lock != Normal(f) {
      es := ToOwner(s, base, f);
    }
    UnlockWrites(Run(s, es));
    OrderlyNext(s, base, es, Unlock);
    es := es + [Unlock];
  }

  lemma {:induction false} OrderlyInv(s: State, base: nat, es: seq<Event>)
    requires Inv(s, base) && Orderly(s, base, es)
    ensures Inv(Run(s, es), base)
  {
    if es != [] {
      OrderlyInv(s, base, es[..|es| - 1]);
      StepInv(Run(s, es[..|es| - 1]), base, es[|es| - 1]);
    }
  }

  ghost predicate Changed(s: State, t: State, base: nat, v: nat, b: nat) {
    View(t.log, base, v, b) != View(s.log, base, v, b) || Read(t, base, v, b) != Read(s, base, v, b)
  }

  lemma WritingChanges(s: State, base: nat, v: nat) returns (es: seq<Event>)
    requires Inv(s, base) && s.writer.Writing? && s.writer.at <= MAX_VERSIONS && s.writer.at <= v
    ensures Orderly(s, base, es) && Changed(s, Run(s, es), base, v, s.writer.w.logical)
  {
    var was := Read(s, base, v, s.writer.w.logical);
    var x := if was.Some? then was.value + 1 else 0;
    WritingUnsettled(s, base, v, x);
    OrderlyNext(s, base, [], AllData(s.writer.w, x));
    es := [] + [AllData(s.writer.w, x)];
  }

  lemma LoggedChanges(s: State, base: nat, v: nat) returns (es: seq<Event>)
    requires Inv(s, base) && s.writer.Logged? && s.writer.at <= MAX_VERSIONS && s.writer.at <= v
    ensures Orderly(s, base, es) && Changed(s, Run(s, es), base, v, s.writer.w.logical)
  {
    var first := ToWriting(s, base);
    var t := Run(s, first);
    OrderlyInv(s, base, first);
    var was := Read(s, base, v, s.writer.w.logical);
    var x := if was.Some? then was.value + 1 else 0;
    WritingUnsettled(t, base, v, x);
    OrderlyNext(s, base, first, AllData(t.writer.w, x));
    es := first + [AllData(t.writer.w, x)];
  }

  /** Whatever happens in order, version v sees the same blocks with the same contents. */
  ghost predicate Stable(s: State, base: nat, v: nat) {
    forall es, b: nat :: Orderly(s, base, es) ==> !Changed(s, Run(s, es), base, v, b)
  }

  /** Settled versions are exactly those that no orderly run can change. */
  lemma SettledExact(s: State, base: nat, v: nat)
    requires Inv(s, base) && v <= s.version
    ensures v <= Settled(s) <==> Stable(s, base, v)
  {
    if v <= Settled(s) {
      forall es, b: nat | Orderly(s, base, es) ensures !Changed(s, Run(s, es), base, v, b) {
        RunIsolates(s, base, es, v, b);
      }
    } else {
      var es, b := [], s.writer.w.logical;
      if s.writer.Bumped? {
        BumpedUnsettled(s, base);
        OrderlyNext(s, base, [], Log);
        es := [] + [Log];
      } else if s.writer.Writing? {
        es := WritingChanges(s, base, v);
      } else {
        es := LoggedChanges(s, base, v);
      }
      assert Changed(s, Run(s, es), base, v, b);
    }
  }

  // ----- writes that end short

  /** The last logged range reaches beyond where the next append goes. */
  predicate Overhang(s: State) {
    && s.writer.Idle? && s.log != []
    && var r := s.log[|s.log| - 1];
    r.physical <= AppendBlock(s.size) < r.physical + r.len
  }

  lemma ShortOverhangs(s: State, base: nat, e: Event)
    requires Inv(s, base) && EndsShort(s, e)
    ensures Overhang(Step(s, e)) && Step(s, e).log == s.log && s.log[|s.log| - 1].version == s.writer.at
  {
    EndOf(s, base, s.writer.w, if e.Data? then e.n else 0);
  }

  /** Whoever has the lock can give it up. */
  lemma FreesLock(s: State) returns (es: seq<Event>)
    requires s.writer.Idle?
    ensures Run(s, es) == s.(lock := Free)
  {
    es := [];
    if !s.lock.Free? {
      RunNext(s, [], Abort(s.lock.owner));
      es := [] + [Abort(s.lock.owner)];
    }
  }

  /** A normal write of one page at block 0, from beginning to end. */
  function PageWrite(s: State, f: File, x: int): State {
    Step(Step(Logs(s, f), Unlock), Data([x], PAGE))
  }

  function Logs(s: State, f: File): State {
    Step(Step(Step(s, Start(f, 0, PAGE)), Bump), Log)
  }

  lemma LogsState(s: State, f: File)
    requires s.writer.Idle? && s.lock.Free?
    ensures var q := AppendBlock(s.size);
            && Logs(s, f).log == (if s.version < MAX_VERSIONS then s.log + [Record(s.version + 1, 0, q, 1)] else s.log)
            && Logs(s, f) == s.(version := s.version + 1, log := Logs(s, f).log, lock := Normal(f),
                                writer := Logged(Write(f, false, 0, 0, PAGE, q, 1), s.version + 1))
  {
  }

  lemma PageWriteState(s: State, f: File, x: int)
    requires s.writer.Idle? && s.lock.Free?
    ensures var q := AppendBlock(s.size);
            PageWrite(s, f, x) == s.(version := s.version + 1, log := Logs(s, f).log, disk := s.disk[q := x],
                                     size := Max(s.size, q * PAGE + PAGE))
  {
    LogsState(s, f);
    var q := AppendBlock(s.size);
    assert [x][..0] == [];
    assert WriteBlocks(s.disk, q, [x]) == s.disk[q := x];
  }

  /** The next write, wherever it goes, lands on a block of the last one: their ranges overlap, ... */
  lemma OverhangOverlaps(s: State, base: nat, f: File)
    requires Overhang(s) && s.lock.Free? && s.version < MAX_VERSIONS
    ensures !RangesApart(Logs(s, f).log, base)
  {
    LogsState(s, f);
    var n := |s.log| - 1;
    assert Logs(s, f).log[n] == s.log[n] && Logs(s, f).log[n + 1].physical == AppendBlock(s.size);
  }

  /** ... and every version that sees that block reads the other write's data. */
  lemma OverhangOverwrites(s: State, base: nat, f: File, x: int, v: nat)
    requires Overhang(s) && s.lock.Free? && s.log[|s.log| - 1].version <= v <= s.version
    ensures var r := s.log[|s.log| - 1];
            Read(PageWrite(s, f, x), base, v, r.logical + (AppendBlock(s.size) - r.physical)) == Some(x)
  {
    var r, q := s.log[|s.log| - 1], AppendBlock(s.size);
    var b := r.logical + (q - r.physical);
    LogsState(s, f);
    PageWriteState(s, f, x);
    LastRecordSeen(s.log, base, v, b);
    if s.version < MAX_VERSIONS {
      LastAppend(s.log, Record(s.version + 1, 0, q, 1), v, b);
    }
  }

  /** After any step that ends a logged write short, one further write costs every version that sees it
      its data; so the condition of the invariant is the condition of isolation. */
  lemma ShortEndBreaks(s: State, base: nat, e: Event, f: File, x: int, v: nat) returns (es: seq<Event>, b: nat)
    requires Inv(s, base) && EndsShort(s, e)
    ensures Run(Step(s, e), es) == Step(s, e).(lock := Free)
    ensures Step(s, e).version < MAX_VERSIONS ==> !RangesApart(PageWrite(Run(Step(s, e), es), f, x).log, base)
    ensures s.writer.at <= v <= Settled(Step(s, e)) ==> Read(PageWrite(Run(Step(s, e), es), f, x), base, v, b) == Some(x)
  {
    ShortOverhangs(s, base, e);
    var t := Step(s, e);
    es := FreesLock(t);
    var t', r := t.(lock := Free), t.log[|t.log| - 1];
    b := r.logical + (AppendBlock(t.size) - r.physical);
    if t.version < MAX_VERSIONS {
      OverhangOverlaps(t', base, f);
      PageWriteState(t', f, x);
    }
    if s.writer.at <= v <= Settled(t) {
      OverhangOverwrites(t', base, f, x, v);
    }
  }

  // ----- giving back another write's lock

  /** What a normal write still does before it gives back the lock. */
  function Rest(w: Writer): seq<Event> {
    if w.Placed? then [Bump, Log] else if w.Bumped? then [Log] else []
  }

  /** The version a normal write logs at. */
  function LogsAt(s: State): nat
    requires !s.writer.Idle?
  {
    if s.writer.Placed? then s.version + 1 else if s.writer.Bumped? then s.version
    else if s.writer.Logged? then s.writer.at else 0
  }

  lemma RestLogs(s: State, base: nat)
    requires Inv(s, base) && (s.writer.Placed? || s.writer.Bumped? || s.writer.Logged?) && !s.writer.w.txn
    ensures var t := Run(s, Rest(s.writer));
            Inv(t, base) && t.writer == Logged(s.writer.w, LogsAt(s)) && t.size == s.size && t.lock == s.lock
  {
    if s.writer.Placed? {
      StepInv(s, base, Bump);
      BumpedLogs(Step(s, Bump), base);
      RunNext(s, [], Bump);
      RunNext(s, [Bump], Log);
      assert [] + [Bump] == [Bump] && [Bump] + [Log] == [Bump, Log];
    } else if s.writer.Bumped? {
      BumpedLogs(s, base);
      RunNext(s, [], Log);
      assert [] + [Log] == [Log];
    }
  }

  lemma BumpedLogs(s: State, base: nat)
    requires Inv(s, base) && s.writer.Bumped?
    ensures var t := Step(s, Log);
            Inv(t, base) && t.writer == Logged(s.writer.w, s.version) && t.size == s.size && t.lock == s.lock
  {
    StepInv(s, base, Log);
  }

  /** If another thread of the same open file ends or aborts a "transaction" while a normal write holds
      the lock, the write ends short, unless a copy made the file reach its last block. */
  lemma IntrusionEndsShort(s: State, base: nat, e: Event)
    requires Inv(s, base) && (s.writer.Placed? || s.writer.Bumped? || s.writer.Logged?) && !s.writer.w.txn
    requires s.lock == Normal(s.writer.w.file) && (e == End(s.lock.owner) || e == Abort(s.lock.owner))
    requires LogsAt(s) <= MAX_VERSIONS
    ensures var t := Run(Step(s, e), Rest(s.writer));
            && Inv(t, base) && t.writer == Logged(s.writer.w, LogsAt(s))
            && (EndsShort(t, Unlock) <==> AppendBlock(s.size) < s.writer.w.physical + s.writer.w.len)
  {
    assert Step(s, e) == s.(lock := Free);
    StepInv(s, base, e);
    RestLogs(Step(s, e), base);
  }

  // ----- failed copies

  /** A write in place after a failed copy changes what a settled version reads, for some data, exactly
      if it reaches a block that one sees. */
  lemma OverwriteExact(s: State, base: nat, data: seq<int>, n: nat)
    requires Inv(s, base) && s.writer.InPlace? && Reaches(s.writer.w, data, n)
    ensures Overwrites(s, base, Data(data, n)) <==>
            exists d: seq<int>, v: nat, b: nat ::
              |d| == |data| && v <= Settled(s) && Read(Step(s, Data(d, n)), base, v, b) != Read(s, base, v, b)
  {
    var k := s.writer.w.logical;
    if Overwrites(s, base, Data(data, n)) {
      var p :| k <= p < k + |data| && Seen(s, base, p);
      var v: nat, b: nat :| v <= Settled(s) && View(s.log, base, v, b) == Some(p);
      var x := Read(s, base, v, b).value + 1;
      var d := seq(|data|, _ => x);
      assert Read(Step(s, Data(d, n)), base, v, b) == Some(x);
    } else {
      forall d: seq<int>, v: nat, b: nat | |d| == |data| && v <= Settled(s)
        ensures Read(Step(s, Data(d, n)), base, v, b) == Read(s, base, v, b)
      {
        StepIsolates(s, base, Data(d, n), v, b);
      }
    }
  }

  /** Within the original file it always does: version 1 sees the original blocks. */
  lemma OriginalSeen(s: State, base: nat)
    requires VersionInv(s) && s.writer.InPlace? && s.writer.w.logical < base
    ensures Seen(s, base, s.writer.w.logical)
  {
    NothingBelow(s.log, 1, s.writer.w.logical);
    assert View(s.log, base, 1, s.writer.w.logical) == Some(s.writer.w.logical);
  }

  // ----- one of each

  /** A parent of one block, nothing logged. */
  const FRESH := State(1, [], PAGE, Free, Idle, map[])

  lemma FreshLogs(f: File)
    ensures Logs(FRESH, f) ==
            State(2, [Record(2, 0, 1, 1)], PAGE, Normal(f), Logged(Write(f, false, 0, 0, PAGE, 1, 1), 2), map[])
    ensures Inv(FRESH, 1)
  {
    LogsState(FRESH, f);
    assert [] + [Record(2, 0, 1, 1)] == [Record(2, 0, 1, 1)];
  }

  /** A parent with a logged block that was never written: the next write takes the block, and version 2
      reads the other write's data. */
  lemma Orphan(s: State)
    requires s == State(2, [Record(2, 0, 1, 1)], PAGE, Free, Idle, map[])
    ensures Settled(s) == 2 && Read(s, 1, 2, 0) == Some(0) && Read(PageWrite(s, 2, 7), 1, 2, 0) == Some(7)
  {
    LastRecordSeen(s.log, 1, 2, 0);
    OverhangOverwrites(s, 1, 2, 7, 2);
  }

  /** A version a normal write is creating is current before it is logged, and its map changes under a
      reader that already moved to it. */
  lemma NewestVersionNotSettled()
    ensures var s := Step(Step(FRESH, Start(1, 0, PAGE)), Bump);
            s.version == 2 && View(s.log, 1, 2, 0) == Some(0) && View(Step(s, Log).log, 1, 2, 0) == Some(1)
  {
    FreshLogs(1);
    LastRecordSeen(Logs(FRESH, 1).log, 1, 2, 0);
  }

  /** A write whose caller is killed before it wrote a byte: nobody interfered, and a settled version
      reads another write's data. */
  lemma KilledWriteBreaksIsolation()
    ensures var s := Step(Step(Logs(FRESH, 1), Unlock), Data([], 0));
            s.version == 2 == Settled(s) && Read(s, 1, 2, 0) == Some(0) && Read(PageWrite(s, 2, 7), 1, 2, 0) == Some(7)
  {
    FreshLogs(1);
    Orphan(Step(Step(Logs(FRESH, 1), Unlock), Data([], 0)));
  }

  /** The same after another thread ended the write's "transaction". */
  lemma IntrusionBreaksIsolation()
    ensures var s := Step(Step(Logs(FRESH, 1), End(1)), Unlock);
            s.version == 2 == Settled(s) && Read(s, 1, 2, 0) == Some(0) && Read(PageWrite(s, 2, 7), 1, 2, 0) == Some(7)
  {
    FreshLogs(1);
    Orphan(Step(Step(Logs(FRESH, 1), End(1)), Unlock));
  }

  /** After a failed copy the original block is overwritten, which version 1 sees; and the lock stays. */
  lemma FailedCopyBreaksIsolation()
    ensures var s := Step(Step(FRESH, Start(1, 0, 100)), CopyFails);
            var s' := Step(s, Data([9], 100));
            1 <= Settled(s) && Read(s, 1, 1, 0) == Some(0) && Read(s', 1, 1, 0) == Some(9) && s'.lock == Normal(1)
  {
    var s := Step(Step(FRESH, Start(1, 0, 100)), CopyFails);
    assert s == State(1, [], PAGE, Normal(1), InPlace(Write(1, false, 0, 0, 100, 1, 1)), map[]);
    assert Step(s, Data([9], 100)).disk == WriteBlocks(map[], 0, [9]);
  }
}
