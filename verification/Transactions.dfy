/** Who has the transaction lock of a parent, and what a write or a transaction as a whole does
    (scorw_set_transaction, scorw_set_transaction_error and scorw_write_see_thru_ro of corw_sparse.c). */
module Transactions {
  import opened Common
  import opened GarbageCollection
  import opened Isolation
  import opened Placement
  import opened Snapshots
  import opened SnapshotSteps
  import opened VersionLog

  // ----- the lock

  /** A normal write of file f is about to give back its lock. */
  predicate GivesBack(s: State, e: Event, f: File) {
    e.Unlock? && s.writer.Logged? && !s.writer.w.txn && s.writer.w.file == f
  }

  /** Once taken, the lock is given up by calls of its owner only, and by nobody for somebody else. */
  lemma LockStays(s: State, e: Event)
    requires !s.lock.Free?
    ensures var f := s.lock.owner;
            if e == End(f) || e == Abort(f) || GivesBack(s, e, f) then Step(s, e).lock == Free
            else Step(s, e).lock == s.lock
  {
  }

  /** A free lock goes to the file that asks for it first. */
  lemma LockTaken(s: State, e: Event)
    requires s.lock.Free?
    ensures Step(s, e).lock ==
            match e
            case Begin(f) => Txn(f)
            case Start(f, _, count) => if s.writer.Idle? && count > 0 then Normal(f) else Free
            case _ => Free
  {
  }

  /** While a file has the lock, the calls of all others change nothing. */
  lemma OthersWait(s: State, e: Event)
    requires !s.lock.Free? && (e.Begin? || e.End? || e.Abort? || e.Start?) && e.file != s.lock.owner
    ensures Step(s, e) == s
  {
  }

  /** The version is raised by the end of a transaction and by a normal write, and not otherwise. */
  lemma VersionRises(s: State, e: Event)
    ensures Step(s, e).version ==
            s.version + if || (s.lock.Txn? && (e == End(s.lock.owner) || GivesBack(s, e, s.lock.owner)))
                           || (e.Bump? && s.writer.Placed? && !s.writer.w.txn)
                        then 1 else 0
  {
  }

  /** A write between Start and the end of its call has the lock it started with. */
  predicate Holds(s: State) {
    && (s.writer.Placed? || s.writer.Bumped? || s.writer.Logged? ==>
          s.lock == if s.writer.w.txn then Txn(s.writer.w.file) else Normal(s.writer.w.file))
    && (s.writer.Bumped? ==> !s.writer.w.txn)
  }

  /** Another thread on the same open file gives up the lock under a write. */
  predicate Intrudes(s: State, e: Event) {
    && (s.writer.Placed? || s.writer.Bumped? || s.writer.Logged?)
    && (e == End(s.writer.w.file) || e == Abort(s.writer.w.file))
  }

  lemma HoldsStep(s: State, e: Event)
    requires Holds(s)
    ensures Holds(Step(s, e)) <==> !Intrudes(s, e)
  {
  }

  /** What may have happened while file f was in a transaction: the lock and the version are as they were,
      records were added for the next version only, and a write that is being placed or logged is its own. */
  ghost predicate Inside(s: State, t: State, f: File) {
    && t.lock == Txn(f) && t.version == s.version && Holds(t)
    && s.log <= t.log && (forall i :: |s.log| <= i < |t.log| ==> t.log[i].version == s.version + 1)
    && (t.writer.Placed? || t.writer.Bumped? || t.writer.Logged? ==> t.writer.w.txn && t.writer.w.file == f)
  }

  lemma InsideStep(s: State, t: State, f: File, e: Event)
    requires Inside(s, t, f) && e != End(f) && e != Abort(f)
    ensures Inside(s, Step(t, e), f)
  {
    var t' := Step(t, e);
    HoldsStep(t, e);
    LockStays(t, e);
    VersionRises(t, e);
    if e.Log? {
      StepLog(t, e);
      assert t'.log[..|s.log|] == t.log[..|s.log|];
    } else {
      OtherAges(t, e);
    }
  }

  /** A transaction is its owner's until the owner ends or aborts it: over every run without that, whatever
      the others do. */
  lemma {:induction false} InsideRun(s: State, f: File, es: seq<Event>)
    requires s.lock == Txn(f) && Holds(s) && End(f) !in es && Abort(f) !in es
    ensures Inside(s, Run(s, es), f)
  {
    if es != [] {
      var n := |es| - 1;
      InsideRun(s, f, es[..n]);
      assert es[n] in es;
      InsideStep(s, Run(s, es[..n]), f, es[n]);
    }
  }

  // ----- what a write does

  /** Some byte of the write lies in block b. */
  ghost predicate Meets(pos: nat, count: nat, b: nat) {
    exists x: nat :: pos <= x < pos + count && x / PAGE == b
  }

  lemma MeetsExact(pos: nat, count: nat, b: nat)
    requires count > 0
    ensures Meets(pos, count, b) <==> pos / PAGE <= b < pos / PAGE + Touched(pos % PAGE, count)
  {
    if pos / PAGE <= b < pos / PAGE + Touched(pos % PAGE, count) {
      var x := Max(pos, b * PAGE);
      assert pos <= x < pos + count && x / PAGE == b;
    }
  }

  /** The record of a write covers the blocks it meets, and no others, and sends them behind the parent. */
  lemma RecordOf(s: State, f: File, txn: bool, pos: nat, count: nat, v: nat, b: nat)
    requires count > 0
    ensures var w := Place(s, f, txn, pos, count);
            var r := Record(v, w.logical, w.physical, w.len);
            && (r.Covers(b) <==> Meets(pos, count, b))
            && (r.Covers(b) ==> r.Target(b) == AppendBlock(s.size) + (b - pos / PAGE))
  {
    MeetsExact(pos, count, b);
  }

  /** The steps of a normal write whose data all reaches the file. */
  function Normally(f: File, pos: nat, count: nat, data: seq<int>): seq<Event> {
    [Start(f, pos, count), Bump, Log, Unlock, Data(data, count)]
  }

  /** The same write as a transaction. */
  function InTransaction(f: File, pos: nat, count: nat, data: seq<int>): seq<Event> {
    [Begin(f), Start(f, pos, count), Log, Unlock, Data(data, count), End(f)]
  }

  lemma Run3(s: State, a: Event, b: Event, c: Event)
    ensures Run(s, [a, b, c]) == Step(Step(Step(s, a), b), c)
  {
    RunNext(s, [], a);
    RunNext(s, [a], b);
    RunNext(s, [a, b], c);
    assert [] + [a] == [a] && [a] + [b] == [a, b] && [a, b] + [c] == [a, b, c];
  }

  lemma Run5(s: State, a: Event, b: Event, c: Event, d: Event, e: Event)
    ensures Run(s, [a, b, c, d, e]) == Step(Step(Step(Step(Step(s, a), b), c), d), e)
  {
    Run3(s, a, b, c);
    RunNext(s, [a, b, c], d);
    RunNext(s, [a, b, c, d], e);
    assert [a, b, c] + [d] == [a, b, c, d] && [a, b, c, d] + [e] == [a, b, c, d, e];
  }

  /** From the placement of a normal write to where its data is written. */
  lemma LogsNormally(s: State, w: Write)
    requires s.writer == Placed(w) && !w.txn && s.lock == Normal(w.file) && s.version < MAX_VERSIONS
    ensures Step(Step(Step(s, Bump), Log), Unlock) ==
            s.(version := s.version + 1, log := s.log + [Record(s.version + 1, w.logical, w.physical, w.len)],
               lock := Free, writer := Writing(w, s.version + 1))
  {
    var s1 := Step(s, Bump);
    assert s1 == s.(version := s.version + 1, writer := Bumped(w));
    var s2 := Step(s1, Log);
    assert s2 == s1.(log := s.log + [Record(s.version + 1, w.logical, w.physical, w.len)],
                     writer := Logged(w, s.version + 1));
  }

  /** The same within a transaction. */
  lemma LogsInside(s: State, w: Write)
    requires s.writer == Placed(w) && w.txn && s.version < MAX_VERSIONS
    ensures Step(Step(s, Log), Unlock) ==
            s.(log := s.log + [Record(s.version + 1, w.logical, w.physical, w.len)], writer := Writing(w, s.version + 1))
  {
    var s1 := Step(s, Log);
    assert s1 == s.(log := s.log + [Record(s.version + 1, w.logical, w.physical, w.len)],
                    writer := Logged(w, s.version + 1));
  }

  /** The parent after the write. */
  function AfterWrite(s: State, pos: nat, count: nat, data: seq<int>): State {
    var p := AppendBlock(s.size);
    State(s.version + 1, s.log + [Record(s.version + 1, pos / PAGE, p, Touched(pos % PAGE, count))],
          Max(s.size, p * PAGE + pos % PAGE + count), Free, Idle, WriteBlocks(s.disk, p, data))
  }

  ghost predicate MayWrite(s: State, pos: nat, count: nat, data: seq<int>) {
    && s.writer.Idle? && s.lock.Free? && s.version < MAX_VERSIONS && count > 0
    && |data| == Touched(pos % PAGE, count)
  }

  lemma NormalEnds(s: State, f: File, pos: nat, count: nat, data: seq<int>)
    requires MayWrite(s, pos, count, data)
    ensures Run(s, Normally(f, pos, count, data)) == AfterWrite(s, pos, count, data)
  {
    Run5(s, Start(f, pos, count), Bump, Log, Unlock, Data(data, count));
    var s1 := Step(s, Start(f, pos, count));
    assert s1 == s.(lock := Normal(f), writer := Placed(Place(s, f, false, pos, count)));
    LogsNormally(s1, s1.writer.w);
  }

  /** A transaction up to its end. */
  lemma InsideEnds(s: State, f: File, pos: nat, count: nat, data: seq<int>)
    requires MayWrite(s, pos, count, data)
    ensures Run(s, [Begin(f), Start(f, pos, count), Log, Unlock, Data(data, count)]) ==
            AfterWrite(s, pos, count, data).(version := s.version, lock := Txn(f))
  {
    Run5(s, Begin(f), Start(f, pos, count), Log, Unlock, Data(data, count));
    var s1 := Step(Step(s, Begin(f)), Start(f, pos, count));
    assert s1 == s.(lock := Txn(f), writer := Placed(Place(s, f, true, pos, count)));
    LogsInside(s1, s1.writer.w);
  }

  lemma TransactionEnds(s: State, f: File, pos: nat, count: nat, data: seq<int>)
    requires MayWrite(s, pos, count, data)
    ensures Run(s, InTransaction(f, pos, count, data)) == AfterWrite(s, pos, count, data)
  {
    var es := [Begin(f), Start(f, pos, count), Log, Unlock, Data(data, count)];
    InsideEnds(s, f, pos, count, data);
    RunNext(s, es, End(f));
    assert es + [End(f)] == InTransaction(f, pos, count, data);
  }

  lemma AfterVersions(s: State, pos: nat, count: nat, data: seq<int>)
    requires VersionInv(s) && MayWrite(s, pos, count, data)
    ensures VersionInv(AfterWrite(s, pos, count, data))
  {
  }

  lemma AfterRanges(s: State, base: nat, pos: nat, count: nat, data: seq<int>)
    requires RangeInv(s, base) && MayWrite(s, pos, count, data)
    ensures RangeInv(AfterWrite(s, pos, count, data), base)
  {
    var p, len := AppendBlock(s.size), Touched(pos % PAGE, count);
    var r := Record(s.version + 1, pos / PAGE, p, len);
    var end := Max(s.size, p * PAGE + pos % PAGE + count);
    RecordApart(s.log, base, r);
    LastBlock(p, len, pos % PAGE + count);
    AppendMono(p * PAGE + pos % PAGE + count, end);
    assert Below(s.log + [r], p + len) && p + len <= AppendBlock(end);
  }

  lemma AfterReads(s: State, base: nat, pos: nat, count: nat, data: seq<int>, v: nat, b: nat)
    requires Inv(s, base) && MayWrite(s, pos, count, data) && v <= s.version + 1
    ensures var t := AfterWrite(s, pos, count, data);
            && (Meets(pos, count, b) ==> 0 <= b - pos / PAGE < |data|)
            && Read(t, base, v, b) ==
               if v > s.version && Meets(pos, count, b) then Some(data[b - pos / PAGE]) else Read(s, base, v, b)
  {
    var p := AppendBlock(s.size);
    MeetsExact(pos, count, b);
    LastAppend(s.log, Record(s.version + 1, pos / PAGE, p, Touched(pos % PAGE, count)), v, b);
    if View(s.log, base, v, b).Some? {
      ViewBelow(s.log, base, v, b, p);
    }
  }

  /** A write, alone or as a transaction, raises the version by one; the new version reads the written data
      at exactly the blocks the write meets, and elsewhere what was there; all versions before read what
      they read; and the lock is free again. */
  lemma WriteReads(s: State, base: nat, f: File, pos: nat, count: nat, data: seq<int>, v: nat, b: nat)
    requires Inv(s, base) && MayWrite(s, pos, count, data) && v <= s.version + 1
    ensures Run(s, Normally(f, pos, count, data)) == Run(s, InTransaction(f, pos, count, data))
    ensures var t := Run(s, Normally(f, pos, count, data));
            && Inv(t, base) && t.version == s.version + 1 && t.lock.Free? && t.writer.Idle?
            && (Meets(pos, count, b) ==> 0 <= b - pos / PAGE < |data|)
            && Read(t, base, v, b) ==
               if v > s.version && Meets(pos, count, b) then Some(data[b - pos / PAGE]) else Read(s, base, v, b)
  {
    NormalEnds(s, f, pos, count, data);
    TransactionEnds(s, f, pos, count, data);
    AfterVersions(s, pos, count, data);
    AfterRanges(s, base, pos, count, data);
    AfterReads(s, base, pos, count, data, v, b);
  }

  lemma CopyStep(s: State, w: Write, k: nat, block: int)
    requires s.writer == Placed(w) && k < w.len
    ensures Step(s, Copy(k, block)) ==
            s.(disk := s.disk[w.physical + k := block], size := Max(s.size, (w.physical + k + 1) * PAGE))
  {
  }

  lemma CopyEnds(s: State, f: File, pos: nat, count: nat, k: nat, block: int)
    requires s.writer.Idle? && s.lock.Free? && s.version < MAX_VERSIONS && count > 0 && k < Touched(pos % PAGE, count)
    ensures var t := Step(Run(s, [Start(f, pos, count), Copy(k, block), Bump, Log, Unlock]), Data([], 0));
            && t.log == s.log + [Record(s.version + 1, pos / PAGE, AppendBlock(s.size), Touched(pos % PAGE, count))]
            && t.disk == s.disk[AppendBlock(s.size) + k := block]
            && t.size == Max(s.size, (AppendBlock(s.size) + k + 1) * PAGE)
  {
    var w := Place(s, f, false, pos, count);
    Run5(s, Start(f, pos, count), Copy(k, block), Bump, Log, Unlock);
    var s1 := Step(s, Start(f, pos, count));
    assert s1 == s.(lock := Normal(f), writer := Placed(w));
    CopyStep(s1, w, k, block);
    var s2 := Step(s1, Copy(k, block));
    LogsNormally(s2, w);
    KilledWrite(Step(Step(Step(s2, Bump), Log), Unlock));
  }

  lemma KilledWrite(s: State)
    requires s.writer.Writing?
    ensures Step(s, Data([], 0)) == s.(writer := Idle)
  {
  }

  /** What was copied before a write stays readable where the write brings no data, and later writes go behind
      it: here the write is killed before its first byte. */
  lemma CopyReads(s: State, base: nat, f: File, pos: nat, count: nat, k: nat, block: int)
    requires s.writer.Idle? && s.lock.Free? && s.version < MAX_VERSIONS && count > 0 && k < Touched(pos % PAGE, count)
    ensures var t := Step(Run(s, [Start(f, pos, count), Copy(k, block), Bump, Log, Unlock]), Data([], 0));
            && Read(t, base, s.version + 1, pos / PAGE + k) == Some(block)
            && AppendBlock(t.size) == AppendBlock(s.size) + k + 1
  {
    CopyEnds(s, f, pos, count, k, block);
    var p, len := AppendBlock(s.size), Touched(pos % PAGE, count);
    LastAppend(s.log, Record(s.version + 1, pos / PAGE, p, len), s.version + 1, pos / PAGE + k);
  }

  /** An aborted transaction leaves version and lock as they were before it. */
  lemma AbortKeeps(s: State, base: nat, f: File, pos: nat, count: nat, data: seq<int>, v: nat, b: nat)
    requires Inv(s, base) && MayWrite(s, pos, count, data) && v <= s.version
    ensures var t := Step(Run(s, [Begin(f), Start(f, pos, count), Log, Unlock, Data(data, count)]), Abort(f));
            t.version == s.version && t.lock.Free? && t.writer.Idle? && Read(t, base, v, b) == Read(s, base, v, b)
  {
    InsideEnds(s, f, pos, count, data);
    AfterReads(s, base, pos, count, data, v, b);
  }

  /** After a failed copy the data goes to the original position, nothing is logged, and the lock of the write
      is never given back by it: all other files wait until this one ends or aborts. */
  lemma FailedCopyKeepsLock(s: State, f: File, pos: nat, count: nat, data: seq<int>)
    requires s.writer.Idle? && s.lock.Free? && count > 0 && |data| == Touched(pos % PAGE, count)
    ensures Run(s, [Start(f, pos, count), CopyFails, Data(data, count)]) ==
            s.(lock := Normal(f), disk := WriteBlocks(s.disk, pos / PAGE, data), size := Max(s.size, pos + count))
  {
    Run3(s, Start(f, pos, count), CopyFails, Data(data, count));
  }
}
