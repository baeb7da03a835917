/** Which steps keep the invariants of Snapshots: those about versions all of them, those about ranges
    exactly the ones that do not end a logged write short. */
module SnapshotSteps {
  import opened Common
  import opened GarbageCollection
  import opened Placement
  import opened Snapshots
  import opened VersionLog

  // ----- versions

  lemma LogAtVersions(s: State, w: Write, v: nat)
    requires s.version >= 1 && LogOk(s.log) && VersionsUpTo(s.log, v) && 2 <= v <= s.version + 1
    ensures VersionInv(LogAt(s, w, v))
  {
  }

  lemma LogVersions(s: State)
    requires VersionInv(s)
    ensures VersionInv(Step(s, Log))
  {
    if s.writer.Bumped? {
      LogAtVersions(s, s.writer.w, s.version);
    } else if s.writer.Placed? && s.writer.w.txn {
      LogAtVersions(s, s.writer.w, s.version + 1);
    }
  }

  /** What every other step does to versions: the log stays, the version does not fall, and a writer is
      bumped only as the version is raised. */
  predicate Ages(s: State, t: State) {
    && t.log == s.log && t.version >= s.version
    && (|| t.writer == s.writer || t.writer.Idle? || t.writer.Placed? || t.writer.InPlace?
        || (t.writer.Bumped? && t.version > s.version)
        || (t.writer.Writing? && s.writer == Logged(t.writer.w, t.writer.at)))
  }

  lemma OtherAges(s: State, e: Event)
    requires !e.Log?
    ensures Ages(s, Step(s, e))
  {
  }

  lemma AgesKeeps(s: State, t: State)
    requires VersionInv(s) && Ages(s, t)
    ensures VersionInv(t)
  {
  }

  /** Log versions never decrease and start at 2, whatever happens. */
  lemma VersionStep(s: State, e: Event)
    requires VersionInv(s)
    ensures VersionInv(Step(s, e))
  {
    if e.Log? {
      LogVersions(s);
    } else {
      OtherAges(s, e);
      AgesKeeps(s, Step(s, e));
    }
  }

  lemma {:induction false} VersionRun(s: State, es: seq<Event>)
    requires VersionInv(s)
    ensures VersionInv(Run(s, es))
  {
    if es != [] {
      VersionRun(s, es[..|es| - 1]);
      VersionStep(Run(s, es[..|es| - 1]), es[|es| - 1]);
    }
  }

  // ----- ranges

  lemma PlaceOk(s: State, base: nat, f: File, txn: bool, pos: nat, count: nat)
    requires base <= AppendBlock(s.size) && count > 0
    ensures WriteOk(s.size, base, Place(s, f, txn, pos, count))
  {
  }

  lemma CopyOk(size: nat, base: nat, w: Write, k: nat)
    requires WriteOk(size, base, w) && k < w.len
    ensures WriteOk(Max(size, (w.physical + k + 1) * PAGE), base, w)
  {
    var p := w.physical + k;
    assert AppendBlock((p + 1) * PAGE) == p + 1;
  }

  /** A record behind all others keeps the ranges apart. */
  lemma RecordApart(log: seq<Record>, base: nat, r: Record)
    requires RangesApart(log, base) && Below(log, r.physical) && base <= r.physical
    ensures RangesApart(log + [r], base)
  {
  }

  lemma LogAtRanges(s: State, base: nat, w: Write, v: nat)
    requires RangesApart(s.log, base) && base <= AppendBlock(s.size)
    requires WriteOk(s.size, base, w) && Below(s.log, w.physical)
    ensures RangeInv(LogAt(s, w, v), base)
  {
    if v <= MAX_VERSIONS {
      var r := Record(v, w.logical, w.physical, w.len);
      RecordApart(s.log, base, r);
      assert Before(s.log + [r], v) == s.log;
    }
  }

  lemma AppendMono(a: nat, b: nat)
    requires a <= b
    ensures AppendBlock(a) <= AppendBlock(b)
  {
  }

  /** Where the file ends after n bytes of a write: behind its blocks, or the write was short. */
  lemma EndOf(s: State, base: nat, w: Write, n: nat)
    requires WriteOk(s.size, base, w) && n <= w.count
    ensures var q := AppendBlock(Grown(s.size, w.physical, w.off, n));
            w.physical <= q <= w.physical + w.len && (q < w.physical + w.len <==> Short(s, w, n))
  {
    if n > 0 {
      var e := w.physical * PAGE + w.off + n;
      AppendMono(s.size, Grown(s.size, w.physical, w.off, n));
      LastBlock(w.physical, w.len, w.off + n);
    }
  }

  lemma LastBlock(p: nat, len: nat, m: nat)
    requires len >= 1 && m <= len * PAGE
    ensures p <= AppendBlock(p * PAGE + m) <= p + len
    ensures AppendBlock(p * PAGE + m) == p + len <==> m > (len - 1) * PAGE
  {
  }

  /** A logged write that is over keeps the ranges below the next append exactly if it is not short. */
  lemma OverIff(log: seq<Record>, w: Write, at: nat, q: nat)
    requires InLog(log, w, at) && Below(Before(log, at), w.physical) && w.physical <= q <= w.physical + w.len
    ensures Below(log, q) <==> !(at <= MAX_VERSIONS && q < w.physical + w.len)
  {
    if at <= MAX_VERSIONS {
      var n := |log| - 1;
      forall i | 0 <= i < n ensures log[i].physical + log[i].len <= q {
        assert Before(log, at)[i] == log[i];
      }
    }
  }

  lemma UnlockRanges(s: State, base: nat)
    requires Inv(s, base) && s.writer.Logged?
    ensures RangeInv(Step(s, Unlock), base) <==> !EndsShort(s, Unlock)
  {
    var w, at := s.writer.w, s.writer.at;
    EndOf(s, base, w, 0);
    OverIff(s.log, w, at, AppendBlock(s.size));
  }

  lemma DataRanges(s: State, base: nat, data: seq<int>, n: nat)
    requires Inv(s, base) && s.writer.Writing? && Reaches(s.writer.w, data, n)
    ensures RangeInv(Step(s, Data(data, n)), base) <==> !EndsShort(s, Data(data, n))
  {
    var w, at := s.writer.w, s.writer.at;
    EndOf(s, base, w, n);
    AppendMono(s.size, Grown(s.size, w.physical, w.off, n));
    OverIff(s.log, w, at, AppendBlock(Grown(s.size, w.physical, w.off, n)));
  }

  lemma InPlaceRanges(s: State, base: nat, data: seq<int>, n: nat)
    requires RangeInv(s, base) && s.writer.InPlace? && Reaches(s.writer.w, data, n)
    ensures RangeInv(Step(s, Data(data, n)), base)
  {
    AppendMono(s.size, Grown(s.size, s.writer.w.logical, s.writer.w.off, n));
  }

  lemma CopyRanges(s: State, base: nat, k: nat, block: int)
    requires RangeInv(s, base)
    ensures RangeInv(Step(s, Copy(k, block)), base)
  {
    if s.writer.Placed? && k < s.writer.w.len {
      CopyOk(s.size, base, s.writer.w, k);
      AppendMono(s.size, Step(s, Copy(k, block)).size);
    }
  }

  lemma StartRanges(s: State, base: nat, f: File, pos: nat, count: nat)
    requires RangeInv(s, base)
    ensures RangeInv(Step(s, Start(f, pos, count)), base)
  {
    if s.writer.Idle? && count > 0 {
      PlaceOk(s, base, f, true, pos, count);
      PlaceOk(s, base, f, false, pos, count);
    }
  }

  lemma LogRanges(s: State, base: nat)
    requires RangeInv(s, base)
    ensures RangeInv(Step(s, Log), base)
  {
    if s.writer.Bumped? {
      LogAtRanges(s, base, s.writer.w, s.version);
    } else if s.writer.Placed? && s.writer.w.txn {
      LogAtRanges(s, base, s.writer.w, s.version + 1);
    }
  }

  lemma RangeStep(s: State, base: nat, e: Event)
    requires Inv(s, base)
    ensures RangeInv(Step(s, e), base) <==> !EndsShort(s, e)
  {
    match e
    case Start(f, pos, count) => StartRanges(s, base, f, pos, count);
    case Copy(k, block) => CopyRanges(s, base, k, block);
    case Log => LogRanges(s, base);
    case Unlock =>
      if s.writer.Logged? {
        UnlockRanges(s, base);
      }
    case Data(data, n) =>
      if s.writer.Writing? && Reaches(s.writer.w, data, n) {
        DataRanges(s, base, data, n);
      } else if s.writer.InPlace? && Reaches(s.writer.w, data, n) {
        InPlaceRanges(s, base, data, n);
      }
    case _ =>
  }

  /** A step keeps the invariant exactly if it does not end a logged write short. */
  lemma StepInv(s: State, base: nat, e: Event)
    requires Inv(s, base)
    ensures Inv(Step(s, e), base) <==> !EndsShort(s, e)
  {
    VersionStep(s, e);
    RangeStep(s, base, e);
  }

  // ----- runs

  function Init(version: nat, size: nat, disk: map<nat, int>): State {
    State(version, [], size, Free, Idle, disk)
  }

  /** No step of the run ends a logged write short. */
  ghost predicate NoneShort(s: State, es: seq<Event>) {
    es == [] || (NoneShort(s, es[..|es| - 1]) && !EndsShort(Run(s, es[..|es| - 1]), es[|es| - 1]))
  }

  lemma {:induction false} RunInv(s: State, base: nat, es: seq<Event>)
    requires Inv(s, base) && NoneShort(s, es)
    ensures Inv(Run(s, es), base)
  {
    if es != [] {
      RunInv(s, base, es[..|es| - 1]);
      StepInv(Run(s, es[..|es| - 1]), base, es[|es| - 1]);
    }
  }

  /** From a freshly opened parent on, in every run: log versions are at least 2 and never decrease; and
      if no logged write ended short, all logged ranges are apart from each other, from the original file
      and from where the next append goes. */
  lemma EveryRun(version: nat, base: nat, size: nat, disk: map<nat, int>, es: seq<Event>)
    requires version >= 1 && base <= AppendBlock(size)
    ensures var s := Run(Init(version, size, disk), es);
            && (forall i :: 0 <= i < |s.log| ==> 2 <= s.log[i].version <= s.version + 1)
            && (forall i, j :: 0 <= i < j < |s.log| ==> s.log[i].version <= s.log[j].version)
            && (NoneShort(Init(version, size, disk), es) ==>
                  RangesApart(s.log, base) && (s.writer.Idle? ==> Below(s.log, AppendBlock(s.size))))
  {
    var s := Init(version, size, disk);
    VersionRun(s, es);
    if NoneShort(s, es) {
      RunInv(s, base, es);
    }
  }
}
