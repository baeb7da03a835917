/** What happens to a parent when it is opened after a crash (scorw_truncate_log_to_version,
    scorw_do_recovery and the call sequence of scorw_prepare_par_inode in corw_sparse.c). */
module Recovery {
  import opened Common
  import opened GarbageCollection
  import opened VersionLog

  /** The log file: whole records, and the bytes of a record cut short by the crash. */
  datatype LogFile = LogFile(records: seq<Record>, tail: nat)

  /** scorw_truncate_log_to_version: records beyond the committed version go, and so does a partial one. */
  method TruncateLog(file: LogFile, version: nat) returns (kept: LogFile)
    requires LogOk(file.records)
    ensures kept.tail == 0 && kept.records <= file.records && LogOk(kept.records)
    ensures forall i :: 0 <= i < |file.records| ==> (i < |kept.records| <==> file.records[i].version <= version)
  {
    var valid := 0;
    while valid < |file.records| && file.records[valid].version <= version
      invariant 0 <= valid <= |file.records|
      invariant forall i :: 0 <= i < valid ==> file.records[i].version <= version
    {
      valid := valid + 1;
    }
    kept := LogFile(file.records[..valid], 0);
  }

  /** The last record of its version. */
  ghost predicate EndsVersion(log: seq<Record>, i: nat)
    requires i < |log|
  {
    i + 1 == |log| || log[i].version < log[i + 1].version
  }

  /** The first `end` records are what a rollback keeps: the removed ones are exactly those from the
      rollback version on, each removed version ended in a record without data, and the last kept
      record has data. */
  ghost predicate RolledBack(log: seq<Record>, onDisk: set<nat>, end: nat, rollback: nat) {
    && end <= |log|
    && (forall i :: 0 <= i < |log| ==> (i >= end <==> rollback > 0 && log[i].version >= rollback))
    && (forall i :: end <= i < |log| && EndsVersion(log, i) ==> log[i].physical !in onDisk)
    && (end > 0 ==> log[end - 1].physical in onDisk)
    && (rollback > 0 ==> end < |log| && log[end].version == rollback)
  }

  /** So far the scan has come down to record end. */
  ghost predicate ScannedTo(log: seq<Record>, onDisk: set<nat>, end: nat, rollback: nat) {
    && end <= |log| && (rollback == 0 ==> end == |log|)
    && (rollback > 0 ==> end < |log| && log[end].version == rollback)
    && (forall k :: end <= k < |log| ==> log[k].version >= rollback)
    && (forall k :: end <= k < |log| && EndsVersion(log, k) ==> log[k].physical !in onDisk)
  }

  /** A record goes with its version. */
  lemma ScanSame(log: seq<Record>, onDisk: set<nat>, end: nat, rollback: nat)
    requires LogOk(log) && ScannedTo(log, onDisk, end, rollback) && end > 0
    requires rollback > 0 && log[end - 1].version >= rollback
    ensures ScannedTo(log, onDisk, end - 1, rollback)
  {
    assert log[end - 1].version <= log[end].version;
    assert !EndsVersion(log, end - 1);
  }

  /** Or it goes because its own data is missing. */
  lemma ScanMissing(log: seq<Record>, onDisk: set<nat>, end: nat, rollback: nat)
    requires LogOk(log) && ScannedTo(log, onDisk, end, rollback) && end > 0 && log[end - 1].physical !in onDisk
    ensures ScannedTo(log, onDisk, end - 1, log[end - 1].version)
  {
    forall k | end - 1 <= k < |log| ensures log[k].version >= log[end - 1].version {
    }
  }

  /** The backward scan for records whose data never reached the disk. */
  method FindRollback(log: seq<Record>, onDisk: set<nat>) returns (end: nat, rollback: nat)
    requires LogOk(log)
    ensures RolledBack(log, onDisk, end, rollback)
  {
    end, rollback := |log|, 0;
    while end > 0
      invariant ScannedTo(log, onDisk, end, rollback)
    {
      var r := log[end - 1];
      if rollback > 0 && r.version >= rollback {
        ScanSame(log, onDisk, end, rollback);
        end := end - 1;
        continue;
      }
      if r.physical in onDisk {
        break;
      }
      ScanMissing(log, onDisk, end, rollback);
      end, rollback := end - 1, r.version;
    }
  }

  function AtLeastOne(v: int): nat {
    if v < 1 then 1 else v
  }

  /** Only the last kept record is looked at: a kept version can still lack data of an earlier write. */
  lemma KeptVersionMayLackData()
    ensures var log := [Record(2, 0, 10, 1), Record(2, 1, 11, 1)];
            LogOk(log) && RolledBack(log, {11}, 2, 0) && log[0].physical !in {11}
  {
  }

  /** Every kept record has its data exactly if no version whose last record has data, nor any before
      it, lacks some; for one, if data reaches the disk in the order it was logged. */
  lemma KeptHaveData(log: seq<Record>, onDisk: set<nat>, end: nat, rollback: nat)
    requires RolledBack(log, onDisk, end, rollback)
    ensures (forall i :: 0 <= i < end ==> log[i].physical in onDisk) <==>
            (forall i, j :: 0 <= i <= j < |log| && EndsVersion(log, j) && log[j].physical in onDisk ==>
               log[i].physical in onDisk)
  {
    if end > 0 {
      assert end < |log| ==> log[end - 1].version < log[end].version;
      assert EndsVersion(log, end - 1);
    }
  }

  /** The end of the parent that the original file and the records account for. */
  function Expected(log: seq<Record>, origSize: nat): nat {
    if log == [] then origSize
    else
      var r := log[|log| - 1];
      Max(Expected(log[..|log| - 1], origSize), (r.physical + r.len) * PAGE)
  }

  lemma {:induction false} ExpectedBounds(log: seq<Record>, origSize: nat)
    ensures Expected(log, origSize) >= origSize
    ensures forall i :: 0 <= i < |log| ==> (log[i].physical + log[i].len) * PAGE <= Expected(log, origSize)
    ensures || Expected(log, origSize) == origSize
            || exists i :: 0 <= i < |log| && Expected(log, origSize) == (log[i].physical + log[i].len) * PAGE
  {
    if log != [] {
      var n := |log| - 1;
      ExpectedBounds(log[..n], origSize);
      if Expected(log, origSize) == Expected(log[..n], origSize) != origSize {
        var i :| 0 <= i < n && Expected(log, origSize) == (log[..n][i].physical + log[..n][i].len) * PAGE;
        assert log[i] == log[..n][i];
      }
    }
  }

  method ExpectedEnd(log: seq<Record>, origSize: nat) returns (e: nat)
    ensures e == Expected(log, origSize)
  {
    e := origSize;
    assert log[..0] == [];
    for i := 0 to |log|
      invariant e == Expected(log[..i], origSize)
    {
      assert log[..i + 1][..i] == log[..i];
      var recEnd := (log[i].physical + log[i].len) * PAGE;
      if recEnd > e {
        e := recEnd;
      }
    }
    assert log[..|log|] == log;
  }

  /** The second pass over the log: up to the last record that ends within the expected size, and its version. */
  method TrimmedEnd(log: seq<Record>, e: nat) returns (n: nat, version: nat)
    ensures n <= |log| && (n == 0 ==> version == 0)
    ensures n > 0 ==> (log[n - 1].physical + log[n - 1].len) * PAGE <= e && version == log[n - 1].version
    ensures forall i :: n <= i < |log| ==> (log[i].physical + log[i].len) * PAGE > e
  {
    n, version := 0, 0;
    for i := 0 to |log|
      invariant n <= i && (n == 0 ==> version == 0)
      invariant n > 0 ==> (log[n - 1].physical + log[n - 1].len) * PAGE <= e && version == log[n - 1].version
      invariant forall k :: n <= k < i ==> (log[k].physical + log[k].len) * PAGE > e
    {
      if (log[i].physical + log[i].len) * PAGE <= e {
        n, version := i + 1, log[i].version;
      }
    }
  }

  /** A parent with its log on disk: version, log, i_size. */
  datatype Image = Image(version: nat, log: seq<Record>, size: nat)

  lemma KeptLog(log: seq<Record>, onDisk: set<nat>, end: nat, rollback: nat)
    requires LogOk(log) && RolledBack(log, onDisk, end, rollback)
    ensures LogOk(log[..end]) && (rollback > 0 ==> rollback >= 2)
  {
  }

  /** Rolling back leaves what the versions below it see. */
  lemma KeptView(log: seq<Record>, onDisk: set<nat>, end: nat, rollback: nat, v: int, b: nat)
    requires RolledBack(log, onDisk, end, rollback) && (rollback > 0 ==> v < rollback)
    ensures LastUpTo(log[..end], v, b) == LastUpTo(log, v, b)
  {
    var kept, gone := log[..end], log[end..];
    assert log == kept + gone;
    forall i | 0 <= i < |gone| ensures gone[i].version > v {
      var k := end + i;
      assert gone[i] == log[k];
    }
    LaterRecordsUnseen(kept, gone, v, b);
  }

  /** scorw_do_recovery on a log of whole records.  Whole versions are rolled back, what every
      version up to the recovered one sees is unchanged, the second trim of the log removes
      nothing, and truncating the parent cuts no block of a kept record or of the original file. */
  method Recover(im: Image, onDisk: set<nat>, origSize: nat) returns (out: Image, ghost rollback: nat)
    requires LogOk(im.log) && forall i :: 0 <= i < |im.log| ==> im.log[i].version <= im.version
    ensures RolledBack(im.log, onDisk, |out.log|, rollback) && out.log == im.log[..|out.log|] && LogOk(out.log)
    ensures out.version == if rollback > 0 then rollback - 1 else im.version
    ensures forall i :: 0 <= i < |out.log| ==> out.log[i].version <= out.version
    ensures forall v, b :: v <= out.version ==> LastUpTo(out.log, v, b) == LastUpTo(im.log, v, b)
    ensures out.size == if im.log == [] then im.size else Min(im.size, Expected(out.log, origSize))
    ensures out.size < im.size ==>
              origSize <= out.size && forall i :: 0 <= i < |out.log| ==>
                (out.log[i].physical + out.log[i].len) * PAGE <= out.size
  {
    if |im.log| == 0 {
      return im, 0;
    }
    var end, rb := FindRollback(im.log, onDisk);
    rollback := rb;
    KeptLog(im.log, onDisk, end, rb);
    forall v: int, b | rb > 0 ==> v < rb ensures LastUpTo(im.log[..end], v, b) == LastUpTo(im.log, v, b) {
      KeptView(im.log, onDisk, end, rb, v, b);
    }
    out := im.(log := im.log[..end]);
    if rb > 0 {
      out := out.(version := AtLeastOne(rb - 1));
    }
    out := TruncateParent(out, origSize);
    ExpectedBounds(out.log, origSize);
  }

  function Truncated(log: seq<Record>, n: nat): seq<Record> {
    if n < |log| then log[..n] else log
  }

  /** Steps 3 and 4 of scorw_do_recovery. */
  method TruncateParent(im: Image, origSize: nat) returns (out: Image)
    ensures out == im.(size := Min(im.size, Expected(im.log, origSize)))
  {
    out := im;
    var e := ExpectedEnd(im.log, origSize);
    if im.size > e {
      ExpectedBounds(im.log, origSize);
      var n, trimmed := TrimmedEnd(im.log, e);
      out := Image(if n < |im.log| && trimmed > 0 then trimmed else im.version, Truncated(im.log, n), e);
    }
  }

  /** The versions of the log are up to the image's, and its last record has its data, also after
      the collection. */
  ghost predicate Collected(im: Image, onDisk: set<nat>, punched: set<nat>) {
    && LogOk(im.log) && (forall i :: 0 <= i < |im.log| ==> im.log[i].version <= im.version)
    && (im.log != [] ==>
          var r := im.log[|im.log| - 1];
          r.physical in onDisk && (r.len > 0 ==> r.physical !in punched))
  }

  /** The last record is seen at its version and later. */
  lemma LastNeeded(log: seq<Record>, base: nat, active: seq<nat>, v: nat)
    requires v in active && forall i :: 0 <= i < |log| ==> log[i].version <= v
    ensures log != [] && log[|log| - 1].len > 0 ==> Needed(log, base, active, log[|log| - 1].physical)
  {
    if log != [] && log[|log| - 1].len > 0 {
      var r := log[|log| - 1];
      assert View(log, base, v, r.logical) == Some(r.physical);
    }
  }

  /** r is the log up to the committed version, and the image is r rolled back. */
  ghost predicate Reloaded(log: seq<Record>, version: nat, onDisk: set<nat>, r: seq<Record>, rollback: nat, out: Image) {
    && r <= log && (forall i :: 0 <= i < |log| ==> (i < |r| <==> log[i].version <= version))
    && RolledBack(r, onDisk, |out.log|, rollback) && out.log <= r && LogOk(out.log)
    && out.version == (if rollback > 0 then rollback - 1 else version)
    && (forall i :: 0 <= i < |out.log| ==> out.log[i].version <= out.version)
  }

  lemma ReloadedView(log: seq<Record>, version: nat, onDisk: set<nat>, r: seq<Record>, rollback: nat, out: Image,
                     v: int, b: nat)
    requires Reloaded(log, version, onDisk, r, rollback, out) && v <= out.version <= version
    ensures LastUpTo(out.log, v, b) == LastUpTo(log, v, b)
  {
    assert out.log == r[..|out.log|];
    KeptView(r, onDisk, |out.log|, rollback, v, b);
    var gone := log[|r|..];
    assert log == r + gone;
    LaterRecordsUnseen(r, gone, v, b);
  }

  /** Truncation and recovery. */
  method Reload(file: LogFile, version: nat, size: nat, onDisk: set<nat>, origSize: nat)
      returns (out: Image, ghost r: seq<Record>, ghost rollback: nat)
    requires LogOk(file.records)
    ensures Reloaded(file.records, version, onDisk, r, rollback, out) && out.version <= version
    ensures out.size == if r == [] then size else Min(size, Expected(out.log, origSize))
  {
    var kept := TruncateLog(file, version);
    r := kept.records;
    out, rollback := Recover(Image(version, kept.records, size), onDisk, origSize);
    if rollback > 0 {
      assert r[|out.log|].version == rollback;
    }
  }

  /** scorw_prepare_par_inode after a crash: truncate, recover, collect.  Every version up to the
      one that comes out sees exactly the blocks it saw before, and none of the blocks a reader at
      version 0, at a child's version or at the parent's version gets to is punched. */
  method Reopen(file: LogFile, version: nat, size: nat, onDisk: set<nat>, origSize: nat, children: seq<nat>)
      returns (out: Image, punched: set<nat>, ghost r: seq<Record>, ghost rollback: nat)
    requires LogOk(file.records) && RangesApart(file.records, origSize / PAGE)
    ensures Reloaded(file.records, version, onDisk, r, rollback, out)
    ensures out.log <= file.records && out.version <= version
    ensures out.size == if r == [] then size else Min(size, Expected(out.log, origSize))
    ensures forall v, b :: v <= out.version ==> LastUpTo(out.log, v, b) == LastUpTo(file.records, v, b)
    ensures Collected(out, onDisk, punched)
    ensures forall p :: p in punched <==>
              Logged(out.log, p) && !Needed(out.log, origSize / PAGE, [0] + children + [out.version], p)
  {
    out, r, rollback := Reload(file, version, size, onDisk, origSize);
    forall v: int, b | v <= out.version ensures LastUpTo(out.log, v, b) == LastUpTo(file.records, v, b) {
      ReloadedView(file.records, version, onDisk, r, rollback, out, v, b);
    }
    assert RangesApart(out.log, origSize / PAGE);
    WithinReach(out.log, [0] + children + [out.version], out.version);
    punched := Collect(out.log, origSize / PAGE, children, out.version);
    LastNeeded(out.log, origSize / PAGE, [0] + children + [out.version], out.version);
  }

  // ----- and after the next crash

  /** What lies in a log beyond an image of it is of later versions. */
  ghost predicate Continues(im: Image, log: seq<Record>) {
    im.log <= log && forall i :: |im.log| <= i < |log| ==> log[i].version > im.version
  }

  /** The next reopening rolls back nothing that the last one kept. */
  lemma NotBeyond(im: Image, onDisk: set<nat>, punched: set<nat>, log: seq<Record>, onDisk': set<nat>, end: nat,
                  rollback: nat)
    requires Collected(im, onDisk, punched) && Continues(im, log) && onDisk - punched <= onDisk'
    requires (im.log != [] ==> im.log[|im.log| - 1].len > 0) && RolledBack(log, onDisk', end, rollback)
    ensures end >= |im.log| && (rollback > 0 ==> rollback > im.version)
  {
    var n := |im.log|;
    if n > 0 {
      assert log[n - 1] == im.log[n - 1];
      assert EndsVersion(log, n - 1);
    }
  }

  lemma ContinuesPart(im: Image, log: seq<Record>, part: seq<Record>)
    requires Continues(im, log) && part <= log && |part| >= |im.log|
    ensures Continues(im, part)
  {
  }

  lemma ContinuesView(im: Image, log: seq<Record>, v: int, b: nat)
    requires Continues(im, log) && v <= im.version
    ensures LastUpTo(log, v, b) == LastUpTo(im.log, v, b)
  {
    var more := log[|im.log|..];
    assert log == im.log + more;
    LaterRecordsUnseen(im.log, more, v, b);
  }

  /** The records of an image are not beyond a later version. */
  lemma AtLeastIn(im: Image, log: seq<Record>, version: nat, onDisk: set<nat>, r: seq<Record>, rollback: nat, out: Image)
    requires Continues(im, log) && im.version <= version && Reloaded(log, version, onDisk, r, rollback, out)
    requires forall i :: 0 <= i < |im.log| ==> im.log[i].version <= im.version
    ensures |r| >= |im.log|
  {
    if im.log != [] {
      var i := |im.log| - 1;
      assert log[i] == im.log[i];
    }
  }

  /** Opening the parent again after the next crash: whatever the collection in between punched, and
      whatever of the later writes survived, the records and the version of the last opening come out
      again, and each of its versions sees the same blocks. */
  method ReopenAgain(ghost im: Image, ghost onDisk: set<nat>, ghost punched: set<nat>,
                     file: LogFile, version: nat, size: nat, onDisk': set<nat>, origSize: nat, children: seq<nat>)
      returns (out: Image, punched': set<nat>)
    requires Collected(im, onDisk, punched) && (im.log != [] ==> im.log[|im.log| - 1].len > 0)
    requires LogOk(file.records) && RangesApart(file.records, origSize / PAGE)
    requires Continues(im, file.records) && im.version <= version && onDisk - punched <= onDisk'
    ensures Collected(out, onDisk', punched') && Continues(im, out.log) && im.version <= out.version
    ensures forall v, b :: v <= im.version ==> LastUpTo(out.log, v, b) == LastUpTo(im.log, v, b)
  {
    ghost var r, rollback;
    out, punched', r, rollback := Reopen(file, version, size, onDisk', origSize, children);
    AtLeastIn(im, file.records, version, onDisk', r, rollback, out);
    ContinuesPart(im, file.records, r);
    NotBeyond(im, onDisk, punched, r, onDisk', |out.log|, rollback);
    ContinuesPart(im, file.records, out.log);
    forall v: int, b | v <= im.version ensures LastUpTo(out.log, v, b) == LastUpTo(im.log, v, b) {
      ContinuesView(im, out.log, v, b);
    }
  }
}
