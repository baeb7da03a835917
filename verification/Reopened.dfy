/** A parent that was opened after a crash as the start of further runs (scorw_do_recovery and
    scorw_write_see_thru_ro of corw_sparse.c). */
module Reopened {
  import opened Common
  import opened GarbageCollection
  import opened IsolationLimits
  import opened Placement
  import opened Recovery
  import opened Snapshots
  import opened VersionLog

  /** Nobody holds the lock and nobody writes. */
  function StateOf(im: Image, disk: map<nat, int>): State {
    State(im.version, im.log, im.size, Free, Idle, disk)
  }

  lemma EndsWithin(log: seq<Record>, origSize: nat, size: nat)
    ensures Below(log, AppendBlock(Min(size, Expected(log, origSize)))) <==> Below(log, AppendBlock(size))
    ensures origSize / PAGE <= AppendBlock(Min(size, Expected(log, origSize))) <==> origSize / PAGE <= AppendBlock(size)
  {
    ExpectedBounds(log, origSize);
    if Expected(log, origSize) < size {
      forall i | 0 <= i < |log| ensures log[i].physical + log[i].len <= AppendBlock(Expected(log, origSize)) {
      }
    }
  }

  /** The invariant behind isolation holds after opening exactly if the parent that the crash left reaches
      the last block of every kept record and of the original file: recovery looks at the first block of a
      record only, and never makes the parent longer. */
  method ReopenInv(file: LogFile, version: nat, size: nat, onDisk: set<nat>, origSize: nat, children: seq<nat>,
                   ghost disk: map<nat, int>)
      returns (out: Image, punched: set<nat>)
    requires LogOk(file.records) && RangesApart(file.records, origSize / PAGE) && version >= 1
    ensures Inv(StateOf(out, disk), origSize / PAGE) <==>
            origSize / PAGE <= AppendBlock(size) && Below(out.log, AppendBlock(size))
  {
    ghost var r, rollback;
    out, punched, r, rollback := Reopen(file, version, size, onDisk, origSize, children);
    EndsWithin(out.log, origSize, size);
    assert RangesApart(out.log, origSize / PAGE);
    assert rollback > 0 ==> r[|out.log|] == file.records[|out.log|];
  }

  /** A record of two blocks of which only the first reached the parent is kept, and the next write is given
      the place of the second. */
  method KeptRecordOverhangs() returns (out: Image)
    ensures out.log == [Record(2, 0, 1, 2)] && !Inv(StateOf(out, map[]), 1)
    ensures !RangesApart(Logs(StateOf(out, map[]), 1).log, 1)
  {
    var log := [Record(2, 0, 1, 2)];
    ghost var rollback;
    out, rollback := Recover(Image(2, log, 2 * PAGE), {1}, PAGE);
    assert EndsVersion(log, 0);
    assert log[..1] == log && Expected(log, PAGE) == 3 * PAGE by {
      assert log[..0] == [];
    }
    OverhangOverlaps(StateOf(out, map[]), 1, 1);
  }
}
