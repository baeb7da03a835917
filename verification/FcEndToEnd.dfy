/** The whole of a fast commit: from the tracked range of an inode, over the log on disk, to what
    recovery makes of the inode (ext4_fc_commit to ext4_fc_replay in fast_commit.c). */
module FcEndToEnd {
  import opened Common
  import opened LittleEndian
  import opened FcFormat
  import opened FcScan
  import opened FcTiling
  import opened FcWriter
  import opened FcRanges
  import opened FcRangeReplay
  import opened FcRoundTrip

  predicate IsRange(t: Tlv) {
    (t.tag == ADD_RANGE && |t.val| == 16) || (t.tag == DEL_RANGE && |t.val| == 12)
  }

  /** The ranges that the tags hold for an inode. */
  function RangesOf(ts: seq<Tlv>, ino: U32): seq<Range> {
    if ts == [] then []
    else
      var n := |ts| - 1;
      var front := RangesOf(ts[..n], ino);
      if IsRange(ts[n]) && Decode(ts[n]).0 == ino then front + [Decode(ts[n]).1] else front
  }

  lemma {:induction false} RangesConcat(a: seq<Tlv>, b: seq<Tlv>, ino: U32)
    ensures RangesOf(a + b, ino) == RangesOf(a, ino) + RangesOf(b, ino)
  {
    if b == [] {
      assert a + b == a;
    } else {
      var n := |b| - 1;
      assert (a + b)[..|a + b| - 1] == a + b[..n];
      RangesConcat(a, b[..n], ino);
    }
  }

  /** Padding holds none. */
  lemma {:induction false} RangesPayload(ts: seq<Tlv>, ino: U32)
    ensures RangesOf(Payload(ts), ino) == RangesOf(ts, ino)
  {
    if ts != [] {
      var n := |ts| - 1;
      RangesPayload(ts[..n], ino);
      if ts[n].tag != PAD {
        var p := Payload(ts[..n]);
        assert (p + [ts[n]])[..|p|] == p;
      }
    }
  }

  /** An inode's records as tags. */
  function Tags(ino: U32, rs: seq<Range>): (ts: seq<Tlv>)
    requires forall i :: 0 <= i < |rs| ==> Small(rs[i])
    ensures |ts| == |rs|
  {
    if rs == [] then [] else Tags(ino, rs[..|rs| - 1]) + [Encode(ino, rs[|rs| - 1])]
  }

  lemma TagRange(cfg: Config, ino: U32, r: Range)
    requires Small(r)
    ensures Content(cfg, Encode(ino, r)) && RangesOf([Encode(ino, r)], ino) == [r]
  {
    RoundTrip(cfg, ino, r);
    assert [Encode(ino, r)][..0] == [];
  }

  lemma {:induction false} TagsContent(cfg: Config, ino: U32, rs: seq<Range>, i: nat)
    requires (forall i :: 0 <= i < |rs| ==> Small(rs[i])) && i < |rs|
    ensures Content(cfg, Tags(ino, rs)[i])
  {
    var n := |rs| - 1;
    if i < n {
      TagsContent(cfg, ino, rs[..n], i);
    } else {
      TagRange(cfg, ino, rs[n]);
    }
  }

  lemma {:induction false} TagsRanges(cfg: Config, ino: U32, rs: seq<Range>)
    requires forall i :: 0 <= i < |rs| ==> Small(rs[i])
    ensures RangesOf(Tags(ino, rs), ino) == rs
  {
    if rs != [] {
      var n := |rs| - 1;
      TagsRanges(cfg, ino, rs[..n]);
      TagRange(cfg, ino, rs[n]);
      RangesConcat(Tags(ino, rs[..n]), [Encode(ino, rs[n])], ino);
      assert rs == rs[..n] + [rs[n]];
    }
  }

  /** Records after records. */
  lemma {:induction false} ValueConcat(a: seq<Range>, c: seq<Range>, b: nat, before: Option<Block>)
    ensures Value(a + c, b, before) == Value(c, b, Value(a, b, before))
  {
    if c == [] {
      assert a + c == a;
    } else {
      var n := |c| - 1;
      assert (a + c)[..|a + c| - 1] == a + c[..n];
      ValueConcat(a, c[..n], b, before);
    }
  }

  /** Replaying records once more changes nothing. */
  lemma {:induction false} ValueTwice(rs: seq<Range>, b: nat, before: Option<Block>)
    ensures Value(rs, b, Value(rs, b, before)) == Value(rs, b, before)
  {
    if rs != [] {
      ValueTwice(rs[..|rs| - 1], b, before);
    }
  }

  // ----- replay

  /** The inodes that recovery can read, and their mappings. */
  type Files = map<U32, FileMap>

  /** The tag that lies where the walk found it. */
  function TlvAt(blocks: seq<seq<Byte>>, r: Raw): (t: Tlv)
    requires r.block < |blocks| && r.pos + BASE_LEN + r.len <= |blocks[r.block]|
  {
    Tlv(r.tag, blocks[r.block][r.pos + BASE_LEN..r.pos + BASE_LEN + r.len])
  }

  lemma TlvIs(blocks: seq<seq<Byte>>, r: Raw, t: Tlv)
    requires RawIs(blocks, r, t)
    ensures TlvAt(blocks, r) == t
  {
    var blk := blocks[r.block];
    SubSlice(blk, r.pos, r.pos + BASE_LEN + r.len, BASE_LEN, BASE_LEN + r.len);
    assert t.Encode()[BASE_LEN..BASE_LEN + r.len] == t.val;
  }

  ghost predicate AllAre(blocks: seq<seq<Byte>>, rs: seq<Raw>, ts: seq<Tlv>) {
    |rs| == |ts| && forall k :: 0 <= k < |ts| ==> RawIs(blocks, rs[k], ts[k])
  }

  /** Every inode is as the tags say. */
  ghost predicate Told(files: Files, ts: seq<Tlv>, files': Files) {
    && files'.Keys == files.Keys
    && forall ino, b: nat :: ino in files ==>
         Look(files'[ino], b) == Value(RangesOf(ts, ino), b, Look(files[ino], b))
  }

  /** One tag: the range handlers change the inode they name, if it can be read; the others change no
      mapping. */
  method ReplayTag(files: Files, t: Tlv, out: Outside) returns (files': Files, all: bool)
    ensures files'.Keys == files.Keys && (NothingFails(out) ==> all)
    ensures all ==> Told(files, [t], files')
  {
    files', all := files, true;
    assert [t][..0] == [];
    if IsRange(t) && Decode(t).0 in files {
      var (ino, r) := Decode(t);
      var m;
      m, all := ReplayRanges(files[ino], [r], out);
      files' := files[ino := m];
    }
  }

  lemma ToldNone(files: Files)
    ensures Told(files, [], files)
  {
  }

  lemma ToldOn(files: Files, ts: seq<Tlv>, files': Files, t: Tlv, files'': Files)
    requires Told(files, ts, files') && Told(files', [t], files'')
    ensures Told(files, ts + [t], files'')
  {
    forall ino, b: nat | ino in files
      ensures Look(files''[ino], b) == Value(RangesOf(ts + [t], ino), b, Look(files[ino], b))
    {
      RangesConcat(ts, [t], ino);
      ValueConcat(RangesOf(ts, ino), RangesOf([t], ino), b, Look(files[ino], b));
      assert Look(files'[ino], b) == Value(RangesOf(ts, ino), b, Look(files[ino], b));
    }
  }

  /** The next tag, as the bytes on disk say. */
  method ReplayRaw(files: Files, blocks: seq<seq<Byte>>, r: Raw, out: Outside, ghost t: Tlv)
      returns (files': Files, all: bool)
    requires RawIs(blocks, r, t)
    ensures files'.Keys == files.Keys && (NothingFails(out) ==> all) && (all ==> Told(files, [t], files'))
  {
    TlvIs(blocks, r, t);
    files', all := ReplayTag(files, TlvAt(blocks, r), out);
  }

  /** All that was dispatched, tag after tag. */
  method ReplayTags(files: Files, blocks: seq<seq<Byte>>, rs: seq<Raw>, out: Outside, ghost ts: seq<Tlv>)
      returns (files': Files, all: bool)
    requires AllAre(blocks, rs, ts)
    ensures files'.Keys == files.Keys && (all ==> Told(files, ts, files')) && (NothingFails(out) ==> all)
  {
    files', all := files, true;
    var i := 0;
    ghost var done: seq<Tlv> := [];
    ToldNone(files);
    while i < |rs|
      invariant i <= |rs| && done == ts[..i]
      invariant files'.Keys == files.Keys && (all ==> Told(files, done, files')) && (NothingFails(out) ==> all)
    {
      var next, good := ReplayRaw(files', blocks, rs[i], out, ts[i]);
      if all && good {
        ToldOn(files, done, files', ts[i], next);
      }
      files', all, i, done := next, all && good, i + 1, done + [ts[i]];
    }
    assert done == ts;
  }

  // ----- from tracking to recovery

  lemma {:induction false} TagsOfOther(cfg: Config, ino: U32, rs: seq<Range>, i: U32)
    requires (forall i :: 0 <= i < |rs| ==> Small(rs[i])) && i != ino
    ensures RangesOf(Tags(ino, rs), i) == []
  {
    if rs != [] {
      var n := |rs| - 1;
      TagsOfOther(cfg, ino, rs[..n], i);
      OtherTag(cfg, ino, rs[n], i);
      RangesConcat(Tags(ino, rs[..n]), [Encode(ino, rs[n])], i);
    }
  }

  lemma OtherTag(cfg: Config, ino: U32, r: Range, i: U32)
    requires Small(r) && i != ino
    ensures RangesOf([Encode(ino, r)], i) == []
  {
    RoundTrip(cfg, ino, r);
    assert [Encode(ino, r)][..0] == [];
  }

  lemma RangesSplit(a: seq<Tlv>, pre: seq<Tlv>, mine: seq<Tlv>, post: seq<Tlv>, i: U32)
    ensures RangesOf(a + (pre + mine + post), i) ==
            RangesOf(a, i) + RangesOf(pre, i) + RangesOf(mine, i) + RangesOf(post, i)
    ensures RangesOf(a + pre + post, i) == RangesOf(a, i) + RangesOf(pre, i) + RangesOf(post, i)
  {
    assert a + (pre + mine + post) == a + pre + mine + post;
    RangesConcat(a, pre, i);
    RangesConcat(a + pre, post, i);
    RangesConcat(a + pre, mine, i);
    RangesConcat(a + pre + mine, post, i);
  }

  /** What the log holds for a block: the last records for its inode decide. */
  lemma LastDecides(cfg: Config, m: FileMap, rs: seq<Range>, start: nat, end: nat, skipped: set<nat>, ino: U32,
                    was: seq<Tlv>, pre: seq<Tlv>, post: seq<Tlv>, i: U32, b: nat, x: Option<Block>)
    requires LoggedBut(m, rs, start, end, skipped) && RangesOf(post, ino) == []
    requires forall i :: 0 <= i < |rs| ==> Small(rs[i])
    ensures Value(RangesOf(was + (pre + Tags(ino, rs) + post), i), b, x) ==
            if i == ino && start <= b < end && b !in skipped then Look(m, b)
            else Value(RangesOf(was + pre + post, i), b, x)
  {
    var mine := Tags(ino, rs);
    var front := RangesOf(was, i) + RangesOf(pre, i);
    RangesSplit(was, pre, mine, post, i);
    if i == ino {
      NothingAfter(front + RangesOf(mine, i));
      NothingAfter(front);
      TagsRanges(cfg, ino, rs);
      ValueConcat(front, rs, b, x);
    } else {
      NothingAfter(front);
      TagsOfOther(cfg, ino, rs, i);
    }
  }

  ghost predicate AllContent(cfg: Config, ts: seq<Tlv>) {
    forall i :: 0 <= i < |ts| ==> Content(cfg, ts[i])
  }

  lemma CommitContent(cfg: Config, ino: U32, pre: seq<Tlv>, rs: seq<Range>, post: seq<Tlv>)
    requires AllContent(cfg, pre) && AllContent(cfg, post) && forall i :: 0 <= i < |rs| ==> Small(rs[i])
    ensures AllContent(cfg, pre + Tags(ino, rs) + post)
  {
    forall i | 0 <= i < |rs| ensures Content(cfg, Tags(ino, rs)[i]) {
      TagsContent(cfg, ino, rs, i);
    }
  }

  ghost predicate FitBlocks(bsize: nat, ts: seq<Tlv>) {
    forall i :: 0 <= i < |ts| ==> ts[i].Size() <= bsize - BASE_LEN
  }

  lemma {:induction false} TagsFit(ino: U32, rs: seq<Range>, bsize: nat)
    requires bsize >= 32 && forall i :: 0 <= i < |rs| ==> Small(rs[i])
    ensures FitBlocks(bsize, Tags(ino, rs))
  {
    if rs != [] {
      TagsFit(ino, rs[..|rs| - 1], bsize);
      RangeLayout(ino, rs[|rs| - 1]);
    }
  }

  /** The journal has buffers enough, and each of the other tags fits a block. */
  ghost predicate Roomy(fc: FastCommit, pre: seq<Tlv>, post: seq<Tlv>) {
    (forall n :: fc.getBuf(n)) && FitBlocks(fc.bsize, pre) && FitBlocks(fc.bsize, post)
  }

  lemma RoomyCommit(fc: FastCommit, f: Fill, first: bool, ino: U32, pre: seq<Tlv>, rs: seq<Range>, post: seq<Tlv>)
    requires fc.bsize >= 32 && forall i :: 0 <= i < |rs| ==> Small(rs[i])
    ensures Roomy(fc, pre, post) ==> CommitRoom(fc.bsize, fc.getBuf, f, first, pre + Tags(ino, rs) + post)
  {
    if Roomy(fc, pre, post) {
      TagsFit(ino, rs, fc.bsize);
      EnoughBuffers(fc.bsize, fc.getBuf, f, first, pre + Tags(ino, rs) + post);
    }
  }

  /** The ranges in the log after a commit: a HEAD or the log before, then the commit's tags, a TAIL. */
  lemma CommittedRanges(fc: FastCommit, was: seq<Tlv>, ts: seq<Tlv>, all: seq<Tlv>, t: Tlv, ino: U32)
    requires t.tag == TAIL && Payload(all) == fc.BeforeCommit(was) + ts + [t]
    ensures RangesOf(all, ino) == RangesOf(was + ts, ino)
  {
    RangesPayload(all, ino);
    RangesPayload(was, ino);
    RangesConcat(fc.BeforeCommit(was) + ts, [t], ino);
    RangesConcat(fc.BeforeCommit(was), ts, ino);
    RangesConcat(was, ts, ino);
    NoRanges(HeadTlv(fc.cfg.tid), ino);
    NoRanges(t, ino);
  }

  lemma NoRanges(t: Tlv, ino: U32)
    requires !IsRange(t)
    ensures RangesOf([t], ino) == []
  {
    assert [t][..0] == [];
  }

  /** The log holds for the blocks from start to end of inode ino, but the skipped ones, the mapping m, and
      for everything else what the tags ts say. */
  ghost predicate Logs(all: seq<Tlv>, ts: seq<Tlv>, ino: U32, m: FileMap, start: nat, end: nat, skipped: set<nat>) {
    forall i, b: nat, x: Option<Block> ::
      Value(RangesOf(all, i), b, x) ==
      if i == ino && start <= b < end && b !in skipped then Look(m, b) else Value(RangesOf(ts, i), b, x)
  }

  lemma {:induction false} CommitLogs(fc: FastCommit, was: seq<Tlv>, pre: seq<Tlv>, rs: seq<Range>, post: seq<Tlv>,
                                      all: seq<Tlv>, t: Tlv, ino: U32, m: FileMap, start: nat, end: nat, skipped: set<nat>)
    requires LoggedBut(m, rs, start, end, skipped) && RangesOf(post, ino) == []
    requires forall i :: 0 <= i < |rs| ==> Small(rs[i])
    ensures t.tag == TAIL && Payload(all) == fc.BeforeCommit(was) + (pre + Tags(ino, rs) + post) + [t] ==>
              Logs(all, was + pre + post, ino, m, start, end, skipped)
  {
    forall i, b: nat, x: Option<Block>
      | t.tag == TAIL && Payload(all) == fc.BeforeCommit(was) + (pre + Tags(ino, rs) + post) + [t]
      ensures Value(RangesOf(all, i), b, x) ==
              if i == ino && start <= b < end && b !in skipped then Look(m, b)
              else Value(RangesOf(was + pre + post, i), b, x)
    {
      CommittedRanges(fc, was, pre + Tags(ino, rs) + post, all, t, i);
      LastDecides(fc.cfg, m, rs, start, end, skipped, ino, was, pre, post, i, b, x);
    }
  }

  /** An inode's part of a commit, among other tags.  If a lookup fails, so does the commit. */
  method CommitInode(fc: FastCommit, tracker: Tracker, ino: U32, m: FileMap, pre: seq<Tlv>, post: seq<Tlv>, out: Outside)
      returns (ok: bool, ghost skipped: set<nat>)
    requires fc.Valid() && !fc.failed && tracker.Valid() && Within(m)
    requires AllContent(fc.cfg, pre) && AllContent(fc.cfg, post) && RangesOf(post, ino) == []
    modifies fc, tracker
    ensures fc.Valid() && tracker.Valid() && tracker.tracked == {}
    ensures !ok ==> fc.trace == old(fc.trace)
    ensures ok ==> LookupsOk(m, old(tracker.start), old(tracker.start + tracker.len), out)
    ensures Roomy(fc, pre, post) ==> (ok <==> LookupsOk(m, old(tracker.start), old(tracker.start + tracker.len), out))
    ensures skipped == Skipped(m, old(tracker.start), old(tracker.start + tracker.len), out.most)
    ensures ok ==> Logs(fc.trace.All(), old(fc.trace.All()) + pre + post, ino, m, old(tracker.start),
                        old(tracker.start + tracker.len), skipped)
  {
    ghost var was, start, end := fc.trace.All(), tracker.start, tracker.start + tracker.len;
    var whole, rs;
    whole, rs, skipped := tracker.Commit(m, out);
    CommitContent(fc.cfg, ino, pre, rs, post);
    RoomyCommit(fc, FillOf(fc.area), was == [], ino, pre, rs, post);
    ghost var t;
    ok, t := fc.Commit(pre + Tags(ino, rs) + post, whole);
    if ok {
      CommitLogs(fc, was, pre, rs, post, fc.trace.All(), t, ino, m, start, end, skipped);
    }
  }

  /** Recovery as far as mappings go. */
  method RecoverFiles(fc: FastCommit, files: Files, out: Outside) returns (files': Files, all: bool)
    requires fc.Valid()
    ensures (all ==> Told(files, fc.trace.All(), files')) && (NothingFails(out) ==> all)
  {
    var dispatched := fc.Recover();
    files', all := ReplayTags(files, fc.area.blocks, dispatched, out, fc.trace.All());
  }

  function Stretch(start: nat, end: nat): set<nat> {
    set b: nat | b < end && Between(start, end, b)
  }

  /** After recovery those blocks of inode ino map as in m, and everything else is as the tags say. */
  ghost predicate Recovered(files: Files, ts: seq<Tlv>, ino: U32, m: FileMap, blocks: set<nat>, files': Files) {
    && files'.Keys == files.Keys
    && forall i, b: nat :: i in files ==>
         Look(files'[i], b) == if i == ino && b in blocks then Look(m, b)
                               else Value(RangesOf(ts, i), b, Look(files[i], b))
  }

  lemma ToldRecovered(files: Files, all: seq<Tlv>, ts: seq<Tlv>, ino: U32, m: FileMap, start: nat, end: nat,
                      skipped: set<nat>, files': Files)
    requires Logs(all, ts, ino, m, start, end, skipped)
    ensures Told(files, all, files') ==>
              Recovered(files, ts, ino, m, Stretch(start, end) - skipped, files')
  {
  }

  /** The blocks of an inode's range that a commit logs. */
  ghost function LoggedBlocks(m: FileMap, start: nat, end: nat, out: Outside): set<nat> {
    Stretch(start, end) - Skipped(m, start, end, out.most)
  }

  /** One inode's changes are committed, among other tags, and then there is a crash and recovery.  If the
      commit succeeded, the blocks from the first to the last that was tracked since the last one map as
      they did at the commit, whatever the mapping on disk is, and all others as the log says without
      this inode; if not, the mappings are those of the commits before. */
  method CommitAndRecover(fc: FastCommit, tracker: Tracker, ino: U32, m: FileMap, pre: seq<Tlv>, post: seq<Tlv>,
                          files: Files, out: Outside, out': Outside)
      returns (ok: bool, files': Files, all: bool, ghost kept: set<nat>)
    requires fc.Valid() && !fc.failed && tracker.Valid() && Within(m)
    requires AllContent(fc.cfg, pre) && AllContent(fc.cfg, post) && RangesOf(post, ino) == []
    modifies fc, tracker
    ensures fc.Valid() && tracker.Valid() && tracker.tracked == {}
    ensures NothingFails(out') ==> all
    ensures Roomy(fc, pre, post) ==> (ok <==> LookupsOk(m, old(tracker.start), old(tracker.start + tracker.len), out))
    ensures kept == LoggedBlocks(m, old(tracker.start), old(tracker.start + tracker.len), out)
    ensures forall b :: b in old(tracker.tracked) && out.most(b) > 0 ==> b in kept
    ensures all && !ok ==> Told(files, old(fc.trace.All()), files')
    ensures all && ok ==> Recovered(files, old(fc.trace.All()) + pre + post, ino, m, kept, files')
  {
    ghost var ts, start, end := fc.trace.All() + pre + post, tracker.start, tracker.start + tracker.len;
    ghost var skipped;
    ok, skipped := CommitInode(fc, tracker, ino, m, pre, post, out);
    kept := Stretch(start, end) - skipped;
    files', all := RecoverFiles(fc, files, out');
    if ok {
      ToldRecovered(files, fc.trace.All(), ts, ino, m, start, end, skipped, files');
    }
  }
}
