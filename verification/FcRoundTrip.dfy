/** The fast-commit area over a transaction: what commits write is what recovery replays. */
module FcRoundTrip {
  import opened Common
  import opened LittleEndian
  import opened FcFormat
  import opened FcScan
  import opened FcTiling
  import opened FcWriter

  lemma {:induction false} NothingElse(blocks: seq<seq<Byte>>, tss: seq<seq<Tlv>>, i: nat)
    requires AllTiled(blocks, tss) && |tss| == |blocks| && i <= |tss|
    ensures |RawFrom(blocks, i)| == |Flat(tss, i)|
    decreases |tss| - i
  {
    if i < |tss| {
      OneBlock(blocks, tss[i], i);
      NothingElse(blocks, tss, i + 1);
    }
  }

  /** Completed commits hold together in any area that begins with their blocks, whatever follows. */
  lemma CommitsIntact(cfg: Config, bsize: nat, a: Area, tr: Trace, area: seq<seq<Byte>>)
    requires Quiet(cfg, bsize, a, tr) && a.blocks <= area
    ensures Matches(area, RawFrom(area, 0), tr.All())
    ensures Intact(cfg, area, RawFrom(area, 0), |tr.All()|) == Some(0)
    ensures area == a.blocks ==> |RawFrom(area, 0)| == |tr.All()|
  {
    NothingAfter(Flat(tr.tss, 0));
    assert AllTiled(area, tr.tss) by {
      forall i | 0 <= i < |tr.tss| ensures Tiles(area[i], tr.tss[i]) {
        assert area[i] == a.blocks[i] && Tiles(a.blocks[i], tr.tss[i]);
      }
    }
    TiledMatches(area, tr.tss, 0);
    IntactIs(cfg, area, RawFrom(area, 0), tr.All(), |tr.All()|);
    assert tr.All()[..|tr.All()|] == tr.All();
    NothingAfter(tr.sent);
    if area == a.blocks {
      NothingElse(area, tr.tss, 0);
    }
  }

  /** What recovery replays of an area that begins with completed commits: all of them, tag by tag as
      written, and nothing else if nothing follows. */
  lemma Replayed(cfg: Config, bsize: nat, a: Area, tr: Trace, area: seq<seq<Byte>>)
    requires Quiet(cfg, bsize, a, tr) && a.blocks <= area
    requires tr.All() != [] ==> tr.All()[|tr.All()| - 1].tag == TAIL
    ensures |tr.All()| <= Replayable(cfg, area) <= |RawFrom(area, 0)|
    ensures area == a.blocks ==> Replayable(cfg, area) == |tr.All()|
    ensures forall k :: 0 <= k < |tr.All()| ==> RawIs(area, RawFrom(area, 0)[k], tr.All()[k])
  {
    var rs, all := RawFrom(area, 0), tr.All();
    CommitsIntact(cfg, bsize, a, tr, area);
    ReplayedPrefix(cfg, area, Replayable(cfg, area));
    if |all| > 0 {
      assert RawIs(area, rs[|all| - 1], all[|all| - 1]);
    }
  }

  lemma MatchesFirst(blocks: seq<seq<Byte>>, rs: seq<Raw>, ts: seq<Tlv>, n: nat)
    requires Matches(blocks, rs, ts) && |ts| <= n <= |rs|
    ensures Matches(blocks, rs[..n], ts)
  {
    forall k | 0 <= k < |ts| ensures RawIs(blocks, rs[..n][k], ts[k]) {
      assert RawIs(blocks, rs[k], ts[k]);
    }
  }

  /** A tag that does not hold comes behind the completed commits. */
  lemma BreaksBehind(cfg: Config, blocks: seq<seq<Byte>>, rs: seq<Raw>, n: nat, m: nat)
    requires 0 < n <= |rs| && Intact(cfg, blocks, rs, n).Some? && rs[n - 1].tag == TAIL && BreaksAt(cfg, blocks, rs, m)
    ensures n <= m && rs[0].tag == HEAD
    ensures BadEnd(cfg, blocks, rs, m) <==> AsksForFeatures(cfg, blocks, rs[m], true)
  {
    if m < n {
      StaysBroken(cfg, blocks, rs, m + 1, n);
    }
    StartsWithHead(cfg, blocks, rs, n);
  }

  /** The first tag that does not hold is a HEAD that asks for features. */
  ghost predicate BreaksAtFeatures(cfg: Config, area: seq<seq<Byte>>) {
    var rs := RawFrom(area, 0);
    exists m: nat :: BreaksAt(cfg, area, rs, m) && AsksForFeatures(cfg, area, rs[m], true)
  }

  lemma AreaRefused(cfg: Config, area: seq<seq<Byte>>, n: nat)
    requires 0 < n <= |RawFrom(area, 0)| && Intact(cfg, area, RawFrom(area, 0), n).Some?
    requires RawFrom(area, 0)[n - 1].tag == TAIL
    ensures ScanRefuses(cfg, area) <==> BreaksAtFeatures(cfg, area)
  {
    var rs := RawFrom(area, 0);
    forall m: nat | BreaksAt(cfg, area, rs, m)
      ensures rs[0].tag == HEAD && (BadEnd(cfg, area, rs, m) <==> AsksForFeatures(cfg, area, rs[m], true))
    {
      BreaksBehind(cfg, area, rs, n, m);
    }
  }

  lemma EndsInTail(cfg: Config, bsize: nat, a: Area, tr: Trace, area: seq<seq<Byte>>)
    requires Quiet(cfg, bsize, a, tr) && a.blocks <= area && tr.All() != [] && tr.All()[|tr.All()| - 1].tag == TAIL
    ensures var rs, n := RawFrom(area, 0), |tr.All()|;
            n <= |rs| && Intact(cfg, area, rs, n).Some? && rs[n - 1].tag == TAIL
  {
    CommitsIntact(cfg, bsize, a, tr, area);
    var n := |tr.All()|;
    assert RawIs(area, RawFrom(area, 0)[n - 1], tr.All()[n - 1]);
  }

  lemma AreaFound(cfg: Config, bsize: nat, a: Area, tr: Trace, area: seq<seq<Byte>>)
    requires Quiet(cfg, bsize, a, tr) && a.blocks <= area && tr.All() != [] && tr.All()[|tr.All()| - 1].tag == TAIL
    ensures ScanRefuses(cfg, area) <==> BreaksAtFeatures(cfg, area)
    ensures |tr.All()| <= Replayable(cfg, area) <= |RawFrom(area, 0)| && Matches(area, RawFrom(area, 0), tr.All())
  {
    EndsInTail(cfg, bsize, a, tr, area);
    AreaRefused(cfg, area, |tr.All()|);
    Replayed(cfg, bsize, a, tr, area);
    CommitsIntact(cfg, bsize, a, tr, area);
  }

  /** Recovery of an area that begins with completed commits, whatever follows, with handlers that all
      succeed: an error exactly if the first tag that does not hold is a HEAD that asks for features;
      otherwise the commits are dispatched first, all of them and as written. */
  method RecoverArea(cfg: Config, area: seq<seq<Byte>>, ghost bsize: nat, ghost a: Area, ghost tr: Trace)
      returns (dispatched: seq<Raw>, err: bool)
    requires Quiet(cfg, bsize, a, tr) && a.blocks <= area && forall i :: 0 <= i < |area| ==> |area[i]| >= BASE_LEN
    requires tr.All() != [] && tr.All()[|tr.All()| - 1].tag == TAIL
    ensures err <==> BreaksAtFeatures(cfg, area)
    ensures !err ==> Matches(area, dispatched, tr.All())
  {
    AreaFound(cfg, bsize, a, tr, area);
    MatchesFirst(area, RawFrom(area, 0), tr.All(), Replayable(cfg, area));
    dispatched, err := RecoverAll(cfg, area);
  }

  // ----- commits that did not complete

  lemma {:induction false} FlatSplit(tss: seq<seq<Tlv>>, k: nat, i: nat)
    requires i <= k <= |tss|
    ensures Flat(tss, i) == Flat(tss[..k], i) + Flat(tss, k)
    decreases k - i
  {
    if i < k {
      FlatSplit(tss, k, i + 1);
      assert tss[..k][i] == tss[i];
      Assoc(tss[i], Flat(tss[..k], i + 1), Flat(tss, k));
    }
  }

  lemma {:induction false} FlatNoTail(tss: seq<seq<Tlv>>, k: nat)
    requires k <= |tss| && forall i :: k <= i < |tss| ==> NoTail(tss[i])
    ensures NoTail(Flat(tss, k))
    decreases |tss| - k
  {
    if k < |tss| {
      FlatNoTail(tss, k + 1);
    }
  }

  /** Blocks that hold together are scanned to their end. */
  lemma AllHold(cfg: Config, blocks: seq<seq<Byte>>, tss: seq<seq<Tlv>>)
    requires AllTiled(blocks, tss) && |tss| == |blocks| && TlvCrc(cfg, Flat(tss, 0)).Some?
    ensures Outcome(cfg, blocks) == Continue
  {
    var rs, ts := RawFrom(blocks, 0), Flat(tss, 0);
    TiledMatches(blocks, tss, 0);
    NothingElse(blocks, tss, 0);
    IntactIs(cfg, blocks, rs, ts, |ts|);
    assert ts[..|ts|] == ts;
    WholeIsLongest(cfg, blocks, rs);
  }

  lemma WholeIsLongest(cfg: Config, blocks: seq<seq<Byte>>, rs: seq<Raw>)
    requires Intact(cfg, blocks, rs, |rs|).Some?
    ensures Longest(cfg, blocks, rs, 0) == |rs|
  {
    var m := Longest(cfg, blocks, rs, 0);
    if m < |rs| {
      StaysBroken(cfg, blocks, rs, m + 1, |rs|);
    }
  }

  /** Without a TAIL in it, nothing behind the completed commits is to be replayed. */
  lemma TailFreeEnd(cfg: Config, blocks: seq<seq<Byte>>, tss: seq<seq<Tlv>>, k: nat)
    requires AllTiled(blocks, tss) && |tss| == |blocks| && k <= |tss|
    requires forall i :: k <= i < |tss| ==> NoTail(tss[i])
    ensures Replayable(cfg, blocks) <= |Flat(tss[..k], 0)|
  {
    var rs, n, front := RawFrom(blocks, 0), Replayable(cfg, blocks), Flat(tss[..k], 0);
    TiledMatches(blocks, tss, 0);
    NothingElse(blocks, tss, 0);
    FlatSplit(tss, k, 0);
    FlatNoTail(tss, k);
    ReplayedPrefix(cfg, blocks, n);
    assert n > 0 ==> RawIs(blocks, rs[n - 1], Flat(tss, 0)[n - 1]);
  }

  /** A commit that failed, or of which only the first n blocks reached the disk, leaves exactly the
      completed commits to be replayed, and no error. */
  lemma PartialReplayed(cfg: Config, bsize: nat, a: Area, tr: Trace, a': Area, tr': Trace, n: nat)
    requires Quiet(cfg, bsize, a, tr) && (tr.All() != [] ==> tr.All()[|tr.All()| - 1].tag == TAIL)
    requires Extends(a, tr, a', tr', n) && |a.blocks| <= n <= |a'.blocks| && Submitted(cfg, bsize, a', tr')
    ensures Replayable(cfg, a'.blocks[..n]) == |tr.All()| && Outcome(cfg, a'.blocks[..n]) == Continue
    ensures |tr.All()| <= |RawFrom(a'.blocks[..n], 0)|
    ensures forall k :: 0 <= k < |tr.All()| ==> RawIs(a'.blocks[..n], RawFrom(a'.blocks[..n], 0)[k], tr.All()[k])
  {
    FirstBlocks(cfg, bsize, a', tr', n);
    assert a.blocks <= a'.blocks[..n];
    Replayed(cfg, bsize, a, tr, a'.blocks[..n]);
    NothingMore(cfg, a, tr, a', tr', n);
  }

  lemma NothingMore(cfg: Config, a: Area, tr: Trace, a': Area, tr': Trace, n: nat)
    requires Extends(a, tr, a', tr', n) && |tr.tss| == |a.blocks| <= n <= |a'.blocks| == |tr'.tss| && tr.cur == []
    requires AllTiled(a'.blocks[..n], tr'.tss[..n])
    ensures Replayable(cfg, a'.blocks[..n]) <= |tr.All()|
  {
    NothingAfter(Flat(tr.tss, 0));
    assert tr'.tss[..n][..|tr.tss|] == tr.tss;
    TailFreeEnd(cfg, a'.blocks[..n], tr'.tss[..n], |tr.tss|);
  }

  lemma FirstBlocks(cfg: Config, bsize: nat, a: Area, tr: Trace, n: nat)
    requires Submitted(cfg, bsize, a, tr) && n <= |a.blocks|
    ensures AllTiled(a.blocks[..n], tr.tss[..n]) && Outcome(cfg, a.blocks[..n]) == Continue
  {
    forall i | 0 <= i < n ensures Tiles(a.blocks[..n][i], tr.tss[..n][i]) {
      assert Tiles(a.blocks[i], tr.tss[i]);
    }
    FlatSplit(tr.tss, n, 0);
    TlvCrcPrefix(cfg, Flat(tr.tss[..n], 0), Flat(tr.tss, n));
    AllHold(cfg, a.blocks[..n], tr.tss[..n]);
  }

  /** A commit after which only the first n blocks are on disk, then recovery with handlers that all
      succeed: the new commit is replayed whole, if it succeeded and all its blocks are there, or not at
      all. */
  method CommitThenCrash(cfg: Config, bsize: nat, getBuf: nat -> bool, a: Area, ts: seq<Tlv>, whole: bool, n: nat,
                         ghost tr: Trace)
      returns (dispatched: seq<Raw>, ok: bool, a': Area, ghost tr': Trace)
    requires Quiet(cfg, bsize, a, tr) && (tr.All() != [] ==> tr.All()[|tr.All()| - 1].tag == TAIL)
    requires forall i :: 0 <= i < |ts| ==> Content(cfg, ts[i])
    ensures a.blocks <= a'.blocks
    ensures |a.blocks| <= n <= |a'.blocks| ==>
              var all := if ok && n == |a'.blocks| then tr'.All() else tr.All();
              |dispatched| == |all| && Matches(a'.blocks[..n], dispatched, all)
  {
    ghost var t;
    ok, a', tr', t := PerformCommit(cfg, bsize, getBuf, a, ts, whole, tr);
    dispatched := [];
    if |a.blocks| <= n <= |a'.blocks| {
      Atomic(cfg, bsize, a, tr, a', tr', n, ok, t);
      var err;
      dispatched, err := RecoverAll(cfg, a'.blocks[..n]);
      ghost var all := if ok && n == |a'.blocks| then tr'.All() else tr.All();
      MatchesFirst(a'.blocks[..n], RawFrom(a'.blocks[..n], 0), all, |dispatched|);
    }
  }

  lemma Atomic(cfg: Config, bsize: nat, a: Area, tr: Trace, a': Area, tr': Trace, n: nat, ok: bool, t: Tlv)
    requires Quiet(cfg, bsize, a, tr) && (tr.All() != [] ==> tr.All()[|tr.All()| - 1].tag == TAIL)
    requires Extends(a, tr, a', tr', if ok then |tr'.tss| - 1 else |tr'.tss|) && |a.blocks| <= n <= |a'.blocks|
    requires if ok then Quiet(cfg, bsize, a', tr') && Ends(tr'.All(), t) else Submitted(cfg, bsize, a', tr')
    ensures forall i :: 0 <= i < n ==> |a'.blocks[..n][i]| >= BASE_LEN
    ensures var all := if ok && n == |a'.blocks| then tr'.All() else tr.All();
            && Replayable(cfg, a'.blocks[..n]) == |all| && !ScanRefuses(cfg, a'.blocks[..n])
            && Matches(a'.blocks[..n], RawFrom(a'.blocks[..n], 0), all)
  {
    OutcomeIs(cfg, a'.blocks[..n]);
    if ok {
      OkSubmitted(cfg, bsize, a', tr');
    }
    if ok && n == |a'.blocks| {
      PartialReplayed(cfg, bsize, a', tr', a', tr', n);
    } else {
      PartialReplayed(cfg, bsize, a, tr, a', tr', n);
    }
  }

  /** Completed commits up to done, traced by tr, and an area with what came after them, without a TAIL. */
  ghost predicate Recorded(cfg: Config, bsize: nat, done: Area, tr: Trace, area: Area, late: Trace) {
    && Quiet(cfg, bsize, done, tr) && (tr.All() != [] ==> tr.All()[|tr.All()| - 1].tag == TAIL)
    && Extends(done, tr, area, late, |late.tss|) && Submitted(cfg, bsize, area, late)
  }

  lemma NowRecorded(cfg: Config, bsize: nat, a: Area, tr: Trace, a': Area, tr': Trace, ok: bool, t: Tlv)
    requires Recorded(cfg, bsize, a, tr, a, tr)
    requires Extends(a, tr, a', tr', if ok then |tr'.tss| - 1 else |tr'.tss|)
    requires if ok then Quiet(cfg, bsize, a', tr') && Ends(tr'.All(), t) else Submitted(cfg, bsize, a', tr')
    ensures if ok then Recorded(cfg, bsize, a', tr', a', tr') else Recorded(cfg, bsize, a, tr, a', tr')
  {
    if ok {
      OkSubmitted(cfg, bsize, a', tr');
    }
  }

  lemma FoundIn(cfg: Config, bsize: nat, done: Area, tr: Trace, area: Area, late: Trace)
    requires Recorded(cfg, bsize, done, tr, area, late)
    ensures Replayable(cfg, area.blocks) == |tr.All()| <= |RawFrom(area.blocks, 0)|
    ensures Outcome(cfg, area.blocks) == Continue && Matches(area.blocks, RawFrom(area.blocks, 0), tr.All())
  {
    PartialReplayed(cfg, bsize, done, tr, area, late, |area.blocks|);
    assert area.blocks[..|area.blocks|] == area.blocks;
  }

  /** The state that commits of one transaction share (s_fc_bytes, s_fc_bh) and the area on disk. */
  class FastCommit {
    const cfg: Config
    const bsize: nat
    const getBuf: nat -> bool
    var area: Area
    var failed: bool            // a commit failed: the next one is a full commit
    ghost var done: Area        // as of the last successful commit
    ghost var trace: Trace
    ghost var late: Trace       // with what a failed commit submitted

    ghost predicate Valid()
      reads this
    {
      Recorded(cfg, bsize, done, trace, area, late) && (!failed ==> area == done && late == trace)
    }

    constructor (cfg: Config, bsize: nat, getBuf: nat -> bool)
      requires 32 <= bsize <= 0x1_0000
      ensures Valid() && !failed && trace.All() == [] && this.cfg == cfg && this.bsize == bsize
    {
      this.cfg, this.bsize, this.getBuf := cfg, bsize, getBuf;
      area, failed := Area([], [], false, 0), false;
      done, trace, late := Area([], [], false, 0), Trace([], [], []), Trace([], [], []);
    }

    /** Before the first commit there is a HEAD. */
    ghost function BeforeCommit(all: seq<Tlv>): seq<Tlv> {
      if all == [] then [HeadTlv(cfg.tid)] else Payload(all)
    }

    /** A commit adds its tags and a TAIL to what recovery will find, or nothing at all. */
    method Commit(ts: seq<Tlv>, whole: bool) returns (ok: bool, ghost t: Tlv)
      requires Valid() && !failed && forall i :: 0 <= i < |ts| ==> Content(cfg, ts[i])
      modifies this
      ensures Valid() && failed == !ok
      ensures Replayable(cfg, area.blocks) == |trace.All()|
      ensures !ok ==> trace == old(trace)
      ensures ok <==> whole && CommitRoom(bsize, getBuf, FillOf(old(area)), old(trace.All()) == [], ts)
      ensures ok ==> t.tag == TAIL && Payload(trace.All()) == BeforeCommit(old(trace.All())) + ts + [t]
    {
      var a';
      ghost var tr';
      ok, a', tr', t := PerformCommit(cfg, bsize, getBuf, area, ts, whole, trace);
      NowRecorded(cfg, bsize, done, trace, a', tr', ok, t);
      area, failed, late := a', !ok, tr';
      if ok {
        done, trace := a', tr';
      }
      FoundIn(cfg, bsize, done, trace, area, late);
    }

    /** Recovery after a crash, the handlers all succeeding: dispatched is everything committed, tag by tag
        as written, and nothing else, also after a commit that failed half way. */
    method Recover() returns (dispatched: seq<Raw>)
      requires Valid()
      ensures |dispatched| == |trace.All()|
      ensures forall k :: 0 <= k < |trace.All()| ==> RawIs(area.blocks, dispatched[k], trace.All()[k])
    {
      FoundIn(cfg, bsize, done, trace, area, late);
      OutcomeIs(cfg, area.blocks);
      var err;
      dispatched, err := RecoverAll(cfg, area.blocks);
    }
  }
}
