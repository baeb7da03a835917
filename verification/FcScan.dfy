/** The recovery side of fast commits: the scan that decides how much to replay, and the replay that
    trusts it (ext4_fc_replay_scan and ext4_fc_replay of fast_commit.c), on arbitrary block bytes. */
module FcScan {
  import opened Common
  import opened LittleEndian
  import opened FcFormat

  /** A tag as both passes meet it: where its header is, and what the header says. */
  datatype Raw = Raw(block: nat, pos: nat, tag: nat, len: nat)

  datatype Config = Config(step: Step, inodeSize: nat, tid: U32)

  /** ext4_fc_replay_state, as far as the scan uses it. */
  datatype ScanState = ScanState(curTag: nat, numTags: nat, crc: U32, used: nat, valid: nat)

  datatype Ret = Continue | Stop | Fail

  const INIT := ScanState(0, 0, 0, 0, 0)

  function RawAt(blk: seq<Byte>, i: nat, pos: nat): Raw
    requires pos + BASE_LEN <= |blk|
  {
    Raw(i, pos, Get16(blk[pos..pos + 2]), Get16(blk[pos + 2..pos + 4]))
  }

  /** The headers a pass over a block visits, from pos on: each length leads to the next. */
  function Walk(blk: seq<Byte>, i: nat, pos: nat): seq<Raw>
    decreases |blk| - pos
  {
    if pos + BASE_LEN > |blk| then []
    else
      var r := RawAt(blk, i, pos);
      [r] + Walk(blk, i, pos + BASE_LEN + r.len)
  }

  /** The bounds and length check of the scan. */
  predicate Sound(cfg: Config, blk: seq<Byte>, r: Raw) {
    r.pos + BASE_LEN + r.len <= |blk| && ValueLenValid(r.tag, r.len, cfg.inodeSize)
  }

  function Bytes(blk: seq<Byte>, r: Raw): seq<Byte>
    requires r.pos + BASE_LEN + r.len <= |blk|
  {
    blk[r.pos..r.pos + BASE_LEN + r.len]
  }

  /** tid and CRC of a TAIL agree with the expected tid and the sum so far. */
  predicate TailMatches(cfg: Config, blk: seq<Byte>, r: Raw, crc: U32)
    requires Sound(cfg, blk, r) && r.tag == TAIL
  {
    && Get32(blk[r.pos + 4..r.pos + 8]) == cfg.tid
    && Get32(blk[r.pos + 8..r.pos + 12]) == Sum(cfg.step, crc, blk[r.pos..r.pos + 8])
  }

  predicate HeadOk(cfg: Config, blk: seq<Byte>, r: Raw)
    requires Sound(cfg, blk, r) && r.tag == HEAD
  {
    Get32(blk[r.pos + 4..r.pos + 8]) == 0 && Get32(blk[r.pos + 8..r.pos + 12]) == cfg.tid
  }

  /** The body of the scan loop, for one tag. */
  function ScanTag(cfg: Config, st: ScanState, blk: seq<Byte>, r: Raw): (ScanState, Ret) {
    var giveUp := if st.numTags > 0 then Stop else Fail;
    if !Sound(cfg, blk, r) then (st, giveUp)
    else if r.tag == TAIL then
      if TailMatches(cfg, blk, r, st.crc) then
        (ScanState(st.curTag + 1, st.curTag + 1, 0, st.used, st.used), Continue)
      else (st.(curTag := st.curTag + 1, crc := 0), giveUp)
    else if r.tag == HEAD && !HeadOk(cfg, blk, r) then
      (st, if Get32(blk[r.pos + 4..r.pos + 8]) != 0 then Fail else Stop)
    else
      (st.(curTag := st.curTag + 1, crc := Sum(cfg.step, st.crc, Bytes(blk, r)),
           used := if r.tag == ADD_RANGE then st.used + 1 else st.used), Continue)
  }

  // ----- what the scan state means

  /** The checksum after tag r, of c before it, if r holds: it passes the checks, and a TAIL or HEAD
      matches. */
  function Next(cfg: Config, blocks: seq<seq<Byte>>, c: U32, r: Raw, first: bool): Option<U32> {
    if r.block >= |blocks| || !Sound(cfg, blocks[r.block], r) || (first && r.tag != HEAD) then None
    else if r.tag == TAIL then if TailMatches(cfg, blocks[r.block], r, c) then Some(0) else None
    else if r.tag == HEAD && !HeadOk(cfg, blocks[r.block], r) then None
    else Some(Sum(cfg.step, c, Bytes(blocks[r.block], r)))
  }

  /** The first k tags hold together, and start with a HEAD.
      The value is the checksum over the tags since the last TAIL. */
  function Intact(cfg: Config, blocks: seq<seq<Byte>>, rs: seq<Raw>, k: nat): Option<U32>
    requires k <= |rs|
  {
    if k == 0 then Some(0)
    else
      var c := Intact(cfg, blocks, rs, k - 1);
      if c.None? then None else Next(cfg, blocks, c.value, rs[k - 1], k == 1)
  }

  lemma {:induction false} IntactSound(cfg: Config, blocks: seq<seq<Byte>>, rs: seq<Raw>, k: nat, j: nat)
    requires j < k <= |rs| && Intact(cfg, blocks, rs, k).Some?
    ensures rs[j].block < |blocks| && Sound(cfg, blocks[rs[j].block], rs[j])
    ensures Intact(cfg, blocks, rs, j).Some?
    ensures rs[j].tag == TAIL ==> TailMatches(cfg, blocks[rs[j].block], rs[j], Intact(cfg, blocks, rs, j).value)
  {
    if j < k - 1 {
      IntactSound(cfg, blocks, rs, k - 1, j);
    }
  }

  function CountAdds(rs: seq<Raw>, k: nat): nat
    requires k <= |rs|
  {
    if k == 0 then 0 else CountAdds(rs, k - 1) + (if rs[k - 1].tag == ADD_RANGE then 1 else 0)
  }

  /** How many of the first k tags reach up to the last TAIL among them. */
  function UpToTail(rs: seq<Raw>, k: nat): (n: nat)
    requires k <= |rs|
    ensures n <= k && (n > 0 ==> rs[n - 1].tag == TAIL)
    ensures forall j :: n <= j < k ==> rs[j].tag != TAIL
  {
    if k == 0 then 0 else if rs[k - 1].tag == TAIL then k else UpToTail(rs, k - 1)
  }

  /** The state of the scan while it goes on, after k tags. */
  ghost predicate Scanned(cfg: Config, blocks: seq<seq<Byte>>, rs: seq<Raw>, st: ScanState, k: nat) {
    && k <= |rs| && Intact(cfg, blocks, rs, k) == Some(st.crc)
    && st.curTag == k && st.numTags == UpToTail(rs, k)
    && st.used == CountAdds(rs, k) && st.valid == CountAdds(rs, st.numTags)
  }

  /** The scan ended after m tags: at the end of the log, or because the next tag does not hold. */
  ghost predicate Ended(cfg: Config, blocks: seq<seq<Byte>>, rs: seq<Raw>, st: ScanState, m: nat) {
    && m <= |rs| && Intact(cfg, blocks, rs, m).Some?
    && (m < |rs| ==> Intact(cfg, blocks, rs, m + 1).None?)
    && st.numTags == UpToTail(rs, m) && st.valid == CountAdds(rs, st.numTags)
  }

  /** The scan ended at tag k, with this result. */
  ghost predicate EndedBy(cfg: Config, blocks: seq<seq<Byte>>, rs: seq<Raw>, st: ScanState, k: nat, ret: Ret) {
    && Ended(cfg, blocks, rs, st, k) && k < |rs| && rs[k].block < |blocks|
    && ret == Verdict(cfg, blocks[rs[k].block], rs[k], st.numTags)
  }

  /** How the scan ends at a tag that does not hold: a HEAD with unknown features is an error, one of
      another transaction is an end, and all else is an end if there is something to replay. */
  function Verdict(cfg: Config, blk: seq<Byte>, r: Raw, num: nat): Ret {
    if Sound(cfg, blk, r) && r.tag == HEAD then
      if Get32(blk[r.pos + 4..r.pos + 8]) != 0 then Fail else Stop
    else if num > 0 then Stop else Fail
  }

  /** One turn: either it goes on past tag k, or it ends there. */
  lemma ScanTagStep(cfg: Config, blocks: seq<seq<Byte>>, rs: seq<Raw>, st: ScanState, k: nat)
    requires Scanned(cfg, blocks, rs, st, k) && k < |rs| && rs[k].block < |blocks|
    requires k == 0 ==> rs[0].tag == HEAD
    ensures var (st', ret) := ScanTag(cfg, st, blocks[rs[k].block], rs[k]);
            if ret == Continue then Scanned(cfg, blocks, rs, st', k + 1)
            else Ended(cfg, blocks, rs, st', k) && ret == Verdict(cfg, blocks[rs[k].block], rs[k], st'.numTags)
  {
  }

  lemma {:induction false} StaysBroken(cfg: Config, blocks: seq<seq<Byte>>, rs: seq<Raw>, k: nat, j: nat)
    requires k <= j <= |rs| && Intact(cfg, blocks, rs, k).None?
    ensures Intact(cfg, blocks, rs, j).None?
  {
    if k < j {
      StaysBroken(cfg, blocks, rs, k, j - 1);
    }
  }

  lemma LaterBroken(cfg: Config, blocks: seq<seq<Byte>>, rs: seq<Raw>, m: nat, j: nat)
    requires m <= |rs| && (m < |rs| ==> Intact(cfg, blocks, rs, m + 1).None?)
    requires UpToTail(rs, m) <= j < |rs| && rs[j].tag == TAIL
    ensures Intact(cfg, blocks, rs, j + 1).None?
  {
    assert j >= m;
    StaysBroken(cfg, blocks, rs, m + 1, j + 1);
  }

  lemma WalkOn(blk: seq<Byte>, i: nat, pos: nat, next: nat)
    requires pos + BASE_LEN <= |blk| && next == pos + BASE_LEN + RawAt(blk, i, pos).len
    ensures Walk(blk, i, pos) != [] && Walk(blk, i, pos)[0] == RawAt(blk, i, pos)
    ensures Walk(blk, i, pos)[1..] == Walk(blk, i, next)
  {
  }

  /** The next tag of the block is the next tag of the log. */
  lemma NextTag(rs: seq<Raw>, k: nat, w: seq<Raw>, later: seq<Raw>)
    requires k <= |rs| && rs[k..] == w + later && w != []
    ensures k < |rs| && rs[k] == w[0] && rs[k + 1..] == w[1..] + later
  {
    assert rs[k..][0] == w[0] && rs[k + 1..] == rs[k..][1..];
    assert (w + later)[1..] == w[1..] + later;
  }

  // ----- the passes

  /** One turn of the scan loop, at the tag at cur; w are the block's tags from there on. */
  method Turn(cfg: Config, st: ScanState, blk: seq<Byte>, i: nat, cur: nat,
              ghost blocks: seq<seq<Byte>>, ghost rs: seq<Raw>, ghost k: nat, ghost w: seq<Raw>, ghost later: seq<Raw>)
      returns (st': ScanState, ret: Ret, next: nat, ghost w': seq<Raw>)
    requires i < |blocks| && blk == blocks[i] && cur + BASE_LEN <= |blk| && Scanned(cfg, blocks, rs, st, k)
    requires w == Walk(blk, i, cur) && rs[k..] == w + later && (k == 0 && |rs| > 0 ==> rs[0].tag == HEAD)
    ensures if ret == Continue then Scanned(cfg, blocks, rs, st', k + 1) else EndedBy(cfg, blocks, rs, st', k, ret)
    ensures next > cur && w' == Walk(blk, i, next) && k < |rs| && rs[k + 1..] == w' + later
  {
    var r := RawAt(blk, i, cur);
    next := cur + BASE_LEN + r.len;
    WalkOn(blk, i, cur, next);
    NextTag(rs, k, w, later);
    w' := w[1..];
    ScanTagStep(cfg, blocks, rs, st, k);
    var res := ScanTag(cfg, st, blk, r);
    st', ret := res.0, res.1;
  }

  /** ext4_fc_replay_scan on block i, after k0 tags of the blocks before it. */
  method ScanBlock(cfg: Config, st0: ScanState, blk: seq<Byte>, i: nat,
                   ghost blocks: seq<seq<Byte>>, ghost rs: seq<Raw>, ghost k0: nat, ghost later: seq<Raw>)
      returns (st: ScanState, ret: Ret, ghost k: nat)
    requires i < |blocks| && blk == blocks[i] && Scanned(cfg, blocks, rs, st0, k0)
    requires rs[k0..] == Walk(blk, i, 0) + later
    requires k0 == 0 && |rs| > 0 ==> rs[0].tag == HEAD
    ensures ret == Continue ==> Scanned(cfg, blocks, rs, st, k) && rs[k..] == later
    ensures ret != Continue ==> EndedBy(cfg, blocks, rs, st, k, ret)
  {
    st, ret, k := st0, Continue, k0;
    var cur := 0;
    ghost var w := Walk(blk, i, 0);
    while cur + BASE_LEN <= |blk|
      invariant k0 <= k <= |rs| && w == Walk(blk, i, cur) && rs[k..] == w + later
      invariant Scanned(cfg, blocks, rs, st, k) && ret == Continue
      decreases |blk| - cur
    {
      st, ret, cur, w := Turn(cfg, st, blk, i, cur, blocks, rs, k, w, later);
      if ret != Continue {
        return;
      }
      k := k + 1;
    }
    assert w + later == later;
  }

  /** The headers of blocks from i on. */
  function RawFrom(blocks: seq<seq<Byte>>, i: nat): seq<Raw>
    requires i <= |blocks|
    decreases |blocks| - i
  {
    if i == |blocks| then [] else Walk(blocks[i], i, 0) + RawFrom(blocks, i + 1)
  }

  /** How many tags hold together, of which the first k do. */
  function Longest(cfg: Config, blocks: seq<seq<Byte>>, rs: seq<Raw>, k: nat): (m: nat)
    requires k <= |rs| && Intact(cfg, blocks, rs, k).Some?
    ensures k <= m <= |rs| && Intact(cfg, blocks, rs, m).Some?
    ensures m < |rs| ==> Intact(cfg, blocks, rs, m + 1).None?
    decreases |rs| - k
  {
    if k < |rs| && Intact(cfg, blocks, rs, k + 1).Some? then Longest(cfg, blocks, rs, k + 1) else k
  }

  /** The tags that are to be replayed: up to the last TAIL among those that hold together. */
  function Replayable(cfg: Config, blocks: seq<seq<Byte>>): nat {
    var rs := RawFrom(blocks, 0);
    UpToTail(rs, Longest(cfg, blocks, rs, 0))
  }

  /** What that means: they are intact, end in a TAIL, and no later TAIL ends an intact prefix. */
  lemma ReplayedPrefix(cfg: Config, blocks: seq<seq<Byte>>, n: nat)
    requires n == Replayable(cfg, blocks)
    ensures var rs := RawFrom(blocks, 0);
            && n <= |rs| && Intact(cfg, blocks, rs, n).Some? && (n > 0 ==> rs[n - 1].tag == TAIL)
            && forall j :: n <= j < |rs| && rs[j].tag == TAIL ==> Intact(cfg, blocks, rs, j + 1).None?
  {
    var rs := RawFrom(blocks, 0);
    var m := Longest(cfg, blocks, rs, 0);
    if n < m {
      IntactSound(cfg, blocks, rs, m, n);
    }
    forall j | n <= j < |rs| && rs[j].tag == TAIL ensures Intact(cfg, blocks, rs, j + 1).None? {
      LaterBroken(cfg, blocks, rs, m, j);
    }
  }

  /** The result of the whole scan: an area without a HEAD is not an error. */
  function Outcome(cfg: Config, blocks: seq<seq<Byte>>): Ret {
    var rs := RawFrom(blocks, 0);
    var m := Longest(cfg, blocks, rs, 0);
    if m == |rs| then Continue
    else if m == 0 && rs[0].tag != HEAD then Stop
    else if rs[m].block >= |blocks| then Stop
    else Verdict(cfg, blocks[rs[m].block], rs[m], Replayable(cfg, blocks))
  }

  /** Tag m is the first that does not hold. */
  ghost predicate BreaksAt(cfg: Config, blocks: seq<seq<Byte>>, rs: seq<Raw>, m: nat) {
    m < |rs| && Intact(cfg, blocks, rs, m).Some? && Intact(cfg, blocks, rs, m + 1).None?
  }

  /** A well-formed HEAD that asks for features, or one that does not. */
  predicate AsksForFeatures(cfg: Config, blocks: seq<seq<Byte>>, r: Raw, some: bool) {
    && r.block < |blocks| && Sound(cfg, blocks[r.block], r) && r.tag == HEAD
    && (Get32(blocks[r.block][r.pos + 4..r.pos + 8]) != 0 <==> some)
  }

  /** Ending at tag m is an error: it is a HEAD that asks for features, or it is no HEAD (of another
      transaction, then) and no commit is complete before it. */
  ghost predicate BadEnd(cfg: Config, blocks: seq<seq<Byte>>, rs: seq<Raw>, m: nat)
    requires m < |rs|
  {
    || AsksForFeatures(cfg, blocks, rs[m], true)
    || (!AsksForFeatures(cfg, blocks, rs[m], false) && forall j :: 0 <= j < m ==> rs[j].tag != TAIL)
  }

  /** When the scan of arbitrary bytes is an error: the area starts with a HEAD, and the first tag that does
      not hold is a bad end. */
  ghost predicate ScanRefuses(cfg: Config, blocks: seq<seq<Byte>>) {
    var rs := RawFrom(blocks, 0);
    exists m: nat :: BreaksAt(cfg, blocks, rs, m) && rs[0].tag == HEAD && BadEnd(cfg, blocks, rs, m)
  }

  lemma {:induction false} WalkBlock(blk: seq<Byte>, i: nat, pos: nat)
    ensures forall j :: 0 <= j < |Walk(blk, i, pos)| ==> Walk(blk, i, pos)[j].block == i
    decreases |blk| - pos
  {
    if pos + BASE_LEN <= |blk| {
      WalkBlock(blk, i, pos + BASE_LEN + RawAt(blk, i, pos).len);
    }
  }

  lemma {:induction false} RawWithin(blocks: seq<seq<Byte>>, i: nat)
    requires i <= |blocks|
    ensures forall j :: 0 <= j < |RawFrom(blocks, i)| ==> RawFrom(blocks, i)[j].block < |blocks|
    decreases |blocks| - i
  {
    if i < |blocks| {
      WalkBlock(blocks[i], i, 0);
      RawWithin(blocks, i + 1);
    }
  }

  lemma StartsWithHead(cfg: Config, blocks: seq<seq<Byte>>, rs: seq<Raw>, m: nat)
    requires 0 < m <= |rs| && Intact(cfg, blocks, rs, m).Some?
    ensures rs[0].tag == HEAD
  {
    if rs[0].tag != HEAD {
      StaysBroken(cfg, blocks, rs, 1, m);
    }
  }

  lemma VerdictIs(cfg: Config, blocks: seq<seq<Byte>>, rs: seq<Raw>, m: nat)
    requires m < |rs| && rs[m].block < |blocks|
    ensures Verdict(cfg, blocks[rs[m].block], rs[m], UpToTail(rs, m)) == Fail <==> BadEnd(cfg, blocks, rs, m)
  {
  }

  lemma OnlyBreak(cfg: Config, blocks: seq<seq<Byte>>, rs: seq<Raw>, m: nat, k: nat)
    requires m <= |rs| && Intact(cfg, blocks, rs, m).Some? && (m < |rs| ==> BreaksAt(cfg, blocks, rs, m))
    requires BreaksAt(cfg, blocks, rs, k)
    ensures k == m
  {
    SameEnd(cfg, blocks, rs, k, m);
  }

  /** The only tag the scan can end at is the first one that does not hold. */
  lemma FirstBreak(cfg: Config, blocks: seq<seq<Byte>>, k: nat)
    ensures var rs := RawFrom(blocks, 0);
            BreaksAt(cfg, blocks, rs, k) <==> k == Longest(cfg, blocks, rs, 0) < |rs|
  {
    var rs := RawFrom(blocks, 0);
    if BreaksAt(cfg, blocks, rs, k) {
      OnlyBreak(cfg, blocks, rs, Longest(cfg, blocks, rs, 0), k);
    }
  }

  /** The scan fails on areas it refuses, goes to their end if every tag holds, and stops before otherwise. */
  lemma OutcomeIs(cfg: Config, blocks: seq<seq<Byte>>)
    ensures Outcome(cfg, blocks) == Fail <==> ScanRefuses(cfg, blocks)
    ensures var rs := RawFrom(blocks, 0);
            Outcome(cfg, blocks) == Continue <==> Intact(cfg, blocks, rs, |rs|).Some?
  {
    var rs := RawFrom(blocks, 0);
    var m := Longest(cfg, blocks, rs, 0);
    RawWithin(blocks, 0);
    forall k: nat ensures BreaksAt(cfg, blocks, rs, k) <==> k == m < |rs| {
      FirstBreak(cfg, blocks, k);
    }
    if m < |rs| {
      assert BreaksAt(cfg, blocks, rs, m);
      VerdictIs(cfg, blocks, rs, m);
      StaysBroken(cfg, blocks, rs, m + 1, |rs|);
      if m > 0 {
        StartsWithHead(cfg, blocks, rs, m);
      }
    }
  }

  /** A scan that ended has counted them, and ended where they no longer hold together. */
  lemma EndedCount(cfg: Config, blocks: seq<seq<Byte>>, st: ScanState, k: nat)
    requires Ended(cfg, blocks, RawFrom(blocks, 0), st, k)
    ensures st.numTags == Replayable(cfg, blocks) && k == Longest(cfg, blocks, RawFrom(blocks, 0), 0)
  {
    var rs := RawFrom(blocks, 0);
    SameEnd(cfg, blocks, rs, k, Longest(cfg, blocks, rs, 0));
  }

  lemma SameEnd(cfg: Config, blocks: seq<seq<Byte>>, rs: seq<Raw>, k: nat, m: nat)
    requires k <= |rs| && Intact(cfg, blocks, rs, k).Some? && (k < |rs| ==> Intact(cfg, blocks, rs, k + 1).None?)
    requires m <= |rs| && Intact(cfg, blocks, rs, m).Some? && (m < |rs| ==> Intact(cfg, blocks, rs, m + 1).None?)
    ensures k == m
  {
    if k < m {
      StaysBroken(cfg, blocks, rs, k + 1, m);
    } else if m < k {
      StaysBroken(cfg, blocks, rs, m + 1, k);
    }
  }

  /** The scan pass over all blocks of the fast-commit area. */
  method ScanAll(cfg: Config, blocks: seq<seq<Byte>>) returns (st: ScanState, ret: Ret)
    requires forall i :: 0 <= i < |blocks| ==> |blocks[i]| >= BASE_LEN
    ensures st.numTags == Replayable(cfg, blocks) <= |RawFrom(blocks, 0)|
    ensures st.valid == CountAdds(RawFrom(blocks, 0), st.numTags)
    ensures ret == Outcome(cfg, blocks) && (ret == Fail <==> ScanRefuses(cfg, blocks))
  {
    OutcomeIs(cfg, blocks);
    if |blocks| > 0 && RawAt(blocks[0], 0, 0).tag != HEAD {
      NoHead(cfg, blocks);
      return INIT, Stop;
    }
    ghost var k;
    st, ret, k := ScanBlocks(cfg, blocks);
    EndedCount(cfg, blocks, st, k);
  }

  lemma NoHead(cfg: Config, blocks: seq<seq<Byte>>)
    requires |blocks| > 0 && |blocks[0]| >= BASE_LEN && RawAt(blocks[0], 0, 0).tag != HEAD
    ensures Replayable(cfg, blocks) == 0 && Outcome(cfg, blocks) == Stop
  {
    var rs := RawFrom(blocks, 0);
    WalkOn(blocks[0], 0, 0, BASE_LEN + RawAt(blocks[0], 0, 0).len);
    assert rs != [] && rs[0].tag != HEAD;
    assert Intact(cfg, blocks, rs, 1).None?;
  }

  method ScanBlocks(cfg: Config, blocks: seq<seq<Byte>>) returns (st: ScanState, ret: Ret, ghost k: nat)
    requires forall i :: 0 <= i < |blocks| ==> |blocks[i]| >= BASE_LEN
    requires |blocks| > 0 ==> RawAt(blocks[0], 0, 0).tag == HEAD
    ensures if ret == Continue then k == |RawFrom(blocks, 0)| && Ended(cfg, blocks, RawFrom(blocks, 0), st, k)
            else EndedBy(cfg, blocks, RawFrom(blocks, 0), st, k, ret)
    ensures |RawFrom(blocks, 0)| > 0 ==> RawFrom(blocks, 0)[0].tag == HEAD
  {
    st, ret, k := INIT, Continue, 0;
    ghost var rs := RawFrom(blocks, 0);
    if |blocks| > 0 {
      WalkOn(blocks[0], 0, 0, BASE_LEN + RawAt(blocks[0], 0, 0).len);
    }
    var i := 0;
    ghost var rest := rs;
    assert rs[0..] == rest;
    while i < |blocks|
      invariant 0 <= i <= |blocks| && k <= |rs| && rest == RawFrom(blocks, i) && rs[k..] == rest
      invariant Scanned(cfg, blocks, rs, st, k) && ret == Continue
      invariant |rs| > 0 ==> rs[0].tag == HEAD
    {
      rest := RawFrom(blocks, i + 1);
      st, ret, k := ScanBlock(cfg, st, blocks[i], i, blocks, rs, k, rest);
      if ret != Continue {
        return;
      }
      i := i + 1;
    }
    assert rs[k..] == [];
  }

  /** ext4_fc_replay on block i: dispatches tags while there are any left to replay.  Nothing is
      checked again.  `ok` says which handlers succeed. */
  method ReplayBlock(blk: seq<Byte>, i: nat, num0: nat, ok: Raw -> bool) returns (num: nat, ret: Ret, dispatched: seq<Raw>)
    ensures dispatched <= Walk(blk, i, 0) && num == num0 - |dispatched|
    ensures forall j :: 0 <= j < |dispatched| - 1 ==> ok(dispatched[j])
    ensures ret == Continue ==> dispatched == Walk(blk, i, 0) && forall j :: 0 <= j < |dispatched| ==> ok(dispatched[j])
    ensures ret == Stop ==> num == 0 && forall j :: 0 <= j < |dispatched| ==> ok(dispatched[j])
    ensures ret == Fail ==> |dispatched| > 0 && !ok(dispatched[|dispatched| - 1])
  {
    num, ret, dispatched := num0, Continue, [];
    if num == 0 {
      return num, Stop, [];
    }
    var cur := 0;
    ghost var all := Walk(blk, i, 0);
    ghost var w := all;
    while cur + BASE_LEN <= |blk|
      invariant ret == Continue && all == dispatched + w && w == Walk(blk, i, cur)
      invariant num + |dispatched| == num0
      invariant forall j :: 0 <= j < |dispatched| ==> ok(dispatched[j])
      decreases |blk| - cur
    {
      var r := RawAt(blk, i, cur);
      if num == 0 {
        return num, Stop, dispatched;
      }
      WalkOn(blk, i, cur, cur + BASE_LEN + r.len);
      Shift(all, dispatched, w);
      num, dispatched := num - 1, dispatched + [r];
      if !ok(r) {
        return num, Fail, dispatched;
      }
      cur, w := cur + BASE_LEN + r.len, w[1..];
    }
  }

  lemma Shift(all: seq<Raw>, d: seq<Raw>, w: seq<Raw>)
    requires all == d + w && w != []
    ensures all == (d + [w[0]]) + w[1..] && d + [w[0]] <= all
  {
  }

  /** The replay pass: the first num tags in order, up to the first handler that fails. */
  method ReplayAll(blocks: seq<seq<Byte>>, num0: nat, ok: Raw -> bool) returns (dispatched: seq<Raw>)
    requires num0 <= |RawFrom(blocks, 0)|
    ensures dispatched <= RawFrom(blocks, 0)[..num0]
    ensures forall j :: 0 <= j < |dispatched| - 1 ==> ok(dispatched[j])
    ensures |dispatched| < num0 ==> |dispatched| > 0 && !ok(dispatched[|dispatched| - 1])
  {
    dispatched := [];
    var num: nat := num0;
    var i := 0;
    ghost var rs, rest := RawFrom(blocks, 0), RawFrom(blocks, 0);
    assert rs == [] + rest;
    while i < |blocks|
      invariant 0 <= i <= |blocks| && rest == RawFrom(blocks, i) && rs == dispatched + rest
      invariant num + |dispatched| == num0
      invariant forall j :: 0 <= j < |dispatched| ==> ok(dispatched[j])
    {
      var ret, d;
      ghost var next := RawFrom(blocks, i + 1);
      num, ret, d := ReplayBlock(blocks[i], i, num, ok);
      Further(rs, dispatched, Walk(blocks[i], i, 0), next, d, num0);
      dispatched := dispatched + d;
      if ret != Continue {
        return;
      }
      i, rest := i + 1, next;
    }
  }

  lemma Further(rs: seq<Raw>, done: seq<Raw>, w: seq<Raw>, rest: seq<Raw>, d: seq<Raw>, n: nat)
    requires rs == done + (w + rest) && d <= w && |done + d| <= n <= |rs|
    ensures done + d <= rs[..n] && (d == w ==> rs == (done + d) + rest)
  {
    assert w == d + w[|d|..];
    assert rs == (done + d) + (w[|d|..] + rest);
  }

  /** Recovery: scan, then replay unless the scan reported an error.  Dispatched are tags in log order,
      never beyond the last TAIL that ends an intact prefix; all of them, unless a handler fails; and
      every one of them passed the scan's bounds and length checks although the replay does not look
      again. */
  method RecoverFastCommits(cfg: Config, blocks: seq<seq<Byte>>, ok: Raw -> bool)
      returns (dispatched: seq<Raw>, err: bool)
    requires forall i :: 0 <= i < |blocks| ==> |blocks[i]| >= BASE_LEN
    ensures err <==> ScanRefuses(cfg, blocks)
    ensures err ==> dispatched == []
    ensures var rs, n := RawFrom(blocks, 0), Replayable(cfg, blocks);
            && n <= |rs| && dispatched <= rs[..n]
            && (n > 0 ==> rs[n - 1].tag == TAIL) && Intact(cfg, blocks, rs, n).Some?
            && (forall j :: n <= j < |rs| && rs[j].tag == TAIL ==> Intact(cfg, blocks, rs, j + 1).None?)
            && (forall j :: 0 <= j < |dispatched| - 1 ==> ok(dispatched[j]))
            && (!err && |dispatched| < n ==> |dispatched| > 0 && !ok(dispatched[|dispatched| - 1]))
    ensures forall j :: 0 <= j < |dispatched| ==>
              dispatched[j].block < |blocks| && Sound(cfg, blocks[dispatched[j].block], dispatched[j])
  {
    var st, ret := ScanAll(cfg, blocks);
    ReplayedPrefix(cfg, blocks, st.numTags);
    err := ret == Fail;
    if err {
      return [], true;
    }
    dispatched := ReplayAll(blocks, st.numTags, ok);
    ghost var rs := RawFrom(blocks, 0);
    forall j | 0 <= j < |dispatched|
      ensures dispatched[j].block < |blocks| && Sound(cfg, blocks[dispatched[j].block], dispatched[j])
    {
      IntactSound(cfg, blocks, rs, st.numTags, j);
    }
  }

  /** The same with handlers that all succeed. */
  method RecoverAll(cfg: Config, blocks: seq<seq<Byte>>) returns (dispatched: seq<Raw>, err: bool)
    requires forall i :: 0 <= i < |blocks| ==> |blocks[i]| >= BASE_LEN
    ensures Replayable(cfg, blocks) <= |RawFrom(blocks, 0)|
    ensures err <==> ScanRefuses(cfg, blocks)
    ensures dispatched == if err then [] else RawFrom(blocks, 0)[..Replayable(cfg, blocks)]
  {
    dispatched, err := RecoverFastCommits(cfg, blocks, _ => true);
  }
}
