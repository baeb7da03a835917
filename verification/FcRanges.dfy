/** Which data a fast commit logs for an inode and what the records mean (__track_range and
    ext4_fc_write_inode_data of fast_commit.c; the on-disk extent of ext4_extents.h). */
module FcRanges {
  import opened Common
  import opened LittleEndian
  import opened FcFormat
  import opened FcScan
  import opened FcWriter

  const LBLK_LIMIT := 0xffff_ffff      // EXT_MAX_BLOCKS
  const PBLK_LIMIT := 0x1_0000_0000_0000
  const INIT_MAX := 0x8000             // EXT_INIT_MAX_LEN
  const UNWRITTEN_MAX := 0x7fff        // EXT_UNWRITTEN_MAX_LEN

  datatype Block = Block(pblk: nat, unwritten: bool)

  /** A file's mapping; a block that is not there is a hole. */
  type FileMap = map<nat, Block>

  function Look(m: FileMap, b: nat): Option<Block> {
    if b in m then Some(m[b]) else None
  }

  ghost predicate Within(m: FileMap) {
    forall b :: b in m ==> m[b].pblk < PBLK_LIMIT
  }

  // ----- what a log record means

  datatype Range = Add(lblk: nat, len: nat, pblk: nat, unwritten: bool) | Del(lblk: nat, len: nat) {
    /** Behind the last block.  The handler of DEL_RANGE computes the last block in 32 bits, which for no
        blocks at block 0 is the last there can be. */
    function End(): nat {
      if Del? && lblk == 0 && len == 0 then 0x1_0000_0000 else lblk + len
    }

    predicate Covers(b: nat) {
      lblk <= b < End()
    }

    /** The block's mapping after replay. */
    function At(b: nat): Option<Block>
      requires Covers(b)
    {
      if Add? then Some(Block(pblk + (b - lblk), unwritten)) else None
    }
  }

  /** Mapping of block b after all records: the last one that covers it decides. */
  function Value(rs: seq<Range>, b: nat, before: Option<Block>): Option<Block> {
    if rs == [] then before
    else
      var r := rs[|rs| - 1];
      if r.Covers(b) then r.At(b) else Value(rs[..|rs| - 1], b, before)
  }

  // ----- ext4_map_blocks

  /** How many blocks from lblk on, at most len, are alike: holes, or blocks that follow each other on
      disk in the same state. */
  ghost predicate Run(m: FileMap, lblk: nat, n: nat) {
    if lblk in m then
      forall i :: lblk <= i < lblk + n ==> i in m && m[i] == Block(m[lblk].pblk + (i - lblk), m[lblk].unwritten)
    else forall i :: lblk <= i < lblk + n ==> i !in m
  }

  /** What lies outside: how long a run a lookup reports at a block, at most; where a lookup fails; and
      where a change of the extent tree fails. */
  datatype Outside = Outside(most: nat -> nat, lookupFails: nat -> bool, editFails: nat -> bool) {
    predicate Fails(b: nat) {
      lookupFails(b) || editFails(b)
    }

    ghost function Failing(): nat -> bool {
      (b: nat) => Fails(b)
    }
  }

  /** What n blocks behind b belongs to the same run. */
  function Follow(b: Option<Block>, n: nat): Option<Block> {
    if b.Some? then Some(Block(b.value.pblk + n, b.value.unwritten)) else None
  }

  /** The run from lblk on, known to have n blocks and cut off at limit. */
  function RunFrom(m: FileMap, lblk: nat, n: nat, limit: int): (k: nat)
    ensures n <= k && (k == n || k <= limit)
    decreases limit - n
  {
    if n < limit && Look(m, lblk + n) == Follow(Look(m, lblk), n) then RunFrom(m, lblk, n + 1, limit) else n
  }

  /** How many blocks a lookup at cur reports of those before end. */
  function Stride(m: FileMap, cur: nat, end: nat, most: nat -> nat): (n: nat)
    requires cur < end
    ensures 1 <= n <= end - cur
  {
    RunFrom(m, cur, 1, Min(end - cur, most(cur)))
  }

  /** A lookup without allocation: it reports some run from lblk on, not always the longest, but at least
      one block; `most` says how long a run is reported at a block. */
  method MapBlocks(m: FileMap, lblk: nat, len: nat, most: nat -> nat) returns (n: nat, b: Option<Block>)
    requires len >= 1
    ensures n == Stride(m, lblk, lblk + len, most) && b == Look(m, lblk) && Run(m, lblk, n)
  {
    b, n := Look(m, lblk), 1;
    while n < len && n < most(lblk) && Look(m, lblk + n) == Follow(b, n)
      invariant 1 <= n <= len && Run(m, lblk, n)
      invariant Stride(m, lblk, lblk + len, most) == RunFrom(m, lblk, n, Min(len, most(lblk)))
    {
      n := n + 1;
    }
  }

  // ----- writing

  ghost predicate Small(r: Range) {
    && r.lblk < LBLK_LIMIT && 1 <= r.len <= LBLK_LIMIT
    && (r.Add? ==> r.len <= (if r.unwritten then UNWRITTEN_MAX else INIT_MAX) && r.pblk < PBLK_LIMIT)
  }

  /** The record for a run. */
  function Record(lblk: nat, n: nat, b: Option<Block>): Range {
    match b
    case None => Del(lblk, n)
    case Some(blk) =>
      var max := if blk.unwritten then UNWRITTEN_MAX else INIT_MAX;
      Add(lblk, if n < max then n else max, blk.pblk, blk.unwritten)
  }

  /** How far the log gets with the lookup at cur.  A lookup that reports no block is passed over. */
  function LogStride(m: FileMap, cur: nat, end: nat, most: nat -> nat): (n: nat)
    requires cur < end
    ensures 1 <= n <= end - cur
  {
    if most(cur) == 0 then 1 else Record(cur, Stride(m, cur, end, most), Look(m, cur)).len
  }

  function StrideOf(m: FileMap, cur: nat, end: nat, most: nat -> nat, log: bool): (n: nat)
    requires cur < end
    ensures 1 <= n <= end - cur
  {
    if log then LogStride(m, cur, end, most) else Stride(m, cur, end, most)
  }

  /** The blocks at which there is a lookup, if none fails: when logging from cur to end, or replaying. */
  ghost function Visits(m: FileMap, cur: nat, end: nat, most: nat -> nat, log: bool): set<nat>
    decreases end - cur
  {
    if cur >= end then {} else {cur} + Visits(m, cur + StrideOf(m, cur, end, most, log), end, most, log)
  }

  lemma {:induction false} VisitsWithin(m: FileMap, cur: nat, end: nat, most: nat -> nat, log: bool)
    ensures forall b :: b in Visits(m, cur, end, most, log) ==> cur <= b < end
    decreases end - cur
  {
    if cur < end {
      VisitsWithin(m, cur + StrideOf(m, cur, end, most, log), end, most, log);
    }
  }

  /** The lookup after the one at cur is a stride further, and there is none between. */
  lemma {:induction false} NextVisit(m: FileMap, start: nat, cur: nat, end: nat, most: nat -> nat, log: bool)
    requires cur in Visits(m, start, end, most, log) && cur < end
    ensures var next := cur + StrideOf(m, cur, end, most, log);
            && (next == end || next in Visits(m, start, end, most, log))
            && forall b :: b in Visits(m, start, end, most, log) ==> b <= cur || next <= b
    decreases end - start
  {
    var second := start + StrideOf(m, start, end, most, log);
    VisitsWithin(m, second, end, most, log);
    if cur != start {
      NextVisit(m, second, cur, end, most, log);
    }
  }

  /** The loop has come to block at: a lookup or the end, and no lookup before it fails. */
  ghost predicate ComesTo(visits: set<nat>, at: nat, end: nat, fails: nat -> bool) {
    && at <= end && (at == end || at in visits)
    && forall b :: b in visits && b < at ==> !fails(b)
  }

  lemma ComesFirst(m: FileMap, start: nat, end: nat, most: nat -> nat, log: bool, fails: nat -> bool)
    requires start <= end
    ensures ComesTo(Visits(m, start, end, most, log), start, end, fails)
  {
    VisitsWithin(m, start, end, most, log);
  }

  lemma ComesOn(m: FileMap, start: nat, at: nat, end: nat, most: nat -> nat, log: bool, fails: nat -> bool)
    requires ComesTo(Visits(m, start, end, most, log), at, end, fails) && at < end && !fails(at)
    ensures ComesTo(Visits(m, start, end, most, log), at + StrideOf(m, at, end, most, log), end, fails)
  {
    NextVisit(m, start, at, end, most, log);
  }

  /** It comes to the end exactly if no lookup fails. */
  lemma ComesToEnd(m: FileMap, start: nat, at: nat, end: nat, most: nat -> nat, log: bool, fails: nat -> bool)
    requires ComesTo(Visits(m, start, end, most, log), at, end, fails) && (at < end ==> fails(at))
    ensures at == end <==> forall b :: b in Visits(m, start, end, most, log) ==> !fails(b)
  {
    VisitsWithin(m, start, end, most, log);
  }

  /** No lookup of the logging fails. */
  ghost predicate LookupsOk(m: FileMap, start: nat, end: nat, out: Outside) {
    forall b :: b in Visits(m, start, end, out.most, true) ==> !out.lookupFails(b)
  }

  /** The blocks before cur that are passed over. */
  ghost function SkippedTo(m: FileMap, start: nat, cur: nat, end: nat, most: nat -> nat): set<nat> {
    set b | b in Visits(m, start, end, most, true) && b < cur && most(b) == 0
  }

  ghost function Skipped(m: FileMap, start: nat, end: nat, most: nat -> nat): set<nat> {
    SkippedTo(m, start, end, end, most)
  }

  lemma SkipsOn(m: FileMap, start: nat, cur: nat, end: nat, most: nat -> nat)
    requires cur in Visits(m, start, end, most, true) && cur < end
    ensures SkippedTo(m, start, cur + LogStride(m, cur, end, most), end, most) ==
            SkippedTo(m, start, cur, end, most) + if most(cur) == 0 then {cur} else {}
  {
    NextVisit(m, start, cur, end, most, true);
  }

  /** The records give blocks from start to end the mapping m, except the skipped ones, and leave all
      others alone. */
  ghost predicate LoggedBut(m: FileMap, rs: seq<Range>, start: nat, end: nat, skipped: set<nat>) {
    forall b: nat, before: Option<Block> ::
      Value(rs, b, before) == if start <= b < end && b !in skipped then Look(m, b) else before
  }

  ghost predicate Logged(m: FileMap, rs: seq<Range>, start: nat, end: nat) {
    LoggedBut(m, rs, start, end, {})
  }

  /** The records follow each other without gap or overlap from start to end. */
  ghost predicate Tiled(rs: seq<Range>, start: nat, end: nat) {
    if rs == [] then start == end
    else
      var r := rs[|rs| - 1];
      r.lblk + r.len == end && r.len >= 1 && Tiled(rs[..|rs| - 1], start, r.lblk)
  }

  lemma LogOne(m: FileMap, rs: seq<Range>, start: nat, cur: nat, n: nat, skipped: set<nat>)
    requires LoggedBut(m, rs, start, cur, skipped) && (forall b :: b in skipped ==> b < cur)
    requires start <= cur && n >= 1 && Run(m, cur, n)
    ensures var r := Record(cur, n, Look(m, cur));
            && r.lblk == cur && 1 <= r.len <= n && LoggedBut(m, rs + [r], start, cur + r.len, skipped)
            && (Tiled(rs, start, cur) ==> Tiled(rs + [r], start, cur + r.len))
  {
    var r := Record(cur, n, Look(m, cur));
    assert (rs + [r])[..|rs|] == rs;
    forall b: nat, before: Option<Block>
      ensures Value(rs + [r], b, before) == if start <= b < cur + r.len && b !in skipped then Look(m, b) else before
    {
      assert (rs + [r])[..|rs|] == rs;
    }
  }

  lemma SkipOne(m: FileMap, rs: seq<Range>, start: nat, cur: nat, skipped: set<nat>)
    requires LoggedBut(m, rs, start, cur, skipped) && start <= cur
    ensures LoggedBut(m, rs, start, cur + 1, skipped + {cur})
  {
    forall b: nat, before: Option<Block>
      ensures Value(rs, b, before) == if start <= b < cur + 1 && b !in skipped + {cur} then Look(m, b) else before
    {
    }
  }

  /** A skipped block is not logged. */
  lemma SkippedIsLost(m: FileMap, rs: seq<Range>, start: nat, end: nat, skipped: set<nat>)
    requires LoggedBut(m, rs, start, end, skipped) && forall b :: b in skipped ==> start <= b < end
    ensures Logged(m, rs, start, end) <==> skipped == {}
  {
    if skipped != {} {
      var b :| b in skipped;
      var other := if Look(m, b) == None then Some(Block(0, false)) else None;
      assert Value(rs, b, other) == other;
    }
  }

  /** The records so far, when the loop has come to cur. */
  ghost predicate LogTo(m: FileMap, rs: seq<Range>, start: nat, cur: nat, end: nat, most: nat -> nat) {
    var skipped := SkippedTo(m, start, cur, end, most);
    && start <= cur <= end && LoggedBut(m, rs, start, cur, skipped) && (skipped == {} ==> Tiled(rs, start, cur))
    && forall i :: 0 <= i < |rs| ==> Small(rs[i])
  }

  /** One turn of the loop: a lookup that does not fail, and its record if there is one. */
  method LogRound(m: FileMap, cur: nat, end: nat, rs: seq<Range>, most: nat -> nat, ghost start: nat)
      returns (rs': seq<Range>, cur': nat)
    requires Within(m) && end <= LBLK_LIMIT && cur < end && LogTo(m, rs, start, cur, end, most)
    requires cur in Visits(m, start, end, most, true)
    ensures cur' == cur + LogStride(m, cur, end, most) && LogTo(m, rs', start, cur', end, most)
  {
    SkipsOn(m, start, cur, end, most);
    ghost var skipped := SkippedTo(m, start, cur, end, most);
    if most(cur) == 0 {
      SkipOne(m, rs, start, cur, skipped);
      return rs, cur + 1;
    }
    var n, b := MapBlocks(m, cur, end - cur, most);
    var r := Record(cur, n, b);
    LogOne(m, rs, start, cur, n, skipped);
    assert SkippedTo(m, start, cur + r.len, end, most) == skipped;
    return rs + [r], cur + r.len;
  }

  /** ext4_fc_write_inode_data: it succeeds exactly if no lookup fails, and then the range is logged
      exactly if no lookup reports a run without blocks. */
  method WriteInodeData(m: FileMap, start: nat, len: nat, out: Outside) returns (ok: bool, rs: seq<Range>)
    requires Within(m) && start + len <= LBLK_LIMIT
    ensures ok <==> LookupsOk(m, start, start + len, out)
    ensures ok ==> LoggedBut(m, rs, start, start + len, Skipped(m, start, start + len, out.most))
    ensures ok ==> (Logged(m, rs, start, start + len) <==> Skipped(m, start, start + len, out.most) == {})
    ensures ok && Skipped(m, start, start + len, out.most) == {} ==> Tiled(rs, start, start + len)
    ensures forall i :: 0 <= i < |rs| ==> Small(rs[i])
  {
    rs := [];
    var cur, end := start, start + len;
    ghost var visits := Visits(m, start, end, out.most, true);
    NothingYet(m, start, end, out.most);
    ComesFirst(m, start, end, out.most, true, out.lookupFails);
    while cur < end && !out.lookupFails(cur)
      invariant ComesTo(visits, cur, end, out.lookupFails) && LogTo(m, rs, start, cur, end, out.most)
    {
      ComesOn(m, start, cur, end, out.most, true, out.lookupFails);
      rs, cur := LogRound(m, cur, end, rs, out.most, start);
    }
    ComesToEnd(m, start, cur, end, out.most, true, out.lookupFails);
    ok := cur == end;
    if ok {
      VisitsWithin(m, start, end, out.most, true);
      SkippedIsLost(m, rs, start, end, Skipped(m, start, end, out.most));
    }
  }

  lemma NothingYet(m: FileMap, start: nat, end: nat, most: nat -> nat)
    requires start <= end
    ensures LogTo(m, [], start, start, end, most)
  {
    VisitsWithin(m, start, end, most, true);
  }

  // ----- the on-disk extent

  /** ee_len: mark_unwritten sets the top bit. */
  function StoredLen(len: nat, unwritten: bool): (ee: nat)
    requires 1 <= len <= (if unwritten then UNWRITTEN_MAX else INIT_MAX)
    ensures ee < 0x1_0000 && ActualLen(ee) == len && IsUnwritten(ee) == unwritten
  {
    if unwritten then len + INIT_MAX else len
  }

  function ActualLen(ee: nat): nat {
    if ee <= INIT_MAX then ee else ee - INIT_MAX
  }

  predicate IsUnwritten(ee: nat) {
    ee > INIT_MAX
  }

  /** The length can be stored with the state, as every length that was read back can. */
  predicate Storable(r: Range) {
    r.Add? ==> r.len <= if r.unwritten then UNWRITTEN_MAX else INIT_MAX
  }

  /** The record for a run takes all of it, or as much as can be stored. */
  lemma RecordLongest(lblk: nat, n: nat, b: Option<Block>, k: nat)
    requires n >= 1 && k <= n
    ensures var r := Record(lblk, n, b);
            && r.lblk == lblk && r.len <= n && Storable(r) && (r.Del? <==> b.None?)
            && (Storable(r.(len := k)) ==> k <= r.len)
            && (r.Add? ==> Some(Block(r.pblk, r.unwritten)) == b)
  {
  }

  /** struct ext4_fc_add_range and struct ext4_fc_del_range. */
  function Encode(ino: U32, r: Range): (t: Tlv)
    requires Small(r)
  {
    match r
    case Add(lblk, len, pblk, unwritten) =>
      var hi, lo := pblk / 0x1_0000_0000, pblk % 0x1_0000_0000;
      Tlv(ADD_RANGE, Le32(ino) + Le32(lblk) + Le16(StoredLen(len, unwritten)) + Le16(hi) + Le32(lo))
    case Del(lblk, len) =>
      Tlv(DEL_RANGE, Le32(ino) + Le32(lblk) + Le32(len))
  }

  /** What the replay handlers read back. */
  function Decode(t: Tlv): (d: (U32, Range))
    requires (t.tag == ADD_RANGE && |t.val| == 16) || (t.tag == DEL_RANGE && |t.val| == 12)
    ensures Storable(d.1)
  {
    var v := t.val;
    var ino, lblk := Get32(v[0..4]), Get32(v[4..8]);
    if t.tag == ADD_RANGE then
      var ee, hi, lo := Get16(v[8..10]), Get16(v[10..12]), Get32(v[12..16]);
      (ino, Add(lblk, ActualLen(ee), hi * 0x1_0000_0000 + lo, IsUnwritten(ee)))
    else (ino, Del(lblk, Get32(v[8..12])))
  }

  /** Records survive their on-disk form, and pass the scan. */
  lemma RoundTrip(cfg: Config, ino: U32, r: Range)
    requires Small(r)
    ensures Content(cfg, Encode(ino, r)) && Decode(Encode(ino, r)) == (ino, r)
  {
    if r.Add? {
      var lo, hi := r.pblk % 0x1_0000_0000, r.pblk / 0x1_0000_0000;
      AddFields(Le32(ino), Le32(r.lblk), Le16(StoredLen(r.len, r.unwritten)), Le16(hi), Le32(lo));
    } else {
      DelFields(Le32(ino), Le32(r.lblk), Le32(r.len));
    }
  }

  /** Where the fields of a record are: the inode, the first block, and the length with the unwritten mark in
      its top bit before the upper and the lower part of the physical block, or the plain length. */
  lemma RangeLayout(ino: U32, r: Range)
    requires Small(r)
    ensures var v := Encode(ino, r).val;
            && |v| == (if r.Add? then 16 else 12) && v[0..4] == Le32(ino) && v[4..8] == Le32(r.lblk)
            && (r.Del? ==> v[8..12] == Le32(r.len))
            && (r.Add? ==>
                  && v[8..10] == Le16(r.len + if r.unwritten then 0x8000 else 0)
                  && v[10..12] == Le16(r.pblk / 0x1_0000_0000) && v[12..16] == Le32(r.pblk % 0x1_0000_0000))
  {
    if r.Add? {
      var lo, hi := r.pblk % 0x1_0000_0000, r.pblk / 0x1_0000_0000;
      AddFields(Le32(ino), Le32(r.lblk), Le16(StoredLen(r.len, r.unwritten)), Le16(hi), Le32(lo));
    } else {
      DelFields(Le32(ino), Le32(r.lblk), Le32(r.len));
    }
  }

  lemma AddFields(a: seq<Byte>, b: seq<Byte>, c: seq<Byte>, d: seq<Byte>, e: seq<Byte>)
    requires |a| == 4 && |b| == 4 && |c| == 2 && |d| == 2 && |e| == 4
    ensures var v := a + b + c + d + e;
            v[0..4] == a && v[4..8] == b && v[8..10] == c && v[10..12] == d && v[12..16] == e
  {
  }

  lemma DelFields(a: seq<Byte>, b: seq<Byte>, c: seq<Byte>)
    requires |a| == 4 && |b| == 4 && |c| == 4
    ensures var v := a + b + c; v[0..4] == a && v[4..8] == b && v[8..12] == c
  {
  }

  // ----- tracking

  predicate Between(s: nat, e: nat, b: nat) {
    s <= b <= e
  }

  function Interval(s: nat, e: nat): set<nat> {
    set b: nat | b <= e && Between(s, e, b)
  }

  /** i_fc_lblk_start and i_fc_lblk_len of an inode. */
  class Tracker {
    var start: nat
    var len: nat
    ghost var tracked: set<nat>  // blocks changed since the last commit

    /** The range is the hull of the tracked blocks: none is outside, and both its ends are tracked. */
    ghost predicate Valid()
      reads this
    {
      && start + len <= LBLK_LIMIT && (forall b :: b in tracked ==> start <= b < start + len)
      && (len > 0 ==> start in tracked && start + len - 1 in tracked)
    }

    constructor ()
      ensures Valid() && tracked == {}
    {
      start, len, tracked := 0, 0, {};
    }

    /** __track_range; update says that the inode was tracked in this transaction before. */
    method Track(update: bool, s: nat, e: nat)
      requires Valid() && s <= e < LBLK_LIMIT
      modifies this
      ensures Valid() && tracked == (if update then old(tracked) else {}) + Interval(s, e)
    {
      var oldstart := start;
      if update && len > 0 {
        start := if start < s then start else s;
        len := (if oldstart + len - 1 > e then oldstart + len - 1 else e) - start + 1;
        tracked := tracked + Interval(s, e);
      } else {
        start := s;
        len := e - s + 1;
        tracked := (if update then tracked else {}) + Interval(s, e);
      }
    }

    /** The inode's part of a commit: the records give every tracked block its mapping m, but for those
        at which a lookup reports no block. */
    method Commit(m: FileMap, out: Outside) returns (ok: bool, rs: seq<Range>, ghost skipped: set<nat>)
      requires Valid() && Within(m)
      modifies this
      ensures Valid() && tracked == {} && len == 0
      ensures ok <==> LookupsOk(m, old(start), old(start + len), out)
      ensures skipped == Skipped(m, old(start), old(start + len), out.most)
      ensures ok ==> LoggedBut(m, rs, old(start), old(start + len), skipped)
      ensures ok ==> forall b: nat, before: Option<Block> :: b in old(tracked) && b !in skipped ==>
                                                               Value(rs, b, before) == Look(m, b)
      ensures forall i :: 0 <= i < |rs| ==> Small(rs[i])
    {
      skipped := Skipped(m, start, start + len, out.most);
      ok, rs := WriteInodeData(m, start, len, out);
      len, tracked := 0, {};
    }
  }

  /** A lookup that reports no block loses the block, and the commit still succeeds. */
  method ZeroRunLosesBlock() returns (ok: bool, rs: seq<Range>)
    ensures ok && !Logged(map[0 := Block(5, false)], rs, 0, 1)
  {
    var out := Outside(_ => 0, _ => false, _ => false);
    ok, rs := WriteInodeData(map[0 := Block(5, false)], 0, 1, out);
    assert 0 in Visits(map[0 := Block(5, false)], 0, 1, out.most, true);
    assert 0 in Skipped(map[0 := Block(5, false)], 0, 1, out.most);
  }
}
