/** Blocks that are tiled by TLVs: what the scan makes of them. */
module FcTiling {
  import opened Common
  import opened LittleEndian
  import opened FcFormat
  import opened FcScan

  /** The TLVs of blocks i, i+1, ... one after another. */
  function Flat(tss: seq<seq<Tlv>>, i: nat): seq<Tlv>
    requires i <= |tss|
    decreases |tss| - i
  {
    if i == |tss| then [] else tss[i] + Flat(tss, i + 1)
  }

  lemma {:induction false} FlatAppend(tss: seq<seq<Tlv>>, ts: seq<Tlv>, i: nat)
    requires i <= |tss|
    ensures Flat(tss + [ts], i) == Flat(tss, i) + ts
    decreases |tss| - i
  {
    if i == |tss| {
      assert (tss + [ts])[i] == ts;
    } else {
      FlatAppend(tss, ts, i + 1);
    }
  }

  /** The block is these TLVs and nothing else. */
  ghost predicate Tiles(blk: seq<Byte>, ts: seq<Tlv>) {
    AllFit(ts) && blk == EncodeAll(ts)
  }

  /** The TLVs as the walk over block i meets them. */
  function Raws(i: nat, pos: nat, ts: seq<Tlv>): (rs: seq<Raw>)
    ensures |rs| == |ts|
    decreases |ts|
  {
    if ts == [] then [] else [Raw(i, pos, ts[0].tag, |ts[0].val|)] + Raws(i, pos + ts[0].Size(), ts[1..])
  }

  lemma SubSlice(s: seq<Byte>, a: nat, b: nat, c: nat, d: nat)
    requires a <= b <= |s| && c <= d <= b - a
    ensures s[a..b][c..d] == s[a + c..a + d]
  {
    forall x | 0 <= x < d - c ensures s[a..b][c..d][x] == s[a + c..a + d][x] {
    }
  }

  /** The first TLV of a tiled rest, and the rest after it. */
  lemma Head(blk: seq<Byte>, i: nat, pos: nat, ts: seq<Tlv>)
    requires pos <= |blk| && AllFit(ts) && ts != [] && blk[pos..] == EncodeAll(ts)
    ensures var t := ts[0];
            && pos + t.Size() <= |blk| && blk[pos..pos + t.Size()] == t.Encode()
            && blk[pos + t.Size()..] == EncodeAll(ts[1..])
            && RawAt(blk, i, pos) == Raw(i, pos, t.tag, |t.val|)
  {
    var t := ts[0];
    var e, n := t.Encode(), t.Size();
    assert blk[pos..][..n] == e && blk[pos..][n..] == EncodeAll(ts[1..]);
    assert blk[pos..pos + n] == blk[pos..][..n] && blk[pos + n..] == blk[pos..][n..];
    assert e == Le16(t.tag) + (Le16(|t.val|) + t.val);
    assert e[0..2] == Le16(t.tag) && e[2..4] == Le16(|t.val|);
    SubSlice(blk, pos, pos + n, 0, 2);
    SubSlice(blk, pos, pos + n, 2, 4);
  }

  /** A tiled block is walked TLV by TLV, to its very end. */
  lemma {:induction false} WalkTiles(blk: seq<Byte>, i: nat, pos: nat, ts: seq<Tlv>)
    requires pos <= |blk| && AllFit(ts) && blk[pos..] == EncodeAll(ts)
    ensures Walk(blk, i, pos) == Raws(i, pos, ts)
    decreases |ts|
  {
    if ts == [] {
      assert pos == |blk|;
    } else {
      Head(blk, i, pos, ts);
      WalkTiles(blk, i, pos + ts[0].Size(), ts[1..]);
      OneStep(blk, i, pos, ts, Raw(i, pos, ts[0].tag, |ts[0].val|), Raws(i, pos + ts[0].Size(), ts[1..]));
    }
  }

  lemma OneStep(blk: seq<Byte>, i: nat, pos: nat, ts: seq<Tlv>, r: Raw, rest: seq<Raw>)
    requires ts != [] && pos + BASE_LEN <= |blk| && r == RawAt(blk, i, pos) == Raw(i, pos, ts[0].tag, |ts[0].val|)
    requires rest == Walk(blk, i, pos + ts[0].Size()) && rest == Raws(i, pos + ts[0].Size(), ts[1..])
    ensures Walk(blk, i, pos) == Raws(i, pos, ts)
  {
    WalkHead(blk, i, pos);
    RawsHead(i, pos, ts);
    assert Walk(blk, i, pos) == [r] + rest;
  }

  lemma WalkHead(blk: seq<Byte>, i: nat, pos: nat)
    requires pos + BASE_LEN <= |blk|
    ensures Walk(blk, i, pos) == [RawAt(blk, i, pos)] + Walk(blk, i, pos + BASE_LEN + RawAt(blk, i, pos).len)
  {
  }

  lemma RawsHead(i: nat, pos: nat, ts: seq<Tlv>)
    requires ts != []
    ensures Raws(i, pos, ts) == [Raw(i, pos, ts[0].tag, |ts[0].val|)] + Raws(i, pos + ts[0].Size(), ts[1..])
  {
  }

  /** The k-th of them lies in the block where the walk finds it. */
  lemma {:induction false} RawBytes(blk: seq<Byte>, i: nat, pos: nat, ts: seq<Tlv>, k: nat)
    requires pos <= |blk| && AllFit(ts) && blk[pos..] == EncodeAll(ts)
    ensures k < |ts| ==>
              var r := Raws(i, pos, ts)[k];
              && r.block == i && r.tag == ts[k].tag && r.len == |ts[k].val|
              && r.pos + BASE_LEN + r.len <= |blk| && Bytes(blk, r) == ts[k].Encode()
    decreases |ts|
  {
    if k < |ts| {
      Head(blk, i, pos, ts);
      if k > 0 {
        RawBytes(blk, i, pos + ts[0].Size(), ts[1..], k - 1);
      }
    }
  }

  /** The checksum after t, of c before it, if t holds. */
  function TlvNext(cfg: Config, c: U32, t: Tlv, first: bool): Option<U32> {
    if !t.Fits() || !ValueLenValid(t.tag, |t.val|, cfg.inodeSize) || (first && t.tag != HEAD) then None
    else if t.tag == TAIL then
      if Get32(t.val[..4]) == cfg.tid && Get32(t.val[4..8]) == Sum(cfg.step, c, t.Header() + t.val[..4])
      then Some(0) else None
    else if t.tag == HEAD && !(Get32(t.val[..4]) == 0 && Get32(t.val[4..8]) == cfg.tid) then None
    else Some(Sum(cfg.step, c, t.Encode()))
  }

  /** The same judgement as the scan's, on TLVs: the checksum since the last TAIL if all hold. */
  function TlvCrc(cfg: Config, ts: seq<Tlv>): Option<U32> {
    if ts == [] then Some(0)
    else
      var n := |ts| - 1;
      var c := TlvCrc(cfg, ts[..n]);
      if c.None? then None else TlvNext(cfg, c.value, ts[n], n == 0)
  }

  lemma TlvCrcAppend(cfg: Config, ts: seq<Tlv>, t: Tlv)
    requires t.Fits() && ValueLenValid(t.tag, |t.val|, cfg.inodeSize) && (ts == [] ==> t.tag == HEAD)
    requires TlvCrc(cfg, ts).Some? && t.tag != TAIL
    requires t.tag == HEAD ==> Get32(t.val[..4]) == 0 && Get32(t.val[4..8]) == cfg.tid
    ensures TlvCrc(cfg, ts + [t]) == Some(Sum(cfg.step, TlvCrc(cfg, ts).value, t.Encode()))
  {
    assert (ts + [t])[..|ts|] == ts;
  }

  lemma TlvCrcTail(cfg: Config, ts: seq<Tlv>, t: Tlv)
    requires t.Fits() && t.tag == TAIL && |t.val| >= 8 && ts != [] && TlvCrc(cfg, ts).Some?
    requires Get32(t.val[..4]) == cfg.tid
    requires Get32(t.val[4..8]) == Sum(cfg.step, TlvCrc(cfg, ts).value, t.Header() + t.val[..4])
    ensures TlvCrc(cfg, ts + [t]) == Some(0)
  {
    assert (ts + [t])[..|ts|] == ts;
  }

  /** Each of the first blocks is tiled. */
  ghost predicate AllTiled(blocks: seq<seq<Byte>>, tss: seq<seq<Tlv>>) {
    |tss| <= |blocks| && forall i :: 0 <= i < |tss| ==> Tiles(blocks[i], tss[i])
  }

  /** The raw tags of the first blocks are their TLVs in order, bytes included. */
  ghost predicate Matches(blocks: seq<seq<Byte>>, rs: seq<Raw>, ts: seq<Tlv>) {
    && |ts| <= |rs|
    && forall k :: 0 <= k < |ts| ==> RawIs(blocks, rs[k], ts[k])
  }

  ghost predicate RawIs(blocks: seq<seq<Byte>>, r: Raw, t: Tlv) {
    && t.Fits() && r.block < |blocks| && r.tag == t.tag && r.len == |t.val|
    && r.pos + BASE_LEN + r.len <= |blocks[r.block]| && Bytes(blocks[r.block], r) == t.Encode()
  }

  /** The fields of a TAIL or HEAD, in the block and in the TLV. */
  lemma SameFields(blk: seq<Byte>, r: Raw, t: Tlv)
    requires t.Fits() && r.len == |t.val| >= 8 && r.pos + BASE_LEN + r.len <= |blk| && Bytes(blk, r) == t.Encode()
    ensures blk[r.pos + 4..r.pos + 8] == t.val[..4] && blk[r.pos + 8..r.pos + 12] == t.val[4..8]
    ensures blk[r.pos..r.pos + 8] == t.Header() + t.val[..4]
  {
    SubSlice(blk, r.pos, r.pos + BASE_LEN + r.len, 4, 8);
    SubSlice(blk, r.pos, r.pos + BASE_LEN + r.len, 8, 12);
    SubSlice(blk, r.pos, r.pos + BASE_LEN + r.len, 0, 8);
    Behind(t.Header(), t.val);
  }

  lemma Behind(h: seq<Byte>, v: seq<Byte>)
    requires |h| == 4 && |v| >= 8
    ensures (h + v)[4..8] == v[..4] && (h + v)[8..12] == v[4..8] && (h + v)[0..8] == h + v[..4]
  {
  }

  lemma SameJudgement(cfg: Config, blk: seq<Byte>, r: Raw, t: Tlv, c: U32)
    requires t.Fits() && r.tag == t.tag && r.len == |t.val| && r.pos + BASE_LEN + r.len <= |blk|
    requires Bytes(blk, r) == t.Encode() && ValueLenValid(t.tag, |t.val|, cfg.inodeSize)
    ensures t.tag == TAIL ==>
              (TailMatches(cfg, blk, r, c) <==>
               Get32(t.val[..4]) == cfg.tid && Get32(t.val[4..8]) == Sum(cfg.step, c, t.Header() + t.val[..4]))
    ensures t.tag == HEAD ==> (HeadOk(cfg, blk, r) <==> Get32(t.val[..4]) == 0 && Get32(t.val[4..8]) == cfg.tid)
  {
    if t.tag == TAIL || t.tag == HEAD {
      SameFields(blk, r, t);
    }
  }

  lemma {:induction false} IntactIs(cfg: Config, blocks: seq<seq<Byte>>, rs: seq<Raw>, ts: seq<Tlv>, k: nat)
    requires Matches(blocks, rs, ts) && k <= |ts|
    ensures Intact(cfg, blocks, rs, k) == TlvCrc(cfg, ts[..k])
  {
    if k > 0 {
      IntactIs(cfg, blocks, rs, ts, k - 1);
      assert RawIs(blocks, rs[k - 1], ts[k - 1]);
      assert ts[..k] == ts[..k - 1] + [ts[k - 1]];
      OneMore(cfg, blocks, rs, k, ts[..k - 1], ts[k - 1]);
    }
  }

  lemma OneMore(cfg: Config, blocks: seq<seq<Byte>>, rs: seq<Raw>, k: nat, before: seq<Tlv>, t: Tlv)
    requires 0 < k <= |rs| && |before| == k - 1 && RawIs(blocks, rs[k - 1], t)
    ensures Intact(cfg, blocks, rs, k - 1) == TlvCrc(cfg, before) ==>
              Intact(cfg, blocks, rs, k) == TlvCrc(cfg, before + [t])
  {
    var c := TlvCrc(cfg, before);
    TlvCrcStep(cfg, before, t);
    IntactStep(cfg, blocks, rs, k);
    if c.Some? {
      SameNext(cfg, blocks, rs[k - 1], t, c.value, k == 1);
    }
  }

  lemma TlvCrcStep(cfg: Config, ts: seq<Tlv>, t: Tlv)
    ensures TlvCrc(cfg, ts + [t]) ==
            if TlvCrc(cfg, ts).None? then None else TlvNext(cfg, TlvCrc(cfg, ts).value, t, |ts| == 0)
  {
    assert (ts + [t])[..|ts|] == ts;
  }

  lemma {:induction false} TlvCrcPrefix(cfg: Config, a: seq<Tlv>, b: seq<Tlv>)
    requires TlvCrc(cfg, a + b).Some?
    ensures TlvCrc(cfg, a).Some?
  {
    if b == [] {
      assert a + b == a;
    } else {
      var n := |b| - 1;
      assert a + b == (a + b[..n]) + [b[n]];
      TlvCrcStep(cfg, a + b[..n], b[n]);
      TlvCrcPrefix(cfg, a, b[..n]);
    }
  }

  lemma IntactStep(cfg: Config, blocks: seq<seq<Byte>>, rs: seq<Raw>, k: nat)
    requires 0 < k <= |rs|
    ensures var c := Intact(cfg, blocks, rs, k - 1);
            Intact(cfg, blocks, rs, k) == if c.None? then None else Next(cfg, blocks, c.value, rs[k - 1], k == 1)
  {
  }

  lemma SameNext(cfg: Config, blocks: seq<seq<Byte>>, r: Raw, t: Tlv, c: U32, first: bool)
    requires RawIs(blocks, r, t)
    ensures Next(cfg, blocks, c, r, first) == TlvNext(cfg, c, t, first)
  {
    if ValueLenValid(t.tag, |t.val|, cfg.inodeSize) {
      SameJudgement(cfg, blocks[r.block], r, t, c);
    }
  }

  lemma {:induction false} TiledMatches(blocks: seq<seq<Byte>>, tss: seq<seq<Tlv>>, i: nat)
    requires AllTiled(blocks, tss) && i <= |tss|
    ensures Matches(blocks, RawFrom(blocks, i), Flat(tss, i))
    decreases |tss| - i
  {
    if i < |tss| {
      TiledMatches(blocks, tss, i + 1);
      OneBlock(blocks, tss[i], i);
      MatchesConcat(blocks, Walk(blocks[i], i, 0), tss[i], RawFrom(blocks, i + 1), Flat(tss, i + 1));
    }
  }

  lemma OneBlock(blocks: seq<seq<Byte>>, ts: seq<Tlv>, i: nat)
    requires i < |blocks| && Tiles(blocks[i], ts)
    ensures |Walk(blocks[i], i, 0)| == |ts| && Matches(blocks, Walk(blocks[i], i, 0), ts)
  {
    var blk := blocks[i];
    assert blk[0..] == EncodeAll(ts);
    WalkTiles(blk, i, 0, ts);
    forall k | 0 <= k < |ts| ensures RawIs(blocks, Raws(i, 0, ts)[k], ts[k]) {
      RawBytes(blk, i, 0, ts, k);
    }
  }

  lemma MatchesConcat(blocks: seq<seq<Byte>>, r1: seq<Raw>, t1: seq<Tlv>, r2: seq<Raw>, t2: seq<Tlv>)
    requires |r1| == |t1| && Matches(blocks, r1, t1) && Matches(blocks, r2, t2)
    ensures Matches(blocks, r1 + r2, t1 + t2)
  {
    forall k | 0 <= k < |t1 + t2| ensures RawIs(blocks, (r1 + r2)[k], (t1 + t2)[k]) {
      if k < |t1| {
        assert RawIs(blocks, r1[k], t1[k]);
      } else {
        assert RawIs(blocks, r2[k - |t1|], t2[k - |t1|]);
      }
    }
  }
}
