/** The commit side of fast commits: packing TLVs into journal blocks (ext4_fc_reserve_space,
    ext4_fc_add_tlv, ext4_fc_write_tail, ext4_fc_perform_commit of fast_commit.c). */
module FcWriter {
  import opened Common
  import opened Clusters
  import opened LittleEndian
  import opened FcFormat
  import opened FcScan
  import opened FcTiling

  function Zeros(n: nat): (z: seq<Byte>)
    ensures |z| == n
  {
    seq(n, _ => 0)
  }

  /** The PAD that fills up what is left of a block. */
  function Pad(left: nat): (t: Tlv)
    requires BASE_LEN <= left <= 0x1_0000
    ensures t.Fits() && t.Size() == left && t.tag == PAD
  {
    Tlv(PAD, Zeros(left - BASE_LEN))
  }

  /** The tags that are not padding. */
  function Payload(ts: seq<Tlv>): seq<Tlv> {
    if ts == [] then []
    else
      var n := |ts| - 1;
      if ts[n].tag == PAD then Payload(ts[..n]) else Payload(ts[..n]) + [ts[n]]
  }

  lemma PayloadAppend(ts: seq<Tlv>, t: Tlv)
    ensures Payload(ts + [t]) == if t.tag == PAD then Payload(ts) else Payload(ts) + [t]
  {
    assert (ts + [t])[..|ts|] == ts;
  }

  lemma {:induction false} BufferOffset(n: nat, bsize: nat, off: nat)
    requires off < bsize
    ensures COff(bsize, C2B(bsize, n) + off) == off
  {
    if n > 0 {
      BufferOffset(n - 1, bsize, off);
    }
  }

  /** The scan would accept t after all. */
  ghost predicate MayFollow(cfg: Config, all: seq<Tlv>, t: Tlv) {
    && t.Fits() && ValueLenValid(t.tag, |t.val|, cfg.inodeSize) && t.tag != TAIL && (all == [] ==> t.tag == HEAD)
    && (t.tag == HEAD ==> Get32(t.val[..4]) == 0 && Get32(t.val[4..8]) == cfg.tid)
  }

  lemma GrownCrc(cfg: Config, all: seq<Tlv>, bytes: seq<Byte>, t: Tlv)
    requires MayFollow(cfg, all, t)
    ensures TlvCrc(cfg, all) == Some(Sum(cfg.step, 0, bytes)) ==>
              TlvCrc(cfg, all + [t]) == Some(Sum(cfg.step, 0, bytes + t.Encode()))
  {
    if TlvCrc(cfg, all).Some? {
      TlvCrcAppend(cfg, all, t);
      SumConcat(cfg.step, 0, bytes, t.Encode());
    }
  }

  lemma GrownBytes(cur: seq<Tlv>, buf: seq<Byte>, t: Tlv)
    requires AllFit(cur) && buf == EncodeAll(cur) && t.Fits()
    ensures AllFit(cur + [t]) && EncodeAll(cur + [t]) == buf + t.Encode()
  {
    EncodeConcat(cur, [t]);
    EncodeOne(t);
  }

  lemma Assoc<T>(a: seq<T>, b: seq<T>, c: seq<T>)
    ensures a + (b + c) == (a + b) + c
  {
  }

  /** One more TLV in the open buffer. */
  lemma Grown(cfg: Config, prior: seq<Tlv>, cur: seq<Tlv>, sent: seq<Byte>, buf: seq<Byte>, t: Tlv)
    requires AllFit(cur) && buf == EncodeAll(cur) && MayFollow(cfg, prior + cur, t)
    ensures AllFit(cur + [t]) && EncodeAll(cur + [t]) == buf + t.Encode()
    ensures prior + (cur + [t]) == (prior + cur) + [t] && sent + (buf + t.Encode()) == (sent + buf) + t.Encode()
    ensures TlvCrc(cfg, prior + cur) == Some(Sum(cfg.step, 0, sent + buf)) ==>
              TlvCrc(cfg, prior + (cur + [t])) == Some(Sum(cfg.step, 0, sent + (buf + t.Encode())))
  {
    GrownBytes(cur, buf, t);
    GrownCrc(cfg, prior + cur, sent + buf, t);
    Assoc(prior, cur, [t]);
    Assoc(sent, buf, t.Encode());
  }

  /** Submitted blocks are full and tiled. */
  ghost predicate Full(blocks: seq<seq<Byte>>, tss: seq<seq<Tlv>>, bsize: nat) {
    |tss| == |blocks| && AllTiled(blocks, tss) && forall i :: 0 <= i < |blocks| ==> |blocks[i]| == bsize
  }

  lemma OneMoreBlock(blocks: seq<seq<Byte>>, tss: seq<seq<Tlv>>, bsize: nat, b: seq<Byte>, ts: seq<Tlv>)
    requires Full(blocks, tss, bsize) && Tiles(b, ts) && |b| == bsize
    ensures Full(blocks + [b], tss + [ts], bsize) && Flat(tss + [ts], 0) == Flat(tss, 0) + ts
  {
    FlatAppend(tss, ts, 0);
  }

  /** Every TLV so far would pass the scan, whose checksum is over the bytes of this commit.  Submitted
      are the blocks, tiled by tss; sent are those of this commit; buf, holding cur, is still open. */
  ghost predicate Good(cfg: Config, bsize: nat, blocks: seq<seq<Byte>>, tss: seq<seq<Tlv>>, sent: seq<Byte>,
                       buf: seq<Byte>, cur: seq<Tlv>, bytes: nat) {
    && 32 <= bsize <= 0x1_0000 && Full(blocks, tss, bsize)
    && AllFit(cur) && buf == EncodeAll(cur) && |buf| <= bsize - BASE_LEN
    && bytes == C2B(bsize, |blocks|) + |buf|
    && TlvCrc(cfg, Flat(tss, 0) + cur) == Some(Sum(cfg.step, 0, sent + buf))
  }

  lemma GoodPut(cfg: Config, bsize: nat, blocks: seq<seq<Byte>>, tss: seq<seq<Tlv>>, sent: seq<Byte>,
                buf: seq<Byte>, cur: seq<Tlv>, bytes: nat, t: Tlv)
    requires Good(cfg, bsize, blocks, tss, sent, buf, cur, bytes)
    requires |buf| + t.Size() <= bsize - BASE_LEN && MayFollow(cfg, Flat(tss, 0) + cur, t)
    ensures Good(cfg, bsize, blocks, tss, sent, buf + t.Encode(), cur + [t], bytes + t.Size())
    ensures Flat(tss, 0) + (cur + [t]) == (Flat(tss, 0) + cur) + [t]
  {
    Grown(cfg, Flat(tss, 0), cur, sent, buf, t);
  }

  /** Submitting a whole block; sent is what the scan's checksum then covers. */
  lemma GoodBlock(cfg: Config, bsize: nat, blocks: seq<seq<Byte>>, tss: seq<seq<Tlv>>, b: seq<Byte>, ts: seq<Tlv>,
                  sent: seq<Byte>)
    requires 32 <= bsize <= 0x1_0000 && Full(blocks, tss, bsize) && Tiles(b, ts) && |b| == bsize
    requires TlvCrc(cfg, Flat(tss, 0) + ts) == Some(Sum(cfg.step, 0, sent))
    ensures Good(cfg, bsize, blocks + [b], tss + [ts], sent, [], [], C2B(bsize, |blocks|) + bsize)
    ensures Flat(tss + [ts], 0) + [] == Flat(tss, 0) + ts
  {
    OneMoreBlock(blocks, tss, bsize, b, ts);
    NothingAfter(Flat(tss, 0) + ts);
    NothingAfter(sent);
  }

  lemma GoodPad(cfg: Config, bsize: nat, blocks: seq<seq<Byte>>, tss: seq<seq<Tlv>>, sent: seq<Byte>,
                buf: seq<Byte>, cur: seq<Tlv>, bytes: nat, t: Tlv)
    requires Good(cfg, bsize, blocks, tss, sent, buf, cur, bytes) && cur != [] && t == Pad(bsize - |buf|)
    ensures Tiles(buf + t.Encode(), cur + [t]) && Flat(tss, 0) + (cur + [t]) == (Flat(tss, 0) + cur) + [t]
    ensures TlvCrc(cfg, Flat(tss, 0) + (cur + [t])) == Some(Sum(cfg.step, 0, sent + (buf + t.Encode())))
  {
    Grown(cfg, Flat(tss, 0), cur, sent, buf, t);
  }

  lemma GoodSubmit(cfg: Config, bsize: nat, blocks: seq<seq<Byte>>, tss: seq<seq<Tlv>>, sent: seq<Byte>,
                   buf: seq<Byte>, cur: seq<Tlv>, bytes: nat, t: Tlv)
    requires Good(cfg, bsize, blocks, tss, sent, buf, cur, bytes) && cur != [] && t == Pad(bsize - |buf|)
    ensures var b := buf + t.Encode();
            Good(cfg, bsize, blocks + [b], tss + [cur + [t]], sent + b, [], [], bytes + t.Size())
    ensures Flat(tss + [cur + [t]], 0) + [] == (Flat(tss, 0) + cur) + [t]
    ensures Sum(cfg.step, 0, sent + (buf + t.Encode())) == Sum(cfg.step, Sum(cfg.step, 0, sent), buf + t.Encode())
  {
    SumConcat(cfg.step, 0, sent, buf + t.Encode());
    GoodPad(cfg, bsize, blocks, tss, sent, buf, cur, bytes, t);
    GoodBlock(cfg, bsize, blocks, tss, buf + t.Encode(), cur + [t], sent + (buf + t.Encode()));
  }

  lemma NothingAfter<T>(a: seq<T>)
    ensures a + [] == a
  {
  }

  // ----- the writer's state as a value

  /** s_fc_bytes, the current buffer if there is one, and the blocks submitted so far. */
  datatype Area = Area(blocks: seq<seq<Byte>>, buf: seq<Byte>, open: bool, bytes: nat)

  /** The TLVs of the submitted blocks, those of the open buffer, and the bytes of the blocks that were
      submitted since the current commit began. */
  datatype Trace = Trace(tss: seq<seq<Tlv>>, cur: seq<Tlv>, sent: seq<Byte>) {
    ghost function All(): seq<Tlv> {
      Flat(tss, 0) + cur
    }
  }

  ghost predicate NoTail(ts: seq<Tlv>) {
    forall i :: 0 <= i < |ts| ==> ts[i].tag != TAIL
  }

  ghost predicate Ok(cfg: Config, bsize: nat, a: Area, tr: Trace) {
    && Good(cfg, bsize, a.blocks, tr.tss, tr.sent, a.buf, tr.cur, a.bytes)
    && (!a.open ==> tr.cur == []) && NoTail(tr.cur)
  }

  /** What is left to recovery when a commit fails: full blocks that hold together. */
  ghost predicate Submitted(cfg: Config, bsize: nat, a: Area, tr: Trace) {
    32 <= bsize && Full(a.blocks, tr.tss, bsize) && TlvCrc(cfg, Flat(tr.tss, 0)).Some?
  }

  lemma OkSubmitted(cfg: Config, bsize: nat, a: Area, tr: Trace)
    requires Ok(cfg, bsize, a, tr)
    ensures Submitted(cfg, bsize, a, tr)
  {
    TlvCrcPrefix(cfg, Flat(tr.tss, 0), tr.cur);
  }

  /** What was submitted stays, and no block of the added ones before block n holds a TAIL. */
  ghost predicate Extends(a: Area, tr: Trace, a': Area, tr': Trace, n: int) {
    && a.blocks <= a'.blocks && tr.tss <= tr'.tss
    && forall i :: |tr.tss| <= i < n && i < |tr'.tss| ==> NoTail(tr'.tss[i])
  }

  /** A TLV goes into the open buffer, where there is room for it. */
  method Put(cfg: Config, bsize: nat, a: Area, t: Tlv, ghost tr: Trace) returns (a': Area, ghost tr': Trace)
    requires Ok(cfg, bsize, a, tr) && a.open && |a.buf| + t.Size() <= bsize - BASE_LEN && MayFollow(cfg, tr.All(), t)
    ensures Ok(cfg, bsize, a', tr') && Extends(a, tr, a', tr', |tr'.tss|) && a'.open
    ensures tr'.All() == tr.All() + [t] && tr'.sent == tr.sent
    ensures FillOf(a') == Fill(|a.blocks|, |a.buf| + t.Size(), true)
  {
    GoodPut(cfg, bsize, a.blocks, tr.tss, tr.sent, a.buf, tr.cur, a.bytes, t);
    a' := a.(buf := a.buf + t.Encode(), bytes := a.bytes + t.Size());
    tr' := tr.(cur := tr.cur + [t]);
  }

  /** Closes the buffer with a PAD and submits it. */
  method Submit(cfg: Config, bsize: nat, a: Area, crc: U32, ghost tr: Trace) returns (a': Area, crc': U32, ghost tr': Trace)
    requires Ok(cfg, bsize, a, tr) && a.open && tr.cur != [] && crc == Sum(cfg.step, 0, tr.sent)
    ensures Ok(cfg, bsize, a', tr') && Extends(a, tr, a', tr', |tr'.tss|) && FillOf(a') == Fill(|a.blocks| + 1, 0, false)
    ensures crc' == Sum(cfg.step, 0, tr'.sent) && tr'.All() == tr.All() + [Pad(bsize - |a.buf|)]
  {
    var pad := Pad(bsize - |a.buf|);
    var block := a.buf + pad.Encode();
    crc' := Sum(cfg.step, crc, block);
    GoodSubmit(cfg, bsize, a.blocks, tr.tss, tr.sent, a.buf, tr.cur, a.bytes, pad);
    a' := Area(a.blocks + [block], [], false, a.bytes + pad.Size());
    tr' := Trace(tr.tss + [tr.cur + [pad]], [], tr.sent + block);
  }

  /** How far the area is filled: whole blocks, bytes in the current buffer, and whether there is one. */
  datatype Fill = Fill(blocks: nat, off: nat, open: bool)

  function FillOf(a: Area): Fill {
    Fill(|a.blocks|, |a.buf|, a.open)
  }

  /** Whether len bytes can be had: not too many for a block, and buffers as far as they are needed. */
  predicate HasRoom(bsize: nat, getBuf: nat -> bool, f: Fill, len: nat) {
    && len <= bsize - BASE_LEN && (f.open || getBuf(f.blocks))
    && (f.off + len <= bsize - BASE_LEN || getBuf(f.blocks + 1))
  }

  function After(bsize: nat, f: Fill, len: nat): Fill {
    if f.off + len <= bsize - BASE_LEN then Fill(f.blocks, f.off + len, true) else Fill(f.blocks + 1, len, true)
  }

  function AfterAll(bsize: nat, f: Fill, ts: seq<Tlv>): Fill
    decreases |ts|
  {
    if ts == [] then f else AfterAll(bsize, After(bsize, f, ts[0].Size()), ts[1..])
  }

  predicate AllRoom(bsize: nat, getBuf: nat -> bool, f: Fill, ts: seq<Tlv>)
    decreases |ts|
  {
    ts == [] ||
    (HasRoom(bsize, getBuf, f, ts[0].Size()) && AllRoom(bsize, getBuf, After(bsize, f, ts[0].Size()), ts[1..]))
  }

  /** Room for a HEAD, if it takes one, the tags, and a TAIL. */
  predicate CommitRoom(bsize: nat, getBuf: nat -> bool, f: Fill, first: bool, ts: seq<Tlv>) {
    var f' := if first then After(bsize, f, 12) else f;
    && (first ==> HasRoom(bsize, getBuf, f, 12))
    && AllRoom(bsize, getBuf, f', ts) && HasRoom(bsize, getBuf, AfterAll(bsize, f', ts), 12)
  }

  /** With buffers enough, there is room for all tags that fit a block each. */
  lemma {:induction false} EnoughRoom(bsize: nat, getBuf: nat -> bool, f: Fill, ts: seq<Tlv>)
    requires forall n :: getBuf(n)
    ensures AllRoom(bsize, getBuf, f, ts) <==> forall i :: 0 <= i < |ts| ==> ts[i].Size() <= bsize - BASE_LEN
    decreases |ts|
  {
    if ts != [] {
      EnoughRoom(bsize, getBuf, After(bsize, f, ts[0].Size()), ts[1..]);
      assert forall i :: 0 < i < |ts| ==> ts[i] == ts[1..][i - 1];
    }
  }

  lemma EnoughBuffers(bsize: nat, getBuf: nat -> bool, f: Fill, first: bool, ts: seq<Tlv>)
    requires bsize >= 32 && forall n :: getBuf(n)
    ensures CommitRoom(bsize, getBuf, f, first, ts) <==> forall i :: 0 <= i < |ts| ==> ts[i].Size() <= bsize - BASE_LEN
  {
    EnoughRoom(bsize, getBuf, if first then After(bsize, f, 12) else f, ts);
  }

  /** Nothing was added, or a PAD where len bytes did not fit. */
  ghost predicate Padded(bsize: nat, a: Area, len: nat, tr: Trace, tr': Trace) {
    if |a.buf| + len <= bsize - BASE_LEN then tr' == tr
    else BASE_LEN <= bsize - |a.buf| <= 0x1_0000 && tr'.All() == tr.All() + [Pad(bsize - |a.buf|)]
  }

  lemma BufferState(cfg: Config, bsize: nat, a: Area, tr: Trace)
    requires Ok(cfg, bsize, a, tr)
    ensures COff(bsize, a.bytes) == |a.buf| && (|a.buf| > 0 ==> tr.cur != [] && a.open)
    ensures Ok(cfg, bsize, a.(open := true), tr)
  {
    BufferOffset(|a.blocks|, bsize, |a.buf|);
  }

  /** ext4_fc_reserve_space, up to where the bytes are handed out: leaves a buffer open with room for
      len bytes and a PAD, or fails.  getBuf says whether jbd2 has an n-th buffer to give. */
  method Reserve(cfg: Config, bsize: nat, getBuf: nat -> bool, a: Area, len: nat, crc: U32, ghost tr: Trace)
      returns (ok: bool, a': Area, crc': U32, ghost tr': Trace)
    requires Ok(cfg, bsize, a, tr) && crc == Sum(cfg.step, 0, tr.sent)
    ensures Extends(a, tr, a', tr', |tr'.tss|) && (!ok ==> Submitted(cfg, bsize, a', tr'))
    ensures ok ==> Ok(cfg, bsize, a', tr') && a'.open && |a'.buf| + len <= bsize - BASE_LEN
    ensures ok ==> crc' == Sum(cfg.step, 0, tr'.sent) && Padded(bsize, a, len, tr, tr')
    ensures ok <==> HasRoom(bsize, getBuf, FillOf(a), len)
    ensures ok ==> After(bsize, FillOf(a), len) == Fill(|a'.blocks|, |a'.buf| + len, true)
  {
    BufferState(cfg, bsize, a, tr);
    if len > bsize - BASE_LEN || (!a.open && !getBuf(|a.blocks|)) {
      OkSubmitted(cfg, bsize, a, tr);
      return false, a, crc, tr;
    }
    ok, a', crc', tr' := MakeRoom(cfg, bsize, getBuf, a.(open := true), len, crc, tr);
  }

  /** With a buffer open: is there room in it, or does it take another? */
  method MakeRoom(cfg: Config, bsize: nat, getBuf: nat -> bool, a: Area, len: nat, crc: U32, ghost tr: Trace)
      returns (ok: bool, a': Area, crc': U32, ghost tr': Trace)
    requires Ok(cfg, bsize, a, tr) && a.open && crc == Sum(cfg.step, 0, tr.sent) && len <= bsize - BASE_LEN
    ensures Extends(a, tr, a', tr', |tr'.tss|) && (!ok ==> Submitted(cfg, bsize, a', tr'))
    ensures (ok <==> |a.buf| + len <= bsize - BASE_LEN || getBuf(|a.blocks| + 1))
    ensures ok ==> Ok(cfg, bsize, a', tr') && a'.open && |a'.buf| + len <= bsize - BASE_LEN
    ensures ok ==> crc' == Sum(cfg.step, 0, tr'.sent) && Padded(bsize, a, len, tr, tr')
    ensures ok ==> After(bsize, FillOf(a), len) == Fill(|a'.blocks|, |a'.buf| + len, true)
  {
    BufferState(cfg, bsize, a, tr);
    var off := COff(bsize, a.bytes);
    var remaining := bsize - BASE_LEN - off;
    if len <= remaining {
      return true, a, crc, tr;
    }
    ok, a', crc', tr' := NextBuffer(cfg, bsize, getBuf, a, crc, tr);
  }

  method NextBuffer(cfg: Config, bsize: nat, getBuf: nat -> bool, a: Area, crc: U32, ghost tr: Trace)
      returns (ok: bool, a': Area, crc': U32, ghost tr': Trace)
    requires Ok(cfg, bsize, a, tr) && a.open && tr.cur != [] && crc == Sum(cfg.step, 0, tr.sent)
    ensures Extends(a, tr, a', tr', |tr'.tss|) && (!ok ==> Submitted(cfg, bsize, a', tr'))
    ensures (ok <==> getBuf(|a.blocks| + 1))
    ensures ok ==> Ok(cfg, bsize, a', tr') && FillOf(a') == Fill(|a.blocks| + 1, 0, true)
    ensures !ok ==> !a'.open && a'.bytes == a.bytes
    ensures ok ==> crc' == Sum(cfg.step, 0, tr'.sent) && tr'.All() == tr.All() + [Pad(bsize - |a.buf|)]
  {
    a', crc', tr' := Submit(cfg, bsize, a, crc, tr);
    OkSubmitted(cfg, bsize, a', tr');
    ok := getBuf(|a'.blocks|);
    a' := if ok then a'.(open := true) else a'.(bytes := a.bytes);
  }

  lemma PaddedPayload(bsize: nat, a: Area, len: nat, tr: Trace, tr': Trace)
    requires Padded(bsize, a, len, tr, tr')
    ensures Payload(tr'.All()) == Payload(tr.All()) && (tr.All() != [] ==> tr'.All() != [])
    ensures |a.buf| + len <= bsize - BASE_LEN ==> tr' == tr
  {
    if |a.buf| + len > bsize - BASE_LEN {
      PayloadAppend(tr.All(), Pad(bsize - |a.buf|));
    }
  }

  /** ext4_fc_add_tlv */
  method AddTlv(cfg: Config, bsize: nat, getBuf: nat -> bool, a: Area, t: Tlv, crc: U32, ghost tr: Trace)
      returns (ok: bool, a': Area, crc': U32, ghost tr': Trace)
    requires Ok(cfg, bsize, a, tr) && crc == Sum(cfg.step, 0, tr.sent) && MayFollow(cfg, tr.All(), t) && t.tag != PAD
    ensures Extends(a, tr, a', tr', |tr'.tss|) && (!ok ==> Submitted(cfg, bsize, a', tr'))
    ensures ok ==> Ok(cfg, bsize, a', tr') && crc' == Sum(cfg.step, 0, tr'.sent)
    ensures ok ==> Payload(tr'.All()) == Payload(tr.All()) + [t] && tr'.All() != []
    ensures ok <==> HasRoom(bsize, getBuf, FillOf(a), t.Size())
    ensures ok ==> FillOf(a') == After(bsize, FillOf(a), t.Size())
  {
    ok, a', crc', tr' := Reserve(cfg, bsize, getBuf, a, t.Size(), crc, tr);
    if ok {
      PaddedPayload(bsize, a, t.Size(), tr, tr');
      PayloadAppend(tr'.All(), t);
      a', tr' := Put(cfg, bsize, a', t, tr');
    }
  }

  // ----- closing a commit

  /** The TAIL that fills the rest of the block after used bytes. */
  function Tail(tid: U32, crc: U32, left: nat): (t: Tlv)
    requires 12 <= left <= 0x1_0000
    ensures t.Fits() && t.Size() == left && t.tag == TAIL
    ensures t.val[..4] == Le32(tid) && t.val[4..8] == Le32(crc)
  {
    var v := Le32(tid) + Le32(crc) + Zeros(left - 12);
    assert v[..4] == Le32(tid) && v[4..8] == Le32(crc);
    Tlv(TAIL, v)
  }

  /** What of it the checksum covers. */
  function TailStart(tid: U32, left: nat): seq<Byte>
    requires 12 <= left <= 0x1_0000
  {
    Le16(TAIL) + Le16(left - BASE_LEN) + Le32(tid)
  }

  /** Padding, and what follows the fields of a TAIL, are zeros. */
  lemma FillIsZero(tid: U32, crc: U32, left: nat)
    requires 12 <= left <= 0x1_0000
    ensures forall i :: 0 <= i < |Pad(left).val| ==> Int(Pad(left).val[i]) == 0
    ensures forall i :: 8 <= i < |Tail(tid, crc, left).val| ==> Int(Tail(tid, crc, left).val[i]) == 0
  {
  }

  lemma TailCrc(cfg: Config, all: seq<Tlv>, sent: seq<Byte>, buf: seq<Byte>, left: nat, t: Tlv)
    requires all != [] && 12 <= left <= 0x1_0000
    requires t == Tail(cfg.tid, Sum(cfg.step, Sum(cfg.step, 0, sent), buf + TailStart(cfg.tid, left)), left)
    ensures TlvCrc(cfg, all) == Some(Sum(cfg.step, 0, sent + buf)) ==> TlvCrc(cfg, all + [t]) == Some(0)
  {
    var h := TailStart(cfg.tid, left);
    assert t.Header() + t.val[..4] == h;
    SumConcat(cfg.step, 0, sent, buf + h);
    Assoc(sent, buf, h);
    SumConcat(cfg.step, 0, sent + buf, h);
    if TlvCrc(cfg, all) == Some(Sum(cfg.step, 0, sent + buf)) {
      TlvCrcTail(cfg, all, t);
    }
  }

  /** ext4_fc_write_tail */
  method WriteTail(cfg: Config, bsize: nat, getBuf: nat -> bool, a: Area, crc: U32, ghost tr: Trace)
      returns (ok: bool, a': Area, ghost tr': Trace, ghost t: Tlv)
    requires Ok(cfg, bsize, a, tr) && crc == Sum(cfg.step, 0, tr.sent) && tr.All() != []
    ensures Extends(a, tr, a', tr', if ok then |tr'.tss| - 1 else |tr'.tss|) && (!ok ==> Submitted(cfg, bsize, a', tr'))
    ensures ok ==> Ok(cfg, bsize, a', tr') && !a'.open && tr'.sent == []
    ensures ok ==> Ends(tr'.All(), t) && Payload(tr'.All()) == Payload(tr.All()) + [t]
    ensures ok <==> HasRoom(bsize, getBuf, FillOf(a), 12)
  {
    var c;
    ok, a', c, tr' := Reserve(cfg, bsize, getBuf, a, 12, crc, tr);
    t := Tlv(TAIL, []);
    if ok {
      PaddedPayload(bsize, a, 12, tr, tr');
      ghost var a0, tr0 := a', tr';
      a', tr', t := PutTail(cfg, bsize, a', c, tr');
      ExtendsOn(a, tr, a0, tr0, a', tr', |tr'.tss| - 1);
    }
  }

  method PutTail(cfg: Config, bsize: nat, a: Area, crc: U32, ghost tr: Trace)
      returns (a': Area, ghost tr': Trace, ghost t: Tlv)
    requires Ok(cfg, bsize, a, tr) && crc == Sum(cfg.step, 0, tr.sent) && tr.All() != [] && |a.buf| + 12 <= bsize - BASE_LEN
    ensures Extends(a, tr, a', tr', |tr'.tss| - 1) && Ok(cfg, bsize, a', tr') && !a'.open && tr'.sent == []
    ensures Ends(tr'.All(), t) && Payload(tr'.All()) == Payload(tr.All()) + [t]
  {
    var tail := MakeTail(cfg, bsize, a, crc, tr);
    PayloadAppend(tr.All(), tail);
    a', tr' := Close(cfg, bsize, a, tail, tr);
    t := tail;
  }

  ghost predicate Ends(all: seq<Tlv>, t: Tlv) {
    t.tag == TAIL && all != [] && all[|all| - 1] == t
  }

  /** The TAIL for the space reserved for it. */
  method MakeTail(cfg: Config, bsize: nat, a: Area, crc: U32, ghost tr: Trace) returns (t: Tlv)
    requires Ok(cfg, bsize, a, tr) && crc == Sum(cfg.step, 0, tr.sent) && tr.All() != [] && |a.buf| + 12 <= bsize - BASE_LEN
    ensures t.Fits() && t.tag == TAIL && |a.buf| + t.Size() == bsize && TlvCrc(cfg, tr.All() + [t]) == Some(0)
  {
    var left := bsize - |a.buf|;
    var c := Sum(cfg.step, crc, a.buf + TailStart(cfg.tid, left));
    t := Tail(cfg.tid, c, left);
    TailCrc(cfg, tr.All(), tr.sent, a.buf, left, t);
  }

  function RoundUp(x: nat, b: nat): nat
    requires b > 0
  {
    var m := COff(b, x);
    if m == 0 then x else x + (b - m)
  }

  lemma RoundedUp(n: nat, bsize: nat, off: nat)
    requires 0 < off < bsize
    ensures RoundUp(C2B(bsize, n) + off, bsize) == C2B(bsize, n) + bsize
  {
    BufferOffset(n, bsize, off);
  }

  lemma GoodTail(cfg: Config, bsize: nat, blocks: seq<seq<Byte>>, tss: seq<seq<Tlv>>, sent: seq<Byte>,
                 buf: seq<Byte>, cur: seq<Tlv>, bytes: nat, t: Tlv)
    requires Good(cfg, bsize, blocks, tss, sent, buf, cur, bytes) && t.Fits() && |buf| + t.Size() == bsize
    requires |buf| + 12 < bsize && TlvCrc(cfg, (Flat(tss, 0) + cur) + [t]) == Some(0)
    ensures Good(cfg, bsize, blocks + [buf + t.Encode()], tss + [cur + [t]], [], [], [], RoundUp(bytes + 12, bsize))
    ensures Flat(tss + [cur + [t]], 0) + [] == (Flat(tss, 0) + cur) + [t]
  {
    GrownBytes(cur, buf, t);
    Assoc(Flat(tss, 0), cur, [t]);
    RoundedUp(|blocks|, bsize, |buf| + 12);
    assert bytes + 12 == C2B(bsize, |blocks|) + (|buf| + 12);
    GoodBlock(cfg, bsize, blocks, tss, buf + t.Encode(), cur + [t], []);
  }

  /** Puts the TAIL into the space reserved for it and submits the last block. */
  method Close(cfg: Config, bsize: nat, a: Area, t: Tlv, ghost tr: Trace) returns (a': Area, ghost tr': Trace)
    requires Ok(cfg, bsize, a, tr) && |a.buf| + 12 <= bsize - BASE_LEN
    requires t.Fits() && |a.buf| + t.Size() == bsize && TlvCrc(cfg, tr.All() + [t]) == Some(0)
    ensures Extends(a, tr, a', tr', |tr'.tss| - 1) && Ok(cfg, bsize, a', tr') && !a'.open && tr'.sent == []
    ensures tr'.All() == tr.All() + [t]
  {
    GoodTail(cfg, bsize, a.blocks, tr.tss, tr.sent, a.buf, tr.cur, a.bytes, t);
    a' := Area(a.blocks + [a.buf + t.Encode()], [], false, RoundUp(a.bytes + 12, bsize));
    tr' := Trace(tr.tss + [tr.cur + [t]], [], []);
  }

  // ----- whole commits

  /** The tags a commit is made of, besides HEAD, PAD and TAIL. */
  predicate Content(cfg: Config, t: Tlv) {
    t.Fits() && ValueLenValid(t.tag, |t.val|, cfg.inodeSize) && t.tag != HEAD && t.tag != PAD && t.tag != TAIL
  }

  /** EXT4_FC_SUPPORTED_FEATURES is 0. */
  function HeadTlv(tid: U32): (t: Tlv)
    ensures t.Fits() && t.tag == HEAD && |t.val| == 8 && Get32(t.val[..4]) == 0 && Get32(t.val[4..8]) == tid
  {
    var v := Le32(0) + Le32(tid);
    assert v[..4] == Le32(0) && v[4..8] == Le32(tid);
    Tlv(HEAD, v)
  }

  /** No commit is under way. */
  ghost predicate Quiet(cfg: Config, bsize: nat, a: Area, tr: Trace) {
    Ok(cfg, bsize, a, tr) && !a.open && tr.sent == []
  }

  lemma FirstCommit(cfg: Config, bsize: nat, a: Area, tr: Trace)
    requires Quiet(cfg, bsize, a, tr)
    ensures a.bytes == 0 <==> tr.All() == []
  {
    if |a.blocks| > 0 {
      assert Tiles(a.blocks[0], tr.tss[0]);
      assert tr.All()[0] == tr.tss[0][0];
    }
  }

  /** HEAD, if this is the first commit of the transaction. */
  method Begin(cfg: Config, bsize: nat, getBuf: nat -> bool, a: Area, ghost tr: Trace)
      returns (ok: bool, a': Area, crc: U32, ghost tr': Trace)
    requires Quiet(cfg, bsize, a, tr)
    ensures Extends(a, tr, a', tr', |tr'.tss|) && (!ok ==> Submitted(cfg, bsize, a', tr'))
    ensures ok ==> Ok(cfg, bsize, a', tr') && crc == Sum(cfg.step, 0, tr'.sent) && tr'.All() != []
    ensures ok ==> Payload(tr'.All()) == if tr.All() == [] then [HeadTlv(cfg.tid)] else Payload(tr.All())
    ensures ok <==> (a.bytes == 0 ==> HasRoom(bsize, getBuf, FillOf(a), 12))
    ensures ok ==> FillOf(a') == if a.bytes == 0 then After(bsize, FillOf(a), 12) else FillOf(a)
  {
    FirstCommit(cfg, bsize, a, tr);
    ok, a', crc, tr' := true, a, 0, tr;
    if a.bytes == 0 {
      ok, a', crc, tr' := AddTlv(cfg, bsize, getBuf, a, HeadTlv(cfg.tid), 0, tr);
    }
  }

  /** The tags of the commit, one after another. */
  method AddAll(cfg: Config, bsize: nat, getBuf: nat -> bool, a: Area, ts: seq<Tlv>, crc: U32, ghost tr: Trace)
      returns (ok: bool, a': Area, crc': U32, ghost tr': Trace)
    requires Ok(cfg, bsize, a, tr) && crc == Sum(cfg.step, 0, tr.sent) && tr.All() != []
    requires forall i :: 0 <= i < |ts| ==> Content(cfg, ts[i])
    ensures Extends(a, tr, a', tr', |tr'.tss|) && (!ok ==> Submitted(cfg, bsize, a', tr'))
    ensures ok ==> Ok(cfg, bsize, a', tr') && crc' == Sum(cfg.step, 0, tr'.sent) && tr'.All() != []
    ensures ok ==> Payload(tr'.All()) == Payload(tr.All()) + ts
    ensures ok <==> AllRoom(bsize, getBuf, FillOf(a), ts)
    ensures ok ==> FillOf(a') == AfterAll(bsize, FillOf(a), ts)
  {
    ok, a', crc', tr' := true, a, crc, tr;
    var i := 0;
    ghost var p := Payload(tr.All());
    NothingAfter(p);
    while i < |ts|
      invariant 0 <= i <= |ts| && ok && Extends(a, tr, a', tr', |tr'.tss|)
      invariant Ok(cfg, bsize, a', tr') && crc' == Sum(cfg.step, 0, tr'.sent) && tr'.All() != []
      invariant Payload(tr'.All()) == p + ts[..i]
      invariant AllRoom(bsize, getBuf, FillOf(a), ts) <==> AllRoom(bsize, getBuf, FillOf(a'), ts[i..])
      invariant AfterAll(bsize, FillOf(a), ts) == AfterAll(bsize, FillOf(a'), ts[i..])
    {
      ghost var a0, tr0 := a', tr';
      assert ts[i..][0] == ts[i] && ts[i..][1..] == ts[i + 1..];
      ok, a', crc', tr' := AddTlv(cfg, bsize, getBuf, a', ts[i], crc', tr');
      ExtendsOn(a, tr, a0, tr0, a', tr', |tr'.tss|);
      if !ok {
        return;
      }
      OneFurther(p, ts, i);
      i := i + 1;
    }
    assert ts[..i] == ts;
  }

  lemma OneFurther<T>(p: seq<T>, ts: seq<T>, i: nat)
    requires i < |ts|
    ensures p + ts[..i] + [ts[i]] == p + ts[..i + 1]
  {
    assert ts[..i] + [ts[i]] == ts[..i + 1];
  }

  lemma ExtendsOn(a: Area, tr: Trace, b: Area, ts: Trace, c: Area, tu: Trace, n: int)
    requires Extends(a, tr, b, ts, |ts.tss|) && Extends(b, ts, c, tu, n)
    ensures Extends(a, tr, c, tu, n)
  {
    forall i | |tr.tss| <= i < n && i < |tu.tss| ensures NoTail(tu.tss[i]) {
      if i < |ts.tss| {
        assert tu.tss[i] == ts.tss[i];
      }
    }
  }

  /** ext4_fc_perform_commit, given the tags that the dentry updates and inodes amount to; if not whole,
      these end in an error. */
  method PerformCommit(cfg: Config, bsize: nat, getBuf: nat -> bool, a: Area, ts: seq<Tlv>, whole: bool, ghost tr: Trace)
      returns (ok: bool, a': Area, ghost tr': Trace, ghost t: Tlv)
    requires Quiet(cfg, bsize, a, tr) && forall i :: 0 <= i < |ts| ==> Content(cfg, ts[i])
    ensures Extends(a, tr, a', tr', if ok then |tr'.tss| - 1 else |tr'.tss|) && (!ok ==> Submitted(cfg, bsize, a', tr'))
    ensures ok <==> whole && CommitRoom(bsize, getBuf, FillOf(a), tr.All() == [], ts)
    ensures ok ==> Quiet(cfg, bsize, a', tr') && Ends(tr'.All(), t)
    ensures ok ==> Payload(tr'.All()) == (if tr.All() == [] then [HeadTlv(cfg.tid)] else Payload(tr.All())) + ts + [t]
  {
    var crc;
    t := Tlv(TAIL, []);
    FirstCommit(cfg, bsize, a, tr);
    ok, a', crc, tr' := Begin(cfg, bsize, getBuf, a, tr);
    if !ok {
      return;
    }
    ghost var a0, tr0 := a', tr';
    ok, a', crc, tr' := AddAll(cfg, bsize, getBuf, a', ts, crc, tr');
    ExtendsOn(a, tr, a0, tr0, a', tr', |tr'.tss|);
    if !ok {
      return;
    }
    if !whole {
      OkSubmitted(cfg, bsize, a', tr');
      ok := false;
      return;
    }
    a0, tr0 := a', tr';
    ok, a', tr', t := WriteTail(cfg, bsize, getBuf, a', crc, tr');
    ExtendsOn(a, tr, a0, tr0, a', tr', if ok then |tr'.tss| - 1 else |tr'.tss|);
  }
}
