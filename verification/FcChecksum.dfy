/** What the checksum of a fast commit covers (ext4_fc_replay_scan and ext4_fc_write_tail of fast_commit.c). */
module FcChecksum {
  import opened Common
  import opened LittleEndian
  import opened FcFormat
  import opened FcScan

  /** Tags j .. k - 1 are within their blocks. */
  ghost predicate Within(blocks: seq<seq<Byte>>, rs: seq<Raw>, j: nat, k: nat) {
    && j <= k <= |rs|
    && forall i :: j <= i < k ==> rs[i].block < |blocks| && rs[i].pos + BASE_LEN + rs[i].len <= |blocks[rs[i].block]|
  }

  /** All bytes of tags j .. k - 1, headers and values, in order. */
  function TagBytes(blocks: seq<seq<Byte>>, rs: seq<Raw>, j: nat, k: nat): seq<Byte>
    requires Within(blocks, rs, j, k)
  {
    if j == k then []
    else
      var r := rs[k - 1];
      TagBytes(blocks, rs, j, k - 1) + blocks[r.block][r.pos..r.pos + BASE_LEN + r.len]
  }

  /** The running checksum of the scan is that of all bytes since the last TAIL. */
  lemma {:induction false} CrcIsOfBytes(cfg: Config, blocks: seq<seq<Byte>>, rs: seq<Raw>, k: nat)
    requires k <= |rs| && Intact(cfg, blocks, rs, k).Some?
    ensures Within(blocks, rs, UpToTail(rs, k), k)
    ensures Intact(cfg, blocks, rs, k).value == Sum(cfg.step, 0, TagBytes(blocks, rs, UpToTail(rs, k), k))
  {
    if k > 0 {
      var r, n := rs[k - 1], UpToTail(rs, k - 1);
      CrcIsOfBytes(cfg, blocks, rs, k - 1);
      if r.tag != TAIL {
        var b := TagBytes(blocks, rs, n, k - 1);
        SumConcat(cfg.step, 0, b, blocks[r.block][r.pos..r.pos + BASE_LEN + r.len]);
      }
    }
  }

  /** A TAIL behind tags that hold holds exactly if it is well formed and of this transaction, and its
      checksum is that of every byte of the commit before it, in order, and of its own up to the checksum. */
  lemma TailExact(cfg: Config, blocks: seq<seq<Byte>>, rs: seq<Raw>, k: nat)
    requires 0 < k < |rs| && Intact(cfg, blocks, rs, k).Some? && rs[k].tag == TAIL && rs[k].block < |blocks|
    ensures Within(blocks, rs, UpToTail(rs, k), k)
    ensures var blk, pos := blocks[rs[k].block], rs[k].pos;
            Intact(cfg, blocks, rs, k + 1).Some? <==>
              && 8 <= rs[k].len && pos + BASE_LEN + rs[k].len <= |blk|
              && Get32(blk[pos + 4..pos + 8]) == cfg.tid
              && Get32(blk[pos + 8..pos + 12]) ==
                 Sum(cfg.step, 0, TagBytes(blocks, rs, UpToTail(rs, k), k) + blk[pos..pos + 8])
  {
    CrcIsOfBytes(cfg, blocks, rs, k);
    var blk, pos, b := blocks[rs[k].block], rs[k].pos, TagBytes(blocks, rs, UpToTail(rs, k), k);
    if pos + 8 <= |blk| {
      SumConcat(cfg.step, 0, b, blk[pos..pos + 8]);
    }
  }

  /** Any other tag behind tags that hold does so exactly if it is well formed, the first one is a HEAD, and a
      HEAD asks for no features and is of this transaction. */
  lemma OtherExact(cfg: Config, blocks: seq<seq<Byte>>, rs: seq<Raw>, k: nat)
    requires k < |rs| && Intact(cfg, blocks, rs, k).Some? && rs[k].tag != TAIL && rs[k].block < |blocks|
    ensures var blk, pos := blocks[rs[k].block], rs[k].pos;
            Intact(cfg, blocks, rs, k + 1).Some? <==>
              && pos + BASE_LEN + rs[k].len <= |blk| && ValueLenValid(rs[k].tag, rs[k].len, cfg.inodeSize)
              && (k == 0 ==> rs[k].tag == HEAD)
              && (rs[k].tag == HEAD ==> Get32(blk[pos + 4..pos + 8]) == 0 && Get32(blk[pos + 8..pos + 12]) == cfg.tid)
  {
  }

  /** The tags a pass meets in a block leave no byte between them. */
  lemma {:induction false} NoGaps(blk: seq<Byte>, i: nat, pos: nat, j: nat)
    requires j < |Walk(blk, i, pos)|
    ensures var rs := Walk(blk, i, pos);
            rs[j].block == i && rs[j].pos == if j == 0 then pos else rs[j - 1].pos + BASE_LEN + rs[j - 1].len
    decreases |blk| - pos
  {
    if j > 0 {
      NoGaps(blk, i, pos + BASE_LEN + RawAt(blk, i, pos).len, j - 1);
    }
  }
}
