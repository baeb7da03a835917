/** The on-disk format of the fast-commit log: tags, lengths, values, and the running checksum
    (fast_commit.h, fast_commit.c). */
module FcFormat {
  import opened LittleEndian

  const ADD_RANGE := 1
  const DEL_RANGE := 2
  const CREAT := 3
  const LINK := 4
  const UNLINK := 5
  const INODE := 6
  const PAD := 7
  const TAIL := 8
  const HEAD := 9

  /** EXT4_FC_TAG_BASE_LEN */
  const BASE_LEN := 4

  // ----- checksum

  /** ext4_chksum: one step per byte; the step function stands for CRC-32C. */
  type Step = (U32, Byte) -> U32

  function Sum(step: Step, c: U32, b: seq<Byte>): U32 {
    if b == [] then c else step(Sum(step, c, b[..|b| - 1]), b[|b| - 1])
  }

  /** Summing piece by piece is summing the whole. */
  lemma {:induction false} SumConcat(step: Step, c: U32, a: seq<Byte>, b: seq<Byte>)
    ensures Sum(step, c, a + b) == Sum(step, Sum(step, c, a), b)
  {
    if b == [] {
      assert a + b == a;
    } else {
      var n := |b| - 1;
      assert (a + b)[..|a + b| - 1] == a + b[..n];
      SumConcat(step, c, a, b[..n]);
    }
  }

  // ----- TLVs

  datatype Tlv = Tlv(tag: nat, val: seq<Byte>) {
    predicate Fits() {
      tag < 0x1_0000 && |val| < 0x1_0000
    }

    function Size(): nat {
      BASE_LEN + |val|
    }

    function Header(): (b: seq<Byte>)
      requires Fits()
      ensures |b| == BASE_LEN
    {
      Le16(tag) + Le16(|val|)
    }

    function Encode(): (b: seq<Byte>)
      requires Fits()
      ensures |b| == Size()
    {
      Header() + val
    }
  }

  ghost predicate AllFit(ts: seq<Tlv>) {
    forall i :: 0 <= i < |ts| ==> ts[i].Fits()
  }

  /** TLVs one after another. */
  function EncodeAll(ts: seq<Tlv>): seq<Byte>
    requires AllFit(ts)
  {
    if ts == [] then [] else ts[0].Encode() + EncodeAll(ts[1..])
  }

  lemma {:induction false} EncodeConcat(a: seq<Tlv>, b: seq<Tlv>)
    requires AllFit(a) && AllFit(b)
    ensures AllFit(a + b) && EncodeAll(a + b) == EncodeAll(a) + EncodeAll(b)
  {
    if a == [] {
      assert a + b == b;
    } else {
      assert (a + b)[1..] == a[1..] + b;
      EncodeConcat(a[1..], b);
      assert EncodeAll(a + b) == a[0].Encode() + (EncodeAll(a[1..]) + EncodeAll(b));
    }
  }

  lemma EncodeOne(t: Tlv)
    requires t.Fits()
    ensures EncodeAll([t]) == t.Encode()
  {
    assert EncodeAll([t][1..]) == [];
  }

  /** ext4_fc_value_len_isvalid; inodeSize is s_inode_size. */
  predicate ValueLenValid(tag: nat, len: int, inodeSize: nat) {
    if tag == ADD_RANGE then len == 16
    else if tag == DEL_RANGE then len == 12
    else if tag == CREAT || tag == LINK || tag == UNLINK then 1 <= len - 8 <= 255
    else if tag == INODE then 128 <= len - 4 <= inodeSize
    else if tag == PAD then true
    else if tag == TAIL then len >= 8
    else tag == HEAD && len == 8
  }
}
