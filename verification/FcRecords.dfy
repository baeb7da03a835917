/** The records of directory changes and inodes in the fast-commit log (ext4_fc_add_dentry_tlv, tl_to_darg,
    ext4_fc_write_inode of fast_commit.c). */
module FcRecords {
  import opened LittleEndian
  import opened FcFormat
  import opened FcScan
  import opened FcWriter

  /** A name that was created, linked or unlinked in a directory. */
  datatype Dentry = Dentry(op: nat, parent: U32, ino: U32, name: seq<Byte>) {
    predicate Valid() {
      (op == CREAT || op == LINK || op == UNLINK) && |name| + 8 < 0x1_0000
    }
  }

  /** ext4_fc_add_dentry_tlv */
  function DentryTlv(d: Dentry): Tlv {
    Tlv(d.op, Le32(d.parent) + Le32(d.ino) + d.name)
  }

  /** tl_to_darg */
  function Darg(t: Tlv): Dentry
    requires |t.val| >= 8
  {
    Dentry(t.tag, Get32(t.val[0..4]), Get32(t.val[4..8]), t.val[8..])
  }

  /** A directory change survives its on-disk form, and passes the scan exactly if the name has a length that
      names can have. */
  lemma DentryRoundTrip(cfg: Config, d: Dentry)
    requires d.Valid()
    ensures |DentryTlv(d).val| >= 8 && Darg(DentryTlv(d)) == d
    ensures Content(cfg, DentryTlv(d)) <==> 1 <= |d.name| <= 255
  {
    var a, b := Le32(d.parent), Le32(d.ino);
    var v := a + b + d.name;
    assert v[0..4] == a && v[4..8] == b && v[8..] == d.name;
  }

  /** How much of an inode is logged: all of it if it holds data, the classic part and the extra fields
      otherwise. */
  function InodeLen(inlineData: bool, inodeSize: nat, extra: nat): nat {
    if inlineData then inodeSize else if inodeSize > 128 then 128 + extra else 128
  }

  function InodeTlv(ino: U32, raw: seq<Byte>): Tlv {
    Tlv(INODE, Le32(ino) + raw)
  }

  /** An inode survives its on-disk form, and passes the scan exactly if at least the classic part and at most
      a whole inode is logged. */
  lemma InodeRoundTrip(cfg: Config, ino: U32, raw: seq<Byte>)
    requires |raw| + 4 < 0x1_0000
    ensures var t := InodeTlv(ino, raw); |t.val| >= 4 && Get32(t.val[..4]) == ino && t.val[4..] == raw
    ensures Content(cfg, InodeTlv(ino, raw)) <==> 128 <= |raw| <= cfg.inodeSize
  {
    var a := Le32(ino);
    assert (a + raw)[..4] == a && (a + raw)[4..] == raw;
  }

  /** What the writer logs of an inode passes exactly if its extra fields fit the inode. */
  lemma LoggedInodePasses(cfg: Config, ino: U32, raw: seq<Byte>, inlineData: bool, extra: nat)
    requires 128 <= cfg.inodeSize < 0xfffc && |raw| == InodeLen(inlineData, cfg.inodeSize, extra) < 0xfffc
    ensures Content(cfg, InodeTlv(ino, raw)) <==>
            inlineData || cfg.inodeSize == 128 || 128 + extra <= cfg.inodeSize
  {
    InodeRoundTrip(cfg, ino, raw);
  }

  /** The other tags: a HEAD has exactly the length of the one that is written, a TAIL at least that of the
      shortest, padding any; and there are no tags beside these nine. */
  lemma LengthsExact(tag: nat, len: nat, inodeSize: nat, tid: U32, crc: U32)
    ensures ValueLenValid(HEAD, len, inodeSize) <==> len == |HeadTlv(tid).val|
    ensures ValueLenValid(TAIL, len, inodeSize) <==> len >= |Tail(tid, crc, 12).val|
    ensures ValueLenValid(PAD, len, inodeSize)
    ensures ValueLenValid(tag, len, inodeSize) ==> ADD_RANGE <= tag <= HEAD
  {
  }
}
