/** POSIX ACLs in extended attributes (ext4_acl_from_disk and ext4_acl_to_disk of acl.c, the sizes of
    acl.h).  Entries of the four kinds every full ACL has one of are stored without an id. */
module Acl {
  import opened LittleEndian

  const VERSION := 1

  const USER_OBJ := 0x01
  const USER := 0x02
  const GROUP_OBJ := 0x04
  const GROUP := 0x08
  const MASK := 0x10
  const OTHER := 0x20

  type U16 = x: nat | x < 0x1_0000

  /** id is the user or group of a named entry, 0 otherwise. */
  datatype Entry = Entry(tag: U16, perm: U16, id: U32)

  datatype Result<+T> = Ok(value: T) | NoAcl | Invalid

  predicate Named(tag: nat) {
    tag == USER || tag == GROUP
  }

  predicate Short(tag: nat) {
    tag == USER_OBJ || tag == GROUP_OBJ || tag == MASK || tag == OTHER
  }

  // ----- acl.h

  /** ext4_acl_size */
  function Size(count: nat): nat {
    if count <= 4 then 4 + count * 4 else 4 + 4 * 4 + (count - 4) * 8
  }

  /** ext4_acl_count */
  function Count(size: nat): int
    requires size >= 4
  {
    var s := size - 4 - 4 * 4;
    if s < 0 then if (size - 4) % 4 != 0 then -1 else (size - 4) / 4
    else if s % 8 != 0 then -1 else s / 8 + 4
  }

  /** Each size has its count, and only sizes of counts are accepted. */
  lemma CountOfSize(size: nat)
    requires size >= 4
    ensures Count(size) >= 0 ==> Size(Count(size)) == size
    ensures forall n: nat :: Size(n) == size ==> Count(size) == n
  {
  }

  // ----- encoding

  /** Bytes of one entry. */
  function Bytes(e: Entry): (b: seq<Byte>)
    ensures |b| == if Named(e.tag) then 8 else 4
  {
    Le16(e.tag) + Le16(e.perm) + if Named(e.tag) then Le32(e.id) else []
  }

  function AllBytes(es: seq<Entry>): seq<Byte> {
    if es == [] then [] else AllBytes(es[..|es| - 1]) + Bytes(es[|es| - 1])
  }

  predicate Known(e: Entry) {
    Named(e.tag) || (Short(e.tag) && e.id == 0)
  }

  function ShortOnes(es: seq<Entry>): (n: nat)
    ensures n <= |es|
  {
    if es == [] then 0 else ShortOnes(es[..|es| - 1]) + if Named(es[|es| - 1].tag) then 0 else 1
  }

  /** The shape of a valid ACL, as far as the size formula needs it: all entries short if there are no
      more than four, and just four short ones otherwise. */
  predicate Shape(es: seq<Entry>) {
    ShortOnes(es) == if |es| <= 4 then |es| else 4
  }

  lemma {:induction false} BytesLength(es: seq<Entry>)
    ensures |AllBytes(es)| == 8 * |es| - 4 * ShortOnes(es)
  {
    if es != [] {
      BytesLength(es[..|es| - 1]);
    }
  }

  /** The announced size is the number of bytes written exactly on that shape. */
  lemma SizeExact(es: seq<Entry>)
    ensures 4 + |AllBytes(es)| == Size(|es|) <==> Shape(es)
  {
    BytesLength(es);
  }

  /** A single named entry takes more bytes than are announced. */
  lemma NamedEntryOverflows(e: Entry)
    requires e.tag == USER
    ensures 4 + |AllBytes([e])| == Size(1) + 4
  {
    BytesLength([e]);
    assert [e][..0] == [];
  }

  /** The attribute's bytes. */
  function Encoded(es: seq<Entry>): seq<Byte> {
    Le32(VERSION) + AllBytes(es)
  }

  /** v is the on-disk form of the ACL es. */
  ghost predicate Encodes(v: seq<Byte>, es: seq<Entry>) {
    es != [] && (forall i :: 0 <= i < |es| ==> Known(es[i])) && Shape(es) && v == Encoded(es)
  }

  lemma {:induction false} PrefixBytes(es: seq<Entry>, n: nat)
    requires n <= |es|
    ensures AllBytes(es[..n]) <= AllBytes(es)
    ensures n < |es| ==> AllBytes(es[..n]) + Bytes(es[n]) <= AllBytes(es)
  {
    if n == |es| {
      assert es[..n] == es;
    } else {
      var m := |es| - 1;
      PrefixBytes(es[..m], n);
      assert es[..m][..n] == es[..n];
      if n == m {
        assert AllBytes(es) == AllBytes(es[..m]) + Bytes(es[m]);
      }
    }
  }

  lemma EntryFields(e: Entry)
    ensures var b := Bytes(e);
            b[0..2] == Le16(e.tag) && b[2..4] == Le16(e.perm) && (Named(e.tag) ==> b[4..8] == Le32(e.id))
  {
  }

  lemma Piece(h: seq<Byte>, a: seq<Byte>, e: seq<Byte>, all: seq<Byte>)
    requires a + e <= all
    ensures |h| + |a| + |e| <= |h + all| && (h + all)[|h| + |a|..|h| + |a| + |e|] == e
  {
    forall x | 0 <= x < |e| ensures (h + all)[|h| + |a| + x] == e[x] {
      assert all[|a| + x] == (a + e)[|a| + x];
    }
  }

  lemma Within(v: seq<Byte>, pos: nat, e: seq<Byte>, i: nat, j: nat)
    requires pos + |e| <= |v| && v[pos..pos + |e|] == e && i <= j <= |e|
    ensures v[pos + i..pos + j] == e[i..j]
  {
    forall x | i <= x < j ensures v[pos + x] == e[x] {
      assert v[pos..pos + |e|][x] == e[x];
    }
  }

  /** Entry e lies at pos. */
  ghost predicate Lies(v: seq<Byte>, pos: nat, e: Entry) {
    Known(e) && pos + |Bytes(e)| <= |v| && v[pos..pos + |Bytes(e)|] == Bytes(e)
  }

  /** Where the n-th entry of an encoded ACL lies. */
  lemma NextEntry(v: seq<Byte>, es: seq<Entry>, n: nat)
    requires Encodes(v, es) && n < |es|
    ensures Lies(v, 4 + |AllBytes(es[..n])|, es[n])
  {
    PrefixBytes(es, n);
    Piece(Le32(VERSION), AllBytes(es[..n]), Bytes(es[n]), AllBytes(es));
  }

  lemma LiesFields(v: seq<Byte>, pos: nat, e: Entry)
    requires Lies(v, pos, e)
    ensures Get16(v[pos..pos + 2]) == e.tag && Get16(v[pos + 2..pos + 4]) == e.perm
    ensures Named(e.tag) ==> Get32(v[pos + 4..pos + 8]) == e.id
  {
    var b := Bytes(e);
    EntryFields(e);
    Within(v, pos, b, 0, 2);
    Within(v, pos, b, 2, 4);
    if Named(e.tag) {
      Within(v, pos, b, 4, 8);
    }
  }

  lemma FieldsLie(v: seq<Byte>, pos: nat, e: Entry)
    requires Known(e) && pos + |Bytes(e)| <= |v|
    requires Get16(v[pos..pos + 2]) == e.tag && Get16(v[pos + 2..pos + 4]) == e.perm
    requires Named(e.tag) ==> Get32(v[pos + 4..pos + 8]) == e.id
    ensures Lies(v, pos, e)
  {
    Le16Get(v[pos..pos + 2]);
    Le16Get(v[pos + 2..pos + 4]);
    if Named(e.tag) {
      Le32Get(v[pos + 4..pos + 8]);
      assert v[pos..pos + 8] == v[pos..pos + 2] + v[pos + 2..pos + 4] + v[pos + 4..pos + 8];
    } else {
      assert v[pos..pos + 4] == v[pos..pos + 2] + v[pos + 2..pos + 4] + [];
    }
  }

  lemma OneEntryMore(es: seq<Entry>, n: nat)
    requires n < |es|
    ensures es[..n + 1] == es[..n] + [es[n]] && AllBytes(es[..n + 1]) == AllBytes(es[..n]) + Bytes(es[n])
  {
    assert es[..n + 1][..n] == es[..n];
  }

  // ----- decoding

  /** An encoded ACL has as many entries as its size says. */
  lemma EncodedCount(v: seq<Byte>, es: seq<Entry>)
    requires Encodes(v, es)
    ensures |v| >= 4 && v[..4] == Le32(VERSION) && Count(|v|) == |es|
  {
    SizeExact(es);
    CountOfSize(|v|);
  }

  /** The entry at pos is read, if there is one. */
  method ReadEntry(v: seq<Byte>, pos: nat) returns (e: Result<Entry>, next: nat)
    ensures !e.NoAcl? && (e.Ok? ==> Lies(v, pos, e.value) && next == pos + |Bytes(e.value)|)
    ensures forall x: Entry :: Lies(v, pos, x) ==> e == Ok(x)
  {
    e, next := Invalid, pos;
    forall x: Entry | Lies(v, pos, x)
      ensures Get16(v[pos..pos + 2]) == x.tag && Get16(v[pos + 2..pos + 4]) == x.perm
      ensures Named(x.tag) ==> Get32(v[pos + 4..pos + 8]) == x.id
    {
      LiesFields(v, pos, x);
    }
    if pos + 4 > |v| {
      return;
    }
    var tag, perm := Get16(v[pos..pos + 2]), Get16(v[pos + 2..pos + 4]);
    if Short(tag) {
      e, next := Ok(Entry(tag, perm, 0)), pos + 4;
      FieldsLie(v, pos, e.value);
    } else if Named(tag) {
      if pos + 8 > |v| {
        return;
      }
      e, next := Ok(Entry(tag, perm, Get32(v[pos + 4..pos + 8]))), pos + 8;
      FieldsLie(v, pos, e.value);
    }
  }

  /** The entries read so far are those of any ACL that v could be. */
  ghost predicate Agrees(v: seq<Byte>, acl: seq<Entry>, count: nat) {
    forall es :: Encodes(v, es) ==> |es| == count && |acl| <= count && es[..|acl|] == acl
  }

  lemma AgreesOne(v: seq<Byte>, acl: seq<Entry>, pos: nat, e: Entry, es: seq<Entry>)
    requires Encodes(v, es) && |acl| < |es| && es[..|acl|] == acl && pos == 4 + |AllBytes(acl)|
    requires Lies(v, pos, es[|acl|]) ==> es[|acl|] == e
    ensures es[..|acl| + 1] == acl + [e]
  {
    NextEntry(v, es, |acl|);
    OneEntryMore(es, |acl|);
  }

  lemma LiesNext(v: seq<Byte>, acl: seq<Entry>, count: nat, pos: nat, es: seq<Entry>)
    requires Agrees(v, acl, count) && |acl| < count && pos == 4 + |AllBytes(acl)| && Encodes(v, es)
    ensures |acl| < |es| && Lies(v, pos, es[|acl|])
  {
    NextEntry(v, es, |acl|);
  }

  /** Where no entry lies, no ACL that v could be goes on. */
  lemma AgreesEnd(v: seq<Byte>, acl: seq<Entry>, count: nat, pos: nat)
    requires Agrees(v, acl, count) && |acl| < count && pos == 4 + |AllBytes(acl)|
    requires forall x: Entry :: !Lies(v, pos, x)
    ensures forall es :: !Encodes(v, es)
  {
    forall es ensures !Encodes(v, es) {
      if Encodes(v, es) {
        LiesNext(v, acl, count, pos, es);
      }
    }
  }

  lemma AgreesOn(v: seq<Byte>, acl: seq<Entry>, count: nat, pos: nat, e: Entry)
    requires Agrees(v, acl, count) && |acl| < count && pos == 4 + |AllBytes(acl)|
    requires forall x: Entry :: Lies(v, pos, x) ==> x == e
    ensures Agrees(v, acl + [e], count)
  {
    forall es | Encodes(v, es) ensures es[..|acl| + 1] == acl + [e] {
      AgreesOne(v, acl, pos, e, es);
    }
  }

  /** acl takes up v from the header as far as pos. */
  ghost predicate Taken(v: seq<Byte>, acl: seq<Entry>, pos: nat) {
    && (forall i :: 0 <= i < |acl| ==> Known(acl[i]))
    && pos == 4 + |AllBytes(acl)| <= |v| && v[4..pos] == AllBytes(acl)
  }

  lemma TakenOn(v: seq<Byte>, acl: seq<Entry>, pos: nat, e: Entry)
    requires Taken(v, acl, pos) && Lies(v, pos, e)
    ensures Taken(v, acl + [e], pos + |Bytes(e)|)
  {
    assert (acl + [e])[..|acl|] == acl;
    assert v[4..pos + |Bytes(e)|] == v[4..pos] + v[pos..pos + |Bytes(e)|];
  }

  /** The loop over the entries. */
  method ReadEntries(v: seq<Byte>, count: nat) returns (r: Result<seq<Entry>>, pos: nat)
    requires |v| >= 4 && Agrees(v, [], count)
    ensures !r.NoAcl? && (r.Ok? ==> Taken(v, r.value, pos) && |r.value| == count)
    ensures if r.Ok? then Agrees(v, r.value, count) else forall es :: !Encodes(v, es)
  {
    var acl := [];
    pos := 4;
    assert v[4..4] == [];
    for n := 0 to count
      invariant |acl| == n && Taken(v, acl, pos) && Agrees(v, acl, count)
    {
      var e, next := ReadEntry(v, pos);
      if !e.Ok? {
        AgreesEnd(v, acl, count, pos);
        return Invalid, pos;
      }
      AgreesOn(v, acl, count, pos, e.value);
      TakenOn(v, acl, pos, e.value);
      acl, pos := acl + [e.value], next;
    }
    r := Ok(acl);
  }

  /** ext4_acl_from_disk: the ACL whose on-disk form v is, if there is one. */
  method FromDisk(v: seq<Byte>) returns (r: Result<seq<Entry>>)
    ensures r.Ok? ==> Encodes(v, r.value)
    ensures forall es :: Encodes(v, es) ==> r == Ok(es)
    ensures r.NoAcl? <==> v == Le32(VERSION)
  {
    forall es | Encodes(v, es) ensures |v| >= 4 && v[..4] == Le32(VERSION) && Count(|v|) == |es| > 0 {
      EncodedCount(v, es);
    }
    if |v| < 4 {
      return Invalid;
    }
    Le32Get(v[..4]);
    if Get32(v[..4]) != VERSION {
      return Invalid;
    }
    var count := Count(|v|);
    if count < 0 {
      return Invalid;
    }
    if count == 0 {
      assert v[..4] == v;
      return NoAcl;
    }
    var pos;
    r, pos := ReadEntries(v, count);
    if r.Ok? {
      forall es | Encodes(v, es) ensures es == r.value {
        assert es[..count] == es;
      }
      if pos == |v| {
        Encoding(v, r.value);
      } else {
        r := Invalid;
      }
    }
  }

  /** Entries that take up all of v are the ACL it encodes. */
  lemma Encoding(v: seq<Byte>, acl: seq<Entry>)
    requires |v| >= 4 && v[..4] == Le32(VERSION) && acl != [] && Taken(v, acl, |v|) && Count(|v|) == |acl|
    ensures Encodes(v, acl)
  {
    CountOfSize(|v|);
    SizeExact(acl);
    assert v == v[..4] + v[4..];
  }

  // ----- ext4_acl_to_disk

  /** Bytes stored into the buffer at pos. */
  method Store(a: array<Byte>, pos: nat, b: seq<Byte>)
    requires pos + |b| <= a.Length
    modifies a
    ensures a[..pos + |b|] == old(a[..pos]) + b
  {
    for i := 0 to |b|
      invariant a[..pos + i] == old(a[..pos]) + b[..i]
    {
      a[pos + i] := b[i];
    }
    assert b[..|b|] == b;
  }

  /** The buffer has room for long entries only; what is kept of it is as much as the size formula says. */
  method ToDisk(es: seq<Entry>) returns (r: Result<seq<Byte>>)
    ensures r.Ok? <==> forall i :: 0 <= i < |es| ==> Named(es[i].tag) || Short(es[i].tag)
    ensures !r.NoAcl? && (r.Ok? ==> |r.value| == Size(|es|) && (Shape(es) ==> r.value == Encoded(es)))
  {
    var size := Size(|es|);
    var a := new Byte[4 + |es| * 8];
    Store(a, 0, Le32(VERSION));
    var pos := 4;
    var n := 0;
    assert a[..4] == Encoded(es[..0]) by {
      assert a[..0] + Le32(VERSION) == Le32(VERSION) + [];
    }
    while n < |es|
      invariant 0 <= n <= |es| && 4 <= pos <= 4 + 8 * n && a[..pos] == Encoded(es[..n])
      invariant forall i :: 0 <= i < n ==> Named(es[i].tag) || Short(es[i].tag)
    {
      if !Named(es[n].tag) && !Short(es[n].tag) {
        return Invalid;
      }
      EncodedOn(es, n);
      Store(a, pos, Bytes(es[n]));
      pos, n := pos + |Bytes(es[n])|, n + 1;
    }
    assert es[..n] == es;
    SizeExact(es);
    return Ok(a[..size]);
  }

  lemma EncodedOn(es: seq<Entry>, n: nat)
    requires n < |es|
    ensures Encoded(es[..n + 1]) == Encoded(es[..n]) + Bytes(es[n])
  {
    OneEntryMore(es, n);
  }

  /** A valid ACL survives being written and read. */
  method WriteRead(es: seq<Entry>) returns (r: Result<seq<Entry>>)
    requires es != [] && (forall i :: 0 <= i < |es| ==> Known(es[i])) && Shape(es)
    ensures r == Ok(es)
  {
    var v := ToDisk(es);
    r := FromDisk(v.value);
    assert Encodes(v.value, es);
  }

  /** An attribute that is accepted is written back byte for byte. */
  method ReadWrite(v: seq<Byte>) returns (r: Result<seq<Byte>>)
    ensures r.Ok? ==> r.value == v
    ensures (exists es :: Encodes(v, es)) ==> r.Ok?
  {
    var es := FromDisk(v);
    if es.Ok? {
      r := ToDisk(es.value);
    } else {
      r := Invalid;
    }
  }
}
