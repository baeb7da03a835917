/** Little-endian fields of on-disk structures. */
module LittleEndian {

  type Byte = x: nat | x < 256
  type U32 = x: nat | x < 0x1_0000_0000

  function Int(b: Byte): int {
    b
  }

  /** Lowest byte of x, by repeated subtraction. */
  function Low(x: nat): (b: Byte) {
    if x < 256 then x else Low(x - 256)
  }

  /** x without its lowest byte. */
  function High(x: nat): (h: nat)
    ensures x == Int(Low(x)) + 256 * h
  {
    if x < 256 then 0 else 1 + High(x - 256)
  }

  lemma {:induction false} LowHigh(b: Byte, h: nat)
    ensures Low(Int(b) + 256 * h) == b && High(Int(b) + 256 * h) == h
  {
    if h > 0 {
      LowHigh(b, h - 1);
    }
  }

  /** They are remainder and quotient. */
  lemma LowHighAre(x: nat)
    ensures Int(Low(x)) == x % 256 && High(x) == x / 256
  {
    var h := High(x);
    assert x == Int(Low(x)) + 256 * h;
  }

  function Le16(x: nat): (b: seq<Byte>)
    requires x < 0x1_0000
    ensures |b| == 2 && Get16(b) == x
  {
    [Low(x), High(x)]
  }

  function Get16(b: seq<Byte>): nat
    requires |b| == 2
  {
    Int(b[0]) + 256 * Int(b[1])
  }

  function Le32(x: U32): (b: seq<Byte>)
    ensures |b| == 4 && Get32(b) == x
  {
    var up := High(x);
    var top := High(up);
    [Low(x), Low(up), Low(top), High(top)]
  }

  function Get32(b: seq<Byte>): U32
    requires |b| == 4
  {
    Int(b[0]) + 256 * (Int(b[1]) + 256 * (Int(b[2]) + 256 * Int(b[3])))
  }

  /** The bytes of a field, lowest first. */
  lemma Le16Bytes(x: nat)
    requires x < 0x1_0000
    ensures Int(Le16(x)[0]) == x % 256 && Int(Le16(x)[1]) == x / 256
  {
    LowHighAre(x);
  }

  lemma Le32Bytes(x: U32)
    ensures Int(Le32(x)[0]) == x % 256 && Int(Le32(x)[1]) == x / 256 % 256
    ensures Int(Le32(x)[2]) == x / 256 / 256 % 256 && Int(Le32(x)[3]) == x / 256 / 256 / 256
  {
    LowHighAre(x);
    LowHighAre(x / 256);
    LowHighAre(x / 256 / 256);
  }

  /** Reading and writing back gives the same bytes. */
  lemma Le16Get(b: seq<Byte>)
    requires |b| == 2
    ensures Le16(Get16(b)) == b
  {
    LowHigh(b[0], Int(b[1]));
  }

  lemma Le32Get(b: seq<Byte>)
    requires |b| == 4
    ensures Le32(Get32(b)) == b
  {
    LowHigh(b[2], Int(b[3]));
    LowHigh(b[1], Int(b[2]) + 256 * Int(b[3]));
    LowHigh(b[0], Int(b[1]) + 256 * (Int(b[2]) + 256 * Int(b[3])));
  }
}
