/** Fixed-width unsigned and signed words and their big-endian encodings. */
module BigEndian {

  type Byte = x: int | 0 <= x < 0x100
  type U16 = x: int | 0 <= x < 0x1_0000
  type U32 = x: int | 0 <= x < 0x1_0000_0000
  type I16 = x: int | -0x8000 <= x < 0x8000

  function ToU16(x: int): U16 {
    x % 0x1_0000
  }

  function ToU32(x: int): U32 {
    x % 0x1_0000_0000
  }

  function U16Bytes(v: U16): (s: seq<Byte>)
    ensures |s| == 2
  {
    [v / 0x100, v % 0x100]
  }

  function U32Bytes(v: U32): (s: seq<Byte>)
    ensures |s| == 4
  {
    U16Bytes(v / 0x1_0000) + U16Bytes(v % 0x1_0000)
  }

  function U64Bytes(hi: U32, lo: U32): (s: seq<Byte>)
    ensures |s| == 8
  {
    U32Bytes(hi) + U32Bytes(lo)
  }

  function I16Bytes(v: I16): (s: seq<Byte>)
    ensures |s| == 2
  {
    U16Bytes(ToU16(v))
  }

  function ReadU16(s: seq<Byte>): U16
    requires |s| == 2
  {
    (s[0] as int) * 0x100 + s[1]
  }

  function ReadU32(s: seq<Byte>): U32
    requires |s| == 4
  {
    ReadU16(s[..2]) * 0x1_0000 + ReadU16(s[2..])
  }

  function ReadI16(s: seq<Byte>): I16
    requires |s| == 2
  {
    var u := ReadU16(s);
    if u < 0x8000 then u else u - 0x1_0000
  }

  lemma U16RoundTrip(v: U16)
    ensures ReadU16(U16Bytes(v)) == v
  {
  }

  lemma U32RoundTrip(v: U32)
    ensures ReadU32(U32Bytes(v)) == v
  {
    var s := U32Bytes(v);
    assert s[..2] == U16Bytes(v / 0x1_0000);
    assert s[2..] == U16Bytes(v % 0x1_0000);
  }

  lemma I16RoundTrip(v: I16)
    ensures ReadI16(I16Bytes(v)) == v
  {
  }

  lemma ReadI16Injective(s: seq<Byte>, t: seq<Byte>)
    requires |s| == 2 && |t| == 2 && ReadI16(s) == ReadI16(t)
    ensures s == t
  {
  }
}
