/**
 * Byte-level integer encoding used by ByteArray: unsigned values of a given
 * width (in bytes) laid out big- or little-endian, and their two's-complement
 * reinterpretation as signed values.
 */
module ByteOrder {

  /** One octet of the buffer. */
  type Byte = b: int | 0 <= b < 256

  /** The byte order of multi-byte numbers (BIG_ENDIAN / LITTLE_ENDIAN). */
  datatype Endian = BigEndian | LittleEndian

  /** 256^w, the number of distinct values of a w-byte unsigned integer. */
  function Pow256(w: nat): (r: nat)
    ensures r > 0
    ensures w > 0 ==> r % 256 == 0
  {
    if w == 0 then 1 else 256 * Pow256(w - 1)
  }

  lemma Pow256Values()
    ensures Pow256(1) == 0x100 && Pow256(2) == 0x1_0000
    ensures Pow256(4) == 0x1_0000_0000 && Pow256(8) == 0x1_0000_0000_0000_0000
  {
  }

  lemma DivBelowPow(v: nat, w: nat)
    requires w > 0 && v < Pow256(w)
    ensures v / 256 < Pow256(w - 1)
  {
  }

  /** Little-endian layout of v in w bytes: least significant byte first. */
  function ToLE(v: nat, w: nat): (r: seq<Byte>)
    requires v < Pow256(w)
    ensures |r| == w
  {
    if w == 0 then [] else DivBelowPow(v, w); [v % 256] + ToLE(v / 256, w - 1)
  }

  /** Big-endian layout of v in w bytes: most significant byte first. */
  function ToBE(v: nat, w: nat): (r: seq<Byte>)
    requires v < Pow256(w)
    ensures |r| == w
  {
    if w == 0 then [] else DivBelowPow(v, w); ToBE(v / 256, w - 1) + [v % 256]
  }

  /** The unsigned value of bytes stored least significant first. */
  function FromLE(s: seq<Byte>): (r: nat)
    ensures r < Pow256(|s|)
  {
    if s == [] then 0
    else
      var rest := FromLE(s[1..]);
      assert rest <= Pow256(|s| - 1) - 1;
      assert 256 * rest <= 256 * Pow256(|s| - 1) - 256;
      s[0] + 256 * rest
  }

  /** The unsigned value of bytes stored most significant first. */
  function FromBE(s: seq<Byte>): (r: nat)
    ensures r < Pow256(|s|)
  {
    if s == [] then 0
    else
      var rest := FromBE(s[..|s| - 1]);
      assert rest <= Pow256(|s| - 1) - 1;
      assert 256 * rest <= 256 * Pow256(|s| - 1) - 256;
      256 * rest + s[|s| - 1]
  }

  function Reversed(s: seq<Byte>): (r: seq<Byte>)
    ensures |r| == |s|
  {
    if s == [] then [] else Reversed(s[1..]) + [s[0]]
  }

  /** The w bytes that a write of the unsigned value v stores under byte order e. */
  function Encode(v: nat, w: nat, e: Endian): (r: seq<Byte>)
    requires v < Pow256(w)
    ensures |r| == w
  {
    match e
    case BigEndian => ToBE(v, w)
    case LittleEndian => ToLE(v, w)
  }

  /** The unsigned value that a read of the bytes s returns under byte order e. */
  function Decode(s: seq<Byte>, e: Endian): (r: nat)
    ensures r < Pow256(|s|)
  {
    match e
    case BigEndian => FromBE(s)
    case LittleEndian => FromLE(s)
  }

  lemma {:induction false} FromToLE(v: nat, w: nat)
    requires v < Pow256(w)
    ensures FromLE(ToLE(v, w)) == v
  {
    if w > 0 {
      DivBelowPow(v, w);
      var s := ToLE(v, w);
      assert s[1..] == ToLE(v / 256, w - 1);
      FromToLE(v / 256, w - 1);
    }
  }

  lemma {:induction false} FromToBE(v: nat, w: nat)
    requires v < Pow256(w)
    ensures FromBE(ToBE(v, w)) == v
  {
    if w > 0 {
      DivBelowPow(v, w);
      var s := ToBE(v, w);
      assert s[..w - 1] == ToBE(v / 256, w - 1);
      FromToBE(v / 256, w - 1);
    }
  }

  /** The low byte and the rest of 256 * hi + lo. */
  lemma DivModByte(hi: nat, lo: Byte)
    ensures (256 * hi + lo) % 256 == lo && (256 * hi + lo) / 256 == hi
  {
  }

  lemma {:induction false} ToFromLE(s: seq<Byte>)
    ensures ToLE(FromLE(s), |s|) == s
  {
    if s != [] {
      var rest := FromLE(s[1..]);
      DivModByte(rest, s[0]);
      ToFromLE(s[1..]);
      assert s == [s[0]] + s[1..];
    }
  }

  lemma {:induction false} ToFromBE(s: seq<Byte>)
    ensures ToBE(FromBE(s), |s|) == s
  {
    if s != [] {
      var rest := FromBE(s[..|s| - 1]);
      DivModByte(rest, s[|s| - 1]);
      ToFromBE(s[..|s| - 1]);
      assert s == s[..|s| - 1] + [s[|s| - 1]];
    }
  }

  /** Reading back what was written, with the same byte order, gives the value. */
  lemma DecodeEncode(v: nat, w: nat, e: Endian)
    requires v < Pow256(w)
    ensures Decode(Encode(v, w, e), e) == v
  {
    match e
    case BigEndian => FromToBE(v, w);
    case LittleEndian => FromToLE(v, w);
  }

  /** Every byte sequence is the encoding of the value it decodes to. */
  lemma EncodeDecode(s: seq<Byte>, e: Endian)
    ensures Encode(Decode(s, e), |s|, e) == s
  {
    match e
    case BigEndian => ToFromBE(s);
    case LittleEndian => ToFromLE(s);
  }

  /** Two values of the same width with the same encoding are equal. */
  lemma EncodeInjective(u: nat, v: nat, w: nat, e: Endian)
    requires u < Pow256(w) && v < Pow256(w)
    requires Encode(u, w, e) == Encode(v, w, e)
    ensures u == v
  {
    DecodeEncode(u, w, e);
    DecodeEncode(v, w, e);
  }

  /** The big-endian layout is the little-endian layout reversed. */
  lemma {:induction false} BigEndianReversesLittle(v: nat, w: nat)
    requires v < Pow256(w)
    ensures ToBE(v, w) == Reversed(ToLE(v, w))
  {
    if w > 0 {
      DivBelowPow(v, w);
      var le := ToLE(v, w);
      assert le[1..] == ToLE(v / 256, w - 1);
      BigEndianReversesLittle(v / 256, w - 1);
    }
  }

  /** The example from the Endian documentation: 0x12345678 in each byte order. */
  lemma EndianExample()
    ensures Encode(0x12345678, 4, BigEndian) == [0x12, 0x34, 0x56, 0x78]
    ensures Encode(0x12345678, 4, LittleEndian) == [0x78, 0x56, 0x34, 0x12]
  {
    Pow256Values();
  }

  /** Two's-complement reinterpretation of the w-byte unsigned value u. */
  function Signed(u: nat, w: nat): (r: int)
    requires w > 0 && u < Pow256(w)
    ensures -(Pow256(w) / 2) <= r < Pow256(w) / 2
    ensures r == u || r == u - Pow256(w)
  {
    if u < Pow256(w) / 2 then u else u - Pow256(w)
  }

  /** A value in the signed range of w bytes survives masking to w bytes and reinterpretation. */
  lemma SignedOfMasked(v: int, w: nat)
    requires w > 0 && -(Pow256(w) / 2) <= v < Pow256(w) / 2
    ensures Signed(v % Pow256(w), w) == v
  {
    var p := Pow256(w);
    var m := if v < 0 then v + p else v;
    if v < 0 {
      ModOfShifted(v, p);
    } else {
      ModOfSmall(v, p);
    }
    assert v % p == m;
    assert Signed(m, w) == v;
  }

  lemma ModOfShifted(v: int, p: int)
    requires p > 0 && -p <= v < 0
    ensures v % p == v + p
  {
    assert v == -1 * p + (v + p);
  }

  lemma ModOfSmall(v: int, p: int)
    requires 0 <= v < p
    ensures v % p == v
  {
  }

  /**
   * ToInt32 of JavaScript: the result of `value & 0xFFFFFFFF`, which is the
   * value reduced to 32 bits and read back as a signed 32-bit integer.
   */
  function ToInt32(v: int): (r: int)
    ensures -0x8000_0000 <= r < 0x8000_0000
    ensures (v - r) % 0x1_0000_0000 == 0
    ensures r >= 0 <==> v % 0x1_0000_0000 < 0x8000_0000
  {
    Pow256Values();
    Signed(v % 0x1_0000_0000, 4)
  }

  /** The overflow examples: 42342 as a byte, 500000 as a short, 4444444444 as an int. */
  lemma WrapAroundExamples()
    ensures Signed(42342 % 0x100, 1) == 102
    ensures Signed(500000 % 0x1_0000, 2) == -24288
    ensures ToInt32(4444444444) == 149477148 && 4444444444 % 0x1_0000_0000 == 149477148
  {
    Pow256Values();
  }
}
