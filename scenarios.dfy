/**
 * Whole-object properties of ByteArray, each stated for all inputs on a
 * freshly constructed ByteArray: write at a cursor, move the cursor back,
 * read. They generalise the behaviours the repository's tests check.
 */
module Scenarios {
  import opened ByteOrder
  import opened NodeBuffer
  import opened AsByteArray

  lemma EncodeOneByte(x: nat, e: Endian)
    requires x < Pow256(1)
    ensures Encode(x, 1, e) == [x]
  {
  }

  /** After a successful Store of data at pos, reading back |data| bytes at pos sees data. */
  lemma StoredReadsBack(before: seq<Byte>, pos: int, grown: seq<Byte>, data: seq<Byte>, after: seq<Byte>, newPos: int)
    requires Stored(before, pos, grown, data, Pass, after, newPos)
    ensures InBounds(after, pos, |data|) && after[pos..pos + |data|] == data && newPos == pos + |data|
  {
  }

  /** A fixed-width write succeeds exactly when the cursor lies in [0, length]. */
  lemma StoredSucceeds(before: seq<Byte>, pos: int, grown: seq<Byte>, data: seq<Byte>, r: Outcome, after: seq<Byte>, newPos: int)
    requires Stored(before, pos, grown, data, r, after, newPos)
    ensures r.Pass? <==> 0 <= pos <= |before|
    ensures r.Fail? ==> r.error == OutOfBounds && after == grown && newPos == pos
  {
    GrowthSuffices(before, grown, pos, |data|);
  }

  /** A length below 256 is stored big-endian as [0, n], which little-endian reads as 256 * n. */
  lemma ShortPrefixSwapped(n: nat)
    requires n < 0x100
    ensures Encode(n, 2, BigEndian) == [0, n]
    ensures Encode(0x100 * n, 2, LittleEndian) == [0, n]
  {
    Pow256Values();
    assert ToBE(n / 0x100, 1) == ToBE(0, 0) + [0];
    assert ToLE(0x100 * n, 2) == [0] + ToLE(n, 1);
  }

  /** writeByte then readByte / readUnsignedByte at the same cursor. */
  method ByteRoundTrip(initial: seq<Byte>, at: int, value: int)
    returns (w: Outcome, signed: Result<int>, unsigned: Result<int>)
    ensures w.Pass? <==> 0 <= at <= |initial|
    ensures w.Pass? ==> unsigned == Ok(value % 0x100) && signed == Ok(Signed(value % 0x100, 1))
  {
    var b := new ByteArray(initial);
    b.position := at;
    ghost var g;
    w, g := b.WriteByte(value);
    StoredSucceeds(initial, at, g, [value % 0x100], w, b.buffer, b.position);
    if w.Pass? {
      StoredReadsBack(initial, at, g, [value % 0x100], b.buffer, b.position);
      ghost var u := ReadAt(b.buffer, at, 1, b.endian);
      EncodeOneByte(u.value, b.endian);
      assert u == Ok(value % 0x100);
    }
    b.position := at;
    signed := b.ReadByte();
    b.position := at;
    unsigned := b.ReadUnsignedByte();
  }

  /** writeShort then readShort / readUnsignedShort at the same cursor, in either byte order. */
  method ShortRoundTrip(initial: seq<Byte>, at: int, e: Endian, value: int)
    returns (w: Outcome, signed: Result<int>, unsigned: Result<int>)
    ensures w.Pass? <==> 0 <= at <= |initial|
    ensures w.Pass? ==> unsigned == Ok(value % 0x1_0000) && signed == Ok(Signed(value % 0x1_0000, 2))
  {
    Pow256Values();
    var b := new ByteArray(initial);
    b.endian := e;
    b.position := at;
    ghost var g;
    w, g := b.WriteShort(value);
    var data := Encode(value % 0x1_0000, 2, e);
    StoredSucceeds(initial, at, g, data, w, b.buffer, b.position);
    if w.Pass? {
      StoredReadsBack(initial, at, g, data, b.buffer, b.position);
      var u := ReadAt(b.buffer, at, 2, e);
      EncodeInjective(u.value, value % 0x1_0000, 2, e);
    }
    b.position := at;
    signed := b.ReadShort();
    b.position := at;
    unsigned := b.ReadUnsignedShort();
  }

  /**
   * writeInt then readInt / readUnsignedInt at the same cursor. The write
   * throws when bit 31 of the 32-bit value is set; otherwise both reads
   * return value mod 2^32.
   */
  method IntRoundTrip(initial: seq<Byte>, at: int, e: Endian, value: int)
    returns (w: Outcome, signed: Result<int>, unsigned: Result<int>)
    ensures w.Pass? <==> 0 <= at <= |initial| && value % 0x1_0000_0000 < 0x8000_0000
    ensures 0 <= at <= |initial| && value % 0x1_0000_0000 >= 0x8000_0000 ==> w == Fail(ValueOutOfRange)
    ensures w.Pass? ==> unsigned == Ok(value % 0x1_0000_0000) && signed == unsigned
  {
    Pow256Values();
    var b := new ByteArray(initial);
    b.endian := e;
    b.position := at;
    ghost var g;
    w, g := b.WriteInt(value);
    GrowthSuffices(initial, g, at, 4);
    if w.Pass? {
      var u := ReadAt(b.buffer, at, 4, e);
      EncodeInjective(u.value, ToInt32(value), 4, e);
      assert ToInt32(value) == value % 0x1_0000_0000;
    }
    b.position := at;
    signed := b.ReadInt();
    b.position := at;
    unsigned := b.ReadUnsignedInt();
  }

  /** writeBoolean then readBoolean at the same cursor. */
  method BooleanRoundTrip(initial: seq<Byte>, at: int, value: bool) returns (w: Outcome, r: Result<bool>)
    ensures w.Pass? <==> 0 <= at <= |initial|
    ensures w.Pass? ==> r == Ok(value)
  {
    var b := new ByteArray(initial);
    b.position := at;
    ghost var g;
    var data := [if value then 1 else 0];
    w, g := b.WriteBoolean(value);
    StoredSucceeds(initial, at, g, data, w, b.buffer, b.position);
    if w.Pass? {
      StoredReadsBack(initial, at, g, data, b.buffer, b.position);
      EncodeOneByte(b.buffer[at], b.endian);
    }
    b.position := at;
    r := b.ReadBoolean();
  }

  /** readBoolean of a buffer holding one byte x: true only for 1..127, so 0x80..0xFF read as false. */
  method BooleanOfByte(x: Byte) returns (r: Result<bool>)
    ensures r == Ok(0 < x < 0x80)
  {
    var b := new ByteArray([x]);
    EncodeOneByte(x, b.endian);
    r := b.ReadBoolean();
  }

  /** writeFloat then readFloat at the same cursor give back the IEEE-754 bit pattern. */
  method FloatRoundTrip(initial: seq<Byte>, at: int, e: Endian, bits: nat) returns (w: Outcome, r: Result<nat>)
    requires bits < Pow256(4)
    ensures w.Pass? <==> 0 <= at <= |initial|
    ensures w.Pass? ==> r == Ok(bits)
  {
    var b := new ByteArray(initial);
    b.endian := e;
    b.position := at;
    ghost var g;
    w, g := b.WriteFloat(bits);
    StoredSucceeds(initial, at, g, Encode(bits, 4, e), w, b.buffer, b.position);
    if w.Pass? {
      StoredReadsBack(initial, at, g, Encode(bits, 4, e), b.buffer, b.position);
      EncodeInjective(ReadAt(b.buffer, at, 4, e).value, bits, 4, e);
    }
    b.position := at;
    r := b.ReadFloat();
  }

  /** writeDouble then readDouble at the same cursor give back the IEEE-754 bit pattern. */
  method DoubleRoundTrip(initial: seq<Byte>, at: int, e: Endian, bits: nat) returns (w: Outcome, r: Result<nat>)
    requires bits < Pow256(8)
    ensures w.Pass? <==> 0 <= at <= |initial|
    ensures w.Pass? ==> r == Ok(bits)
  {
    var b := new ByteArray(initial);
    b.endian := e;
    b.position := at;
    ghost var g;
    w, g := b.WriteDouble(bits);
    StoredSucceeds(initial, at, g, Encode(bits, 8, e), w, b.buffer, b.position);
    if w.Pass? {
      StoredReadsBack(initial, at, g, Encode(bits, 8, e), b.buffer, b.position);
      EncodeInjective(ReadAt(b.buffer, at, 8, e).value, bits, 8, e);
    }
    b.position := at;
    r := b.ReadDouble();
  }

  /** writeInt(0x12345678) on an empty ByteArray stores 12 34 56 78 big-endian and 78 56 34 12 little-endian. */
  method EndianLayout() returns (big: seq<Byte>, little: seq<Byte>)
    ensures big == [0x12, 0x34, 0x56, 0x78]
    ensures little == [0x78, 0x56, 0x34, 0x12]
  {
    Pow256Values();
    EndianExample();
    var b := new ByteArray([]);
    var w, g := b.WriteInt(0x12345678);
    assert b.buffer == WriteAt(g, 0, [0x12, 0x34, 0x56, 0x78]).value;
    big := b.buffer;
    var l := new ByteArray([]);
    l.endian := LittleEndian;
    w, g := l.WriteInt(0x12345678);
    assert l.buffer == WriteAt(g, 0, [0x78, 0x56, 0x34, 0x12]).value;
    little := l.buffer;
  }

  /** A write with the cursor past the end still grows the buffer by its width, then throws. */
  method WritePastEnd(initial: seq<Byte>, at: int, value: int) returns (w: Outcome, length: int, position: int)
    requires at > |initial|
    ensures w == Fail(OutOfBounds) && length == |initial| + 2 && position == at
  {
    var b := new ByteArray(initial);
    b.position := at;
    ghost var g;
    w, g := b.WriteShort(value);
    StoredSucceeds(initial, at, g, Encode(value % 0x1_0000, 2, b.endian), w, b.buffer, b.position);
    length := b.Length();
    position := b.position;
  }

  /** writeUTF then readUTF at the same cursor return the payload when it is shorter than 32768 bytes. */
  method UtfRoundTrip(initial: seq<Byte>, at: int, e: Endian, payload: seq<Byte>) returns (w: Outcome, r: Result<seq<Byte>>)
    requires |payload| < 0x8000
    ensures w.Pass? <==> 0 <= at <= |initial|
    ensures w.Pass? ==> r == Ok(payload)
  {
    Pow256Values();
    var b := new ByteArray(initial);
    b.endian := e;
    b.position := at;
    w := b.WriteUTF(payload);
    if w.Pass? {
      var n := |payload|;
      ghost var buf := b.buffer;
      assert buf[at..at + 2] == Encode(n, 2, e) by {
        assert buf[at..at + 2] == buf[at..at + 2 + n][..2];
      }
      assert buf[at + 2..at + 2 + n] == payload by {
        assert buf[at + 2..at + 2 + n] == buf[at..at + 2 + n][2..];
      }
      EncodeInjective(ReadAt(buf, at, 2, e).value, n, 2, e);
      assert Signed(n, 2) == n;
    }
    b.position := at;
    r := b.ReadUTF();
  }

  /**
   * writeUTF accepts up to 65535 bytes, but readUTF reads the prefix as a
   * signed short: a payload of 32768..65535 bytes reads back as nothing,
   * and the cursor moves backwards.
   */
  method UtfLongPayloadReadsEmpty(payload: seq<Byte>) returns (w: Outcome, r: Result<seq<Byte>>, position: int)
    requires 0x8000 <= |payload| <= 0xFFFF
    ensures w == Pass && r == Ok([]) && position == |payload| - 0xFFFE
  {
    Pow256Values();
    var b := new ByteArray([]);
    w := b.WriteUTF(payload);
    var n := |payload|;
    ghost var buf := b.buffer;
    assert buf[0..2] == Encode(n, 2, BigEndian) by {
      assert buf[0..2] == buf[0..2 + n][..2];
    }
    EncodeInjective(ReadAt(buf, 0, 2, BigEndian).value, n, 2, BigEndian);
    assert Signed(n, 2) == n - 0x1_0000;
    b.position := 0;
    r := b.ReadUTF();
    position := b.position;
  }

  /**
   * A payload of 1..127 bytes written big-endian and read little-endian:
   * the prefix reads as 256 times the length, and toString's clamping at
   * the end of the buffer still returns the payload.
   */
  method UtfEndianMismatch(payload: seq<Byte>) returns (r: Result<seq<Byte>>, position: int)
    requires 0 < |payload| < 0x80
    ensures r == Ok(payload) && position == 2 + 0x100 * |payload|
  {
    Pow256Values();
    var b := new ByteArray([]);
    var w := b.WriteUTF(payload);
    var n := |payload|;
    ghost var buf := b.buffer;
    assert |buf| == 2 + n;
    ShortPrefixSwapped(n);
    assert buf[0..2] == [0, n] by {
      assert buf[0..2] == buf[0..2 + n][..2];
    }
    assert buf[2..] == payload by {
      assert buf[2..] == buf[0..2 + n][2..];
    }
    EncodeInjective(ReadAt(buf, 0, 2, LittleEndian).value, 0x100 * n, 2, LittleEndian);
    b.endian := LittleEndian;
    b.position := 0;
    r := b.ReadUTF();
    position := b.position;
  }

  /** writeUTF of more than 65535 bytes throws and changes neither the bytes nor the cursor. */
  method UtfTooLong(initial: seq<Byte>, at: int, payload: seq<Byte>) returns (w: Outcome, bytes: seq<Byte>, position: int)
    requires |payload| > 0xFFFF
    ensures w == Fail(StringTooLong) && bytes == initial && position == at
  {
    var b := new ByteArray(initial);
    b.position := at;
    w := b.WriteUTF(payload);
    bytes := b.buffer;
    position := b.position;
  }

  /** writeUTFBytes at any cursor in [0, length], then readUTFBytes of the payload length from that cursor. */
  method UtfBytesRoundTrip(initial: seq<Byte>, at: int, payload: seq<Byte>) returns (w: Outcome, r: seq<Byte>)
    ensures 0 <= at <= |initial| ==> w == Pass && r == payload
  {
    var b := new ByteArray(initial);
    b.position := at;
    ghost var g;
    w, g := b.WriteUTFBytes(payload);
    b.position := at;
    r := b.ReadUTFBytes(|payload|);
  }

  /** writeInt, then readBytes with default length into an empty ByteArray, then readInt there. */
  method ReadBytesTransfer(value: int) returns (r: Result<int>)
    ensures ToInt32(value) >= 0 ==> r == Ok(ToInt32(value))
  {
    Pow256Values();
    var data := new ByteArray([]);
    ghost var g;
    var w;
    w, g := data.WriteInt(value);
    var target := new ByteArray([]);
    data.position := 0;
    var c;
    c, g := data.ReadBytes(target, 0, None);
    if ToInt32(value) >= 0 {
      var enc := Encode(ToInt32(value), 4, BigEndian);
      assert data.buffer == enc;
      assert target.buffer == enc;
      EncodeInjective(ReadAt(target.buffer, 0, 4, BigEndian).value, ToInt32(value), 4, BigEndian);
      assert Signed(ToInt32(value), 4) == ToInt32(value);
    }
    r := target.ReadInt();
  }

  /** writeInt, then writeBytes of that ByteArray into an empty one, then readInt there from 0. */
  method WriteBytesTransfer(value: int) returns (r: Result<int>)
    ensures ToInt32(value) >= 0 ==> r == Ok(ToInt32(value))
  {
    Pow256Values();
    var data := new ByteArray([]);
    ghost var g;
    var w;
    w, g := data.WriteInt(value);
    var target := new ByteArray([]);
    data.position := 0;
    var c;
    c, g := target.WriteBytes(data, 0, None);
    if ToInt32(value) >= 0 {
      var enc := Encode(ToInt32(value), 4, BigEndian);
      assert data.buffer == enc;
      assert target.buffer == enc;
      EncodeInjective(ReadAt(target.buffer, 0, 4, BigEndian).value, ToInt32(value), 4, BigEndian);
      assert Signed(ToInt32(value), 4) == ToInt32(value);
    }
    target.position := 0;
    r := target.ReadInt();
  }

  /** writeBytes with an explicit length of 0 copies the whole source, as if no length were given. */
  method WriteBytesZeroMeansAll(source: seq<Byte>) returns (r: Outcome, bytes: seq<Byte>, position: int)
    ensures r == Pass && bytes == source && position == |source|
  {
    var s := new ByteArray(source);
    var b := new ByteArray([]);
    ghost var g;
    r, g := b.WriteBytes(s, 0, Some(0));
    assert b.buffer == source;
    bytes := b.buffer;
    position := b.position;
  }

  /**
   * readBytes decides growth by the target's position but copies to offset:
   * with the target's position at 0 and offset at its end, no byte arrives
   * although the source cursor advances past everything.
   */
  method ReadBytesPastTargetEnd(source: seq<Byte>, target: seq<Byte>) returns (r: Outcome, bytes: seq<Byte>, position: int)
    requires |source| <= |target|
    ensures r == Pass && bytes == target && position == |source|
  {
    var s := new ByteArray(source);
    var t := new ByteArray(target);
    ghost var g;
    r, g := s.ReadBytes(t, |target|, None);
    bytes := t.buffer;
    position := s.position;
  }

  /** length = 0, then length = 4, then readInt: the new bytes are zero. */
  method LengthResetReadsZero(initial: seq<Byte>) returns (r: Result<int>)
    ensures r == Ok(0)
  {
    Pow256Values();
    var b := new ByteArray(initial);
    var s := b.SetLength(0);
    s := b.SetLength(4);
    assert b.buffer == [0, 0, 0, 0];
    assert Encode(0, 4, BigEndian) == [0, 0, 0, 0];
    EncodeInjective(ReadAt(b.buffer, 0, 4, BigEndian).value, 0, 4, BigEndian);
    r := b.ReadInt();
  }

  /** clear() leaves length 0 and position 0. */
  method ClearEmpties(initial: seq<Byte>, at: int) returns (length: int, position: int)
    ensures length == 0 && position == 0
  {
    var b := new ByteArray(initial);
    b.position := at;
    b.Clear();
    length := b.Length();
    position := b.position;
  }

  /** After writeInt and writeShort from an empty ByteArray, 6 bytes are available from 0 and 4 from 2. */
  method BytesAvailableAfterWrites(i: int, s: int) returns (fromStart: int, fromTwo: int)
    requires ToInt32(i) >= 0
    ensures fromStart == 6 && fromTwo == 4
  {
    var b := new ByteArray([]);
    ghost var g;
    var w;
    w, g := b.WriteInt(i);
    w, g := b.WriteShort(s);
    b.position := 0;
    fromStart := b.BytesAvailable();
    b.position := 2;
    fromTwo := b.BytesAvailable();
  }

  /** writeUTF, compress, uncompress, readUTF: with a lossless codec the payload comes back. */
  method CompressRoundTrip(payload: seq<Byte>, deflate: seq<Byte> -> seq<Byte>, inflate: seq<Byte> -> Result<seq<Byte>>)
    returns (r: Result<seq<Byte>>)
    requires |payload| < 0x8000
    requires forall data :: inflate(deflate(data)) == Ok(data)
    ensures r == Ok(payload)
  {
    Pow256Values();
    var b := new ByteArray([]);
    var w := b.WriteUTF(payload);
    ghost var buf := b.buffer;
    var n := |payload|;
    assert buf[0..2] == Encode(n, 2, BigEndian) by {
      assert buf[0..2] == buf[0..2 + n][..2];
    }
    assert buf[2..2 + n] == payload by {
      assert buf[2..2 + n] == buf[0..2 + n][2..];
    }
    EncodeInjective(ReadAt(buf, 0, 2, BigEndian).value, n, 2, BigEndian);
    b.Compress(deflate);
    var u := b.Uncompress(inflate);
    r := b.ReadUTF();
  }
}
