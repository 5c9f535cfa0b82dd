/**
 * The ByteArray class: a growable byte buffer with a cursor and a byte-order
 * setting. Every typed write grows the buffer if needed, stores its bytes at
 * the cursor and advances it; every typed read decodes the bytes at the
 * cursor and advances it. Operations that throw in the original return Fail
 * or Err here, leaving the state as it was at the throw.
 */
module AsByteArray {
  import opened ByteOrder
  import opened NodeBuffer

  /** An optional argument: absent, or given. */
  datatype Option<T> = None | Some(value: T)

  /** `length || fallback`: an absent length and a length of 0 both mean the fallback. */
  function LengthOrDefault(length: Option<int>, fallback: int): (n: int)
    ensures length.Some? && length.value != 0 ==> n == length.value
    ensures length == None || length == Some(0) ==> n == fallback
  {
    if length.Some? && length.value != 0 then length.value else fallback
  }

  /**
   * One fixed-width store as every write method performs it: before, at pos,
   * grew into grown (checkBuffer); then data was written at pos, giving
   * after and the cursor newPos, or the write threw and left grown and pos.
   */
  ghost predicate Stored(before: seq<Byte>, pos: int, grown: seq<Byte>, data: seq<Byte>,
                         r: Outcome, after: seq<Byte>, newPos: int)
  {
    && Grew(before, grown, pos, |data|)
    && var w := WriteAt(grown, pos, data);
       if w.Ok? then r == Pass && after == w.value && newPos == pos + |data|
       else r == Fail(w.error) && after == grown && newPos == pos
  }

  /**
   * writeUTF after its prefix: the buffer mid holds prefix at pos and
   * otherwise the bytes of before; it then grew into grown for the payload
   * at pos + |prefix|. Writing the payload there succeeds, leaves
   * prefix + payload at pos, keeps every other byte of before, and has the
   * grown length.
   */
  lemma PrefixThenPayload(before: seq<Byte>, mid: seq<Byte>, grown: seq<Byte>, pos: int,
                          prefix: seq<Byte>, payload: seq<Byte>)
    requires 0 <= pos <= |before|
    requires |mid| == GrownLength(|before|, pos, |prefix|)
    requires mid[pos..pos + |prefix|] == prefix
    requires forall i :: 0 <= i < |before| && !(pos <= i < pos + |prefix|) ==> mid[i] == before[i]
    requires Grew(mid, grown, pos + |prefix|, |payload|)
    ensures var w := WriteString(grown, pos + |prefix|, payload);
      && w.Ok?
      && |w.value| == GrownLength(|mid|, pos + |prefix|, |payload|)
      && w.value[pos..pos + |prefix| + |payload|] == prefix + payload
      && forall i :: 0 <= i < |before| && !(pos <= i < pos + |prefix| + |payload|) ==> w.value[i] == before[i]
  {
    var k := pos + |prefix|;
    GrowthSuffices(mid, grown, k, |payload|);
    var after := WriteString(grown, k, payload).value;
    assert after[pos..k] == grown[pos..k] by {
      assert after[..k] == grown[..k];
      assert after[pos..k] == after[..k][pos..];
    }
    assert grown[pos..k] == prefix by {
      assert grown[..|mid|] == mid;
      assert grown[pos..k] == grown[..|mid|][pos..k];
    }
    assert after[pos..k + |payload|] == after[pos..k] + after[k..k + |payload|];
    forall i | 0 <= i < |before| && !(pos <= i < k + |payload|)
      ensures after[i] == before[i]
    {
      assert grown[i] == mid[i];
      if i < pos {
        assert after[..k][i] == grown[..k][i];
      } else {
        assert after[k + |payload|..][i - (k + |payload|)] == grown[k + |payload|..][i - (k + |payload|)];
      }
    }
  }

  class ByteArray {
    /** The backing bytes; the length of the ByteArray is its length. */
    var buffer: seq<Byte>
    /** The cursor. Any integer may be assigned to it; it is not checked against the length. */
    var position: int
    /** The byte order of multi-byte numbers. */
    var endian: Endian

    /** A ByteArray over the given bytes (the empty buffer by default), at position 0, big-endian. */
    constructor (initial: seq<Byte>)
      ensures buffer == initial && position == 0 && endian == BigEndian
    {
      buffer := initial;
      position := 0;
      endian := BigEndian;
    }

    /** The length in bytes. */
    function Length(): (n: nat)
      reads this
      ensures n == |buffer|
    {
      |buffer|
    }

    /** The bytes from the cursor to the end; negative when the cursor is past the end. */
    function BytesAvailable(): (n: int)
      reads this
      ensures n == Length() - position
      ensures n < 0 <==> position > Length()
    {
      |buffer| - position
    }

    /**
     * The length setter: a longer length keeps the bytes and zero-fills
     * the new tail, a shorter one truncates, the same one changes nothing.
     * A negative length is an allocation of negative size and throws.
     */
    method SetLength(value: int) returns (r: Outcome)
      modifies this`buffer
      ensures r.Fail? <==> value < 0
      ensures r.Fail? ==> r.error == InvalidSize && buffer == old(buffer)
      ensures value > |old(buffer)| ==> buffer == old(buffer) + Zeros(value - |old(buffer)|)
      ensures 0 <= value <= |old(buffer)| ==> buffer == old(buffer)[..value]
    {
      r := Pass;
      if value > |buffer| {
        var newData := Zeros(value);
        var copied := BufferCopy(buffer, newData, 0, 0, |buffer|);
        assert copied.value == buffer + Zeros(value - |buffer|);
        buffer := copied.value;
      } else if value < |buffer| {
        if value < 0 {
          return Fail(InvalidSize);
        }
        assert |Zeros(value)| == value;
        var newData: seq<Byte> :| |newData| == value;
        var copied := BufferCopy(buffer, newData, 0, 0, value);
        assert copied.value == buffer[..value];
        buffer := copied.value;
      }
    }

    /** Empties the buffer and moves the cursor to 0. */
    method Clear()
      modifies this`buffer, this`position
      ensures buffer == [] && position == 0
    {
      buffer := [];
      position := 0;
    }

    /** Replaces the buffer by its DEFLATE form (deflate stands for zlib.deflateSync). */
    method Compress(deflate: seq<Byte> -> seq<Byte>)
      modifies this`buffer, this`position
      ensures buffer == deflate(old(buffer)) && position == 0
    {
      buffer := deflate(buffer);
      position := 0;
    }

    /** Replaces the buffer by its inflated form (inflate stands for zlib.inflateSync). */
    method Uncompress(inflate: seq<Byte> -> Result<seq<Byte>>) returns (r: Outcome)
      modifies this`buffer, this`position
      ensures var u := inflate(old(buffer));
        if u.Ok? then r == Pass && buffer == u.value && position == 0
        else r == Fail(u.error) && buffer == old(buffer) && position == old(position)
    {
      var u := inflate(buffer);
      if u.Err? {
        return Fail(u.error);
      }
      buffer := u.value;
      position := 0;
      r := Pass;
    }

    /**
     * Growth before a size-byte write: when fewer than size bytes remain
     * after the cursor, size bytes are appended. Appending a negative
     * number of bytes throws.
     */
    method CheckBuffer(size: int) returns (r: Outcome)
      modifies this`buffer
      ensures r.Fail? <==> |old(buffer)| - position < size < 0
      ensures r.Fail? ==> r.error == InvalidSize && buffer == old(buffer)
      ensures r.Pass? ==> Grew(old(buffer), buffer, position, size)
    {
      r := Pass;
      if |buffer| - position < size {
        if size < 0 {
          return Fail(InvalidSize);
        }
        assert |Zeros(size)| == size;
        var tail: seq<Byte> :| |tail| == size;
        buffer := buffer + tail;
      }
    }

    /** A store of fixed-width data at the cursor: growth, the bounds-checked write, the advance. */
    method Store(data: seq<Byte>) returns (r: Outcome, ghost grown: seq<Byte>)
      modifies this`buffer, this`position
      ensures Stored(old(buffer), old(position), grown, data, r, buffer, position)
    {
      var _ := CheckBuffer(|data|);
      grown := buffer;
      var w := WriteAt(buffer, position, data);
      if w.Err? {
        return Fail(w.error), grown;
      }
      buffer := w.value;
      position := position + |data|;
      r := Pass;
    }

    /**
     * Copies bytes from the buffer of source, starting at offset, to the
     * cursor. The length defaults to the rest of source after offset, and
     * a length of 0 is taken as that default too.
     */
    method WriteBytes(source: ByteArray, offset: int, length: Option<int>) returns (r: Outcome, ghost grown: seq<Byte>)
      modifies this`buffer, this`position
      ensures var n := LengthOrDefault(length, |old(source.buffer)| - offset);
        |old(buffer)| - old(position) < n < 0 ==>
          r == Fail(InvalidSize) && buffer == old(buffer) && position == old(position)
      ensures var n := LengthOrDefault(length, |old(source.buffer)| - offset);
        !(|old(buffer)| - old(position) < n < 0) ==>
          && Grew(old(buffer), grown, old(position), n)
          && var from := if source == this then grown else old(source.buffer);
             var copied := BufferCopy(from, grown, old(position), offset, offset + n);
             if copied.Ok? then r == Pass && buffer == copied.value && position == old(position) + n
             else r == Fail(copied.error) && buffer == grown && position == old(position)
    {
      var n := LengthOrDefault(length, |source.buffer| - offset);
      var c := CheckBuffer(n);
      grown := buffer;
      if c.Fail? {
        return c, grown;
      }
      var copied := BufferCopy(source.buffer, buffer, position, offset, offset + n);
      if copied.Err? {
        return Fail(copied.error), grown;
      }
      buffer := copied.value;
      position := position + n;
      r := Pass;
    }

    /**
     * Copies bytes from the cursor into the buffer of target, at offset.
     * The length defaults to BytesAvailable(), and a length of 0 is taken as
     * that default too. Whether target grows is decided by target's own
     * position, although the bytes go to offset.
     */
    method ReadBytes(target: ByteArray, offset: int, length: Option<int>) returns (r: Outcome, ghost grown: seq<Byte>)
      modifies this`position, target`buffer
      ensures var n := LengthOrDefault(length, |old(buffer)| - old(position));
        |old(target.buffer)| - old(target.position) < n < 0 ==>
          r == Fail(InvalidSize) && target.buffer == old(target.buffer) && position == old(position)
      ensures var n := LengthOrDefault(length, |old(buffer)| - old(position));
        !(|old(target.buffer)| - old(target.position) < n < 0) ==>
          && Grew(old(target.buffer), grown, old(target.position), n)
          && var from := if target == this then grown else old(buffer);
             var copied := BufferCopy(from, grown, offset, old(position), old(position) + n);
             if copied.Ok? then r == Pass && target.buffer == copied.value && position == old(position) + n
             else r == Fail(copied.error) && target.buffer == grown && position == old(position)
    {
      var n := LengthOrDefault(length, BytesAvailable());
      var c := target.CheckBuffer(n);
      grown := target.buffer;
      if c.Fail? {
        return c, grown;
      }
      var copied := BufferCopy(buffer, target.buffer, offset, position, position + n);
      if copied.Err? {
        return Fail(copied.error), grown;
      }
      target.buffer := copied.value;
      position := position + n;
      r := Pass;
    }

    /** Stores 1 for true and 0 for false. */
    method WriteBoolean(value: bool) returns (r: Outcome, ghost grown: seq<Byte>)
      modifies this`buffer, this`position
      ensures Stored(old(buffer), old(position), grown, [if value then 1 else 0], r, buffer, position)
    {
      r, grown := Store([if value then 1 else 0]);
    }

    /** True exactly when the byte at the cursor, read as a signed byte, is greater than 0. */
    method ReadBoolean() returns (r: Result<bool>)
      modifies this`position
      ensures var u := ReadAt(buffer, old(position), 1, endian);
        if u.Ok? then r == Ok(Signed(u.value, 1) > 0) && position == old(position) + 1
        else r == Err(u.error) && position == old(position)
    {
      var u := ReadAt(buffer, position, 1, endian);
      if u.Err? {
        return Err(u.error);
      }
      r := Ok(Signed(u.value, 1) > 0);
      position := position + 1;
    }

    /** Stores the low 8 bits of value. */
    method WriteByte(value: int) returns (r: Outcome, ghost grown: seq<Byte>)
      modifies this`buffer, this`position
      ensures Stored(old(buffer), old(position), grown, [value % 0x100], r, buffer, position)
    {
      r, grown := Store([value % 0x100]);
    }

    /** The byte at the cursor as a signed value in [-128, 127]. */
    method ReadByte() returns (r: Result<int>)
      modifies this`position
      ensures var u := ReadAt(buffer, old(position), 1, endian);
        if u.Ok? then r == Ok(Signed(u.value, 1)) && position == old(position) + 1
        else r == Err(u.error) && position == old(position)
    {
      var u := ReadAt(buffer, position, 1, endian);
      if u.Err? {
        return Err(u.error);
      }
      r := Ok(Signed(u.value, 1));
      position := position + 1;
    }

    /** The byte at the cursor as an unsigned value in [0, 255]. */
    method ReadUnsignedByte() returns (r: Result<int>)
      modifies this`position
      ensures var u := ReadAt(buffer, old(position), 1, endian);
        if u.Ok? then r == Ok(u.value) && position == old(position) + 1
        else r == Err(u.error) && position == old(position)
    {
      var u := ReadAt(buffer, position, 1, endian);
      if u.Err? {
        return Err(u.error);
      }
      r := Ok(u.value);
      position := position + 1;
    }

    /** Stores the low 16 bits of value in the current byte order. */
    method WriteShort(value: int) returns (r: Outcome, ghost grown: seq<Byte>)
      modifies this`buffer, this`position
      ensures Stored(old(buffer), old(position), grown, Encode(value % 0x1_0000, 2, endian), r, buffer, position)
    {
      Pow256Values();
      r, grown := Store(Encode(value % 0x1_0000, 2, endian));
    }

    /** The two bytes at the cursor as a signed value in [-32768, 32767]. */
    method ReadShort() returns (r: Result<int>)
      modifies this`position
      ensures var u := ReadAt(buffer, old(position), 2, endian);
        if u.Ok? then r == Ok(Signed(u.value, 2)) && position == old(position) + 2
        else r == Err(u.error) && position == old(position)
    {
      var u := ReadAt(buffer, position, 2, endian);
      if u.Err? {
        return Err(u.error);
      }
      r := Ok(Signed(u.value, 2));
      position := position + 2;
    }

    /** The two bytes at the cursor as an unsigned value in [0, 65535]. */
    method ReadUnsignedShort() returns (r: Result<int>)
      modifies this`position
      ensures var u := ReadAt(buffer, old(position), 2, endian);
        if u.Ok? then r == Ok(u.value) && position == old(position) + 2
        else r == Err(u.error) && position == old(position)
    {
      var u := ReadAt(buffer, position, 2, endian);
      if u.Err? {
        return Err(u.error);
      }
      r := Ok(u.value);
      position := position + 2;
    }

    /**
     * Grows for 4 bytes, then stores `value & 0xFFFFFFFF`. That is a signed
     * 32-bit number, and the unsigned 32-bit write rejects it when bit 31 is
     * set, after the growth has already happened.
     */
    method WriteInt(value: int) returns (r: Outcome, ghost grown: seq<Byte>)
      modifies this`buffer, this`position
      ensures Grew(old(buffer), grown, old(position), 4)
      ensures ToInt32(value) < 0 ==>
        r == Fail(ValueOutOfRange) && buffer == grown && position == old(position)
      ensures ToInt32(value) >= 0 ==>
        var w := WriteAt(grown, old(position), Encode(ToInt32(value), 4, endian));
        if w.Ok? then r == Pass && buffer == w.value && position == old(position) + 4
        else r == Fail(w.error) && buffer == grown && position == old(position)
    {
      Pow256Values();
      var _ := CheckBuffer(4);
      grown := buffer;
      var masked := ToInt32(value);
      if masked < 0 {
        return Fail(ValueOutOfRange), grown;
      }
      var w := WriteAt(buffer, position, Encode(masked, 4, endian));
      if w.Err? {
        return Fail(w.error), grown;
      }
      buffer := w.value;
      position := position + 4;
      r := Pass;
    }

    /** The four bytes at the cursor as a signed 32-bit value. */
    method ReadInt() returns (r: Result<int>)
      modifies this`position
      ensures var u := ReadAt(buffer, old(position), 4, endian);
        if u.Ok? then r == Ok(Signed(u.value, 4)) && position == old(position) + 4
        else r == Err(u.error) && position == old(position)
    {
      var u := ReadAt(buffer, position, 4, endian);
      if u.Err? {
        return Err(u.error);
      }
      r := Ok(Signed(u.value, 4));
      position := position + 4;
    }

    /** The four bytes at the cursor as an unsigned 32-bit value. */
    method ReadUnsignedInt() returns (r: Result<int>)
      modifies this`position
      ensures var u := ReadAt(buffer, old(position), 4, endian);
        if u.Ok? then r == Ok(u.value) && position == old(position) + 4
        else r == Err(u.error) && position == old(position)
    {
      var u := ReadAt(buffer, position, 4, endian);
      if u.Err? {
        return Err(u.error);
      }
      r := Ok(u.value);
      position := position + 4;
    }

    /** Stores a single-precision number, given by its IEEE-754 bit pattern, in the current byte order. */
    method WriteFloat(bits: nat) returns (r: Outcome, ghost grown: seq<Byte>)
      requires bits < Pow256(4)
      modifies this`buffer, this`position
      ensures Stored(old(buffer), old(position), grown, Encode(bits, 4, endian), r, buffer, position)
    {
      r, grown := Store(Encode(bits, 4, endian));
    }

    /** The IEEE-754 single-precision bit pattern of the four bytes at the cursor. */
    method ReadFloat() returns (r: Result<nat>)
      modifies this`position
      ensures var u := ReadAt(buffer, old(position), 4, endian);
        r == u && position == old(position) + (if u.Ok? then 4 else 0)
    {
      r := ReadAt(buffer, position, 4, endian);
      if r.Ok? {
        position := position + 4;
      }
    }

    /** Stores a double-precision number, given by its IEEE-754 bit pattern, in the current byte order. */
    method WriteDouble(bits: nat) returns (r: Outcome, ghost grown: seq<Byte>)
      requires bits < Pow256(8)
      modifies this`buffer, this`position
      ensures Stored(old(buffer), old(position), grown, Encode(bits, 8, endian), r, buffer, position)
    {
      r, grown := Store(Encode(bits, 8, endian));
    }

    /** The IEEE-754 double-precision bit pattern of the eight bytes at the cursor. */
    method ReadDouble() returns (r: Result<nat>)
      modifies this`position
      ensures var u := ReadAt(buffer, old(position), 8, endian);
        r == u && position == old(position) + (if u.Ok? then 8 else 0)
    {
      r := ReadAt(buffer, position, 8, endian);
      if r.Ok? {
        position := position + 8;
      }
    }

    /**
     * Writes the UTF-8 bytes of a string after a 2-byte length prefix in the
     * current byte order. More than 65535 bytes throw before anything changes.
     */
    method WriteUTF(payload: seq<Byte>) returns (r: Outcome)
      modifies this`buffer, this`position
      ensures |payload| > 0xFFFF ==>
        r == Fail(StringTooLong) && buffer == old(buffer) && position == old(position)
      ensures |payload| <= 0xFFFF ==> (r.Pass? <==> 0 <= old(position) <= |old(buffer)|)
      ensures |payload| <= 0xFFFF && r.Fail? ==>
        r.error == OutOfBounds && Grew(old(buffer), buffer, old(position), 2) && position == old(position)
      ensures r.Pass? && |payload| <= 0xFFFF ==>
        && |buffer| == GrownLength(GrownLength(|old(buffer)|, old(position), 2), old(position) + 2, |payload|)
        && buffer[old(position)..old(position) + 2 + |payload|] == Encode(|payload|, 2, endian) + payload
        && (forall i :: 0 <= i < |old(buffer)| && !(old(position) <= i < old(position) + 2 + |payload|) ==>
              buffer[i] == old(buffer)[i])
        && position == old(position) + 2 + |payload|
    {
      Pow256Values();
      if |payload| > 0xFFFF {
        return Fail(StringTooLong);
      }
      ghost var before := buffer;
      ghost var start := position;
      ghost var g;
      r, g := WriteShort(|payload|);
      GrowthSuffices(before, g, start, 2);
      if r.Fail? {
        return;
      }
      WriteChangesOnlyWindow(before, g, start, Encode(|payload|, 2, endian));
      ghost var mid := buffer;
      var _ := CheckBuffer(|payload|);
      PrefixThenPayload(before, mid, buffer, start, Encode(|payload|, 2, endian), payload);
      var w := WriteString(buffer, position, payload);
      buffer := w.value;
      position := position + |payload|;
    }

    /**
     * Reads a 2-byte length prefix with the signed short read, then that many
     * bytes through toString, which clamps the range to the buffer, while
     * the cursor still advances by the full prefix value.
     */
    method ReadUTF() returns (r: Result<seq<Byte>>)
      modifies this`position
      ensures var u := ReadAt(buffer, old(position), 2, endian);
        u.Err? ==> r == Err(u.error) && position == old(position)
      ensures var u := ReadAt(buffer, old(position), 2, endian);
        u.Ok? ==>
          var n := Signed(u.value, 2);
          r == Ok(ToStringRange(buffer, old(position) + 2, old(position) + 2 + n))
          && position == old(position) + 2 + n
    {
      var n := ReadShort();
      if n.Err? {
        return Err(n.error);
      }
      var value := ToStringRange(buffer, position, position + n.value);
      position := position + n.value;
      r := Ok(value);
    }

    /** Writes the UTF-8 bytes of a string at the cursor, without a prefix. */
    method WriteUTFBytes(payload: seq<Byte>) returns (r: Outcome, ghost grown: seq<Byte>)
      modifies this`buffer, this`position
      ensures Grew(old(buffer), grown, old(position), |payload|)
      ensures var w := WriteString(grown, old(position), payload);
        if w.Ok? then r == Pass && buffer == w.value && position == old(position) + |payload|
        else r == Fail(w.error) && buffer == grown && position == old(position)
    {
      var _ := CheckBuffer(|payload|);
      grown := buffer;
      var w := WriteString(buffer, position, payload);
      if w.Err? {
        return Fail(w.error), grown;
      }
      buffer := w.value;
      position := position + |payload|;
      r := Pass;
    }

    /** The bytes from the cursor up to cursor + length, clamped by toString; the cursor advances by length. */
    method ReadUTFBytes(length: int) returns (r: seq<Byte>)
      modifies this`position
      ensures r == ToStringRange(buffer, old(position), old(position) + length)
      ensures position == old(position) + length
    {
      r := ToStringRange(buffer, position, position + length);
      position := position + length;
    }
  }
}
