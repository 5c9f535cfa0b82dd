/**
 * The primitives of Node's Buffer that ByteArray is built on, as pure
 * functions over byte sequences: bounds-checked fixed-width reads and writes,
 * Buffer.prototype.copy with its clamping, Buffer.prototype.write(string,
 * offset) with its offset check, Buffer.prototype.toString(encoding, start,
 * end) with its clamping, and the growth that Buffer.concat performs.
 */
module NodeBuffer {
  import opened ByteOrder

  /** The exceptions the buffer operations raise. */
  datatype Error =
    | OutOfBounds       // an offset or range outside the buffer (ERR_OUT_OF_RANGE, ERR_BUFFER_OUT_OF_BOUNDS)
    | ValueOutOfRange   // a value outside the range an unsigned write accepts
    | InvalidSize       // a negative allocation size
    | StringTooLong     // writeUTF of more than 65535 bytes
    | DecodeError       // uncompress of data that is not a DEFLATE stream

  datatype Result<T> = Ok(value: T) | Err(error: Error)

  /** The completion of an operation that returns nothing: it returns, or it throws. */
  datatype Outcome = Pass | Fail(error: Error)

  function Zeros(n: nat): (r: seq<Byte>)
    ensures |r| == n && forall i :: 0 <= i < n ==> r[i] == 0
  {
    seq(n, i => 0)
  }

  /** A w-byte access at pos lies inside a buffer of the given contents. */
  predicate InBounds(buf: seq<Byte>, pos: int, w: nat)
  {
    0 <= pos && pos + w <= |buf|
  }

  /**
   * readUInt8/readUInt16BE/readUInt16LE/readUInt32BE/readUInt32LE: the
   * unsigned value of the w bytes at pos under byte order e, or an error
   * when one of them lies outside the buffer.
   */
  function ReadAt(buf: seq<Byte>, pos: int, w: nat, e: Endian): (r: Result<nat>)
    ensures r.Ok? <==> InBounds(buf, pos, w)
    ensures r.Err? ==> r.error == OutOfBounds
    ensures r.Ok? ==> r.value < Pow256(w) && Encode(r.value, w, e) == buf[pos..pos + w]
  {
    if InBounds(buf, pos, w) then
      var s := buf[pos..pos + w];
      EncodeDecode(s, e);
      Ok(Decode(s, e))
    else
      Err(OutOfBounds)
  }

  /**
   * writeUInt8/writeUInt16BE/.../writeFloatLE/writeDoubleBE once the value
   * is accepted: the bytes data stored at pos, or an error when the range
   * does not lie inside the buffer. The length never changes.
   */
  function WriteAt(buf: seq<Byte>, pos: int, data: seq<Byte>): (r: Result<seq<Byte>>)
    ensures r.Ok? <==> InBounds(buf, pos, |data|)
    ensures r.Err? ==> r.error == OutOfBounds
    ensures r.Ok? ==> |r.value| == |buf| && r.value[pos..pos + |data|] == data
    ensures r.Ok? ==> forall i :: 0 <= i < |buf| && !(pos <= i < pos + |data|) ==> r.value[i] == buf[i]
  {
    if InBounds(buf, pos, |data|) then
      var after := buf[..pos] + data + buf[pos + |data|..];
      assert after[pos..pos + |data|] == data;
      Ok(after)
    else
      Err(OutOfBounds)
  }

  /**
   * buf.write(string, offset, 'utf8') for an already encoded string: the
   * offset must lie in [0, length]; then as many bytes as fit before the end
   * of the buffer are stored at offset.
   */
  function WriteString(buf: seq<Byte>, offset: int, data: seq<Byte>): (r: Result<seq<Byte>>)
    ensures r.Ok? <==> 0 <= offset <= |buf|
    ensures r.Err? ==> r.error == OutOfBounds
    ensures r.Ok? ==> |r.value| == |buf|
    ensures r.Ok? && offset + |data| <= |buf| ==> r.value[offset..offset + |data|] == data
    ensures r.Ok? && offset + |data| > |buf| ==> r.value[offset..] == data[..|buf| - offset]
    ensures r.Ok? ==> r.value[..offset] == buf[..offset]
    ensures r.Ok? && offset + |data| <= |buf| ==> r.value[offset + |data|..] == buf[offset + |data|..]
  {
    if 0 <= offset <= |buf| then
      var n := if offset + |data| <= |buf| then |data| else |buf| - offset;
      var after := buf[..offset] + data[..n] + buf[offset + n..];
      assert after[offset..offset + n] == data[..n];
      assert after[offset + n..] == buf[offset + n..];
      Ok(after)
    else
      Err(OutOfBounds)
  }

  /**
   * source.copy(target, targetStart, sourceStart, sourceEnd): negative
   * starts or ends, or a sourceStart past the end of source, are rejected;
   * otherwise the range is clamped to what the source holds and what the
   * target has room for, and that many bytes are stored at targetStart.
   * The target keeps its length.
   */
  function BufferCopy(source: seq<Byte>, target: seq<Byte>, targetStart: int, sourceStart: int, sourceEnd: int)
    : (r: Result<seq<Byte>>)
    ensures r.Ok? <==> 0 <= targetStart && 0 <= sourceStart <= |source| && 0 <= sourceEnd
    ensures r.Err? ==> r.error == OutOfBounds
    ensures r.Ok? ==> |r.value| == |target|
    ensures r.Ok? ==> forall i :: 0 <= i < |target| ==>
      r.value[i] == if targetStart <= i < |target| && sourceStart + (i - targetStart) < sourceEnd
                       && sourceStart + (i - targetStart) < |source|
                    then source[sourceStart + (i - targetStart)]
                    else target[i]
  {
    if targetStart < 0 || sourceStart < 0 || sourceStart > |source| || sourceEnd < 0 then
      Err(OutOfBounds)
    else if targetStart >= |target| || sourceStart >= sourceEnd then
      Ok(target)
    else
      var room := |target| - targetStart;
      var end := if sourceEnd - sourceStart > room then sourceStart + room else sourceEnd;
      var n := if end - sourceStart > |source| - sourceStart then |source| - sourceStart else end - sourceStart;
      Ok(target[..targetStart] + source[sourceStart..sourceStart + n] + target[targetStart + n..])
  }

  /**
   * buf.toString('utf8', start, end) before decoding: a start at or below 0
   * reads from 0, a start at or past the end gives nothing, an end past the
   * buffer is cut to its length, and an end at or before the start gives
   * nothing.
   */
  function ToStringRange(buf: seq<Byte>, start: int, end: int): (r: seq<Byte>)
    ensures 0 <= start <= end <= |buf| ==> r == buf[start..end]
    ensures end <= 0 || end <= start || start >= |buf| ==> r == []
    ensures 0 <= start <= |buf| <= end ==> r == buf[start..]
    ensures start < 0 && 0 <= end <= |buf| ==> r == buf[..end]
    ensures start < 0 && |buf| <= end ==> r == buf
  {
    var len := |buf|;
    var s := if start <= 0 then 0 else start;
    if s >= len then []
    else
      var e := if end > len then len else end;
      if e <= s then [] else buf[s..e]
  }

  /** The length after appending size bytes whenever fewer than size remain after pos. */
  function GrownLength(len: nat, pos: int, size: int): int
  {
    if len - pos < size then len + size else len
  }

  /**
   * after is before grown for a size-byte access at pos: when fewer than
   * size bytes remain between pos and the end, exactly size bytes of
   * unspecified contents are appended (Buffer.concat with
   * Buffer.allocUnsafe(size)); otherwise nothing changes.
   */
  ghost predicate Grew(before: seq<Byte>, after: seq<Byte>, pos: int, size: int)
    ensures Grew(before, after, pos, size) ==> |after| == GrownLength(|before|, pos, size)
  {
    if |before| - pos < size then 0 <= size && |after| == |before| + size && after[..|before|] == before
    else after == before
  }

  /**
   * Growth never leaves the buffer short for an access that starts inside
   * it or at its end, and never makes room for one that starts past it
   * (the growth appends size bytes, not position + size - length).
   */
  lemma GrowthSuffices(before: seq<Byte>, after: seq<Byte>, pos: int, size: nat)
    requires Grew(before, after, pos, size)
    ensures |after| == GrownLength(|before|, pos, size)
    ensures InBounds(after, pos, size) <==> 0 <= pos <= |before|
  {
  }

  /**
   * A fixed-width write at pos after growth: the bytes at [pos, pos + w)
   * are the data, every byte the buffer held before outside that window is
   * kept, and the length is the grown length.
   */
  lemma WriteChangesOnlyWindow(before: seq<Byte>, grown: seq<Byte>, pos: int, data: seq<Byte>)
    requires Grew(before, grown, pos, |data|)
    requires WriteAt(grown, pos, data).Ok?
    ensures var after := WriteAt(grown, pos, data).value;
      && |after| == GrownLength(|before|, pos, |data|)
      && after[pos..pos + |data|] == data
      && forall i :: 0 <= i < |before| && !(pos <= i < pos + |data|) ==> after[i] == before[i]
  {
    var after := WriteAt(grown, pos, data).value;
    forall i | 0 <= i < |before| && !(pos <= i < pos + |data|)
      ensures after[i] == before[i]
    {
      assert grown[i] == before[i];
    }
  }
}
