# ByteArray — a verified Dafny model

This project models `ByteArray`, a TypeScript class that keeps a growable byte buffer (a Node `Buffer`), a cursor `position` and a byte-order flag `endian` (`BIG_ENDIAN` or `LITTLE_ENDIAN`). Every typed write runs `checkBuffer` first. `checkBuffer` appends exactly `size` bytes when fewer than `size` remain after the cursor. The write then stores the encoded value at the cursor and advances the cursor. Every typed read decodes the bytes at the cursor and advances it. Strings are framed with a 2-byte length prefix (`writeUTF`/`readUTF`) or written raw (`writeUTFBytes`/`readUTFBytes`). Bytes can be copied between two ByteArrays (`writeBytes`/`readBytes`).

Modules:

- `ByteOrder` (byte_order.dfy): bytes, the `Endian` enumeration, big- and little-endian layout of unsigned values, two's-complement reinterpretation, and JavaScript's 32-bit `&` masking.
- `NodeBuffer` (node_buffer.dfy): the Node `Buffer` primitives that the class calls, as pure functions. These are the bounds-checked fixed-width reads and writes, `copy` with its clamping, `write(string, offset)` with its offset check, `toString(start, end)` with its clamping, and the growth rule.
- `AsByteArray` (byte_array.dfy): the class `ByteArray`, with fields `buffer: seq<Byte>`, `position: int` and `endian: Endian`. Each method has the same steps, branches and throw points as the TypeScript method it models. Where the TypeScript method throws, the Dafny method returns `Fail`/`Err` and leaves the state as it was when the throw happened. For example, a write whose cursor lies past the end has already grown the buffer when it fails.
- `Scenarios` (scenarios.dfy): the whole-object properties, each proved for all inputs on a freshly constructed ByteArray. Most write at a cursor, move the cursor back and read; others cover a write that throws, `clear`, resetting `length`, `bytesAvailable`, and what `readBoolean` returns for each byte. The repository's tests check particular instances of them.

The `position` and `endian` accessors are plain get/set of a field, so they are the fields `position` and `endian`. Bytes from `Buffer.allocUnsafe` have unspecified contents, so they are an arbitrary choice (`:|`). Write methods return a ghost `grown`: the buffer right after `checkBuffer`. This lets their contracts say exactly what the buffer holds afterwards, even though the appended bytes are unspecified. Bytes from `Buffer.alloc` are zero. Strings are their UTF-8 bytes (section 3 of RFC 3629), already encoded. The string reads return bytes, not decoded text.

Quirks the model keeps:

- Growth appends `size` bytes, not `position + size - length` bytes. A write with the cursor past the end therefore grows the buffer and then still throws.
- `writeInt` writes `value & 0xFFFFFFFF`, which is a signed 32-bit number. The unsigned 32-bit write rejects it when bit 31 is set.
- `readBoolean` is `readInt8 > 0`, so bytes 0x80–0xFF read as false, although the doc comment says "nonzero".
- `readUTF` reads its prefix with the signed `readShort`. A payload of 32768–65535 bytes, which `writeUTF` accepts, reads back as nothing, and the cursor moves backwards.
- `readUTF`/`readUTFBytes` clamp the range to the buffer but advance the cursor by the full length.
- `writeBytes`/`readBytes` treat a length of 0 like an absent one (`length || default`).
- `readBytes` decides growth from the target's `position` but copies to `offset`.

## Model

| member | source | states |
|---|---|---|
| `ByteOrder.FromToLE` | src/asbytearray.ts:296-301 | reading back a little-endian layout of `v` in `w` bytes gives `v` |
| `ByteOrder.FromToBE` | src/asbytearray.ts:296-301 | reading back a big-endian layout of `v` in `w` bytes gives `v` |
| `ByteOrder.ToFromLE` | src/asbytearray.ts:325-329 | every byte sequence is the little-endian layout of the value it reads as |
| `ByteOrder.ToFromBE` | src/asbytearray.ts:325-329 | every byte sequence is the big-endian layout of the value it reads as |
| `ByteOrder.ToLE` | src/asbytearray.ts:257-259 | the little-endian layout that `writeUInt16LE`/`writeUInt32LE` store for a value below 256^w has exactly w bytes (its round trip is `FromToLE`/`ToFromLE`) |
| `ByteOrder.ToBE` | src/asbytearray.ts:254-256 | the big-endian layout that `writeUInt16BE`/`writeUInt32BE` store for a value below 256^w has exactly w bytes (its round trip is `FromToBE`/`ToFromBE`) |
| `ByteOrder.FromLE` | src/asbytearray.ts:284 | the value `readUInt16LE`/`readUInt32LE` return for w bytes is below 256^w |
| `ByteOrder.FromBE` | src/asbytearray.ts:284 | the value `readUInt16BE`/`readUInt32BE` return for w bytes is below 256^w |
| `ByteOrder.Encode` | src/asbytearray.ts:294-301 | the bytes a w-byte write stores, chosen by `endian`, are exactly w bytes long |
| `ByteOrder.Decode` | src/asbytearray.ts:326 | the unsigned value a w-byte read returns, chosen by `endian`, is below 256^w |
| `NodeBuffer.Zeros` | src/asbytearray.ts:76 | `Buffer.alloc(n)` gives n bytes, every one 0 |
| `NodeBuffer.Grew` | src/asbytearray.ts:456-461 | growth for a `size`-byte access at `position` leaves the length `GrownLength`: `length + size` when fewer than `size` bytes remained, otherwise unchanged |
| `AsByteArray.Stored` | src/asbytearray.ts:252-262 | one grow-then-store at the cursor, as every fixed-width write performs it: growth as `Grew`, then either the store succeeds and the cursor advances by the width, or it throws `OutOfBounds` leaving the grown buffer and the cursor (its consequences are proved in `StoredSucceeds` and `StoredReadsBack`) |
| `ByteOrder.DecodeEncode` | src/asbytearray.ts:252-287 | decoding with the byte order used to encode returns the value, for either order |
| `ByteOrder.EncodeDecode` | src/asbytearray.ts:252-287 | any bytes are the encoding of their decoded value, so encoding is a bijection onto `w`-byte sequences |
| `ByteOrder.EncodeInjective` | src/asbytearray.ts:252-287 | two values of one width with equal encodings are equal |
| `ByteOrder.BigEndianReversesLittle` | src/asbytearray.ts:465-498 | the big-endian layout is exactly the little-endian layout reversed |
| `ByteOrder.EndianExample` | src/asbytearray.ts:465-498 | 0x12345678 is laid out 12 34 56 78 big-endian and 78 56 34 12 little-endian |
| `ByteOrder.Signed` | src/asbytearray.ts:263-274 | the signed read of a `w`-byte value lies in [-2^(8w-1), 2^(8w-1)), is `u` or `u - 2^(8w)`, and is non-negative exactly when `u` is below 2^(8w-1) |
| `ByteOrder.SignedOfMasked` | src/asbytearray.ts:204-274 | a value in the signed range of `w` bytes survives masking to `w` bytes followed by the signed read |
| `ByteOrder.ToInt32` | src/asbytearray.ts:294-303 | `value & 0xFFFFFFFF` lies in the signed 32-bit range, is congruent to `value` mod 2^32, and is non-negative exactly when bit 31 of `value mod 2^32` is clear |
| `ByteOrder.WrapAroundExamples` | src/asbytearray.test.ts:19-125 | byte 42342 reads 102, short 500000 reads -24288, int 4444444444 is stored as 149477148 |
| `NodeBuffer.ReadAt` | src/asbytearray.ts:226-329 | a fixed-width read succeeds exactly when `[pos, pos + w)` lies in the buffer, and returns the value whose encoding is those bytes |
| `NodeBuffer.WriteAt` | src/asbytearray.ts:186-303 | a fixed-width write succeeds exactly when `[pos, pos + w)` lies in the buffer, stores the data there, keeps every other byte and the length |
| `NodeBuffer.WriteString` | src/asbytearray.ts:409 | writing string bytes at an offset needs `0 <= offset <= length`, keeps the length, and stores the bytes that fit before the end, leaving the rest of the buffer as it was |
| `NodeBuffer.BufferCopy` | src/asbytearray.ts:151 | `copy` rejects negative starts and ends and a source start past the source, keeps the target's length, and puts each byte of the clamped range at its place in the target, leaving every other target byte |
| `NodeBuffer.ToStringRange` | src/asbytearray.ts:451 | `toString(start, end)` gives exactly `buf[start..end]` inside the buffer, reads from 0 for a negative start (the whole buffer when the end is also past it), cuts an end past the buffer, and gives nothing when the end is at or below 0 or the start, or the start is at or past the end of the buffer |
| `NodeBuffer.GrowthSuffices` | src/asbytearray.ts:456-461 | after growth the length is `length + size` when fewer than `size` remained, and a `size`-byte access at the cursor then fits exactly when `0 <= position <= old length` |
| `NodeBuffer.WriteChangesOnlyWindow` | src/asbytearray.ts:186-190 | a grown-then-written buffer holds the data at `[pos, pos + w)`, keeps every old byte outside that window, and has the grown length |
| `AsByteArray.LengthOrDefault` | src/asbytearray.ts:149 | an absent length and a length of 0 both mean the default; any other length is used as given |
| `AsByteArray.PrefixThenPayload` | src/asbytearray.ts:407-409 | after the prefix is stored at the cursor and the buffer grows for the payload, writing the payload right after the prefix succeeds, leaves prefix + payload at the cursor, keeps every other old byte, and gives the grown length |
| `AsByteArray.ByteArray.constructor` | src/asbytearray.ts:12-14 | the given bytes become the buffer; position 0; big-endian |
| `AsByteArray.ByteArray.Length` | src/asbytearray.ts:61-63 | the length is the buffer's byte count |
| `AsByteArray.ByteArray.BytesAvailable` | src/asbytearray.ts:95-97 | `length - position`, negative exactly when the cursor is past the end |
| `AsByteArray.ByteArray.SetLength` | src/asbytearray.ts:74-85 | a longer length keeps the bytes as a prefix and zero-fills the rest, a shorter one keeps the first `value` bytes, the same one changes nothing, a negative one throws; the cursor never changes |
| `AsByteArray.ByteArray.Clear` | src/asbytearray.ts:104-107 | the buffer is empty and the cursor 0 |
| `AsByteArray.ByteArray.Compress` | src/asbytearray.ts:112-116 | the buffer becomes the deflated buffer and the cursor 0 |
| `AsByteArray.ByteArray.Uncompress` | src/asbytearray.ts:121-125 | the buffer becomes the inflated buffer and the cursor 0, or the error propagates and nothing changes |
| `AsByteArray.ByteArray.CheckBuffer` | src/asbytearray.ts:456-461 | when `length - position < size` exactly `size` bytes are appended and every old byte is kept; otherwise the buffer is untouched; a negative size that triggers growth throws |
| `AsByteArray.ByteArray.Store` | src/asbytearray.ts:186-190 | one fixed-width write: growth, then the bounds-checked store at the cursor and an advance by the width, or the throw with the grown buffer and the cursor kept |
| `AsByteArray.ByteArray.WriteBytes` | src/asbytearray.ts:148-153 | grows for the (defaulted) length, copies the source's bytes from `offset` to the cursor with `copy`'s clamping, and advances by that length; the source's own position is not used |
| `AsByteArray.ByteArray.ReadBytes` | src/asbytearray.ts:169-176 | grows the target when `target.length - target.position` is short, copies from the cursor to the target at `offset`, and advances by the (defaulted) length |
| `AsByteArray.ByteArray.WriteBoolean` | src/asbytearray.ts:186-190 | stores 1 for true and 0 for false at the cursor after growth and advances by 1 |
| `AsByteArray.ByteArray.ReadBoolean` | src/asbytearray.ts:198-202 | true exactly when the byte at the cursor read as signed is greater than 0; advances by 1, or throws past the end |
| `AsByteArray.ByteArray.WriteByte` | src/asbytearray.ts:213-217 | stores `value mod 256` at the cursor after growth and advances by 1 |
| `AsByteArray.ByteArray.ReadByte` | src/asbytearray.ts:226-230 | the byte at the cursor as signed, advancing by 1, or throws |
| `AsByteArray.ByteArray.ReadUnsignedByte` | src/asbytearray.ts:239-243 | the byte at the cursor as unsigned, advancing by 1, or throws |
| `AsByteArray.ByteArray.WriteShort` | src/asbytearray.ts:252-261 | stores `value mod 65536` in the current byte order at the cursor after growth and advances by 2 |
| `AsByteArray.ByteArray.ReadShort` | src/asbytearray.ts:270-274 | the 2 bytes at the cursor in the current byte order, as signed, advancing by 2, or throws |
| `AsByteArray.ByteArray.ReadUnsignedShort` | src/asbytearray.ts:283-287 | the 2 bytes at the cursor in the current byte order, as unsigned, advancing by 2, or throws |
| `AsByteArray.ByteArray.WriteInt` | src/asbytearray.ts:294-303 | grows for 4 bytes, then throws when `value & 0xFFFFFFFF` is negative, otherwise stores it in the current byte order and advances by 4 |
| `AsByteArray.ByteArray.ReadInt` | src/asbytearray.ts:312-316 | the 4 bytes at the cursor as signed, advancing by 4, or throws |
| `AsByteArray.ByteArray.ReadUnsignedInt` | src/asbytearray.ts:325-329 | the 4 bytes at the cursor as unsigned, advancing by 4, or throws |
| `AsByteArray.ByteArray.WriteFloat` | src/asbytearray.ts:337-346 | stores a 32-bit IEEE-754 bit pattern in the current byte order after growth and advances by 4 |
| `AsByteArray.ByteArray.ReadFloat` | src/asbytearray.ts:355-359 | the 32-bit pattern at the cursor, advancing by 4, or throws |
| `AsByteArray.ByteArray.WriteDouble` | src/asbytearray.ts:367-376 | stores a 64-bit IEEE-754 bit pattern in the current byte order after growth and advances by 8 |
| `AsByteArray.ByteArray.ReadDouble` | src/asbytearray.ts:387-391 | the 64-bit pattern at the cursor, advancing by 8, or throws |
| `AsByteArray.ByteArray.WriteUTF` | src/asbytearray.ts:402-411 | more than 65535 bytes throw before any change; otherwise it succeeds exactly when `0 <= position <= length`, leaves the 2-byte prefix in the current byte order followed by the payload at the cursor, keeps every other old byte, and advances by `2 + n` |
| `AsByteArray.ByteArray.ReadUTF` | src/asbytearray.ts:419-424 | reads the prefix as a signed short, returns the clamped range after it, and advances by `2 + prefix` |
| `AsByteArray.ByteArray.WriteUTFBytes` | src/asbytearray.ts:433-438 | grows for the payload, stores the bytes that fit at the cursor (throwing for a cursor outside `[0, length]`), and advances by the full payload length |
| `AsByteArray.ByteArray.ReadUTFBytes` | src/asbytearray.ts:450-454 | returns the clamped range `[position, position + length)` and advances by `length` |
| `Scenarios.StoredSucceeds` | src/asbytearray.ts:456-461 | a fixed-width write succeeds exactly when `0 <= position <= length`; otherwise it throws out of bounds with the grown buffer and the cursor kept |
| `Scenarios.ByteRoundTrip` | src/asbytearray.test.ts:3-25 | writeByte then readUnsignedByte gives `v mod 256`, and readByte gives its signed reading |
| `Scenarios.ShortRoundTrip` | src/asbytearray.test.ts:35-83 | in either byte order, writeShort then readUnsignedShort gives `v mod 65536`, and readShort gives its signed reading |
| `Scenarios.IntRoundTrip` | src/asbytearray.test.ts:85-125 | writeInt succeeds exactly when the cursor is in `[0, length]` and bit 31 of `v mod 2^32` is clear; both reads then give `v mod 2^32` |
| `Scenarios.BooleanRoundTrip` | src/asbytearray.test.ts:27-33 | writeBoolean then readBoolean gives back the boolean |
| `Scenarios.BooleanOfByte` | src/asbytearray.ts:198-202 | readBoolean of byte `x` is true exactly for 1 ≤ x ≤ 127 |
| `Scenarios.FloatRoundTrip` | src/asbytearray.test.ts:127-142 | writeFloat then readFloat gives back the 32-bit pattern in either byte order |
| `Scenarios.DoubleRoundTrip` | src/asbytearray.test.ts:144-159 | writeDouble then readDouble gives back the 64-bit pattern in either byte order |
| `Scenarios.EndianLayout` | src/asbytearray.ts:465-498 | writeInt(0x12345678) leaves 12 34 56 78 big-endian and 78 56 34 12 little-endian |
| `Scenarios.WritePastEnd` | src/asbytearray.ts:456-461 | with the cursor past the end, writeShort grows the buffer by 2 and still throws, keeping the cursor |
| `Scenarios.UtfRoundTrip` | src/asbytearray.test.ts:161-167 | writeUTF then readUTF give back any payload under 32768 bytes, in either byte order |
| `Scenarios.UtfLongPayloadReadsEmpty` | src/asbytearray.ts:402-424 | a payload of 32768–65535 bytes reads back empty, and the cursor ends at `n - 65534` |
| `Scenarios.UtfEndianMismatch` | src/asbytearray.test.ts:169-176 | a 1–127-byte payload written big-endian and read little-endian still comes back whole, because of clamping; the cursor ends at `2 + 256n` |
| `Scenarios.UtfTooLong` | src/asbytearray.test.ts:179-190 | writeUTF of more than 65535 bytes throws and changes neither bytes nor cursor |
| `Scenarios.UtfBytesRoundTrip` | src/asbytearray.test.ts:192-198 | over any initial bytes and any cursor in [0, length], writeUTFBytes succeeds and readUTFBytes of the payload length from that cursor gives back the payload |
| `Scenarios.ReadBytesTransfer` | src/asbytearray.test.ts:200-208 | an int copied out with readBytes reads back in the target |
| `Scenarios.WriteBytesTransfer` | src/asbytearray.test.ts:210-219 | an int copied in with writeBytes reads back in the target |
| `Scenarios.WriteBytesZeroMeansAll` | src/asbytearray.ts:148-153 | writeBytes with length 0 copies the whole source |
| `Scenarios.ReadBytesPastTargetEnd` | src/asbytearray.ts:169-176 | readBytes to an offset at the target's end copies nothing, yet the cursor advances past the source |
| `Scenarios.LengthResetReadsZero` | src/asbytearray.test.ts:230-236 | length 0 then length 4 then readInt gives 0 |
| `Scenarios.ClearEmpties` | src/asbytearray.test.ts:238-243 | after clear, length and position are 0 |
| `Scenarios.BytesAvailableAfterWrites` | src/asbytearray.ts:95-97 | after an int and a short are written to an empty ByteArray, 6 bytes are available from 0 and 4 from 2 |
| `Scenarios.CompressRoundTrip` | src/asbytearray.test.ts:221-228 | with a lossless codec, writeUTF, compress, uncompress, readUTF gives back the payload |

## Left out

- Compression: `zlib.deflateSync`/`zlib.inflateSync` cannot be seen, so `Compress`/`Uncompress` take them as function parameters. The DEFLATE format itself is not modelled.
- Floating point: `WriteFloat`/`WriteDouble` take, and `ReadFloat`/`ReadDouble` return, the IEEE-754 bit pattern of the number. The conversion between a JavaScript number and its bits is not modelled, so neither rounding to single precision nor NaN canonicalisation is captured.
- Text encoding: strings are their UTF-8 bytes. `Buffer.byteLength`, UTF-8 encoding of JavaScript strings, and decoding with replacement characters in `toString` are library behaviour and are left out.
- `AsByteArray.ByteArray.WriteUTFBytes`: when the payload only partly fits, Node stores only whole characters. The model stores the byte prefix that fits. The two agree when the cut falls on a character boundary, as it always does for ASCII.
- JavaScript number coercion: values, lengths, offsets and positions are mathematical integers and booleans. `ToInt32` of fractions, NaN, infinities and integers beyond 2^53, and `Number(value)` of non-booleans, are not modelled.
- Node's maximum buffer length (`kMaxLength`) is not modelled. Allocation fails only for a negative size.
- Aliasing of the `Buffer` object: the buffer is a value. Two ByteArrays built over the same `Buffer`, or code that keeps the public `buffer` field and mutates it, are not modelled. A ByteArray copying into or out of itself is modelled, with copy-through-a-temporary semantics as Node's `copy` has.
- The Node `Buffer` primitives follow current Node releases. Older releases clamp some out-of-range `copy` arguments instead of throwing.
