/**
 * `Utils::BufAppendInt16`, `Utils::BufAppendInt32` and their float front ends:
 * they store a number big-endian into a caller-owned byte array at a cursor
 * and advance the cursor by the width written. The C++ functions update the
 * cursor through an `int32_t*`; here each method returns the new cursor.
 */
module BufferAppend {
  import opened ByteCodec

  /** `s` with `bytes` written over it from position `at` on. */
  function Overwrite(s: seq<Byte>, at: nat, bytes: seq<Byte>): (r: seq<Byte>)
    requires at + |bytes| <= |s|
    ensures |r| == |s|
    ensures r[at..at + |bytes|] == bytes
    ensures forall j :: 0 <= j < |s| && !(at <= j < at + |bytes|) ==> r[j] == s[j]
  {
    s[..at] + bytes + s[at + |bytes|..]
  }

  /** Two writes that abut are one write of the concatenation. */
  lemma OverwriteAdjacent(s: seq<Byte>, at: nat, x: seq<Byte>, y: seq<Byte>)
    requires at + |x| + |y| <= |s|
    ensures Overwrite(Overwrite(s, at, x), at + |x|, y) == Overwrite(s, at, x + y)
  {
    var lhs, rhs := Overwrite(Overwrite(s, at, x), at + |x|, y), Overwrite(s, at, x + y);
    forall j | 0 <= j < |s|
      ensures lhs[j] == rhs[j]
    {
      if at <= j < at + |x| {
        assert lhs[j] == Overwrite(s, at, x)[at..at + |x|][j - at];
        assert rhs[j] == rhs[at..at + |x| + |y|][j - at];
      } else if at + |x| <= j < at + |x| + |y| {
        assert lhs[j] == lhs[at + |x|..at + |x| + |y|][j - at - |x|];
        assert rhs[j] == rhs[at..at + |x| + |y|][j - at];
      }
    }
  }

  /**
   * Writes `number` at `buffer[index]`, `buffer[index + 1]`, high byte first,
   * and returns the cursor advanced by 2. The caller must have sized the
   * buffer; the source does not check it, and the cursor is an `int32_t`.
   */
  method BufAppendInt16(buffer: array<Byte>, number: Int16, index: Int32) returns (next: Int32)
    requires 0 <= index && index + 2 <= buffer.Length && index + 2 < 0x8000_0000
    modifies buffer
    ensures next == index + 2
    ensures buffer[index] == Truncate8(Shr(number, 8)) && buffer[index + 1] == Truncate8(number)
    ensures buffer[..] == Overwrite(old(buffer[..]), index, EncodeInt16(number))
  {
    var i: int := index;
    buffer[i] := Truncate8(Shr(number, 8));
    i := i + 1;
    buffer[i] := Truncate8(number);
    i := i + 1;
    next := i;
    assert buffer[..] == old(buffer[..])[..index] + EncodeInt16(number) + old(buffer[..])[index + 2..];
  }

  /**
   * Writes `number` at `buffer[index .. index + 4]`, most significant byte
   * first, and returns the cursor advanced by 4.
   */
  method BufAppendInt32(buffer: array<Byte>, number: Int32, index: Int32) returns (next: Int32)
    requires 0 <= index && index + 4 <= buffer.Length && index + 4 < 0x8000_0000
    modifies buffer
    ensures next == index + 4
    ensures buffer[index] == Truncate8(Shr(number, 24)) && buffer[index + 1] == Truncate8(Shr(number, 16))
    ensures buffer[index + 2] == Truncate8(Shr(number, 8)) && buffer[index + 3] == Truncate8(number)
    ensures buffer[..] == Overwrite(old(buffer[..]), index, EncodeInt32(number))
  {
    var i: int := index;
    buffer[i] := Truncate8(Shr(number, 24));
    i := i + 1;
    buffer[i] := Truncate8(Shr(number, 16));
    i := i + 1;
    buffer[i] := Truncate8(Shr(number, 8));
    i := i + 1;
    buffer[i] := Truncate8(number);
    i := i + 1;
    next := i;
    assert buffer[..] == old(buffer[..])[..index] + EncodeInt32(number) + old(buffer[..])[index + 4..];
  }

  /**
   * The float front end of BufAppendInt16. `scaled` stands for
   * `(int16_t)(number * scale)`, which the caller computes in floating point.
   */
  method BufAppendFloat16(buffer: array<Byte>, scaled: Int16, index: Int32) returns (next: Int32)
    requires 0 <= index && index + 2 <= buffer.Length && index + 2 < 0x8000_0000
    modifies buffer
    ensures next == index + 2
    ensures buffer[..] == Overwrite(old(buffer[..]), index, EncodeInt16(scaled))
  {
    next := BufAppendInt16(buffer, scaled, index);
  }

  /**
   * The float front end of BufAppendInt32. `scaled` stands for
   * `(int32_t)(number * scale)`.
   */
  method BufAppendFloat32(buffer: array<Byte>, scaled: Int32, index: Int32) returns (next: Int32)
    requires 0 <= index && index + 4 <= buffer.Length && index + 4 < 0x8000_0000
    modifies buffer
    ensures next == index + 4
    ensures buffer[..] == Overwrite(old(buffer[..]), index, EncodeInt32(scaled))
  {
    next := BufAppendInt32(buffer, scaled, index);
  }

  /**
   * An `int32_t` appended at cursor 0 and an `int16_t` appended after it
   * leave the two big-endian encodings side by side in bytes 0 to 5, and the
   * rest of the buffer as it was; each decodes back to its number.
   */
  lemma AppendInt32ThenInt16(s: seq<Byte>, a: Int32, b: Int16)
    requires |s| >= 6
    ensures var r := Overwrite(Overwrite(s, 0, EncodeInt32(a)), 4, EncodeInt16(b));
      && r[..6] == EncodeInt32(a) + EncodeInt16(b)
      && r[6..] == s[6..]
      && DecodeInt32(r[..4]) == a
      && DecodeInt16(r[4..6]) == b
  {
    OverwriteAdjacent(s, 0, EncodeInt32(a), EncodeInt16(b));
    var r := Overwrite(s, 0, EncodeInt32(a) + EncodeInt16(b));
    assert r[..4] == EncodeInt32(a);
    assert r[4..6] == EncodeInt16(b);
    DecodeEncodeInt32(a);
    DecodeEncodeInt16(b);
  }

  /**
   * `BufAppendInt32` and then `BufAppendInt16` through one cursor: the two
   * encodings land side by side from `index` on, nothing else in the buffer
   * changes, the cursor ends 6 further on, and each number reads back.
   */
  method AppendInt32AndInt16(buffer: array<Byte>, a: Int32, b: Int16, index: Int32) returns (next: Int32)
    requires 0 <= index && index + 6 <= buffer.Length && index + 6 < 0x8000_0000
    modifies buffer
    ensures next == index + 6
    ensures buffer[..] == Overwrite(old(buffer[..]), index, EncodeInt32(a) + EncodeInt16(b))
    ensures DecodeInt32(buffer[index..index + 4]) == a && DecodeInt16(buffer[index + 4..index + 6]) == b
  {
    ghost var before := buffer[..];
    next := BufAppendInt32(buffer, a, index);
    next := BufAppendInt16(buffer, b, next);
    OverwriteAdjacent(before, index, EncodeInt32(a), EncodeInt16(b));
    var written := EncodeInt32(a) + EncodeInt16(b);
    assert buffer[index..index + 6] == written;
    assert buffer[index..index + 4] == written[..4] == EncodeInt32(a);
    assert buffer[index + 4..index + 6] == written[4..] == EncodeInt16(b);
    DecodeEncodeInt32(a);
    DecodeEncodeInt16(b);
  }

  /**
   * A six-byte buffer, cursor 0: `0x12345678` as `int32_t`, then `0x1A2B` as
   * `int16_t`, gives the bytes 12 34 56 78 1A 2B and cursor 6.
   */
  method SixByteExample() returns (bytes: seq<Byte>, cursor: Int32)
    ensures bytes == [0x12, 0x34, 0x56, 0x78, 0x1A, 0x2B]
    ensures cursor == 6
  {
    Pow2Values();
    assert EncodeInt32(0x1234_5678) == [0x12, 0x34, 0x56, 0x78];
    assert EncodeInt16(0x1A2B) == [0x1A, 0x2B];
    var buffer := new Byte[6](_ => 0);
    var index: Int32 := 0;
    index := BufAppendInt32(buffer, 0x1234_5678, index);
    index := BufAppendInt16(buffer, 0x1A2B, index);
    bytes, cursor := buffer[..], index;
  }
}
