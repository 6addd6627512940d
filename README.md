# cpputil: verified model of the buffer writers and container helpers

This project models two parts of the `Utils` namespace of cpputil. Both are
written in Dafny and proved there.

- **Binary buffer writers** (`utils.cc`). `BufAppendInt16` and `BufAppendInt32`
  store a signed integer into a caller-owned `uint8_t` buffer at a cursor,
  most significant byte first. Each then advances the cursor by 2 or 4.
  `BufAppendFloat16` and `BufAppendFloat32` scale and cast a float, then call
  the integer writers.
- **Container helpers** (`utils.h`). `MapGetOrDefault`, `Clamp`, `VecContains`
  and `VecIndexOf` are pure functions of a map, an ordered value or a vector.

Files:

- `byte_codec.dfy` (module `ByteCodec`). The byte type and the `int16_t` and
  `int32_t` ranges. `Shr` is C++'s arithmetic `>>`. `Truncate8` is the
  conversion to `uint8_t`. `EncodeInt16`/`EncodeInt32` are the exact byte lists
  the writers store. There is also a reference layout (`BytesBE`), a
  big-endian decoder (`DecodeBE`, `DecodeInt16`, `DecodeInt32`) and the
  round-trip lemmas in both directions.
- `buffer_append.dfy` (module `BufferAppend`). The writers are methods over an
  `array<Byte>`. Each writes one byte per step and advances a local cursor each
  time, as the source's `(*index)++` does. It returns the final cursor. An
  `Overwrite` function on sequences says what the whole buffer is afterwards.
- `containers.dfy` (module `Containers`). The header's helpers as functions.
  `Find` is `std::find` as a recursive function.

Modelling choices:

- The cursor is an `int32_t*` in the source. Here it is an `Int32` argument,
  and the method returns the new value.
- The preconditions of the writers are the ones the source leaves to its
  callers, which the source does not check. The buffer must hold
  `index + width` bytes. The advanced cursor must still be an `int32_t`.
- The cursor must also be non-negative. This comes from the model, not the
  source. In the source `buffer` is a raw `uint8_t*` (utils.cc:31), so a
  negative `*index` is defined when `buffer` points inside an allocation. The
  model treats the memory from `buffer` on as an `array<Byte>`, whose indices
  start at 0.
- `number >> k` on a negative number is an arithmetic shift. C++20 requires
  this, and earlier compilers in practice do it. `Shr` divides by `2^k` with
  rounding toward negative infinity (the contract of `Shr`). Storing into a `uint8_t`
  keeps the value modulo 256.
- `Clamp` is a template over any ordered `T`. It is modelled on `int`.
  `std::max` and `std::min` are written out as libstdc++ defines them
  (`StdMax`, `StdMin`).
- VecContains and VecIndexOf are generic over any element type Dafny can
  compare for equality (`T(==)`). See "## Left out" for how this differs from
  the source's comparison.
- The doc comments at utils.cc:19-29 and utils.cc:36-51 agree with the code
  on every modelled operation.

## Model

| member | source | states |
|---|---|---|
| ByteCodec.Shr | utils.cc:53-55 | `n >> k` is the floor of `n / 2^k`: `r*2^k <= n < (r+1)*2^k` (also the `number >> 8` at utils.cc:32) |
| ByteCodec.Truncate8 | utils.cc:32-33 | storing into a `uint8_t` keeps a byte in `[0, 256)` congruent to the value modulo 256 |
| ByteCodec.EncodeInt16 | utils.cc:32-33 | its own contract says only that the list has 2 bytes; the content is in EncodeInt16IsBytesBE and DecodeEncodeInt16 |
| ByteCodec.EncodeInt32 | utils.cc:53-56 | its own contract says only that the list has 4 bytes; the content is in EncodeInt32IsBytesBE and DecodeEncodeInt32 |
| ByteCodec.EncodeInt16IsBytesBE | utils.cc:32-33 | the bytes `BufAppendInt16` stores (`number >> 8`, then `number`, each truncated to 8 bits) are the 2-byte big-endian two's-complement layout of `number` |
| ByteCodec.EncodeInt32IsBytesBE | utils.cc:53-56 | the bytes `BufAppendInt32` stores (`>> 24`, `>> 16`, `>> 8`, `>> 0`, each truncated) are the 4-byte big-endian layout of `number` |
| ByteCodec.DecodeBE | utils.cc:31-34 | the big-endian reading of `s` is a number in `[0, 2^(8·|s|))` |
| ByteCodec.DecodeInt16 | utils.cc:31-34 | the signed reading of two bytes equals `256·s[0] + s[1]` modulo 2^16, and is negative exactly when the high byte's top bit is set |
| ByteCodec.DecodeInt32 | utils.cc:52-57 | the signed reading of four bytes equals their big-endian value modulo 2^32, and is negative exactly when the first byte's top bit is set |
| ByteCodec.DecodeBytesBE | utils.cc:52-57 | decoding the `w` low-order bytes of `n` gives `n mod 2^(8w)`, for every integer `n` |
| ByteCodec.BytesOfDecodeBE | utils.cc:52-57 | every byte string is the layout of the number it decodes to |
| ByteCodec.DecodeBEInjective | utils.cc:52-57 | two byte strings of one length that decode to the same number are equal |
| ByteCodec.ToSignedOfMod | utils.cc:31-34 | a value in the signed `bits`-bit range is recovered from its residue modulo `2^bits` by two's-complement reinterpretation |
| ByteCodec.ToSignedMod | utils.cc:31-34 | two's-complement reinterpretation keeps the value modulo `2^bits` |
| ByteCodec.ToSignedInjective | utils.cc:31-34 | two's-complement reinterpretation is one-to-one on `[0, 2^bits)` |
| ByteCodec.DecodeEncodeInt16 | utils.cc:31-34 | decoding the two bytes written for any `int16_t` gives back that number |
| ByteCodec.DecodeEncodeInt32 | utils.cc:52-57 | decoding the four bytes written for any `int32_t` gives back that number |
| ByteCodec.EncodeDecodeInt16 | utils.cc:31-34 | every pair of bytes is what is written for the `int16_t` it decodes to, so the 16-bit encoding is onto |
| ByteCodec.EncodeDecodeInt32 | utils.cc:52-57 | every four bytes are what is written for the `int32_t` they decode to |
| ByteCodec.EncodeInt16Injective | utils.cc:31-34 | distinct `int16_t` values are written as distinct byte pairs |
| ByteCodec.EncodeInt32Injective | utils.cc:52-57 | distinct `int32_t` values are written as distinct byte quadruples |
| BufferAppend.Overwrite | utils.cc:31-34 | writing `bytes` at `at` keeps the length, puts `bytes` in `[at, at+|bytes|)` and changes no other position |
| BufferAppend.OverwriteAdjacent | utils.cc:52-57 | two writes where the second starts at the end of the first equal one write of the concatenation |
| BufferAppend.BufAppendInt16 | utils.cc:31-34 | stores `number >> 8` at `buffer[index]` and `number` at `buffer[index+1]` (each mod 256), leaves every other byte as it was, and returns `index + 2`; requires `index + 2 <= buffer.Length` |
| BufferAppend.BufAppendInt32 | utils.cc:52-57 | stores `number >> 24`, `>> 16`, `>> 8`, `number` (each mod 256) at `index .. index+3`, leaves every other byte, and returns `index + 4`; requires `index + 4 <= buffer.Length` |
| BufferAppend.BufAppendFloat16 | utils.cc:77-79 | with `scaled` standing for `(int16_t)(number * scale)`, does exactly what `BufAppendInt16` does with it |
| BufferAppend.BufAppendFloat32 | utils.cc:102-104 | with `scaled` standing for `(int32_t)(number * scale)`, does exactly what `BufAppendInt32` does with it |
| BufferAppend.AppendInt32ThenInt16 | utils.cc:31-57 | an `int32_t` written at cursor 0 and then an `int16_t` at cursor 4 fill bytes 0 to 5 with both encodings side by side, leave the rest, and each decodes back |
| BufferAppend.AppendInt32AndInt16 | utils.cc:31-57 | `BufAppendInt32` then `BufAppendInt16` through one cursor, for any numbers and any cursor with room for 6 bytes: the cursor ends at `index + 6`, the two encodings sit side by side from `index`, no other byte changes, and each decodes back |
| BufferAppend.SixByteExample | utils.cc:31-57 | on a 6-byte buffer from cursor 0, `0x12345678` then `0x1A2B` yields `12 34 56 78 1A 2B` and cursor 6 |
| Containers.MapGetOrDefault | utils.h:53-57 | returns `map[key]` when the key is present and `default_val` when it is absent; as a function on a map value it cannot insert or modify |
| Containers.StdMax | utils.h:62-62 | `std::max(a, b)` is one of its arguments and at least both |
| Containers.StdMin | utils.h:62-62 | `std::min(a, b)` is one of its arguments and at most both |
| Containers.Clamp | utils.h:60-63 | with `lowerBound <= upperBound` the result lies in `[lowerBound, upperBound]` and is `lowerBound` below it, `upperBound` above it and `val` inside; with inverted bounds it is always `upperBound` |
| Containers.ClampIdempotent | utils.h:60-63 | clamping a clamped value again with the same bounds changes nothing |
| Containers.ClampMonotonic | utils.h:60-63 | clamping preserves `<=` between values |
| Containers.Find | utils.h:143-143 | `std::find` gives the first position holding `x`, or the end `|v|` exactly when `x` is absent |
| Containers.VecContains | utils.h:140-144 | true exactly when some element of `v` equals `x` |
| Containers.VecIndexOf | utils.h:146-153 | returns -1 or an index in `[0, |v|)`; an index holds `x` and no earlier index does; -1 exactly when no element equals `x` |
| Containers.VecContainsIndexOf | utils.h:140-153 | `VecContains(v, x)` holds exactly when `VecIndexOf(v, x) != -1` |
| Containers.VecIndexOfFirst | utils.h:146-153 | the first index holding `x` is the one `VecIndexOf` returns |

## Left out

- `NormalizeAnglePositive`, `NormalizeAngle`, `ShortestAngularDistance` (utils.cc:149-165) are left out: they are double-precision `fmod` arithmetic with `M_PI`, and this model has no floating point.
- The float product and the narrowing cast in `BufAppendFloat16`/`BufAppendFloat32` (utils.cc:78, 103) are not modelled. Out-of-range casts are undefined behaviour. The model takes the already-cast integer as a parameter.
- `ScheduleRate` (utils.cc:129-143) is left out: it reads the high-resolution clock and sleeps the thread, so its result depends on timing.
- `CurrentDateTimeStr` (utils.cc:107-114) is left out: it reads the system clock and the local time zone and calls `strftime`.
- `_convert`, `_strfmt`, `StrFmt`, `PrintFmt`, `PrintLnFmt`, `LogFmt`, `ErrFmt` (utils.h:71-138) are left out: they are variadic templates over `snprintf` that write to stdout/stderr, and `ErrFmt` calls `std::exit(1)`.
- The commented-out `time_ms` (utils.h:95-101) is left out because it is dead code.
- BufAppendInt16: the cursor is returned rather than updated through a pointer. The model assumes `index` does not point into `buffer`. A write through the buffer that changes the cursor is not captured. The same holds for BufAppendInt32 and the float front ends.
- VecContains, VecIndexOf, MapGetOrDefault: element and key comparison is modelled as Dafny equality. `std::find` uses the element type's `operator==`, and `std::map::find` uses `std::less` equivalence. A non-reflexive `operator==` (a NaN `double` is not equal to itself) is not captured. Neither is a key order coarser than equality.
- VecIndexOf: the result is an unbounded integer. The source converts the `ptrdiff_t` position to `long` (utils.h:149-152). On targets where `long` is 32 bits (LLP64, such as MSVC and MinGW), a first match at position 2^31 or above wraps. For example, 2^31 gives -2^31 and 2^32 gives 0. The model does not capture this.
- Clamp: modelled over `int` only, not over every type with `<`.
