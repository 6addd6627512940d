/**
 * The big-endian, two's-complement byte layout that `Utils::BufAppendInt16` and
 * `Utils::BufAppendInt32` produce, stated as functions on sequences, together
 * with a decoder and the round-trip lemmas connecting the two.
 */
module ByteCodec {

  /** One element of a `uint8_t` buffer. */
  type Byte = b: int | 0 <= b < 256

  /** The values of `int16_t`. */
  type Int16 = n: int | -0x8000 <= n < 0x8000

  /** The values of `int32_t`. */
  type Int32 = n: int | -0x8000_0000 <= n < 0x8000_0000

  /** 2 to the power `k`. */
  function Pow2(k: nat): (p: int)
    ensures p > 0
  {
    if k == 0 then 1 else 2 * Pow2(k - 1)
  }

  /**
   * `n >> k` on a signed integer: an arithmetic shift, which rounds toward
   * negative infinity. Dafny's `/` with a positive divisor rounds the same way.
   */
  function Shr(n: int, k: nat): (r: int)
    ensures r * Pow2(k) <= n < (r + 1) * Pow2(k)
  {
    n / Pow2(k)
  }

  /** What an implicit conversion to `uint8_t` keeps of `n`: its value modulo 256. */
  function Truncate8(n: int): (r: Byte)
    ensures (n - r) % 256 == 0
  {
    n % 256
  }

  /** The two bytes `BufAppendInt16` stores: `number >> 8`, then `number`, each as `uint8_t`. */
  function EncodeInt16(number: Int16): (s: seq<Byte>)
    ensures |s| == 2
  {
    [Truncate8(Shr(number, 8)), Truncate8(number)]
  }

  /** The four bytes `BufAppendInt32` stores: `number >> 24`, `>> 16`, `>> 8`, then `number`. */
  function EncodeInt32(number: Int32): (s: seq<Byte>)
    ensures |s| == 4
  {
    [Truncate8(Shr(number, 24)), Truncate8(Shr(number, 16)), Truncate8(Shr(number, 8)), Truncate8(number)]
  }

  /**
   * Reference definition: the `w` low-order bytes of `n`, most significant
   * first (the last byte is `n` modulo 256, the rest are those of `n / 256`).
   */
  function BytesBE(n: int, w: nat): (s: seq<Byte>)
    ensures |s| == w
    decreases w
  {
    if w == 0 then [] else BytesBE(n / 256, w - 1) + [Truncate8(n)]
  }

  /** Reads `s` as an unsigned big-endian number. */
  function DecodeBE(s: seq<Byte>): (r: int)
    ensures 0 <= r < Pow2(8 * |s|)
  {
    if s == [] then 0
    else
      var init := s[..|s| - 1];
      BoundStep(DecodeBE(init), s[|s| - 1], 8 * |init|);
      DecodeBE(init) * 256 + s[|s| - 1]
  }

  /** Reinterprets an unsigned `bits`-bit value as two's complement. */
  function ToSigned(u: int, bits: nat): (r: int)
    requires bits > 0
  {
    if u >= Pow2(bits - 1) then u - Pow2(bits) else u
  }

  /** Reads two bytes, most significant first, as an `int16_t`. */
  function DecodeInt16(s: seq<Byte>): (r: Int16)
    requires |s| == 2
    ensures r % 0x1_0000 == (s[0] as int) * 256 + s[1]
    ensures r < 0 <==> s[0] >= 0x80
  {
    Pow2Values();
    assert DecodeBE(s[..1]) == s[0] by { assert s[..1][..0] == []; }
    assert DecodeBE(s) == (s[0] as int) * 256 + s[1];
    ToSignedMod(DecodeBE(s), 16);
    ToSigned(DecodeBE(s), 16)
  }

  /** Reads four bytes, most significant first, as an `int32_t`. */
  function DecodeInt32(s: seq<Byte>): (r: Int32)
    requires |s| == 4
    ensures r % 0x1_0000_0000 == (((s[0] as int) * 256 + s[1]) * 256 + s[2]) * 256 + s[3]
    ensures r < 0 <==> s[0] >= 0x80
  {
    Pow2Values();
    assert DecodeBE(s[..1]) == s[0] by { assert s[..1][..0] == []; }
    assert DecodeBE(s[..2]) == (s[0] as int) * 256 + s[1] by { assert s[..2][..1] == s[..1]; }
    assert DecodeBE(s[..3]) == ((s[0] as int) * 256 + s[1]) * 256 + s[2] by { assert s[..3][..2] == s[..2]; }
    ToSignedMod(DecodeBE(s), 32);
    ToSigned(DecodeBE(s), 32)
  }

  // ---------------------------------------------------------------------------
  // Arithmetic facts

  lemma Pow2Values()
    ensures Pow2(8) == 256 && Pow2(15) == 0x8000 && Pow2(16) == 0x1_0000
    ensures Pow2(24) == 0x100_0000 && Pow2(31) == 0x8000_0000 && Pow2(32) == 0x1_0000_0000
  {
  }

  lemma {:induction false} Pow2Add(a: nat, b: nat)
    ensures Pow2(a + b) == Pow2(a) * Pow2(b)
  {
    if b > 0 {
      Pow2Add(a, b - 1);
      assert Pow2(a + b) == 2 * Pow2(a + b - 1);
    }
  }

  lemma BoundStep(x: int, b: Byte, k: nat)
    requires 0 <= x < Pow2(k)
    ensures 0 <= x * 256 + b < Pow2(k + 8)
  {
    Pow2Add(k, 8);
    Pow2Values();
    assert x * 256 <= (Pow2(k) - 1) * 256;
  }

  lemma {:induction false} MulAtLeast(d: int, k: int)
    requires d >= 1 && k > 0
    ensures d * k >= k
    decreases d
  {
    if d > 1 {
      MulAtLeast(d - 1, k);
      assert d * k == (d - 1) * k + k;
    }
  }

  /** Euclidean division is determined by its quotient and remainder. */
  lemma DivModUnique(n: int, k: int, q: int, r: int)
    requires k > 0 && 0 <= r < k && n == q * k + r
    ensures n / k == q && n % k == r
  {
    var q', r' := n / k, n % k;
    assert q' * k + r' == n;
    assert (q - q') * k == r' - r;
    if q - q' >= 1 {
      MulAtLeast(q - q', k);
    } else if q' - q >= 1 {
      MulAtLeast(q' - q, k);
    }
  }

  lemma MulLeRight(x: int, y: int, k: int)
    requires x <= y && k >= 0
    ensures x * k <= y * k
  {
    if x < y && k > 0 {
      MulAtLeast(y - x, k);
      assert (y - x) * k == y * k - x * k;
    }
  }

  lemma Regroup(q2: int, r2: int, a: int, b: int, r: int)
    ensures (q2 * b + r2) * a + r == q2 * (a * b) + (r2 * a + r)
  {
  }

  /**
   * Dividing by `a` and then by `b` is dividing by `a * b`, and the remainder
   * modulo `a * b` splits into a remainder modulo `a` and one of the quotient
   * modulo `b` (for positive divisors).
   */
  lemma DivModNested(n: int, a: int, b: int)
    requires a > 0 && b > 0
    ensures n / a / b == n / (a * b)
    ensures (n / a) % b * a + n % a == n % (a * b)
  {
    var q, r := n / a, n % a;
    var q2, r2 := q / b, q % b;
    assert n == (q2 * b + r2) * a + r;
    Regroup(q2, r2, a, b, r);
    MulLeRight(r2, b - 1, a);
    assert (b - 1) * a == a * b - a;
    DivModUnique(n, a * b, q2, r2 * a + r);
  }

  // ---------------------------------------------------------------------------
  // The writers' byte lists agree with the reference layout

  lemma EncodeInt16IsBytesBE(number: Int16)
    ensures EncodeInt16(number) == BytesBE(number, 2)
  {
    Pow2Values();
  }

  lemma EncodeInt32IsBytesBE(number: Int32)
    ensures EncodeInt32(number) == BytesBE(number, 4)
  {
    Pow2Values();
    DivModNested(number, 256, 256);
    DivModNested(number / 256, 256, 256);
    DivModNested(number, 256 * 256, 256);
    assert BytesBE(number, 4) == BytesBE(number / 256 / 256 / 256, 1)
      + [Truncate8(number / 256 / 256), Truncate8(number / 256), Truncate8(number)];
  }

  // ---------------------------------------------------------------------------
  // Round trips

  /** Decoding the `w` low-order bytes of `n` gives `n` modulo `2^(8w)`. */
  lemma {:induction false} DecodeBytesBE(n: int, w: nat)
    ensures DecodeBE(BytesBE(n, w)) == n % Pow2(8 * w)
    decreases w
  {
    if w > 0 {
      var s, init, p := BytesBE(n, w), BytesBE(n / 256, w - 1), Pow2(8 * (w - 1));
      assert s == init + [Truncate8(n)];
      assert s[..|s| - 1] == init;
      assert DecodeBE(s) == DecodeBE(init) * 256 + n % 256;
      DecodeBytesBE(n / 256, w - 1);
      Pow2Add(8 * (w - 1), 8);
      Pow2Values();
      assert Pow2(8 * w) == p * 256;
      DivModNested(n, 256, p);
    }
  }

  /** Every byte string is the layout of the number it decodes to. */
  lemma {:induction false} BytesOfDecodeBE(s: seq<Byte>)
    ensures BytesBE(DecodeBE(s), |s|) == s
  {
    if s != [] {
      var init, last := s[..|s| - 1], s[|s| - 1];
      DivModUnique(DecodeBE(s), 256, DecodeBE(init), last);
      BytesOfDecodeBE(init);
      assert s == init + [last];
    }
  }

  /** Two byte strings of one length that decode alike are equal. */
  lemma DecodeBEInjective(s: seq<Byte>, t: seq<Byte>)
    requires |s| == |t| && DecodeBE(s) == DecodeBE(t)
    ensures s == t
  {
    BytesOfDecodeBE(s);
    BytesOfDecodeBE(t);
  }

  /** A value in the signed `bits`-bit range survives reduction modulo `2^bits` and reinterpretation. */
  lemma ToSignedOfMod(n: int, bits: nat)
    requires bits > 0 && -Pow2(bits - 1) <= n < Pow2(bits - 1)
    ensures ToSigned(n % Pow2(bits), bits) == n
  {
    assert Pow2(bits) == 2 * Pow2(bits - 1);
    if n >= 0 {
      DivModUnique(n, Pow2(bits), 0, n);
    } else {
      DivModUnique(n, Pow2(bits), -1, n + Pow2(bits));
    }
  }

  /** Reinterpreting as two's complement does not change the value modulo `2^bits`. */
  lemma ToSignedMod(u: int, bits: nat)
    requires bits > 0 && 0 <= u < Pow2(bits)
    ensures ToSigned(u, bits) % Pow2(bits) == u
  {
    if u >= Pow2(bits - 1) {
      DivModUnique(ToSigned(u, bits), Pow2(bits), -1, u);
    } else {
      DivModUnique(u, Pow2(bits), 0, u);
    }
  }

  lemma ToSignedInjective(u: int, v: int, bits: nat)
    requires bits > 0 && 0 <= u < Pow2(bits) && 0 <= v < Pow2(bits)
    requires ToSigned(u, bits) == ToSigned(v, bits)
    ensures u == v
  {
    assert Pow2(bits) == 2 * Pow2(bits - 1);
  }

  /** Decoding what `BufAppendInt16` stores recovers the number, for every `int16_t`. */
  lemma DecodeEncodeInt16(number: Int16)
    ensures DecodeInt16(EncodeInt16(number)) == number
  {
    EncodeInt16IsBytesBE(number);
    DecodeBytesBE(number, 2);
    Pow2Values();
    ToSignedOfMod(number, 16);
  }

  /** Decoding what `BufAppendInt32` stores recovers the number, for every `int32_t`. */
  lemma DecodeEncodeInt32(number: Int32)
    ensures DecodeInt32(EncodeInt32(number)) == number
  {
    EncodeInt32IsBytesBE(number);
    DecodeBytesBE(number, 4);
    Pow2Values();
    ToSignedOfMod(number, 32);
  }

  /** Every pair of bytes is what `BufAppendInt16` stores for exactly one `int16_t`. */
  lemma EncodeDecodeInt16(s: seq<Byte>)
    requires |s| == 2
    ensures EncodeInt16(DecodeInt16(s)) == s
  {
    var t := EncodeInt16(DecodeInt16(s));
    DecodeEncodeInt16(DecodeInt16(s));
    ToSignedInjective(DecodeBE(t), DecodeBE(s), 16);
    DecodeBEInjective(t, s);
  }

  /** Every four bytes are what `BufAppendInt32` stores for exactly one `int32_t`. */
  lemma EncodeDecodeInt32(s: seq<Byte>)
    requires |s| == 4
    ensures EncodeInt32(DecodeInt32(s)) == s
  {
    var t := EncodeInt32(DecodeInt32(s));
    DecodeEncodeInt32(DecodeInt32(s));
    ToSignedInjective(DecodeBE(t), DecodeBE(s), 32);
    DecodeBEInjective(t, s);
  }

  /** Distinct numbers are stored as distinct bytes. */
  lemma EncodeInt16Injective(a: Int16, b: Int16)
    requires EncodeInt16(a) == EncodeInt16(b)
    ensures a == b
  {
    DecodeEncodeInt16(a);
    DecodeEncodeInt16(b);
  }

  lemma EncodeInt32Injective(a: Int32, b: Int32)
    requires EncodeInt32(a) == EncodeInt32(b)
    ensures a == b
  {
    DecodeEncodeInt32(a);
    DecodeEncodeInt32(b);
  }
}
