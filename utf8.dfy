/**
 * UTF-8, the default charset of sink/src/main/kotlin/org/basinmc/sink/util/BufferUtil.kt:
 * String.toByteArray(UTF_8) and String(bytes, UTF_8) on Unicode scalar
 * values. Decoding replaces a byte that starts no well-formed sequence by
 * U+FFFD and goes on with the next byte.
 */
module Utf8 {
  import opened JavaLang

  type Byte = b: int | 0 <= b < 256

  /** A continuation byte, 10xxxxxx. */
  predicate IsTail(b: Byte)
  {
    0x80 <= b < 0xC0
  }

  /** The six payload bits of a continuation byte. */
  function Low(b: Byte): int
  {
    b as int - 0x80
  }

  /** The one to four bytes of a scalar value. */
  function EncodeChar(c: char): (r: seq<Byte>)
    ensures 1 <= |r| <= 4
  {
    var n := c as int;
    if n < 0x80 then [n]
    else if n < 0x800 then [0xC0 + n / 64, 0x80 + n % 64]
    else if n < 0x1_0000 then [0xE0 + n / 4096, 0x80 + (n / 64) % 64, 0x80 + n % 64]
    else [0xF0 + n / 0x4_0000, 0x80 + (n / 4096) % 64, 0x80 + (n / 64) % 64, 0x80 + n % 64]
  }

  function Encode(s: string): (r: seq<Byte>)
    ensures |r| >= |s|
    ensures s != [] ==> r != []
  {
    if s == [] then [] else EncodeChar(s[0]) + Encode(s[1..])
  }

  predicate IsScalar(n: int)
  {
    0 <= n < 0xD800 || 0xE000 <= n < 0x11_0000
  }

  /** The scalar value a well-formed sequence at the head of `b` stands for,
      and how many bytes it takes; None when none starts there. */
  function DecodeChar(b: seq<Byte>): (r: Option<(char, nat)>)
    ensures r.Some? ==> 1 <= r.value.1 <= |b|
  {
    if b == [] then None
    else
      var lead: int := b[0];
      if lead < 0x80 then Some((lead as char, 1))
      else if 0xC2 <= lead < 0xE0 && |b| >= 2 && IsTail(b[1]) then
        var n := (lead - 0xC0) * 64 + Low(b[1]);
        Some((n as char, 2))
      else if 0xE0 <= lead < 0xF0 && |b| >= 3 && IsTail(b[1]) && IsTail(b[2]) then
        var n := (lead - 0xE0) * 4096 + Low(b[1]) * 64 + Low(b[2]);
        if 0x800 <= n && IsScalar(n) then Some((n as char, 3)) else None
      else if 0xF0 <= lead < 0xF5 && |b| >= 4 && IsTail(b[1]) && IsTail(b[2]) && IsTail(b[3]) then
        var n := (lead - 0xF0) * 0x4_0000 + Low(b[1]) * 4096 + Low(b[2]) * 64 + Low(b[3]);
        if 0x1_0000 <= n < 0x11_0000 then Some((n as char, 4)) else None
      else None
  }

  const Replacement: char := '�'

  function Decode(b: seq<Byte>): (s: string)
    ensures b != [] ==> s != []
    decreases |b|
  {
    if b == [] then []
    else match DecodeChar(b)
      case Some((c, k)) => [c] + Decode(b[k..])
      case None => [Replacement] + Decode(b[1..])
  }

  // ---------------------------------------------------------------------
  // Properties

  lemma DecodeTwo(n: int, rest: seq<Byte>)
    requires 0x80 <= n < 0x800
    ensures DecodeChar([0xC0 + n / 64, 0x80 + n % 64] + rest) == Some((n as char, 2))
  {
    var b := [0xC0 + n / 64, 0x80 + n % 64] + rest;
    assert n == 64 * (n / 64) + n % 64;
    assert b[0] == 0xC0 + n / 64 && b[1] == 0x80 + n % 64;
  }

  lemma DecodeThree(n: int, rest: seq<Byte>)
    requires 0x800 <= n < 0x1_0000 && IsScalar(n)
    ensures DecodeChar([0xE0 + n / 4096, 0x80 + (n / 64) % 64, 0x80 + n % 64] + rest) == Some((n as char, 3))
  {
    var b := [0xE0 + n / 4096, 0x80 + (n / 64) % 64, 0x80 + n % 64] + rest;
    var q, m, r := n / 4096, (n / 64) % 64, n % 64;
    assert n / 64 == 64 * q + m;
    assert n == 64 * (n / 64) + r;
    assert b[0] == 0xE0 + q && b[1] == 0x80 + m && b[2] == 0x80 + r;
    assert (b[0] as int - 0xE0) * 4096 + Low(b[1]) * 64 + Low(b[2]) == n;
  }

  lemma DecodeFour(n: int, rest: seq<Byte>)
    requires 0x1_0000 <= n < 0x11_0000
    ensures DecodeChar([0xF0 + n / 0x4_0000, 0x80 + (n / 4096) % 64, 0x80 + (n / 64) % 64, 0x80 + n % 64] + rest) == Some((n as char, 4))
  {
    var b := [0xF0 + n / 0x4_0000, 0x80 + (n / 4096) % 64, 0x80 + (n / 64) % 64, 0x80 + n % 64] + rest;
    var q, m1, m2, r := n / 0x4_0000, (n / 4096) % 64, (n / 64) % 64, n % 64;
    assert n / 4096 == 64 * q + m1;
    assert n / 64 == 64 * (n / 4096) + m2;
    assert n == 64 * (n / 64) + r;
    assert b[0] == 0xF0 + q && b[1] == 0x80 + m1 && b[2] == 0x80 + m2 && b[3] == 0x80 + r;
    assert (b[0] as int - 0xF0) * 0x4_0000 + Low(b[1]) * 4096 + Low(b[2]) * 64 + Low(b[3]) == n;
  }

  /** A scalar value's bytes decode back to it, whatever follows them. */
  lemma DecodeEncodeChar(c: char, rest: seq<Byte>)
    ensures DecodeChar(EncodeChar(c) + rest) == Some((c, |EncodeChar(c)|))
  {
    var n := c as int;
    if n < 0x80 {
    } else if n < 0x800 {
      DecodeTwo(n, rest);
    } else if n < 0x1_0000 {
      DecodeThree(n, rest);
    } else {
      DecodeFour(n, rest);
    }
  }

  /** Decoding undoes encoding. */
  lemma {:induction false} DecodeEncode(s: string)
    ensures Decode(Encode(s)) == s
  {
    if s != [] {
      var b := Encode(s);
      DecodeEncodeChar(s[0], Encode(s[1..]));
      assert b[|EncodeChar(s[0])|..] == Encode(s[1..]);
      DecodeEncode(s[1..]);
    }
  }
}
