/**
 * The parts of the Java and Kotlin runtime that the Basin version and
 * extension code relies on: 32- and 64-bit wrap-around, Integer.parseInt,
 * Integer.parseUnsignedInt, Integer.toString, String.indexOf, the two
 * flavours of String.split, ASCII case folding, and the hashCode recipes
 * of String, Boolean, Long and java.util.Objects.hash.
 */
module JavaLang {

  datatype Option<T> = None | Some(value: T)
  {
    function GetOr(default: T): T
    {
      if Some? then value else default
    }
  }

  /** The exception classes the modelled code throws. */
  datatype Exception =
    | IllegalArgument        // java.lang.IllegalArgumentException (and NumberFormatException)
    | IllegalState           // java.lang.IllegalStateException
    | IndexOutOfBounds       // String, List and ByteBuf index errors
    | ArrayIndexOutOfBounds  // array element access past the end
    | ManifestError          // ExtensionManifestException
    | ResolverError          // ExtensionResolverException
    | ContainerError         // ExtensionContainerException
    | AccessError            // ExtensionAccessException

  datatype Result<T> = Ok(value: T) | Err(error: Exception)

  /** How a void method returned: normally, or by throwing. */
  datatype Outcome = Normal | Thrown(error: Exception)

  const INT_MIN: int := -0x8000_0000
  const INT_MAX: int := 0x7fff_ffff
  const TWO31: int := 0x8000_0000
  const TWO32: int := 0x1_0000_0000
  const LONG_MIN: int := -0x8000_0000_0000_0000
  const LONG_MAX: int := 0x7fff_ffff_ffff_ffff
  const TWO64: int := 0x1_0000_0000_0000_0000

  predicate IsInt32(x: int) { INT_MIN <= x <= INT_MAX }
  predicate IsInt64(x: int) { LONG_MIN <= x <= LONG_MAX }

  /** The value a Java `int` holds after an arithmetic result `x` is stored in it. */
  function Int32(x: int): (r: int)
    ensures IsInt32(r) && (r - x) % TWO32 == 0
    ensures IsInt32(x) ==> r == x
    ensures INT_MAX < x < TWO32 ==> r == x - TWO32
  {
    var m := x % TWO32;
    if m <= INT_MAX then m else m - TWO32
  }

  /** The value a Java `long` holds after an arithmetic result `x` is stored in it. */
  function Int64(x: int): (r: int)
    ensures IsInt64(r) && (r - x) % TWO64 == 0
    ensures IsInt64(x) ==> r == x
  {
    var m := x % TWO64;
    if m <= LONG_MAX then m else m - TWO64
  }

  // ---------------------------------------------------------------------
  // Decimal digits

  predicate IsDigit(c: char) { '0' <= c <= '9' }

  predicate AllDigits(s: string)
  {
    forall i :: 0 <= i < |s| ==> IsDigit(s[i])
  }

  function DigitValue(c: char): nat
    requires IsDigit(c)
  {
    c as int - '0' as int
  }

  function DigitChar(d: nat): (c: char)
    requires d < 10
    ensures IsDigit(c) && DigitValue(c) == d
  {
    ('0' as int + d) as char
  }

  /** The number a run of decimal digits denotes. */
  function NumberValue(s: string): nat
    requires AllDigits(s)
  {
    if s == [] then 0 else NumberValue(s[..|s| - 1]) * 10 + DigitValue(s[|s| - 1])
  }

  /** Integer.toString for a non-negative number: shortest decimal, no sign. */
  function DecimalString(n: nat): (s: string)
  {
    if n < 10 then [DigitChar(n)] else DecimalString(n / 10) + [DigitChar(n % 10)]
  }

  /** Integer.toString (and String.format("%d")) for any value. */
  function IntToString(x: int): string
  {
    if x < 0 then "-" + DecimalString(-x) else DecimalString(x)
  }

  /** A decimal numeral without superfluous leading zeros. */
  predicate IsCanonicalNumeral(s: string)
  {
    |s| > 0 && AllDigits(s) && (s[0] == '0' ==> |s| == 1)
  }

  lemma {:induction false} DecimalStringCanonical(n: nat)
    ensures IsCanonicalNumeral(DecimalString(n))
    ensures NumberValue(DecimalString(n)) == n
  {
    if n >= 10 {
      DecimalStringCanonical(n / 10);
      var s := DecimalString(n);
      assert s[..|s| - 1] == DecimalString(n / 10);
    }
  }

  lemma {:induction false} NumberValueCanonical(s: string)
    requires IsCanonicalNumeral(s)
    ensures DecimalString(NumberValue(s)) == s
    decreases |s|
  {
    if |s| == 1 {
    } else {
      var p := s[..|s| - 1];
      assert p[0] == s[0];
      NumberValueNoLeadingZero(p);
      NumberValueCanonical(p);
    }
  }

  lemma {:induction false} NumberValueNoLeadingZero(s: string)
    requires |s| > 0 && AllDigits(s) && s[0] != '0'
    ensures NumberValue(s) > 0
    decreases |s|
  {
    if |s| > 1 {
      var p := s[..|s| - 1];
      assert p[0] == s[0];
      NumberValueNoLeadingZero(p);
    }
  }

  // ---------------------------------------------------------------------
  // Integer.parseInt / Integer.parseUnsignedInt (radix 10, ASCII digits)

  /** Integer.parseUnsignedInt: an optional '+', then digits worth less than 2^32;
      values of 2^31 and above come back negative, as the JDK stores them. */
  function ParseUnsignedInt(s: string): Option<int>
  {
    var d := if |s| > 0 && s[0] == '+' then s[1..] else s;
    if |d| > 0 && AllDigits(d) && NumberValue(d) < TWO32 then Some(Int32(NumberValue(d))) else None
  }

  /** Integer.parseInt: an optional sign, then digits within the int range. */
  function ParseInt(s: string): Option<int>
  {
    if |s| > 0 && s[0] == '-' then
      var d := s[1..];
      if |d| > 0 && AllDigits(d) && NumberValue(d) <= TWO31 then Some(0 - NumberValue(d) as int) else None
    else
      var d := if |s| > 0 && s[0] == '+' then s[1..] else s;
      if |d| > 0 && AllDigits(d) && NumberValue(d) <= INT_MAX then Some(NumberValue(d)) else None
  }

  /** Integer.toString and Integer.parseInt are inverse on every int. */
  lemma ParseIntToString(x: int)
    requires IsInt32(x)
    ensures ParseInt(IntToString(x)) == Some(x)
  {
    if x < 0 {
      DecimalStringCanonical(-x);
      ParseNegative(DecimalString(-x));
    } else {
      DecimalStringCanonical(x);
      ParsePlain(DecimalString(x));
    }
  }

  /** A minus sign before a numeral of at most 2^31. */
  lemma ParseNegative(d: string)
    requires IsCanonicalNumeral(d) && NumberValue(d) <= TWO31
    ensures ParseInt("-" + d) == Some(0 - NumberValue(d) as int)
  {
    assert ("-" + d)[1..] == d;
  }

  /** A numeral of at most INT_MAX, unsigned. */
  lemma ParsePlain(d: string)
    requires IsCanonicalNumeral(d) && NumberValue(d) <= INT_MAX
    ensures ParseInt(d) == Some(NumberValue(d))
  {
    assert IsDigit(d[0]);
  }

  /** Unsigned parsing of a canonical numeral gives back its value exactly when
      that value fits a signed int; from 2^31 to 2^32 - 1 it wraps negative. */
  lemma ParseUnsignedNumeral(s: string)
    requires IsCanonicalNumeral(s)
    ensures NumberValue(s) <= INT_MAX ==> ParseUnsignedInt(s) == Some(NumberValue(s))
    ensures INT_MAX < NumberValue(s) < TWO32 ==> ParseUnsignedInt(s) == Some(NumberValue(s) - TWO32)
    ensures TWO32 <= NumberValue(s) ==> ParseUnsignedInt(s) == None
  {
  }

  // ---------------------------------------------------------------------
  // Strings

  /** String.indexOf(char): the first position of `c`, or -1. */
  function IndexOf(s: string, c: char): (r: int)
    ensures r == -1 <==> c !in s
    ensures r != -1 ==> 0 <= r < |s| && s[r] == c && c !in s[..r]
  {
    if |s| == 0 then -1
    else if s[0] == c then 0
    else
      var k := IndexOf(s[1..], c);
      assert s[1..][..if k < 0 then 0 else k] == s[1..if k < 0 then 1 else k + 1];
      if k < 0 then -1 else k + 1
  }

  /** Cutting a string at the first occurrence of `c`. */
  lemma CutAt(a: string, c: char, b: string)
    requires c !in a
    ensures IndexOf(a + [c] + b, c) == |a|
    ensures (a + [c] + b)[..|a|] == a && (a + [c] + b)[|a| + 1..] == b
  {
    var s := a + [c] + b;
    assert s[|a|] == c;
    assert s[..|a|] == a;
  }

  lemma IndexOfNone(a: string, c: char)
    requires c !in a
    ensures IndexOf(a, c) == -1
  {
  }

  /** Kotlin's String.split(".") with a literal delimiter: every piece, empty ones included. */
  function Split(s: string, c: char): (r: seq<string>)
    ensures |r| >= 1
    ensures forall k :: 0 <= k < |r| ==> c !in r[k]
    decreases |s|
  {
    var k := IndexOf(s, c);
    if k < 0 then [s] else [s[..k]] + Split(s[k + 1..], c)
  }

  /** The pieces joined back together with the delimiter. */
  function Join(pieces: seq<string>, c: char): string
  {
    if |pieces| == 0 then "" else if |pieces| == 1 then pieces[0] else pieces[0] + [c] + Join(pieces[1..], c)
  }

  /** Splitting loses nothing: joining the pieces gives the input back. */
  lemma {:induction false} SplitJoin(s: string, c: char)
    ensures Join(Split(s, c), c) == s
    decreases |s|
  {
    var k := IndexOf(s, c);
    if k >= 0 {
      var tail := Split(s[k + 1..], c);
      SplitJoin(s[k + 1..], c);
      var r := [s[..k]] + tail;
      assert r[1..] == tail;
      assert Join(r, c) == s[..k] + [c] + Join(tail, c);
      assert s == s[..k] + [c] + s[k + 1..];
    }
  }

  /** Every character of `s` is `c`. */
  predicate AllAre(s: string, c: char)
  {
    forall i :: 0 <= i < |s| ==> s[i] == c
  }

  /** Every piece is empty. */
  predicate AllEmpty(pieces: seq<string>)
  {
    forall k :: 0 <= k < |pieces| ==> pieces[k] == ""
  }

  /** Every piece is empty exactly when the string consists of delimiters only. */
  lemma {:induction false} SplitAllEmpty(s: string, c: char)
    ensures AllEmpty(Split(s, c)) <==> AllAre(s, c)
    decreases |s|
  {
    var k := IndexOf(s, c);
    if k >= 0 {
      var rest := s[k + 1..];
      SplitAllEmpty(rest, c);
      AllEmptyCons(s[..k], Split(rest, c));
      DelimiterThenRest(s, c, k);
    } else if |s| > 0 {
      assert s[0] in s;
    }
  }

  lemma AllEmptyCons(head: string, tail: seq<string>)
    ensures AllEmpty([head] + tail) <==> head == "" && AllEmpty(tail)
  {
    var r := [head] + tail;
    assert r[0] == head;
    assert forall j :: 0 <= j < |tail| ==> tail[j] == r[j + 1];
  }

  /** With its first `c` at `k`, `s` is all `c` exactly when k is 0 and the
      rest after it is all `c`. */
  lemma DelimiterThenRest(s: string, c: char, k: int)
    requires 0 <= k < |s| && s[k] == c && c !in s[..k]
    ensures AllAre(s, c) <==> k == 0 && AllAre(s[k + 1..], c)
  {
    var rest := s[k + 1..];
    if k > 0 {
      assert s[..k][0] == s[0];
    } else {
      assert forall j :: 0 <= j < |rest| ==> rest[j] == s[j + 1];
      if AllAre(rest, c) {
        forall i | 0 <= i < |s| ensures s[i] == c {
          if i > 0 { assert s[i] == rest[i - 1]; }
        }
      }
    }
  }

  /** Kotlin's dropLastWhile(String::isEmpty). */
  function DropTrailingEmpty(pieces: seq<string>): (r: seq<string>)
    ensures |r| <= |pieces| && r == pieces[..|r|]
    ensures |r| > 0 ==> r[|r| - 1] != ""
    ensures forall k :: |r| <= k < |pieces| ==> pieces[k] == ""
  {
    if |pieces| > 0 && pieces[|pieces| - 1] == "" then DropTrailingEmpty(pieces[..|pieces| - 1]) else pieces
  }

  /** Java's String.split on a one-character pattern: the input itself when the
      character does not occur, otherwise the pieces without trailing empty ones. */
  function JavaSplit(s: string, c: char): seq<string>
  {
    if c !in s then [s] else DropTrailingEmpty(Split(s, c))
  }

  /** Java's split yields no piece at all exactly for a non-empty run of delimiters. */
  lemma JavaSplitEmpty(s: string, c: char)
    ensures JavaSplit(s, c) == [] <==> |s| > 0 && AllAre(s, c)
  {
    SplitAllEmpty(s, c);
    if c !in s {
      if |s| > 0 { assert s[0] in s; }
    } else {
      var pieces := Split(s, c);
      var r := DropTrailingEmpty(pieces);
      if r == [] {
        assert forall k :: 0 <= k < |pieces| ==> pieces[k] == "";
      }
    }
  }

  predicate IsUpperAscii(c: char) { 'A' <= c <= 'Z' }

  function LowerChar(c: char): char
  {
    if IsUpperAscii(c) then (c as int + 32) as char else c
  }

  /** String.toLowerCase restricted to ASCII letters. */
  function Lower(s: string): (r: string)
    ensures |r| == |s| && forall i :: 0 <= i < |s| ==> r[i] == LowerChar(s[i])
  {
    if s == [] then [] else [LowerChar(s[0])] + Lower(s[1..])
  }

  /** String.equalsIgnoreCase restricted to ASCII letters. */
  predicate EqualsIgnoreCase(a: string, b: string)
  {
    Lower(a) == Lower(b)
  }

  // ---------------------------------------------------------------------
  // hashCode recipes

  /** String.hashCode: s[0]*31^(n-1) + ... + s[n-1], in int arithmetic. */
  function StringHash(s: string): (h: int)
    ensures IsInt32(h)
  {
    if s == [] then 0 else Int32(31 * StringHash(s[..|s| - 1]) + s[|s| - 1] as int)
  }

  /** The hash of a nullable String field: 0 for null. */
  function OptionStringHash(s: Option<string>): (h: int)
    ensures IsInt32(h)
  {
    if s.None? then 0 else StringHash(s.value)
  }

  /** Boolean.hashCode. */
  function BoolHash(b: bool): int
  {
    if b then 1231 else 1237
  }

  /** Long.hashCode: the two halves of the 64-bit value exclusive-or'ed, read as an int. */
  function LongHash(v: int): (h: int)
    requires IsInt64(v)
    ensures IsInt32(h)
  {
    var b := (if v < 0 then v + TWO64 else v) as bv64;
    Int32(((b ^ (b >> 32)) & 0xFFFF_FFFF) as int)
  }

  /** Objects.hash / Arrays.hashCode over the hashes of the elements. */
  function HashAll(hs: seq<int>): (h: int)
    ensures IsInt32(h)
  {
    if hs == [] then 1 else Int32(31 * HashAll(hs[..|hs| - 1]) + hs[|hs| - 1])
  }
}
