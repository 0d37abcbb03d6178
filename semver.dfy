/**
 * faucet/src/main/kotlin/org/basinmc/faucet/util/Version.kt: semantic
 * versions "major.minor.patch[-extra][+metadata]", their stability level and
 * index (taken from the extra part), ordering, equality and rendering.
 */
module SemVer {
  import opened JavaLang

  /** Stability levels in declaration order (ALPHA is the least stable). */
  datatype Stability = ALPHA | BETA | RELEASE_CANDIDATE | UNKNOWN | STABLE

  function Ordinal(s: Stability): nat
  {
    match s
    case ALPHA => 0
    case BETA => 1
    case RELEASE_CANDIDATE => 2
    case UNKNOWN => 3
    case STABLE => 4
  }

  /** Stability[keyword]: the keyword table consulted with the lower-cased keyword. */
  function ByKeyword(keyword: string): (r: Option<Stability>)
    ensures r.Some? ==> r.value in {ALPHA, BETA, RELEASE_CANDIDATE}
  {
    var k := Lower(keyword);
    if k == "a" || k == "alpha" then Some(ALPHA)
    else if k == "b" || k == "beta" then Some(BETA)
    else if k == "rc" then Some(RELEASE_CANDIDATE)
    else None
  }

  datatype Version = Version(
    major: int,
    minor: int,
    patch: int,
    extra: Option<string>,
    buildMetadata: Option<string>,
    stability: Stability,
    stabilityIndex: int)

  // ---------------------------------------------------------------------
  // The accepted pattern
  //   ^(([1-9][0-9]*)|0)\.(([1-9][0-9]*)|0)\.(([1-9][0-9]*)|0)(-([A-Z0-9-.]+))?(\+([A-Z0-9-.]+))?$
  // compiled case-insensitively, so the label classes admit a-z as well.

  /** The capture groups the pattern yields: groups 1, 3, 5, 8 and 10. */
  datatype Groups = Groups(major: string, minor: string, patch: string, extra: Option<string>, meta: Option<string>)

  predicate IsLabelChar(c: char)
  {
    'A' <= c <= 'Z' || 'a' <= c <= 'z' || IsDigit(c) || c == '-' || c == '.'
  }

  predicate IsLabel(s: string)
  {
    |s| > 0 && forall i :: 0 <= i < |s| ==> IsLabelChar(s[i])
  }

  predicate IsOptionalLabel(s: Option<string>)
  {
    s.Some? ==> IsLabel(s.value)
  }

  /** Every group matches its part of the pattern. */
  predicate ValidGroups(g: Groups)
  {
    IsCanonicalNumeral(g.major) && IsCanonicalNumeral(g.minor) && IsCanonicalNumeral(g.patch)
    && IsOptionalLabel(g.extra) && IsOptionalLabel(g.meta)
  }

  function MarkedPart(marker: char, part: Option<string>): string
  {
    if part.None? then "" else [marker] + part.value
  }

  /** The string made of the groups and the pattern's literal separators. */
  function Layout(g: Groups): string
  {
    g.major + "." + (g.minor + "." + (g.patch + SuffixText(g)))
  }

  /** "-extra" and "+meta" for the groups that are present. */
  function SuffixText(g: Groups): string
  {
    MarkedPart('-', g.extra) + MarkedPart('+', g.meta)
  }

  /** The length of the run of digits that starts `s`. */
  function DigitRun(s: string): (n: nat)
    ensures n <= |s| && AllDigits(s[..n]) && (n < |s| ==> !IsDigit(s[n]))
  {
    if |s| > 0 && IsDigit(s[0]) then
      var k := DigitRun(s[1..]);
      assert s[..k + 1] == [s[0]] + s[1..][..k];
      k + 1
    else 0
  }

  /** What follows the patch number: "", "-extra", "+meta" or "-extra+meta". */
  function SuffixGroups(t: string): Option<(Option<string>, Option<string>)>
  {
    if t == "" then Some((None, None))
    else if t[0] == '+' then
      if IsLabel(t[1..]) then Some((None, Some(t[1..]))) else None
    else if t[0] == '-' then
      var k := IndexOf(t, '+');
      if k < 0 then
        if IsLabel(t[1..]) then Some((Some(t[1..]), None)) else None
      else if IsLabel(t[1..k]) && IsLabel(t[k + 1..]) then Some((Some(t[1..k]), Some(t[k + 1..])))
      else None
    else None
  }

  /** Matcher.matches() with the version pattern, yielding the groups on success:
      the major number runs up to the first dot, the minor number up to the next. */
  function Match(s: string): Option<Groups>
  {
    var i := IndexOf(s, '.');
    if i < 0 then None else MatchMinor(s[..i], s[i + 1..])
  }

  function MatchMinor(major: string, rest: string): Option<Groups>
  {
    var j := IndexOf(rest, '.');
    if j < 0 then None else MatchPatch(major, rest[..j], rest[j + 1..])
  }

  /** The patch number is the run of digits after the second dot. */
  function MatchPatch(major: string, minor: string, tail: string): Option<Groups>
  {
    var n := DigitRun(tail);
    match SuffixGroups(tail[n..])
    case None => None
    case Some(parts) =>
      var g := Groups(major, minor, tail[..n], parts.0, parts.1);
      if IsCanonicalNumeral(g.major) && IsCanonicalNumeral(g.minor) && IsCanonicalNumeral(g.patch)
      then Some(g) else None
  }

  // ---------------------------------------------------------------------
  // Stability from the extra part

  /** extra.split(".").dropLastWhile(String::isEmpty) */
  function Elements(extra: string): seq<string>
  {
    DropTrailingEmpty(Split(extra, '.'))
  }

  /** STABLE without an extra part; otherwise the first element's keyword, or UNKNOWN. */
  function StabilityOf(extra: Option<string>): (r: Stability)
    ensures r == STABLE <==> extra.None?
  {
    if extra.None? then STABLE
    else
      var elements := Elements(extra.value);
      if |elements| == 0 then UNKNOWN else ByKeyword(elements[0]).GetOr(UNKNOWN)
  }

  /** With two or more elements, the last one read by Integer.parseInt (0 when it is no int); else 0. */
  function StabilityIndexOf(extra: Option<string>): int
  {
    if extra.None? then 0
    else
      var elements := Elements(extra.value);
      if |elements| >= 2 then ParseInt(elements[|elements| - 1]).GetOr(0) else 0
  }

  /** The stability fields agree with the extra part, as every parsed version's do. */
  predicate WellFormed(v: Version)
  {
    v.stability == StabilityOf(v.extra) && v.stabilityIndex == StabilityIndexOf(v.extra)
  }

  // ---------------------------------------------------------------------
  // Version(String)

  /** Version.invoke: match the pattern, read the three numbers with
      Integer.parseUnsignedInt, derive the stability from the extra part. */
  function Parse(s: string): (r: Result<Version>)
    ensures r.Err? ==> r.error == IllegalArgument
    ensures r.Ok? ==> WellFormed(r.value)
    ensures r.Ok? ==> (r.value.stability == STABLE <==> r.value.extra.None?)
  {
    match Match(s)
    case None => Err(IllegalArgument)
    case Some(g) =>
      var major := ParseUnsignedInt(g.major);
      var minor := ParseUnsignedInt(g.minor);
      var patch := ParseUnsignedInt(g.patch);
      if major.None? || minor.None? || patch.None? then Err(IllegalArgument)
      else Ok(Version(major.value, minor.value, patch.value, g.extra, g.meta,
                      StabilityOf(g.extra), StabilityIndexOf(g.extra)))
  }

  /** The version the groups denote when each number is below 2^32. */
  function FromGroups(g: Groups): Result<Version>
    requires ValidGroups(g)
  {
    var a, b, c := NumberValue(g.major), NumberValue(g.minor), NumberValue(g.patch);
    if a < TWO32 && b < TWO32 && c < TWO32 then
      Ok(Version(Int32(a), Int32(b), Int32(c), g.extra, g.meta, StabilityOf(g.extra), StabilityIndexOf(g.extra)))
    else Err(IllegalArgument)
  }

  // ---------------------------------------------------------------------
  // toString, equals, hashCode, compareTo

  /** "%d.%d.%d", then "-extra" and "+metadata" when present. */
  function ToString(v: Version): string
  {
    Layout(Groups(IntToString(v.major), IntToString(v.minor), IntToString(v.patch), v.extra, v.buildMetadata))
  }

  /** equals: major, minor, patch and the extra text; metadata is ignored. */
  predicate Equals(a: Version, b: Version)
  {
    a.major == b.major && a.minor == b.minor && a.patch == b.patch && a.extra == b.extra
  }

  function HashCode(v: Version): (h: int)
    ensures IsInt32(h)
  {
    Int32(31 * Int32(31 * Int32(31 * v.major + v.minor) + v.patch) + OptionStringHash(v.extra))
  }

  /** compareTo: 0 for equal versions, then major, minor, patch, stability ordinal,
      stability index; every remaining case, a tie included, answers -1. */
  function CompareTo(a: Version, b: Version): (r: int)
    ensures r in {-1, 0, 1}
  {
    if Equals(a, b) then 0
    else if a.major > b.major then 1
    else if a.major < b.major then -1
    else if a.minor > b.minor then 1
    else if a.minor < b.minor then -1
    else if a.patch > b.patch then 1
    else if a.patch < b.patch then -1
    else if Ordinal(a.stability) > Ordinal(b.stability) then 1
    else if Ordinal(a.stability) < Ordinal(b.stability) then -1
    else if a.stabilityIndex > b.stabilityIndex then 1
    else -1
  }

  // ---------------------------------------------------------------------
  // The ordering keys, as a reference definition of the intended order

  /** The five keys the ordering inspects, most significant first. */
  function Key(v: Version): seq<int>
  {
    [v.major, v.minor, v.patch, Ordinal(v.stability), v.stabilityIndex]
  }

  /** Strict lexicographic order on key sequences. */
  predicate LexLess(a: seq<int>, b: seq<int>)
    requires |a| == |b|
  {
    |a| > 0 && (a[0] < b[0] || (a[0] == b[0] && LexLess(a[1..], b[1..])))
  }

  // ---------------------------------------------------------------------
  // The matcher accepts exactly the pattern's language

  lemma DigitRunConcat(a: string, b: string)
    requires AllDigits(a)
    requires |b| > 0 ==> !IsDigit(b[0])
    ensures DigitRun(a + b) == |a|
    decreases |a|
  {
    if |a| > 0 {
      assert (a + b)[1..] == a[1..] + b;
      DigitRunConcat(a[1..], b);
    } else {
      assert a + b == b;
    }
  }

  lemma SuffixGroupsOfLayout(x: Option<string>, m: Option<string>)
    requires IsOptionalLabel(x) && IsOptionalLabel(m)
    ensures SuffixGroups(MarkedPart('-', x) + MarkedPart('+', m)) == Some((x, m))
  {
    var t := MarkedPart('-', x) + MarkedPart('+', m);
    if x.Some? && m.Some? {
      assert '+' !in ['-'] + x.value by {
        forall i | 0 <= i < |x.value| ensures x.value[i] != '+' { assert IsLabelChar(x.value[i]); }
      }
      assert t == ['-'] + x.value + ['+'] + m.value;
      CutAt(['-'] + x.value, '+', m.value);
      assert t[1..1 + |x.value|] == x.value;
      assert t[2 + |x.value|..] == m.value;
    } else if x.Some? {
      assert '+' !in t by {
        forall i | 0 <= i < |x.value| ensures x.value[i] != '+' { assert IsLabelChar(x.value[i]); }
      }
      assert t[1..] == x.value;
    } else if m.Some? {
      assert t[1..] == m.value;
    }
  }

  lemma SuffixGroupsSound(t: string)
    requires SuffixGroups(t).Some?
    ensures IsOptionalLabel(SuffixGroups(t).value.0) && IsOptionalLabel(SuffixGroups(t).value.1)
    ensures MarkedPart('-', SuffixGroups(t).value.0) + MarkedPart('+', SuffixGroups(t).value.1) == t
    ensures |t| > 0 ==> !IsDigit(t[0])
  {
    if t != "" && t[0] == '-' {
      var k := IndexOf(t, '+');
      if k >= 0 {
        BothMarked(t, k);
      } else {
        ExtraMarked(t);
      }
    } else if t != "" {
      MetadataMarked(t);
    }
  }

  /** "-x+m": the extra bit up to the first '+', the metadata after it. */
  lemma BothMarked(t: string, k: int)
    requires t != "" && t[0] == '-' && k == IndexOf(t, '+') && k >= 0 && SuffixGroups(t).Some?
    ensures IsOptionalLabel(SuffixGroups(t).value.0) && IsOptionalLabel(SuffixGroups(t).value.1)
    ensures MarkedPart('-', SuffixGroups(t).value.0) + MarkedPart('+', SuffixGroups(t).value.1) == t
  {
    var x, m := t[1..k], t[k + 1..];
    assert SuffixGroups(t) == Some((Some(x), Some(m)));
    RejoinMarked(t, k);
  }

  /** A string cut around a '-' at its start and a '+' at k. */
  lemma RejoinMarked(t: string, k: int)
    requires 0 < k < |t| && t[0] == '-' && t[k] == '+'
    ensures MarkedPart('-', Some(t[1..k])) + MarkedPart('+', Some(t[k + 1..])) == t
  {
    assert t == ['-'] + t[1..k] + ['+'] + t[k + 1..];
  }

  /** "-x" without a '+'. */
  lemma ExtraMarked(t: string)
    requires t != "" && t[0] == '-' && IndexOf(t, '+') < 0 && SuffixGroups(t).Some?
    ensures IsOptionalLabel(SuffixGroups(t).value.0) && IsOptionalLabel(SuffixGroups(t).value.1)
    ensures MarkedPart('-', SuffixGroups(t).value.0) + MarkedPart('+', SuffixGroups(t).value.1) == t
  {
    assert SuffixGroups(t) == Some((Some(t[1..]), None));
    MarkedRest(t);
  }

  /** "+m". */
  lemma MetadataMarked(t: string)
    requires t != "" && t[0] != '-' && SuffixGroups(t).Some?
    ensures t[0] == '+'
    ensures IsOptionalLabel(SuffixGroups(t).value.0) && IsOptionalLabel(SuffixGroups(t).value.1)
    ensures MarkedPart('-', SuffixGroups(t).value.0) + MarkedPart('+', SuffixGroups(t).value.1) == t
  {
    assert SuffixGroups(t) == Some((None, Some(t[1..])));
    MarkedRest(t);
  }

  /** A marker followed by the rest of the string. */
  lemma MarkedRest(t: string)
    requires t != ""
    ensures MarkedPart(t[0], Some(t[1..])) == t
  {
    assert t == [t[0]] + t[1..];
  }

  lemma NoDotInNumeral(s: string)
    requires AllDigits(s)
    ensures '.' !in s
  {
    assert forall i :: 0 <= i < |s| ==> IsDigit(s[i]);
  }

  lemma {:induction false} MatchPatchLayout(g: Groups)
    requires ValidGroups(g)
    ensures MatchPatch(g.major, g.minor, g.patch + SuffixText(g)) == Some(g)
  {
    var sx := SuffixText(g);
    var tail := g.patch + sx;
    SuffixGroupsOfLayout(g.extra, g.meta);
    assert |sx| > 0 ==> sx[0] == '-' || sx[0] == '+';
    DigitRunConcat(g.patch, sx);
    var n := DigitRun(tail);
    assert n == |g.patch|;
    assert tail[..n] == g.patch;
    assert tail[n..] == sx;
    assert SuffixGroups(tail[n..]) == Some((g.extra, g.meta));
  }

  /** Every string built from valid groups matches, and yields those groups. */
  lemma {:induction false} MatchLayout(g: Groups)
    requires ValidGroups(g)
    ensures Match(Layout(g)) == Some(g)
  {
    var tail := g.patch + SuffixText(g);
    var rest := g.minor + "." + tail;
    NoDotInNumeral(g.major);
    CutAt(g.major, '.', rest);
    NoDotInNumeral(g.minor);
    CutAt(g.minor, '.', tail);
    MatchPatchLayout(g);
  }

  lemma {:induction false} MatchPatchSound(major: string, minor: string, tail: string)
    requires MatchPatch(major, minor, tail).Some?
    ensures ValidGroups(MatchPatch(major, minor, tail).value)
    ensures Layout(MatchPatch(major, minor, tail).value) == major + "." + (minor + "." + tail)
  {
    var n := DigitRun(tail);
    SuffixGroupsSound(tail[n..]);
    assert tail == tail[..n] + tail[n..];
  }

  /** Whatever matches is made of valid groups and the pattern's separators. */
  lemma {:induction false} MatchSound(s: string)
    requires Match(s).Some?
    ensures ValidGroups(Match(s).value) && Layout(Match(s).value) == s
  {
    var i := IndexOf(s, '.');
    var rest := s[i + 1..];
    var j := IndexOf(rest, '.');
    var tail := rest[j + 1..];
    assert Match(s) == MatchPatch(s[..i], rest[..j], tail);
    MatchPatchSound(s[..i], rest[..j], tail);
    Rejoin(rest, j);
    Rejoin(s, i);
  }

  lemma Rejoin(s: string, i: int)
    requires 0 <= i < |s| && s[i] == '.'
    ensures s == s[..i] + "." + s[i + 1..]
  {
    assert s == s[..i] + [s[i]] + s[i + 1..];
  }

  /** Parsing a string built from valid groups gives the version the groups denote. */
  lemma {:induction false} ParseLayout(g: Groups)
    requires ValidGroups(g)
    ensures Parse(Layout(g)) == FromGroups(g)
  {
    MatchLayout(g);
    ParseUnsignedNumeral(g.major);
    ParseUnsignedNumeral(g.minor);
    ParseUnsignedNumeral(g.patch);
  }

  /** Version(String) accepts exactly the strings of the pattern whose numbers
      are below 2^32, and each such string denotes the version of its groups. */
  lemma ParseAcceptsExactlyPattern(s: string)
    ensures Parse(s).Ok? <==> exists g :: ValidGroups(g) && Layout(g) == s && FromGroups(g).Ok?
    ensures forall g :: ValidGroups(g) && Layout(g) == s ==> Parse(s) == FromGroups(g)
  {
    forall g | ValidGroups(g) && Layout(g) == s ensures Parse(s) == FromGroups(g) {
      ParseLayout(g);
    }
    if Parse(s).Ok? {
      MatchSound(s);
      var g := Match(s).value;
      ParseLayout(g);
    }
  }

  // ---------------------------------------------------------------------
  // toString

  lemma IntToStringCanonical(x: int)
    requires x >= 0
    ensures IntToString(x) == DecimalString(x) && IsCanonicalNumeral(IntToString(x))
  {
    DecimalStringCanonical(x);
  }

  /** A parsed version whose numbers are non-negative renders back to its input exactly,
      so parsing the rendering gives the same version again. */
  lemma {:induction false} ToStringOfParse(s: string)
    requires Parse(s).Ok?
    requires Parse(s).value.major >= 0 && Parse(s).value.minor >= 0 && Parse(s).value.patch >= 0
    ensures ToString(Parse(s).value) == s
    ensures Parse(ToString(Parse(s).value)) == Parse(s)
  {
    MatchSound(s);
    var g := Match(s).value;
    ParseLayout(g);
    ToStringOfGroups(g);
  }

  lemma {:induction false} ToStringOfGroups(g: Groups)
    requires ValidGroups(g) && FromGroups(g).Ok?
    requires FromGroups(g).value.major >= 0 && FromGroups(g).value.minor >= 0 && FromGroups(g).value.patch >= 0
    ensures ToString(FromGroups(g).value) == Layout(g)
  {
    var v := FromGroups(g).value;
    NumberValueInt32(g.major);
    NumberValueInt32(g.minor);
    NumberValueInt32(g.patch);
    assert Groups(IntToString(v.major), IntToString(v.minor), IntToString(v.patch), v.extra, v.buildMetadata) == g;
  }

  lemma NumberValueInt32(s: string)
    requires IsCanonicalNumeral(s) && NumberValue(s) < TWO32 && Int32(NumberValue(s)) >= 0
    ensures IntToString(Int32(NumberValue(s))) == s
  {
    NumberValueCanonical(s);
  }

  /** A version with a negative number (what a number of 2^31 or more parses to)
      renders with a '-' where the pattern wants a digit, so the rendering does not
      parse back. */
  lemma {:induction false} ToStringOfNegative(v: Version)
    requires v.major < 0 || v.minor < 0 || v.patch < 0
    ensures Parse(ToString(v)).Err?
  {
    var G := Groups(IntToString(v.major), IntToString(v.minor), IntToString(v.patch), v.extra, v.buildMetadata);
    NoDotInRendering(v.major);
    NoDotInRendering(v.minor);
    NoDotInRendering(v.patch);
    RenderingMatch(G, v.major < 0, v.minor < 0);
  }

  /** The pattern rejects a layout whose major or minor number, or else whose
      patch number, starts with '-'. */
  lemma RenderingMatch(G: Groups, badMajor: bool, badMinor: bool)
    requires '.' !in G.major && (badMajor ==> G.major != "" && G.major[0] == '-')
    requires !badMajor ==> '.' !in G.minor && (badMinor ==> G.minor != "" && G.minor[0] == '-')
    requires !badMajor && !badMinor ==> G.patch != "" && G.patch[0] == '-'
    ensures Match(Layout(G)).None?
  {
    var tail := G.patch + SuffixText(G);
    var rest := G.minor + "." + tail;
    assert Layout(G) == G.major + ['.'] + rest;
    MatchMajor(G.major, rest);
    if !badMajor {
      assert rest == G.minor + ['.'] + tail;
      MatchMinorShape(G.major, G.minor, tail);
    }
    MatchPatchNumerals(G.major, G.minor, tail);
  }

  /** The major number runs up to the first dot. */
  lemma MatchMajor(major: string, rest: string)
    requires '.' !in major
    ensures Match(major + ['.'] + rest) == MatchMinor(major, rest)
  {
    CutAt(major, '.', rest);
  }

  /** The minor number runs up to the next dot. */
  lemma MatchMinorShape(major: string, minor: string, rest: string)
    requires '.' !in minor
    ensures MatchMinor(major, minor + ['.'] + rest) == MatchPatch(major, minor, rest)
  {
    CutAt(minor, '.', rest);
  }

  /** A match has numerals for major and minor, and a patch part led by a digit. */
  lemma MatchPatchNumerals(major: string, minor: string, tail: string)
    ensures MatchPatch(major, minor, tail).Some? ==>
      IsCanonicalNumeral(major) && IsCanonicalNumeral(minor) && tail != "" && IsDigit(tail[0])
  {
    if MatchPatch(major, minor, tail).Some? {
      var n := DigitRun(tail);
      assert IsCanonicalNumeral(tail[..n]);
      assert tail[..n][0] == tail[0];
    }
  }

  lemma NoDotInRendering(x: int)
    ensures '.' !in IntToString(x)
    ensures x < 0 ==> IntToString(x)[0] == '-'
  {
    if x < 0 {
      DecimalStringCanonical(-x);
      NoDotInNumeral(DecimalString(-x));
      assert IntToString(x) == ['-'] + DecimalString(-x);
    } else {
      DecimalStringCanonical(x);
      NoDotInNumeral(DecimalString(x));
    }
  }

  // ---------------------------------------------------------------------
  // Ordering

  lemma {:induction false} LexLessIrreflexive(a: seq<int>)
    ensures !LexLess(a, a)
  {
    if |a| > 0 { LexLessIrreflexive(a[1..]); }
  }

  lemma {:induction false} LexLessAsymmetric(a: seq<int>, b: seq<int>)
    requires |a| == |b| && LexLess(a, b)
    ensures !LexLess(b, a)
  {
    if a[0] == b[0] { LexLessAsymmetric(a[1..], b[1..]); }
  }

  lemma {:induction false} LexLessTransitive(a: seq<int>, b: seq<int>, c: seq<int>)
    requires |a| == |b| == |c| && LexLess(a, b) && LexLess(b, c)
    ensures LexLess(a, c)
  {
    if a[0] == b[0] && b[0] == c[0] { LexLessTransitive(a[1..], b[1..], c[1..]); }
  }

  lemma {:induction false} LexLessTotal(a: seq<int>, b: seq<int>)
    requires |a| == |b| && a != b
    ensures LexLess(a, b) || LexLess(b, a)
  {
    if a[0] == b[0] {
      assert a == [a[0]] + a[1..] && b == [b[0]] + b[1..];
      LexLessTotal(a[1..], b[1..]);
    }
  }

  lemma LexLessStep(a: seq<int>, b: seq<int>)
    requires |a| == |b| && |a| > 0
    ensures LexLess(a, b) == (a[0] < b[0] || (a[0] == b[0] && LexLess(a[1..], b[1..])))
  {
  }

  lemma LexLessKeys(a: Version, b: Version)
    ensures LexLess(Key(a), Key(b)) <==>
      (a.major < b.major || (a.major == b.major &&
      (a.minor < b.minor || (a.minor == b.minor &&
      (a.patch < b.patch || (a.patch == b.patch &&
      (Ordinal(a.stability) < Ordinal(b.stability) || (Ordinal(a.stability) == Ordinal(b.stability) &&
      a.stabilityIndex < b.stabilityIndex))))))))
  {
    var ka, kb := Key(a), Key(b);
    LexLessStep(ka, kb);
    LexLessStep(ka[1..], kb[1..]);
    LexLessStep(ka[2..], kb[2..]);
    LexLessStep(ka[3..], kb[3..]);
    LexLessStep(ka[4..], kb[4..]);
    assert ka[1..][1..] == ka[2..] && kb[1..][1..] == kb[2..];
    assert ka[2..][1..] == ka[3..] && kb[2..][1..] == kb[3..];
    assert ka[3..][1..] == ka[4..] && kb[3..][1..] == kb[4..];
    assert !LexLess(ka[4..][1..], kb[4..][1..]);
  }

  /** compareTo against the lexicographic order of the keys: 1 when the other
      version's keys are smaller, and -1 otherwise (ties included) unless the
      versions are equal. */
  lemma CompareToByKeys(a: Version, b: Version)
    ensures CompareTo(a, b) == if Equals(a, b) then 0 else if LexLess(Key(b), Key(a)) then 1 else -1
  {
    LexLessKeys(b, a);
  }

  /** Versions whose keys differ compare in opposite directions. */
  lemma CompareToAntisymmetric(a: Version, b: Version)
    requires Key(a) != Key(b)
    ensures CompareTo(b, a) == -CompareTo(a, b)
  {
    CompareToByKeys(a, b);
    CompareToByKeys(b, a);
    LexLessTotal(Key(a), Key(b));
    if LexLess(Key(a), Key(b)) { LexLessAsymmetric(Key(a), Key(b)); }
  }

  /** Two unequal versions with the same keys (different extra text, same stability
      and index) are each "older" than the other: compareTo is not antisymmetric. */
  lemma CompareToTie(a: Version, b: Version)
    requires Key(a) == Key(b) && !Equals(a, b)
    ensures CompareTo(a, b) == -1 && CompareTo(b, a) == -1
  {
    CompareToByKeys(a, b);
    CompareToByKeys(b, a);
    LexLessIrreflexive(Key(a));
  }

  lemma EqualsSameKey(a: Version, b: Version)
    requires WellFormed(a) && WellFormed(b) && Equals(a, b)
    ensures Key(a) == Key(b)
  {
  }

  /** On parsed versions "newer than" is transitive. */
  lemma CompareToTransitive(a: Version, b: Version, c: Version)
    requires WellFormed(a) && WellFormed(b) && WellFormed(c)
    requires CompareTo(a, b) == 1 && CompareTo(b, c) == 1
    ensures CompareTo(a, c) == 1
  {
    CompareToByKeys(a, b);
    CompareToByKeys(b, c);
    CompareToByKeys(a, c);
    LexLessTransitive(Key(c), Key(b), Key(a));
    if Equals(a, c) {
      EqualsSameKey(a, c);
      LexLessIrreflexive(Key(a));
    }
  }

  /** compareTo answers 0 exactly for equal versions. */
  lemma CompareToZero(a: Version, b: Version)
    ensures CompareTo(a, b) == 0 <==> Equals(a, b)
  {
  }

  /** Equal versions hash alike. */
  lemma HashCodeOfEquals(a: Version, b: Version)
    requires Equals(a, b)
    ensures HashCode(a) == HashCode(b)
  {
  }

  // ---------------------------------------------------------------------
  // Worked examples

  /** A plain release or an "-alpha" (tag 1) / "-beta" (tag 2) pre-release. */
  datatype Release = Release(major: nat, minor: nat, patch: nat, tag: nat)

  function TagText(tag: nat): Option<string>
  {
    if tag == 1 then Some("alpha") else if tag == 2 then Some("beta") else None
  }

  function ReleaseText(r: Release): string
  {
    Layout(Groups(DecimalString(r.major), DecimalString(r.minor), DecimalString(r.patch), TagText(r.tag), None))
  }

  function ReleaseVersion(r: Release): Version
  {
    Version(r.major, r.minor, r.patch, TagText(r.tag), None, TagStability(r.tag), 0)
  }

  lemma ElementsOfWord(x: string)
    requires x != "" && '.' !in x
    ensures Elements(x) == [x]
  {
  }

  function TagStability(tag: nat): Stability
  {
    if tag == 1 then ALPHA else if tag == 2 then BETA else STABLE
  }

  lemma TagFacts(tag: nat)
    ensures IsOptionalLabel(TagText(tag))
    ensures StabilityOf(TagText(tag)) == TagStability(tag) && StabilityIndexOf(TagText(tag)) == 0
  {
    if tag == 1 {
      WordFacts("alpha");
      assert ByKeyword("alpha") == Some(ALPHA);
    } else if tag == 2 {
      WordFacts("beta");
      assert "beta" != "a" && "beta" != "alpha" && "beta" != "b";
      assert ByKeyword("beta") == Some(BETA);
    }
  }

  /** A lower-case word is a label, its own only element and its own lower case. */
  lemma WordFacts(w: string)
    requires w != "" && forall i :: 0 <= i < |w| ==> 'a' <= w[i] <= 'z'
    ensures IsLabel(w) && Elements(w) == [w] && Lower(w) == w
    ensures StabilityIndexOf(Some(w)) == 0
  {
    WordHasNoDot(w);
    ElementsOfWord(w);
    LowerWord(w);
    WordIsLabel(w);
    assert Elements(Some(w).value) == [w];
  }

  lemma WordHasNoDot(w: string)
    requires forall i :: 0 <= i < |w| ==> 'a' <= w[i] <= 'z'
    ensures '.' !in w
  {
  }

  lemma WordIsLabel(w: string)
    requires w != "" && forall i :: 0 <= i < |w| ==> 'a' <= w[i] <= 'z'
    ensures IsLabel(w)
  {
  }

  /** A lower-case word is its own lower case. */
  lemma LowerWord(w: string)
    requires forall i :: 0 <= i < |w| ==> 'a' <= w[i] <= 'z'
    ensures Lower(w) == w
  {
    assert forall i :: 0 <= i < |w| ==> LowerChar(w[i]) == w[i];
  }

  lemma ParseRelease(r: Release)
    requires r.major <= INT_MAX && r.minor <= INT_MAX && r.patch <= INT_MAX
    ensures Parse(ReleaseText(r)) == Ok(ReleaseVersion(r))
  {
    var g := Groups(DecimalString(r.major), DecimalString(r.minor), DecimalString(r.patch), TagText(r.tag), None);
    DecimalStringCanonical(r.major);
    DecimalStringCanonical(r.minor);
    DecimalStringCanonical(r.patch);
    TagFacts(r.tag);
    assert ValidGroups(g);
    assert FromGroups(g) == Ok(ReleaseVersion(r));
    assert ReleaseText(r) == Layout(g);
    ParseLayout(g);
  }

  /** The versions of the ordering test in VersionTest, oldest first. */
  function TestReleases(): seq<Release>
  {
    [ Release(0, 0, 0, 0),
      Release(0, 0, 1, 0),
      Release(0, 0, 2, 0),
      Release(0, 1, 0, 1),
      Release(0, 1, 0, 2),
      Release(0, 1, 0, 0),
      Release(0, 1, 1, 1),
      Release(0, 1, 1, 2),
      Release(0, 1, 1, 0),
      Release(0, 2, 0, 1),
      Release(0, 2, 0, 2),
      Release(0, 2, 0, 0),
      Release(1, 0, 0, 1),
      Release(1, 0, 0, 2),
      Release(1, 0, 0, 0),
      Release(1, 0, 1, 1),
      Release(1, 0, 1, 2),
      Release(1, 0, 1, 0),
      Release(1, 1, 0, 1),
      Release(1, 1, 0, 2),
      Release(1, 1, 0, 0),
      Release(2, 0, 0, 1),
      Release(2, 0, 0, 2),
      Release(2, 0, 0, 0) ]
  }

  lemma {:induction false} ChainLexLess(vs: seq<Version>, i: nat, j: nat)
    requires forall k :: 0 <= k < |vs| - 1 ==> LexLess(Key(vs[k]), Key(vs[k + 1]))
    requires i < j < |vs|
    ensures LexLess(Key(vs[i]), Key(vs[j]))
    decreases j - i
  {
    if i + 1 < j {
      ChainLexLess(vs, i + 1, j);
      LexLessTransitive(Key(vs[i]), Key(vs[i + 1]), Key(vs[j]));
    }
  }

  function TestVersions(): (vs: seq<Version>)
    ensures |vs| == |TestReleases()|
    ensures forall k :: 0 <= k < |vs| ==> vs[k] == ReleaseVersion(TestReleases()[k])
  {
    seq(|TestReleases()|, k requires 0 <= k < |TestReleases()| => ReleaseVersion(TestReleases()[k]))
  }

  lemma TestVersionsParse()
    ensures forall k :: 0 <= k < |TestReleases()| ==> Parse(ReleaseText(TestReleases()[k])) == Ok(TestVersions()[k])
  {
    var rs, vs := TestReleases(), TestVersions();
    forall k | 0 <= k < |rs| ensures Parse(ReleaseText(rs[k])) == Ok(vs[k]) {
      ParseRelease(rs[k]);
    }
  }

  /** Release order: numbers first, then alpha < beta < plain release. */
  predicate ReleaseLess(a: Release, b: Release)
  {
    var ta, tb := if a.tag == 0 then 3 else a.tag, if b.tag == 0 then 3 else b.tag;
    a.major < b.major || (a.major == b.major && (a.minor < b.minor || (a.minor == b.minor &&
    (a.patch < b.patch || (a.patch == b.patch && ta < tb)))))
  }

  lemma TestReleasesIncrease()
    ensures forall k :: 0 <= k < |TestReleases()| - 1 ==> ReleaseLess(TestReleases()[k], TestReleases()[k + 1])
  {
  }

  lemma TestVersionsIncrease()
    ensures forall k :: 0 <= k < |TestVersions()| - 1 ==> LexLess(Key(TestVersions()[k]), Key(TestVersions()[k + 1]))
  {
    var rs, vs := TestReleases(), TestVersions();
    TestReleasesIncrease();
    forall k | 0 <= k < |vs| - 1 ensures LexLess(Key(vs[k]), Key(vs[k + 1])) {
      LexLessKeys(vs[k], vs[k + 1]);
      assert ReleaseLess(rs[k], rs[k + 1]);
    }
  }

  /** VersionTest's ordering test: each listed version parses, is newer than every
      version listed before it, older than every one after it, and equal to neither. */
  lemma TestVersionsOrdered()
    ensures forall k :: 0 <= k < |TestReleases()| ==> Parse(ReleaseText(TestReleases()[k])) == Ok(TestVersions()[k])
    ensures forall i, j :: 0 <= i < j < |TestVersions()| ==>
      CompareTo(TestVersions()[j], TestVersions()[i]) == 1 &&
      CompareTo(TestVersions()[i], TestVersions()[j]) == -1 &&
      !Equals(TestVersions()[i], TestVersions()[j])
  {
    TestVersionsParse();
    TestVersionsIncrease();
    var rs, vs := TestReleases(), TestVersions();
    forall i, j | 0 <= i < j < |vs|
      ensures CompareTo(vs[j], vs[i]) == 1 && CompareTo(vs[i], vs[j]) == -1 && !Equals(vs[i], vs[j])
    {
      ChainLexLess(vs, i, j);
      LexLessAsymmetric(Key(vs[i]), Key(vs[j]));
      CompareToByKeys(vs[i], vs[j]);
      CompareToByKeys(vs[j], vs[i]);
    }
  }

  lemma ParseLiteral(s: string, g: Groups, v: Version)
    requires ValidGroups(g) && Layout(g) == s && FromGroups(g) == Ok(v)
    ensures Parse(s) == Ok(v)
  {
    ParseLayout(g);
  }

  lemma ParseShortAlpha(a: string)
    requires a == "1.0.0-a"
    ensures Parse(a) == Ok(Version(1, 0, 0, Some("a"), None, ALPHA, 0))
  {
    var g := Groups("1", "0", "0", Some("a"), None);
    assert ValidGroups(g);
    assert Layout(g) == a;
    ElementsOfWord("a");
    assert Lower("a") == "a";
    assert FromGroups(g) == Ok(Version(1, 0, 0, Some("a"), None, ALPHA, 0));
    ParseLayout(g);
  }

  /** The versions "1.0.0-a" and "1.0.0-alpha" parse to (ParseShortAlpha and
      ParseRelease) are unequal ALPHA versions with index 0, so each compares as
      older than the other. */
  lemma AliasTie()
    ensures var a, b := Version(1, 0, 0, Some("a"), None, ALPHA, 0), ReleaseVersion(Release(1, 0, 0, 1));
      WellFormed(a) && WellFormed(b) && CompareTo(a, b) == -1 && CompareTo(b, a) == -1
  {
    ElementsOfWord("a");
    assert Lower("a") == "a";
    TagFacts(1);
  }

  /** The index is read from the last element, and the keyword case-insensitively. */
  lemma StabilityOfRcExample()
    ensures StabilityOf(Some("RC.1.2")) == RELEASE_CANDIDATE && StabilityIndexOf(Some("RC.1.2")) == 2
  {
    ElementsOfRc();
    StabilityOfElements("RC.1.2", ["RC", "1", "2"]);
    KeywordRc();
    ParseTwo();
  }

  lemma ElementsOfRc()
    ensures Elements("RC.1.2") == ["RC", "1", "2"]
  {
    ElementsOfThree("RC", "1", "2");
    assert "RC" + "." + "1" + "." + "2" == "RC.1.2";
  }

  lemma ParseTwo()
    ensures ParseInt("2") == Some(2)
  {
  }

  lemma KeywordRc()
    ensures ByKeyword("RC") == Some(RELEASE_CANDIDATE)
  {
    assert Lower("RC") == "rc";
    assert "rc" != "a" && "rc" != "alpha" && "rc" != "b" && "rc" != "beta";
  }

  /** The stability of an extra bit with two or more elements: the first
      one's keyword and the last one's number. */
  lemma StabilityOfElements(x: string, e: seq<string>)
    requires Elements(x) == e && |e| >= 2
    ensures StabilityOf(Some(x)) == ByKeyword(e[0]).GetOr(UNKNOWN)
    ensures StabilityIndexOf(Some(x)) == ParseInt(e[|e| - 1]).GetOr(0)
  {
  }

  /** Three dot-free elements, the last one non-empty, joined by dots. */
  lemma ElementsOfThree(a: string, b: string, c: string)
    requires '.' !in a && '.' !in b && '.' !in c && c != ""
    ensures Elements(a + "." + b + "." + c) == [a, b, c]
  {
    SplitOfThree(a, b, c);
    assert DropTrailingEmpty([a, b, c]) == [a, b, c];
  }

  lemma SplitOfThree(a: string, b: string, c: string)
    requires '.' !in a && '.' !in b && '.' !in c
    ensures Split(a + "." + b + "." + c, '.') == [a, b, c]
  {
    var t := b + ['.'] + c;
    assert a + "." + b + "." + c == a + ['.'] + t;
    IndexOfNone(c, '.');
    assert Split(c, '.') == [c];
    SplitStep(b, c);
    assert Split(t, '.') == [b, c];
    SplitStep(a, t);
  }

  /** Splitting at a dot after a dot-free word. */
  lemma SplitStep(a: string, b: string)
    requires '.' !in a
    ensures Split(a + ['.'] + b, '.') == [a] + Split(b, '.')
  {
    CutAt(a, '.', b);
  }

  /** A word that is no keyword gives UNKNOWN. */
  lemma StabilityOfUnknownExample()
    ensures StabilityOf(Some("potato")) == UNKNOWN && StabilityIndexOf(Some("potato")) == 0
  {
    ElementsOfWord("potato");
    assert Lower("potato") == "potato";
  }
}
