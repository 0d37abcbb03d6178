/**
 * faucet/src/main/kotlin/org/basinmc/faucet/util/VersionRange.kt: a range of
 * versions written "<version>[,<version>]" with optional bound markers, "[" or
 * "(" before the first version and "]" or ")" after the last one. "[" and "]"
 * include the bound, "(" and ")" exclude it. A single version without markers
 * stands for exactly that version; one with a single marker is an open-ended
 * range; two versions need both markers.
 */
module VersionRange {
  import opened JavaLang
  import opened SemVer

  /** The parsed range. `shared` records that start and end are one and the
      same object, as for a single version without markers; toString tests it
      by identity. */
  datatype Range = Range(
    start: Option<Version>,
    startInclusive: bool,
    end: Option<Version>,
    endInclusive: bool,
    shared: bool)

  /** What parsing guarantees of every range it builds. */
  predicate WellFormedRange(r: Range)
  {
    (r.start.Some? || r.end.Some?)
    && (r.start.None? ==> !r.startInclusive)
    && (r.end.None? ==> !r.endInclusive)
    && (r.shared ==> r.start.Some? && r.end == r.start && r.startInclusive && r.endInclusive)
  }

  predicate IsPrefixChar(c: char) { c == '(' || c == '[' }

  predicate IsSuffixChar(c: char) { c == ']' || c == ')' }

  /** The text of a range taken apart: the version texts with markers removed,
      the first and last characters, and whether a comma was present. */
  datatype Cut = Cut(comma: bool, startText: string, endText: string, prefix: char, suffix: char)

  /** The text handling of the constructor, up to the version parsing: split at
      the first comma, read the first character of the start text and the last
      character of the end text (an empty text fails with an
      IndexOutOfBoundsException), then strip the markers; a single version
      loses both of its ends' markers in both texts. */
  function CutRange(range: string): (r: Result<Cut>)
    ensures r.Err? ==> r.error == IndexOutOfBounds
  {
    var i := IndexOf(range, ',');
    var s0 := if i != -1 then range[..i] else range;
    var e0 := if i != -1 then range[i + 1..] else range;
    if |s0| == 0 || |e0| == 0 then Err(IndexOutOfBounds)
    else
      var p, q := s0[0], e0[|e0| - 1];
      var s1 := if IsPrefixChar(p) then s0[1..] else s0;
      var e1 := if IsSuffixChar(q) then e0[..|e0| - 1] else e0;
      var s2 := if i == -1 && IsSuffixChar(q) then s1[..|s1| - 1] else s1;
      var e2 := if i == -1 && IsPrefixChar(p) then e1[1..] else e1;
      Ok(Cut(i != -1, s2, e2, p, q))
  }

  /** The bounds from the parsed version texts. A single version with both
      markers is rejected; with `checkMarkers`, so are two versions that lack
      one of them. */
  function Assemble(c: Cut, start: Result<Version>, end: Result<Version>, checkMarkers: bool): (r: Result<Range>)
    ensures r.Err? ==> r.error == IllegalArgument
    ensures r.Ok? ==> WellFormedRange(r.value)
  {
    var vp, vs := IsPrefixChar(c.prefix), IsSuffixChar(c.suffix);
    if start.Err? then Err(IllegalArgument)
    else if !c.comma then
      if vp && vs then Err(IllegalArgument)
      else if vp then Ok(Range(Some(start.value), c.prefix == '[', None, false, false))
      else if vs then Ok(Range(None, false, Some(start.value), c.suffix == ']', false))
      else Ok(Range(Some(start.value), true, Some(start.value), true, true))
    else if end.Err? then Err(IllegalArgument)
    else if checkMarkers && !(vp && vs) then Err(IllegalArgument)
    else Ok(Range(Some(start.value), vp && c.prefix == '[', Some(end.value), vs && c.suffix == ']', false))
  }

  /** VersionRange(String). */
  function Parse(range: string): (r: Result<Range>)
    ensures r.Err? ==> r.error in {IllegalArgument, IndexOutOfBounds}
    ensures r.Ok? ==> WellFormedRange(r.value)
  {
    match CutRange(range)
    case Err(e) => Err(e)
    case Ok(c) => Assemble(c, SemVer.Parse(c.startText), SemVer.Parse(c.endText), true)
  }

  /** contains: not below the start (or equal to an exclusive start), not above
      the end (or equal to an exclusive end), compared with Version.compareTo. */
  predicate Contains(r: Range, v: Version)
  {
    !(r.start.Some? && (SemVer.CompareTo(r.start.value, v) > 0 || (!r.startInclusive && Equals(r.start.value, v))))
    && !(r.end.Some? && (SemVer.CompareTo(r.end.value, v) < 0 || (!r.endInclusive && Equals(r.end.value, v))))
  }

  /** toString: the version itself for a shared bound; otherwise "[" or, when
      an end exists, "(" before the start, "," between, and "]" or, when a start
      exists, ")" after the end. */
  function ToString(r: Range): string
    requires r.start.Some? || r.end.Some?
  {
    if r.shared && r.start.Some? then SemVer.ToString(r.start.value)
    else
      var head :=
        if r.start.None? then ""
        else (if r.startInclusive then "[" else if r.end.Some? then "(" else "") + SemVer.ToString(r.start.value);
      var tail :=
        if r.end.None? then ""
        else (if r.start.Some? then "," else "") + SemVer.ToString(r.end.value)
             + (if r.endInclusive then "]" else if r.start.Some? then ")" else "");
      head + tail
  }

  predicate OptionEquals(a: Option<Version>, b: Option<Version>)
  {
    (a.None? && b.None?) || (a.Some? && b.Some? && Equals(a.value, b.value))
  }

  /** equals: the inclusivity flags and the bounds by Version.equals. */
  predicate RangeEquals(a: Range, b: Range)
  {
    a.startInclusive == b.startInclusive && a.endInclusive == b.endInclusive
    && OptionEquals(a.start, b.start) && OptionEquals(a.end, b.end)
  }

  function OptionHash(v: Option<Version>): (h: int)
    ensures IsInt32(h)
  {
    if v.None? then 0 else SemVer.HashCode(v.value)
  }

  /** Objects.hash(start, startInclusive, end, endInclusive). */
  function HashCode(r: Range): (h: int)
    ensures IsInt32(h)
  {
    HashAll([OptionHash(r.start), BoolHash(r.startInclusive), OptionHash(r.end), BoolHash(r.endInclusive)])
  }

  /** The constructor fails with an IndexOutOfBoundsException exactly when
      the text before the first comma or the text after it is empty. */
  lemma ParseIndexError(x: string)
    ensures (Parse(x).Err? && Parse(x).error == IndexOutOfBounds)
        <==> (x == "" || x[0] == ',' || (x[|x| - 1] == ',' && ',' !in x[..|x| - 1]))
  {
    var i := IndexOf(x, ',');
    if i != -1 && x != "" && x[|x| - 1] == ',' && ',' !in x[..|x| - 1] {
      CutAt(x[..|x| - 1], ',', []);
      assert x == x[..|x| - 1] + [','] + [];
    }
    if i != -1 && i == |x| - 1 {
      assert x[..|x| - 1] == x[..i];
    }
  }

  /** Equal ranges hash alike. */
  lemma HashCodeOfEquals(a: Range, b: Range)
    requires RangeEquals(a, b)
    ensures HashCode(a) == HashCode(b)
  {
    if a.start.Some? { SemVer.HashCodeOfEquals(a.start.value, b.start.value); }
    if a.end.Some? { SemVer.HashCodeOfEquals(a.end.value, b.end.value); }
  }

  // ---------------------------------------------------------------------
  // Membership by the ordering keys

  /** Below-the-start test: compareTo(start, v) > 0 exactly when the two are
      unequal and v's keys come first. */
  lemma GreaterByKeys(a: Version, v: Version)
    ensures SemVer.CompareTo(a, v) > 0 <==> !Equals(a, v) && LexLess(Key(v), Key(a))
    ensures SemVer.CompareTo(a, v) < 0 <==> !Equals(a, v) && !LexLess(Key(v), Key(a))
  {
    CompareToByKeys(a, v);
  }

  /** Membership in key terms: the start's keys must not come after v's, the
      end's keys must come strictly after v's (a tie with the end, Version.equals
      apart, counts as beyond it), and an equal bound counts only when inclusive. */
  lemma ContainsByKeys(r: Range, v: Version)
    ensures Contains(r, v) <==>
      (r.start.None? || (if Equals(r.start.value, v) then r.startInclusive else !LexLess(Key(v), Key(r.start.value))))
      && (r.end.None? || (if Equals(r.end.value, v) then r.endInclusive else LexLess(Key(v), Key(r.end.value))))
  {
    if r.start.Some? { GreaterByKeys(r.start.value, v); }
    if r.end.Some? { GreaterByKeys(r.end.value, v); }
  }

  /** A single version without markers contains exactly the versions equal to it. */
  lemma SharedContainsOnlyEquals(r: Range, v: Version)
    requires WellFormedRange(r) && r.shared
    ensures Contains(r, v) <==> Equals(r.start.value, v)
  {
    ContainsByKeys(r, v);
    var a := r.start.value;
    if !Equals(a, v) {
      if LexLess(Key(v), Key(a)) { LexLessAsymmetric(Key(v), Key(a)); }
    }
  }

  /** A version that ties with the bound on every key without being equal to it
      (another spelling of the same stability) lies in "[x" but not in "x]". */
  lemma TieAtBounds(x: Version, v: Version)
    requires Key(x) == Key(v) && !Equals(x, v)
    ensures Contains(Range(Some(x), true, None, false, false), v)
    ensures !Contains(Range(None, false, Some(x), true, false), v)
  {
    ContainsByKeys(Range(Some(x), true, None, false, false), v);
    ContainsByKeys(Range(None, false, Some(x), true, false), v);
    LexLessIrreflexive(Key(v));
  }

  // ---------------------------------------------------------------------
  // The textual forms

  /** The characters a version's text can hold. */
  predicate VersionChars(s: string)
  {
    forall i :: 0 <= i < |s| ==> IsLabelChar(s[i]) || s[i] == '+'
  }

  lemma VersionCharsConcat(a: string, b: string)
    requires VersionChars(a) && VersionChars(b)
    ensures VersionChars(a + b)
  {
    assert forall i :: |a| <= i < |a + b| ==> (a + b)[i] == b[i - |a|];
  }

  lemma {:induction false} LayoutChars(g: Groups)
    requires ValidGroups(g)
    ensures VersionChars(Layout(g)) && |Layout(g)| > 0
  {
    assert VersionChars(g.major) && VersionChars(g.minor) && VersionChars(g.patch);
    assert VersionChars(".");
    assert VersionChars(MarkedPart('-', g.extra)) && VersionChars(MarkedPart('+', g.meta));
    VersionCharsConcat(MarkedPart('-', g.extra), MarkedPart('+', g.meta));
    VersionCharsConcat(g.patch, SuffixText(g));
    VersionCharsConcat(".", g.patch + SuffixText(g));
    VersionCharsConcat(g.minor, "." + (g.patch + SuffixText(g)));
    assert g.minor + "." + (g.patch + SuffixText(g)) == g.minor + ("." + (g.patch + SuffixText(g)));
    VersionCharsConcat(".", g.minor + "." + (g.patch + SuffixText(g)));
    VersionCharsConcat(g.major, "." + (g.minor + "." + (g.patch + SuffixText(g))));
    assert Layout(g) == g.major + ("." + (g.minor + "." + (g.patch + SuffixText(g))));
  }

  /** Text made of version characters holds no comma and no bound marker. */
  lemma VersionCharsFacts(s: string)
    requires VersionChars(s)
    ensures ',' !in s
    ensures forall i :: 0 <= i < |s| ==> !IsPrefixChar(s[i]) && !IsSuffixChar(s[i])
  {
  }

  /** A non-empty text without comma and bound markers. */
  predicate PlainText(s: string)
  {
    |s| > 0 && ',' !in s && forall i :: 0 <= i < |s| ==> !IsPrefixChar(s[i]) && !IsSuffixChar(s[i])
  }

  /** Any text the version pattern matches is plain. */
  lemma MatchedText(s: string)
    requires Match(s).Some?
    ensures PlainText(s)
  {
    MatchSound(s);
    var g := Match(s).value;
    LayoutChars(g);
    VersionCharsFacts(Layout(g));
  }

  lemma ParsedText(s: string)
    requires SemVer.Parse(s).Ok?
    ensures PlainText(s)
  {
    MatchedText(s);
  }

  /** How the single-version forms are cut: both texts are the version's. */
  lemma CutPlain(s: string)
    requires PlainText(s)
    ensures CutRange(s) == Ok(Cut(false, s, s, s[0], s[|s| - 1]))
  {
    IndexOfNone(s, ',');
  }

  lemma CutLower(p: char, s: string)
    requires IsPrefixChar(p) && PlainText(s)
    ensures CutRange([p] + s) == Ok(Cut(false, s, s, p, s[|s| - 1]))
  {
    var t := [p] + s;
    assert t[1..] == s && t[|t| - 1] == s[|s| - 1];
    assert ',' !in t;
    IndexOfNone(t, ',');
  }

  lemma CutUpper(s: string, q: char)
    requires IsSuffixChar(q) && PlainText(s)
    ensures CutRange(s + [q]) == Ok(Cut(false, s, s, s[0], q))
  {
    var t := s + [q];
    assert t[..|t| - 1] == s && t[0] == s[0];
    assert ',' !in t;
    IndexOfNone(t, ',');
  }

  lemma CutBoth(p: char, s: string, q: char)
    requires IsPrefixChar(p) && IsSuffixChar(q) && PlainText(s)
    ensures CutRange([p] + s + [q]) == Ok(Cut(false, s, s, p, q))
  {
    var t := [p] + s + [q];
    assert t[0] == p && t[|t| - 1] == q;
    assert t[1..][..|t| - 2] == s;
    assert t[..|t| - 1][1..] == s;
    assert ',' !in t;
    IndexOfNone(t, ',');
  }

  /** A version text alone: start and end are the same object, both inclusive. */
  lemma FormPlain(s: string)
    requires SemVer.Parse(s).Ok?
    ensures Parse(s) == Ok(Range(Some(SemVer.Parse(s).value), true, Some(SemVer.Parse(s).value), true, true))
  {
    ParsedText(s);
    CutPlain(s);
  }

  /** "[v" and "(v": from v on, inclusive or exclusive, without end. */
  lemma FormLower(p: char, s: string)
    requires IsPrefixChar(p) && SemVer.Parse(s).Ok?
    ensures Parse([p] + s) == Ok(Range(Some(SemVer.Parse(s).value), p == '[', None, false, false))
  {
    ParsedText(s);
    CutLower(p, s);
  }

  /** "v]" and "v)": up to v, inclusive or exclusive, without start. */
  lemma FormUpper(s: string, q: char)
    requires IsSuffixChar(q) && SemVer.Parse(s).Ok?
    ensures Parse(s + [q]) == Ok(Range(None, false, Some(SemVer.Parse(s).value), q == ']', false))
  {
    ParsedText(s);
    CutUpper(s, q);
  }

  /** A single version with both markers is rejected. */
  lemma FormBothMarkers(p: char, s: string, q: char)
    requires IsPrefixChar(p) && IsSuffixChar(q) && SemVer.Parse(s).Ok?
    ensures Parse([p] + s + [q]) == Err(IllegalArgument)
  {
    ParsedText(s);
    CutBoth(p, s, q);
  }

  /** How a text with a first comma between two non-empty parts is cut. */
  lemma CutAtComma(a: string, b: string)
    requires ',' !in a && |a| > 0 && |b| > 0
    ensures CutRange(a + [','] + b) ==
      Ok(Cut(true, if IsPrefixChar(a[0]) then a[1..] else a, if IsSuffixChar(b[|b| - 1]) then b[..|b| - 1] else b,
             a[0], b[|b| - 1]))
  {
    CutAt(a, ',', b);
  }

  /** Two versions, for any first and last characters p and q. */
  lemma CutPair(p: char, s: string, t: string, q: char)
    requires p != ',' && PlainText(s) && PlainText(t)
    ensures CutRange([p] + s + "," + t + [q]) ==
      Ok(Cut(true, if IsPrefixChar(p) then s else [p] + s, if IsSuffixChar(q) then t else t + [q], p, q))
  {
    var a := [p] + s;
    var b := t + [q];
    assert ',' !in a;
    assert a[1..] == s && b[..|b| - 1] == t;
    assert [p] + s + "," + t + [q] == a + [','] + b;
    CutAtComma(a, b);
  }

  /** "<p>v,w<q>" with both markers: the two bounds with the markers' inclusivity. */
  lemma FormPair(p: char, s: string, t: string, q: char)
    requires IsPrefixChar(p) && IsSuffixChar(q) && SemVer.Parse(s).Ok? && SemVer.Parse(t).Ok?
    ensures Parse([p] + s + "," + t + [q]) ==
      Ok(Range(Some(SemVer.Parse(s).value), p == '[', Some(SemVer.Parse(t).value), q == ']', false))
  {
    ParsedText(s);
    ParsedText(t);
    CutPair(p, s, t, q);
  }

  /** Two versions without both markers are rejected: no marker at all, ... */
  lemma FormPairUnmarked(s: string, t: string)
    requires SemVer.Parse(s).Ok? && SemVer.Parse(t).Ok?
    ensures Parse(s + "," + t) == Err(IllegalArgument)
  {
    ParsedText(s);
    ParsedText(t);
    CutAtComma(s, t);
    assert s + "," + t == s + [','] + t;
  }

  /** ... only the start marker, ... */
  lemma FormPairStartOnly(p: char, s: string, t: string)
    requires IsPrefixChar(p) && SemVer.Parse(s).Ok? && SemVer.Parse(t).Ok?
    ensures Parse([p] + s + "," + t) == Err(IllegalArgument)
  {
    ParsedText(s);
    ParsedText(t);
    var ps := [p] + s;
    assert ps[0] == p && ps[1..] == s && ',' !in ps;
    CutAtComma(ps, t);
    assert [p] + s + "," + t == ps + [','] + t;
  }

  /** ... or only the end marker. */
  lemma FormPairEndOnly(s: string, t: string, q: char)
    requires IsSuffixChar(q) && SemVer.Parse(s).Ok? && SemVer.Parse(t).Ok?
    ensures Parse(s + "," + t + [q]) == Err(IllegalArgument)
  {
    ParsedText(s);
    ParsedText(t);
    CutEndOnly(s, t, q);
  }

  lemma CutEndOnly(s: string, t: string, q: char)
    requires IsSuffixChar(q) && PlainText(s) && PlainText(t)
    ensures CutRange(s + "," + t + [q]) == Ok(Cut(true, s, t, s[0], q))
  {
    var tq := t + [q];
    assert tq[|tq| - 1] == q && tq[..|tq| - 1] == t;
    CutAtComma(s, tq);
    assert s + "," + t + [q] == s + [','] + tq;
  }

  // ---------------------------------------------------------------------
  // Reading back the text

  /** The text a cut came from: the markers that were stripped put back. */
  function Rebuild(c: Cut): string
  {
    if c.comma then StartPart(c) + [','] + EndPart(c)
    else (if IsPrefixChar(c.prefix) then [c.prefix] else []) + c.startText + (if IsSuffixChar(c.suffix) then [c.suffix] else [])
  }

  /** The start text with its marker. */
  function StartPart(c: Cut): string
  {
    (if IsPrefixChar(c.prefix) then [c.prefix] else []) + c.startText
  }

  /** The end text with its marker. */
  function EndPart(c: Cut): string
  {
    c.endText + (if IsSuffixChar(c.suffix) then [c.suffix] else [])
  }

  /** Cutting loses nothing but the duplicate text of a single version. */
  lemma CutRangeSound(x: string)
    requires CutRange(x).Ok?
    ensures x == Rebuild(CutRange(x).value)
    ensures !CutRange(x).value.comma ==> CutRange(x).value.endText == CutRange(x).value.startText
  {
    if ',' in x {
      CutCommaSound(x);
    } else {
      CutSingleSound(x);
    }
  }

  lemma CutCommaSound(x: string)
    requires CutRange(x).Ok? && ',' in x
    ensures x == Rebuild(CutRange(x).value)
  {
    var i := IndexOf(x, ',');
    var a, b := x[..i], x[i + 1..];
    assert x == a + [','] + b;
    assert |a| > 0 && |b| > 0;
    CutAtComma(a, b);
    RebuildPair(a, b, CutRange(x).value);
  }

  lemma RebuildPair(a: string, b: string, c: Cut)
    requires |a| > 0 && |b| > 0 && c.comma && c.prefix == a[0] && c.suffix == b[|b| - 1]
    requires c.startText == (if IsPrefixChar(a[0]) then a[1..] else a)
    requires c.endText == (if IsSuffixChar(b[|b| - 1]) then b[..|b| - 1] else b)
    ensures Rebuild(c) == a + [','] + b
  {
    assert a == StartPart(c) by {
      if IsPrefixChar(a[0]) { assert a == [a[0]] + a[1..]; }
    }
    assert b == EndPart(c) by {
      if IsSuffixChar(b[|b| - 1]) { assert b == b[..|b| - 1] + [b[|b| - 1]]; }
    }
  }

  lemma CutSingleSound(x: string)
    requires CutRange(x).Ok? && ',' !in x
    ensures x == Rebuild(CutRange(x).value)
    ensures CutRange(x).value.endText == CutRange(x).value.startText
  {
    IndexOfNone(x, ',');
    var c := CutRange(x).value;
    var n := |x|;
    assert !c.comma && c.prefix == x[0] && c.suffix == x[n - 1];
    if IsPrefixChar(x[0]) && IsSuffixChar(x[n - 1]) {
      assert c.startText == x[1..n - 1] == c.endText;
      assert Rebuild(c) == [x[0]] + x[1..n - 1] + [x[n - 1]];
      assert x == [x[0]] + x[1..n - 1] + [x[n - 1]];
    } else if IsPrefixChar(x[0]) {
      assert c.startText == x[1..] == c.endText;
      assert Rebuild(c) == [x[0]] + x[1..];
      assert x == [x[0]] + x[1..];
    } else if IsSuffixChar(x[n - 1]) {
      assert c.startText == x[..n - 1] == c.endText;
      assert Rebuild(c) == x[..n - 1] + [x[n - 1]];
      assert x == x[..n - 1] + [x[n - 1]];
    } else {
      assert c.startText == x == c.endText;
    }
  }

  /** A bound renders back to its text when its numbers are non-negative
      (Version.toString prints them as signed ints). */
  predicate NonNegative(v: Version)
  {
    v.major >= 0 && v.minor >= 0 && v.patch >= 0
  }

  predicate RendersBack(r: Range)
  {
    (r.start.Some? ==> NonNegative(r.start.value)) && (r.end.Some? ==> NonNegative(r.end.value))
  }

  /** The one-sided exclusive forms "(v" and "v)", whose rendering drops the marker. */
  predicate Lossy(r: Range)
  {
    !r.shared && ((r.end.None? && !r.startInclusive) || (r.start.None? && !r.endInclusive))
  }

  /** toString gives back the parsed text, except for "(v" and "v)", which
      render as the bare "v" and so read back as the single version. */
  lemma {:induction false} ToStringOfParse(x: string)
    requires Parse(x).Ok? && RendersBack(Parse(x).value)
    ensures !Lossy(Parse(x).value) ==> ToString(Parse(x).value) == x
    ensures Lossy(Parse(x).value) ==> Parse(ToString(Parse(x).value)).Ok? && Parse(ToString(Parse(x).value)).value.shared
  {
    var c := CutRange(x).value;
    CutRangeSound(x);
    var ps, pe := SemVer.Parse(c.startText), SemVer.Parse(c.endText);
    assert Parse(x) == Assemble(c, ps, pe, true);
    if c.comma {
      RenderCutPair(c, ps.value, pe.value);
    } else {
      RenderCutSingle(c, ps.value, pe);
      if Lossy(Parse(x).value) {
        FormPlain(c.startText);
      }
    }
  }

  lemma RenderCutPair(c: Cut, v: Version, w: Version)
    requires c.comma && SemVer.Parse(c.startText) == Ok(v) && SemVer.Parse(c.endText) == Ok(w)
    requires Assemble(c, Ok(v), Ok(w), true).Ok? && NonNegative(v) && NonNegative(w)
    ensures !Lossy(Assemble(c, Ok(v), Ok(w), true).value)
    ensures ToString(Assemble(c, Ok(v), Ok(w), true).value) == Rebuild(c)
  {
    SemVer.ToStringOfParse(c.startText);
    SemVer.ToStringOfParse(c.endText);
    RenderPair(c, v, w);
  }

  lemma RenderCutSingle(c: Cut, v: Version, e: Result<Version>)
    requires !c.comma && SemVer.Parse(c.startText) == Ok(v)
    requires Assemble(c, Ok(v), e, true).Ok? && NonNegative(v)
    ensures var r := Assemble(c, Ok(v), e, true).value;
      (!Lossy(r) ==> ToString(r) == Rebuild(c)) && (Lossy(r) ==> ToString(r) == c.startText)
  {
    SemVer.ToStringOfParse(c.startText);
    RenderSingle(c, v, e);
  }

  lemma RenderPair(c: Cut, v: Version, w: Version)
    requires c.comma && Assemble(c, Ok(v), Ok(w), true).Ok?
    requires SemVer.ToString(v) == c.startText && SemVer.ToString(w) == c.endText
    ensures !Lossy(Assemble(c, Ok(v), Ok(w), true).value)
    ensures ToString(Assemble(c, Ok(v), Ok(w), true).value) == Rebuild(c)
  {
    var r := Assemble(c, Ok(v), Ok(w), true).value;
    assert IsPrefixChar(c.prefix) && IsSuffixChar(c.suffix);
    assert r == Range(Some(v), c.prefix == '[', Some(w), c.suffix == ']', false);
    assert Rebuild(c) == [c.prefix] + c.startText + [','] + (c.endText + [c.suffix]);
    RenderBoth(v, w, c.prefix, c.suffix, c.startText, c.endText);
  }

  lemma RenderBoth(v: Version, w: Version, p: char, q: char, t: string, u: string)
    requires IsPrefixChar(p) && IsSuffixChar(q) && SemVer.ToString(v) == t && SemVer.ToString(w) == u
    ensures ToString(Range(Some(v), p == '[', Some(w), q == ']', false)) == [p] + t + [','] + (u + [q])
  {
    var r := Range(Some(v), p == '[', Some(w), q == ']', false);
    assert (if r.startInclusive then "[" else "(") == [p];
    assert (if r.endInclusive then "]" else ")") == [q];
  }

  lemma RenderSingle(c: Cut, v: Version, e: Result<Version>)
    requires !c.comma && Assemble(c, Ok(v), e, true).Ok?
    requires SemVer.ToString(v) == c.startText
    ensures var r := Assemble(c, Ok(v), e, true).value;
      (!Lossy(r) ==> ToString(r) == Rebuild(c)) && (Lossy(r) ==> ToString(r) == c.startText)
  {
    if IsPrefixChar(c.prefix) {
      SingleLower(c, v, e);
    } else if IsSuffixChar(c.suffix) {
      SingleUpper(c, v, e);
    } else {
      var r := Assemble(c, Ok(v), e, true).value;
      assert r == Range(Some(v), true, Some(v), true, true);
      assert Rebuild(c) == c.startText;
    }
  }

  lemma SingleLower(c: Cut, v: Version, e: Result<Version>)
    requires !c.comma && IsPrefixChar(c.prefix) && Assemble(c, Ok(v), e, true).Ok?
    requires SemVer.ToString(v) == c.startText
    ensures var r := Assemble(c, Ok(v), e, true).value;
      (!Lossy(r) ==> ToString(r) == Rebuild(c)) && (Lossy(r) ==> ToString(r) == c.startText)
  {
    var r := Assemble(c, Ok(v), e, true).value;
    assert r == Range(Some(v), c.prefix == '[', None, false, false);
    assert Rebuild(c) == [c.prefix] + c.startText;
    RenderLower(v, c.prefix, c.startText);
  }

  lemma SingleUpper(c: Cut, v: Version, e: Result<Version>)
    requires !c.comma && !IsPrefixChar(c.prefix) && IsSuffixChar(c.suffix) && Assemble(c, Ok(v), e, true).Ok?
    requires SemVer.ToString(v) == c.startText
    ensures var r := Assemble(c, Ok(v), e, true).value;
      (!Lossy(r) ==> ToString(r) == Rebuild(c)) && (Lossy(r) ==> ToString(r) == c.startText)
  {
    var r := Assemble(c, Ok(v), e, true).value;
    assert r == Range(None, false, Some(v), c.suffix == ']', false);
    assert Rebuild(c) == c.startText + [c.suffix];
    RenderUpper(v, c.suffix, c.startText);
  }

  lemma RenderLower(v: Version, p: char, t: string)
    requires IsPrefixChar(p) && SemVer.ToString(v) == t
    ensures ToString(Range(Some(v), p == '[', None, false, false)) == if p == '[' then [p] + t else t
  {
  }

  lemma RenderUpper(v: Version, q: char, t: string)
    requires IsSuffixChar(q) && SemVer.ToString(v) == t
    ensures ToString(Range(None, false, Some(v), q == ']', false)) == if q == ']' then t + [q] else t
  {
  }

  // ---------------------------------------------------------------------
  // Membership of releases, as VersionRangeTest exercises it

  /** Releases that parse back to themselves: int-sized numbers, tag 0, 1 or 2. */
  predicate Printable(r: Release)
  {
    r.major <= INT_MAX && r.minor <= INT_MAX && r.patch <= INT_MAX && r.tag <= 2
  }

  lemma ReleaseKeys(a: Release, b: Release)
    requires a.tag <= 2 && b.tag <= 2
    ensures LexLess(Key(ReleaseVersion(a)), Key(ReleaseVersion(b))) <==> ReleaseLess(a, b)
    ensures Equals(ReleaseVersion(a), ReleaseVersion(b)) <==> a == b
  {
    LexLessKeys(ReleaseVersion(a), ReleaseVersion(b));
  }

  /** Release v lies in the range from a to b whose ends the markers p and q
      include or exclude. */
  predicate Between(p: char, a: Release, v: Release, b: Release, q: char)
  {
    (ReleaseLess(a, v) || (a == v && p == '[')) && (ReleaseLess(v, b) || (v == b && q == ']'))
  }

  lemma {:induction false} PairMembership(p: char, a: Release, b: Release, q: char, v: Release)
    requires IsPrefixChar(p) && IsSuffixChar(q) && Printable(a) && Printable(b) && v.tag <= 2
    ensures Parse([p] + ReleaseText(a) + "," + ReleaseText(b) + [q]).Ok?
    ensures Contains(Parse([p] + ReleaseText(a) + "," + ReleaseText(b) + [q]).value, ReleaseVersion(v))
      <==> Between(p, a, v, b, q)
  {
    ParseRelease(a);
    ParseRelease(b);
    FormPair(p, ReleaseText(a), ReleaseText(b), q);
    PairRangeMembership(p, a, b, q, v);
  }

  lemma PairRangeMembership(p: char, a: Release, b: Release, q: char, v: Release)
    requires a.tag <= 2 && b.tag <= 2 && v.tag <= 2
    ensures Contains(Range(Some(ReleaseVersion(a)), p == '[', Some(ReleaseVersion(b)), q == ']', false), ReleaseVersion(v))
      <==> Between(p, a, v, b, q)
  {
    ContainsByKeys(Range(Some(ReleaseVersion(a)), p == '[', Some(ReleaseVersion(b)), q == ']', false), ReleaseVersion(v));
    ReleaseKeys(v, a);
    ReleaseKeys(a, v);
    ReleaseKeys(v, b);
    ReleaseKeys(b, v);
  }

  lemma {:induction false} LowerMembership(p: char, a: Release, v: Release)
    requires IsPrefixChar(p) && Printable(a) && v.tag <= 2
    ensures Parse([p] + ReleaseText(a)).Ok?
    ensures Contains(Parse([p] + ReleaseText(a)).value, ReleaseVersion(v)) <==> ReleaseLess(a, v) || (a == v && p == '[')
  {
    ParseRelease(a);
    FormLower(p, ReleaseText(a));
    LowerRangeMembership(p, a, v);
  }

  lemma LowerRangeMembership(p: char, a: Release, v: Release)
    requires a.tag <= 2 && v.tag <= 2
    ensures Contains(Range(Some(ReleaseVersion(a)), p == '[', None, false, false), ReleaseVersion(v))
      <==> ReleaseLess(a, v) || (a == v && p == '[')
  {
    ContainsByKeys(Range(Some(ReleaseVersion(a)), p == '[', None, false, false), ReleaseVersion(v));
    ReleaseKeys(v, a);
    ReleaseKeys(a, v);
  }

  lemma {:induction false} UpperMembership(a: Release, q: char, v: Release)
    requires IsSuffixChar(q) && Printable(a) && v.tag <= 2
    ensures Parse(ReleaseText(a) + [q]).Ok?
    ensures Contains(Parse(ReleaseText(a) + [q]).value, ReleaseVersion(v)) <==> ReleaseLess(v, a) || (a == v && q == ']')
  {
    ParseRelease(a);
    FormUpper(ReleaseText(a), q);
    UpperRangeMembership(a, q, v);
  }

  lemma UpperRangeMembership(a: Release, q: char, v: Release)
    requires a.tag <= 2 && v.tag <= 2
    ensures Contains(Range(None, false, Some(ReleaseVersion(a)), q == ']', false), ReleaseVersion(v))
      <==> ReleaseLess(v, a) || (a == v && q == ']')
  {
    ContainsByKeys(Range(None, false, Some(ReleaseVersion(a)), q == ']', false), ReleaseVersion(v));
    ReleaseKeys(v, a);
    ReleaseKeys(a, v);
  }

  lemma {:induction false} PlainMembership(a: Release, v: Release)
    requires Printable(a) && v.tag <= 2
    ensures Parse(ReleaseText(a)).Ok?
    ensures Contains(Parse(ReleaseText(a)).value, ReleaseVersion(v)) <==> a == v
  {
    ParseRelease(a);
    FormPlain(ReleaseText(a));
    SharedContainsOnlyEquals(Parse(ReleaseText(a)).value, ReleaseVersion(v));
    ReleaseKeys(a, v);
  }
}
