/**
 * faucet/src/main/java/org/basinmc/faucet/util/VersionRange.java: the Java
 * twin of the version range, over the Java Version (module SemVerJava). It
 * takes the text apart exactly as the Kotlin class does (VersionRange.CutRange)
 * but, as written, never checks that two versions carry both bound markers,
 * and it tests membership with isNewerThan / isOlderThan instead of compareTo.
 */
module VersionRangeJava {
  import opened JavaLang
  import opened SemVer
  import SemVerJava
  import opened VersionRange

  /** The exception of new Version(...) that escapes the constructor: its
      catch blocks cover IllegalArgumentException only (and rethrow it as
      one), so any other one thrown while parsing the start, or the end of a
      two-version range, propagates as it is. */
  function Uncaught(c: Cut, start: Result<Version>, end: Result<Version>): (e: Option<Exception>)
    ensures e.Some? ==> e.value != IllegalArgument
    ensures e.Some? ==> (start.Err? && e.value == start.error) || (c.comma && start.Ok? && end.Err? && e.value == end.error)
    ensures e.None? ==> (start.Err? ==> start.error == IllegalArgument) && (c.comma && start.Ok? && end.Err? ==> end.error == IllegalArgument)
  {
    if start.Err? then (if start.error == IllegalArgument then None else Some(start.error))
    else if c.comma && end.Err? && end.error != IllegalArgument then Some(end.error)
    else None
  }

  /** The bounds from the cut text, the versions read by the Java Version
      constructor as written; with `checkMarkers`, two versions lacking a
      marker are rejected. */
  function Build(c: Cut, checkMarkers: bool): (r: Result<Range>)
    ensures r.Err? ==> r.error in {IllegalArgument, ArrayIndexOutOfBounds}
    ensures r.Ok? ==> WellFormedRange(r.value)
  {
    var start, end := SemVerJava.ParseAsWritten(c.startText), SemVerJava.ParseAsWritten(c.endText);
    match Uncaught(c, start, end)
    case Some(e) => Err(e)
    case None => Assemble(c, start, end, checkMarkers)
  }

  /** new VersionRange(String) as written: two versions are accepted whatever
      markers they carry, and a missing marker makes that bound exclusive. */
  function ParseAsWritten(range: string): (r: Result<Range>)
    ensures r.Err? ==> r.error in {IllegalArgument, IndexOutOfBounds, ArrayIndexOutOfBounds}
    ensures r.Ok? ==> WellFormedRange(r.value)
  {
    match CutRange(range)
    case Err(e) => Err(e)
    case Ok(c) => Build(c, false)
  }

  /** The constructor with the check its documentation and tests ask for: two
      versions need both markers, as in the Kotlin class. Nothing else
      changes, so the versions are still read as written. */
  function Parse(range: string): (r: Result<Range>)
    ensures r.Err? ==> r.error in {IllegalArgument, IndexOutOfBounds, ArrayIndexOutOfBounds}
    ensures r.Ok? ==> WellFormedRange(r.value)
    ensures r.Ok? ==> ParseAsWritten(range) == r
  {
    match CutRange(range)
    case Err(e) => Err(e)
    case Ok(c) => Build(c, true)
  }

  /** matches: false when the start is newer than v, or equal to it and
      exclusive; false when the end is older than v, or equal to it and
      exclusive; true otherwise. */
  predicate Matches(r: Range, v: Version)
  {
    !(r.start.Some? && (SemVerJava.IsNewerThan(r.start.value, v) || (!r.startInclusive && Equals(r.start.value, v))))
    && !(r.end.Some? && (SemVerJava.IsOlderThan(r.end.value, v) || (!r.endInclusive && Equals(r.end.value, v))))
  }

  function OptionHash(v: Option<Version>): (h: int)
    ensures IsInt32(h)
  {
    if v.None? then 0 else SemVerJava.HashCode(v.value)
  }

  /** Objects.hash(start, startInclusive, end, endInclusive), over the Java
      Version's hash. equals is VersionRange.RangeEquals. */
  function HashCode(r: Range): (h: int)
    ensures IsInt32(h)
  {
    HashAll([OptionHash(r.start), BoolHash(r.startInclusive), OptionHash(r.end), BoolHash(r.endInclusive)])
  }

  // ---------------------------------------------------------------------
  // Properties

  /** Equal ranges hash alike. */
  lemma HashCodeOfEquals(a: Range, b: Range)
    requires RangeEquals(a, b)
    ensures HashCode(a) == HashCode(b)
  {
    if a.start.Some? { SemVerJava.HashCodeOfEquals(a.start.value, b.start.value); }
    if a.end.Some? { SemVerJava.HashCodeOfEquals(a.end.value, b.end.value); }
  }

  /** Membership in key terms: the bounds' keys enclose v's keys, and an equal
      bound counts only when inclusive. */
  lemma MatchesByKeys(r: Range, v: Version)
    ensures Matches(r, v) <==>
      (r.start.None? || (!LexLess(Key(v), Key(r.start.value)) && (r.startInclusive || !Equals(r.start.value, v))))
      && (r.end.None? || (!LexLess(Key(r.end.value), Key(v)) && (r.endInclusive || !Equals(r.end.value, v))))
  {
    if r.start.Some? { SemVerJava.IsNewerThanByKeys(r.start.value, v); }
    if r.end.Some? { SemVerJava.IsOlderThanByKeys(r.end.value, v); }
  }

  /** Where equal versions are exactly those with equal keys (true of every
      pair of releases), matches and the Kotlin contains agree. */
  lemma MatchesAgrees(r: Range, v: Version)
    requires r.start.Some? ==> (Equals(r.start.value, v) <==> Key(r.start.value) == Key(v))
    requires r.end.Some? ==> (Equals(r.end.value, v) <==> Key(r.end.value) == Key(v))
    ensures Matches(r, v) <==> Contains(r, v)
  {
    MatchesByKeys(r, v);
    ContainsByKeys(r, v);
    if r.start.Some? {
      if Key(r.start.value) == Key(v) { LexLessIrreflexive(Key(v)); }
    }
    if r.end.Some? {
      var k, kv := Key(r.end.value), Key(v);
      if k == kv { LexLessIrreflexive(kv); } else { LexLessTotal(kv, k); }
      if LexLess(kv, k) { LexLessAsymmetric(kv, k); }
    }
  }

  /** A version that ties with an inclusive end on every key without being
      equal to it matches here but is not contained in the Kotlin range. */
  lemma TieWithEnd(x: Version, v: Version)
    requires Key(x) == Key(v) && !Equals(x, v)
    ensures Matches(Range(None, false, Some(x), true, false), v)
    ensures !Contains(Range(None, false, Some(x), true, false), v)
  {
    MatchesByKeys(Range(None, false, Some(x), true, false), v);
    TieAtBounds(x, v);
    LexLessIrreflexive(Key(v));
  }

  /** Two versions without markers: accepted as written, as a range that
      excludes both ends; the corrected constructor rejects them. */
  lemma AsWrittenAcceptsUnmarked(s: string, t: string)
    requires SemVerJava.ParseAsWritten(s).Ok? && SemVerJava.ParseAsWritten(t).Ok?
    ensures ParseAsWritten(s + "," + t) ==
      Ok(Range(Some(SemVerJava.ParseAsWritten(s).value), false, Some(SemVerJava.ParseAsWritten(t).value), false, false))
    ensures Parse(s + "," + t) == Err(IllegalArgument)
  {
    MatchedText(s);
    MatchedText(t);
    CutAtComma(s, t);
    assert s + "," + t == s + [','] + t;
  }

  /** A bound whose extra part is dots only, such as "1.0.0-.", makes new
      Version throw ArrayIndexOutOfBoundsException, which no catch block
      covers: the range constructor throws it too, as the start or as the
      end, and alone or beside a well-formed version. */
  lemma DottedBoundEscapes(s: string, t: string)
    requires SemVerJava.ParseAsWritten(s) == Err(ArrayIndexOutOfBounds) && SemVerJava.ParseAsWritten(t).Ok?
    ensures ParseAsWritten(s) == Err(ArrayIndexOutOfBounds)
    ensures ParseAsWritten(s + "," + t) == Err(ArrayIndexOutOfBounds)
    ensures ParseAsWritten(t + "," + s) == Err(ArrayIndexOutOfBounds)
    ensures Parse(s + "," + t) == Err(ArrayIndexOutOfBounds)
  {
    MatchedText(s);
    MatchedText(t);
    DottedAloneEscapes(s);
    DottedStartEscapes(s, t);
    DottedEndEscapes(s, t);
  }

  lemma DottedAloneEscapes(s: string)
    requires SemVerJava.ParseAsWritten(s) == Err(ArrayIndexOutOfBounds) && PlainText(s)
    ensures ParseAsWritten(s) == Err(ArrayIndexOutOfBounds)
  {
    CutPlain(s);
  }

  lemma DottedStartEscapes(s: string, t: string)
    requires SemVerJava.ParseAsWritten(s) == Err(ArrayIndexOutOfBounds) && SemVerJava.ParseAsWritten(t).Ok?
    requires PlainText(s) && PlainText(t)
    ensures ParseAsWritten(s + "," + t) == Err(ArrayIndexOutOfBounds)
    ensures Parse(s + "," + t) == Err(ArrayIndexOutOfBounds)
  {
    CutAtComma(s, t);
    assert s + "," + t == s + [','] + t;
  }

  lemma DottedEndEscapes(s: string, t: string)
    requires SemVerJava.ParseAsWritten(s) == Err(ArrayIndexOutOfBounds) && SemVerJava.ParseAsWritten(t).Ok?
    requires PlainText(s) && PlainText(t)
    ensures ParseAsWritten(t + "," + s) == Err(ArrayIndexOutOfBounds)
  {
    CutAtComma(t, s);
    assert t + "," + s == t + [','] + s;
  }

  /** The corrected constructor rejects only what the missing check lets
      through: two versions lacking a marker. */
  lemma CorrectionOnlyAddsCheck(x: string)
    ensures ParseAsWritten(x).Ok? && Parse(x).Err? <==>
      ParseAsWritten(x).Ok? && CutRange(x).value.comma
      && !(IsPrefixChar(CutRange(x).value.prefix) && IsSuffixChar(CutRange(x).value.suffix))
  {
  }

  /** "<p>v,w<q>" with both markers is read alike by both constructors. */
  lemma FormPair(p: char, s: string, t: string, q: char)
    requires IsPrefixChar(p) && IsSuffixChar(q) && SemVerJava.ParseAsWritten(s).Ok? && SemVerJava.ParseAsWritten(t).Ok?
    ensures Parse([p] + s + "," + t + [q]) ==
      Ok(Range(Some(SemVerJava.ParseAsWritten(s).value), p == '[', Some(SemVerJava.ParseAsWritten(t).value), q == ']', false))
  {
    MatchedText(s);
    MatchedText(t);
    CutPair(p, s, t, q);
    BuildPair(p, s, t, q);
  }

  lemma BuildPair(p: char, s: string, t: string, q: char)
    requires IsPrefixChar(p) && IsSuffixChar(q) && SemVerJava.ParseAsWritten(s).Ok? && SemVerJava.ParseAsWritten(t).Ok?
    ensures Build(Cut(true, s, t, p, q), true) ==
      Ok(Range(Some(SemVerJava.ParseAsWritten(s).value), p == '[', Some(SemVerJava.ParseAsWritten(t).value), q == ']', false))
  {
  }

  /** A release text reads the same in Java: one element at most, so index 0. */
  lemma ParseRelease(r: Release)
    requires Printable(r)
    ensures SemVerJava.Parse(ReleaseText(r)) == Ok(ReleaseVersion(r))
    ensures SemVerJava.ParseAsWritten(ReleaseText(r)) == Ok(ReleaseVersion(r))
  {
    var g := Groups(DecimalString(r.major), DecimalString(r.minor), DecimalString(r.patch), TagText(r.tag), None);
    DecimalStringCanonical(r.major);
    DecimalStringCanonical(r.minor);
    DecimalStringCanonical(r.patch);
    TagFacts(r.tag);
    assert ValidGroups(g);
    assert FromGroups(g) == Ok(ReleaseVersion(r));
    SemVerJava.ParseLayout(g);
    var x := TagText(r.tag);
    if x.Some? {
      TagStabilityJava(x.value, TagStability(r.tag));
    }
    SemVerJava.ParseShapes(ReleaseText(r));
  }

  lemma TagStabilityJava(x: string, s: Stability)
    requires (x == "alpha" && s == ALPHA) || (x == "beta" && s == BETA)
    ensures SemVerJava.JavaStability(x) == (s, 0)
    ensures SemVerJava.JavaStabilityAsWritten(x) == Ok((s, 0))
  {
    IndexOfNone(x, '.');
    assert SemVerJava.JavaElements(x) == [x];
    assert Lower(x) == x;
    assert SemVerJava.JavaStabilityAsWritten(x) == Ok((s, 0));
  }

  /** VersionRangeTest's two-version ranges over releases: v matches exactly
      when it lies between the bounds as the markers say. */
  lemma {:induction false} PairMembership(p: char, a: Release, b: Release, q: char, v: Release)
    requires IsPrefixChar(p) && IsSuffixChar(q) && Printable(a) && Printable(b) && v.tag <= 2
    ensures Parse([p] + ReleaseText(a) + "," + ReleaseText(b) + [q]).Ok?
    ensures Matches(Parse([p] + ReleaseText(a) + "," + ReleaseText(b) + [q]).value, ReleaseVersion(v))
      <==> Between(p, a, v, b, q)
  {
    ParseRelease(a);
    ParseRelease(b);
    FormPair(p, ReleaseText(a), ReleaseText(b), q);
    var r := Range(Some(ReleaseVersion(a)), p == '[', Some(ReleaseVersion(b)), q == ']', false);
    ReleaseKeys(a, v);
    ReleaseKeys(b, v);
    ReleaseKeyInjective(a, v);
    ReleaseKeyInjective(b, v);
    MatchesAgrees(r, ReleaseVersion(v));
    PairRangeMembership(p, a, b, q, v);
  }

  lemma ReleaseKeyInjective(a: Release, b: Release)
    requires a.tag <= 2 && b.tag <= 2
    ensures Key(ReleaseVersion(a)) == Key(ReleaseVersion(b)) <==> a == b
  {
    if Key(ReleaseVersion(a)) == Key(ReleaseVersion(b)) {
      assert Ordinal(TagStability(a.tag)) == Ordinal(TagStability(b.tag));
    }
  }
}
