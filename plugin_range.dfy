/**
 * src/main/java/org/basinmc/faucet/plugin/VersionRange.java, with the range
 * factories of src/main/java/org/basinmc/faucet/plugin/PluginVersion.java:
 * an immutable pair of legacy plugin versions with inclusivity flags, made by
 * a mutable Builder whose build() refuses a missing bound and resets itself.
 */
module PluginRange {
  import opened JavaLang
  import opened UnstableType
  import opened PluginVersion
  import SemVer

  /** Both bounds are non-null: build() refuses to make a range without them. */
  datatype Range = Range(start: Version, startInclusive: bool, end: Version, endInclusive: bool)

  predicate WellFormedRange(r: Range)
  {
    WellFormed(r.start) && WellFormed(r.end)
  }

  // ---------------------------------------------------------------------
  // Membership

  /** matches(version), as written: an exclusive bound equal to the version
      rejects it, and so does a start that is newerThan it or an end that is
      olderThan it; null matches nothing (compareTo(null) is 1). */
  predicate MatchesAsWritten(r: Range, v: Option<Version>)
  {
    !(!r.startInclusive && Equals(r.start, v))
    && !(!r.endInclusive && Equals(r.end, v))
    && !NewerThan(r.start, v)
    && !OlderThan(r.end, v)
  }

  /** matches(version) over the corrected newerThan / olderThan, which read
      the sign of compareTo. */
  predicate Matches(r: Range, v: Option<Version>)
  {
    !(!r.startInclusive && Equals(r.start, v))
    && !(!r.endInclusive && Equals(r.end, v))
    && !IsNewer(r.start, v)
    && !IsOlder(r.end, v)
  }

  /** matching(versions): the versions the range matches, by matches() as
      written. */
  function Matching(r: Range, versions: set<Version>): (m: set<Version>)
    ensures m <= versions
  {
    set v | v in versions && MatchesAsWritten(r, Some(v))
  }

  /** matching(versions) over the corrected matches(). */
  function MatchingCorrected(r: Range, versions: set<Version>): (m: set<Version>)
    ensures m <= versions
  {
    set v | v in versions && Matches(r, Some(v))
  }

  // ---------------------------------------------------------------------
  // Equality and hash

  /** equals(object): both flags, then both bounds by PluginVersion.equals. */
  predicate RangeEquals(a: Range, b: Range)
  {
    a.startInclusive == b.startInclusive && a.endInclusive == b.endInclusive
    && Equals(a.start, Some(b.start)) && Equals(a.end, Some(b.end))
  }

  function Flag(b: bool): int { if b then 1 else 0 }

  /** One step of the hash recipe: result = 31 * result + x, in int arithmetic. */
  function Mix(h: int, x: int): int { Int32(31 * h + x) }

  /** hashCode(): start, end, then the two flags. */
  function RangeHash(r: Range): (h: int)
    ensures IsInt32(h)
  {
    Mix(Mix(Mix(HashCode(r.start), HashCode(r.end)), Flag(r.startInclusive)), Flag(r.endInclusive))
  }

  // ---------------------------------------------------------------------
  // The builder

  /** The builder's four fields; a missing bound is a null reference. */
  datatype Bounds = Bounds(start: Option<Version>, startInclusive: bool, end: Option<Version>, endInclusive: bool)

  /** A new builder: no bounds, and both flags false. */
  const Unset: Bounds := Bounds(None, false, None, false)

  /** What reset() leaves: no bounds, an inclusive start and an exclusive end. */
  const Cleared: Bounds := Bounds(None, true, None, false)

  /** The fields builder(range) copies from a range. */
  function BoundsOf(r: Range): Bounds
  {
    Bounds(Some(r.start), r.startInclusive, Some(r.end), r.endInclusive)
  }

  /** A builder state after build(), and what build() returned or threw. */
  datatype Built = Built(result: Result<Range>, state: Bounds)

  /** build(): IllegalStateException, with the builder untouched, when a bound
      is missing; otherwise the range, and the builder reset. */
  function BuildStep(b: Bounds): Built
  {
    if b.start.None? || b.end.None? then Built(Err(IllegalState), b)
    else Built(Ok(Range(b.start.value, b.startInclusive, b.end.value, b.endInclusive)), Cleared)
  }

  class RangeBuilder {
    var start: Option<Version>
    var startInclusive: bool
    var end: Option<Version>
    var endInclusive: bool

    function State(): Bounds
      reads this
    {
      Bounds(start, startInclusive, end, endInclusive)
    }

    /** VersionRange.builder(): the fields keep their Java defaults. */
    constructor()
      ensures State() == Unset
    {
      start, startInclusive, end, endInclusive := None, false, None, false;
    }

    method SetStart(v: Option<Version>)
      modifies this
      ensures State() == old(State()).(start := v)
    {
      start := v;
    }

    method SetStartInclusive(b: bool)
      modifies this
      ensures State() == old(State()).(startInclusive := b)
    {
      startInclusive := b;
    }

    method SetEnd(v: Option<Version>)
      modifies this
      ensures State() == old(State()).(end := v)
    {
      end := v;
    }

    method SetEndInclusive(b: bool)
      modifies this
      ensures State() == old(State()).(endInclusive := b)
    {
      endInclusive := b;
    }

    method Reset()
      modifies this
      ensures State() == Cleared
    {
      SetStart(None);
      SetStartInclusive(true);
      SetEnd(None);
      SetEndInclusive(false);
    }

    method Build() returns (r: Result<Range>)
      modifies this
      ensures Built(r, State()) == BuildStep(old(State()))
    {
      if start.None? || end.None? {
        return Err(IllegalState);
      }
      r := Ok(Range(start.value, startInclusive, end.value, endInclusive));
      Reset();
    }
  }

  /** builder(range): a new builder holding the range's fields. */
  method Replicate(r: Range) returns (b: RangeBuilder)
    ensures fresh(b) && b.State() == BoundsOf(r)
  {
    b := new RangeBuilder();
    b.SetStart(Some(r.start));
    b.SetStartInclusive(r.startInclusive);
    b.SetEnd(Some(r.end));
    b.SetEndInclusive(r.endInclusive);
  }

  /** startBound(version): a copy with another start, through a replicating builder. */
  method WithStart(r: Range, v: Version) returns (c: Range)
    ensures c == r.(start := v)
  {
    var b := Replicate(r);
    b.SetStart(Some(v));
    var built := b.Build();
    c := built.value;
  }

  /** startInclusive(value): a copy with another start flag. */
  method WithStartInclusive(r: Range, x: bool) returns (c: Range)
    ensures c == r.(startInclusive := x)
  {
    var b := Replicate(r);
    b.SetStartInclusive(x);
    var built := b.Build();
    c := built.value;
  }

  /** endBound(version): a copy with another end. */
  method WithEnd(r: Range, v: Version) returns (c: Range)
    ensures c == r.(end := v)
  {
    var b := Replicate(r);
    b.SetEnd(Some(v));
    var built := b.Build();
    c := built.value;
  }

  /** endInclusive(value): a copy with another end flag. */
  method WithEndInclusive(r: Range, x: bool) returns (c: Range)
    ensures c == r.(endInclusive := x)
  {
    var b := Replicate(r);
    b.SetEndInclusive(x);
    var built := b.Build();
    c := built.value;
  }

  // ---------------------------------------------------------------------
  // The range factories of PluginVersion

  /** range(version1, version2): a fresh builder, so both bounds exclusive. */
  method Span(v1: Version, v2: Version) returns (r: Range)
    ensures r == Range(v1, false, v2, false)
  {
    var b := new RangeBuilder();
    b.SetStart(Some(v1));
    b.SetEnd(Some(v2));
    var built := b.Build();
    r := built.value;
  }

  /** range(version1, version2) over two texts: either of() may throw. */
  function SpanText(t1: string, t2: string): Result<Range>
  {
    match Parse(t1)
    case Err(e) => Err(e)
    case Ok(a) =>
      match Parse(t2)
      case Err(e) => Err(e)
      case Ok(b) => Ok(Range(a, false, b, false))
  }

  method SpanOf(t1: string, t2: string) returns (r: Result<Range>)
    ensures r == SpanText(t1, t2)
  {
    var a := PluginVersion.Of(t1);
    if a.Err? {
      return Err(a.error);
    }
    var b := PluginVersion.Of(t2);
    if b.Err? {
      return Err(b.error);
    }
    var s := Span(a.value, b.value);
    r := Ok(s);
  }

  predicate OpensWith(s: string, c: char) { |s| > 0 && s[0] == c }

  predicate ClosesWith(s: string, c: char) { |s| > 0 && s[|s| - 1] == c }

  /** The end of the single-version range: the version itself when unstable,
      otherwise the version with its major number plus one (int arithmetic). */
  function SingleEnd(v: Version): Result<Version>
  {
    if !Stable(v) then Ok(v) else NumberCopy(v, Major, Int32(v.major + 1))
  }

  /** range(range) on a text without a comma: the version and SingleEnd,
      start inclusive and end exclusive. */
  function SingleText(text: string): Result<Range>
  {
    match Parse(text)
    case Err(e) => Err(e)
    case Ok(v) =>
      match SingleEnd(v)
      case Err(e) => Err(e)
      case Ok(w) => Ok(Range(v, true, w, false))
  }

  /** range(range) on the texts around the first comma: the first must open
      with '[' (inclusive) or '(' and the second close with ']' (inclusive)
      or ')', else IllegalArgumentException; the texts inside are parsed
      start first. */
  function PairText(s: string, t: string): Result<Range>
  {
    if !OpensWith(s, '[') && !OpensWith(s, '(') then Err(IllegalArgument)
    else if !ClosesWith(t, ']') && !ClosesWith(t, ')') then Err(IllegalArgument)
    else Bounded(s[1..], OpensWith(s, '['), t[..|t| - 1], ClosesWith(t, ']'))
  }

  /** The two versions between the markers, start first, with the flags the
      markers set. */
  function Bounded(x: string, xi: bool, y: string, yi: bool): Result<Range>
  {
    match Parse(x)
    case Err(e) => Err(e)
    case Ok(a) =>
      match Parse(y)
      case Err(e) => Err(e)
      case Ok(b) => Ok(Range(a, xi, b, yi))
  }

  /** range(range): split at the first comma, if any. */
  function RangeText(text: string): Result<Range>
  {
    var k := IndexOf(text, ',');
    if k == -1 then SingleText(text) else PairText(text[..k], text[k + 1..])
  }

  /** range(range), through a builder as in the source. */
  method RangeOf(text: string) returns (r: Result<Range>)
    ensures r == RangeText(text)
  {
    var b := new RangeBuilder();
    var k := IndexOf(text, ',');
    if k == -1 {
      r := SingleOf(b, text);
    } else {
      r := PairOf(b, text[..k], text[k + 1..]);
    }
  }

  /** The builder calls of range(range) without a comma. */
  method SingleOf(b: RangeBuilder, text: string) returns (r: Result<Range>)
    modifies b
    ensures r == SingleText(text)
  {
    var v := PluginVersion.Of(text);
    if v.Err? {
      return Err(v.error);
    }
    var w := SingleEnd(v.value);
    if w.Err? {
      return Err(w.error);
    }
    b.SetStart(Some(v.value));
    b.SetEnd(Some(w.value));
    b.SetStartInclusive(true);
    b.SetEndInclusive(false);
    r := b.Build();
  }

  /** The builder calls of range(range) around a comma, on a new builder. */
  method PairOf(b: RangeBuilder, s: string, t: string) returns (r: Result<Range>)
    requires b.State() == Unset
    modifies b
    ensures r == PairText(s, t)
  {
    if OpensWith(s, '[') {
      b.SetStartInclusive(true);
    } else if !OpensWith(s, '(') {
      return Err(IllegalArgument);
    }
    if ClosesWith(t, ']') {
      b.SetEndInclusive(true);
    } else if !ClosesWith(t, ')') {
      return Err(IllegalArgument);
    }
    assert b.State() == Unset.(startInclusive := OpensWith(s, '['), endInclusive := ClosesWith(t, ']'));
    r := BoundedOf(b, s[1..], t[..|t| - 1]);
  }

  /** The builder calls that parse and set the two bounds. */
  method BoundedOf(b: RangeBuilder, x: string, y: string) returns (r: Result<Range>)
    requires b.State().start.None? && b.State().end.None?
    modifies b
    ensures r == Bounded(x, old(b.State()).startInclusive, y, old(b.State()).endInclusive)
  {
    var v := PluginVersion.Of(x);
    if v.Err? {
      return Err(v.error);
    }
    b.SetStart(Some(v.value));
    var w := PluginVersion.Of(y);
    if w.Err? {
      return Err(w.error);
    }
    b.SetEnd(Some(w.value));
    r := b.Build();
  }

  // ---------------------------------------------------------------------
  // Properties: the builder

  /** build() succeeds exactly when both bounds are set, and then leaves a
      builder that cannot build again until both are set anew. */
  lemma BuildNeedsBounds(b: Bounds)
    ensures BuildStep(b).result.Ok? <==> b.start.Some? && b.end.Some?
    ensures BuildStep(b).result.Ok? ==> BuildStep(BuildStep(b).state).result == Err(IllegalState)
    ensures BuildStep(b).result.Err? ==> BuildStep(b).state == b
  {
  }

  /** builder(range).build() gives the range back: the copy mutators change
      exactly one field. */
  lemma BuildOfBounds(r: Range)
    ensures BuildStep(BoundsOf(r)) == Built(Ok(r), Cleared)
  {
  }

  // ---------------------------------------------------------------------
  // Properties: membership

  /** A version at or above `bound` in the key order, the bound itself
      counting only when inclusive. */
  predicate Above(k: seq<int>, bound: seq<int>, inclusive: bool)
    requires |k| == |bound|
  {
    if inclusive then !SemVer.LexLess(k, bound) else SemVer.LexLess(bound, k)
  }

  /** Where no revision difference overflows, the corrected matches is the
      interval between the bounds in the key order of compareTo. */
  lemma MatchesByKeys(r: Range, w: Version)
    requires Comparable(r.start, w) && Comparable(r.end, w)
    ensures Matches(r, Some(w)) <==>
      Above(Key(w), Key(r.start), r.startInclusive) && Above(Key(r.end), Key(w), r.endInclusive)
  {
    IsNewerByKeys(r.start, w);
    IsNewerByKeys(r.end, w);
    EqualsByKeys(r.start, w);
    EqualsByKeys(r.end, w);
    var ks, ke, kw := Key(r.start), Key(r.end), Key(w);
    if ks != kw { SemVer.LexLessTotal(ks, kw); } else { SemVer.LexLessIrreflexive(kw); }
    if ke != kw { SemVer.LexLessTotal(ke, kw); } else { SemVer.LexLessIrreflexive(kw); }
    if SemVer.LexLess(ks, kw) { SemVer.LexLessAsymmetric(ks, kw); }
    if SemVer.LexLess(kw, ke) { SemVer.LexLessAsymmetric(kw, ke); }
  }

  /** null is in no range, either way. */
  lemma MatchesNull(r: Range)
    ensures !Matches(r, None) && !MatchesAsWritten(r, None)
  {
  }

  /** The corrected matches only rejects more than the one as written. */
  lemma CorrectionNarrows(r: Range, v: Option<Version>)
    ensures Matches(r, v) ==> MatchesAsWritten(r, v)
  {
  }

  /** The two agree whenever compareTo against each bound is -1, 0 or 1. */
  lemma CorrectionAgrees(r: Range, v: Option<Version>)
    requires -1 <= CompareTo(r.start, v) <= 1 && -1 <= CompareTo(r.end, v) <= 1
    ensures Matches(r, v) <==> MatchesAsWritten(r, v)
  {
  }

  /** Equal ranges match the same versions. */
  lemma EqualRangesMatchAlike(a: Range, b: Range, v: Option<Version>)
    requires RangeEquals(a, b)
    ensures Matches(a, v) <==> Matches(b, v)
    ensures MatchesAsWritten(a, v) <==> MatchesAsWritten(b, v)
  {
    CompareToOfEquals(a.start, b.start, v);
    CompareToOfEquals(a.end, b.end, v);
  }

  /** Equal well-formed ranges hash alike. */
  lemma RangeHashOfEquals(a: Range, b: Range)
    requires WellFormedRange(a) && WellFormedRange(b) && RangeEquals(a, b)
    ensures RangeHash(a) == RangeHash(b)
  {
    HashCodeOfEquals(a.start, b.start);
    HashCodeOfEquals(a.end, b.end);
  }

  /** matching keeps exactly the matched versions, and distributes over
      union, as written and corrected; the corrected one keeps a subset. */
  lemma MatchingContents(r: Range, a: set<Version>, b: set<Version>)
    ensures forall v :: v in Matching(r, a) <==> v in a && MatchesAsWritten(r, Some(v))
    ensures forall v :: v in MatchingCorrected(r, a) <==> v in a && Matches(r, Some(v))
    ensures Matching(r, a + b) == Matching(r, a) + Matching(r, b)
    ensures MatchingCorrected(r, a + b) == MatchingCorrected(r, a) + MatchingCorrected(r, b)
    ensures MatchingCorrected(r, a) <= Matching(r, a)
  {
  }

  /** The single-version range of an unstable version, [v, v), matches
      nothing once newerThan / olderThan read the sign of compareTo. */
  lemma UnstableSingleIsEmpty(v: Version, w: Option<Version>)
    ensures !Matches(Range(v, true, v, false), w)
  {
    if w.Some? { CompareToZero(v, w.value); }
  }

  /** As written, [v, v) matches every version of the same numbers whose
      type is two or more places below v's: compareTo is 2 or more, which is
      neither newerThan (exactly 1) nor olderThan (exactly -1). */
  lemma UnstableSingleAsWritten(v: Version, w: Version)
    requires v.major == w.major && v.minor == w.minor && v.patch == w.patch
    requires v.utype.Some? && w.utype.Some? && Ordinal(v.utype.value) >= Ordinal(w.utype.value) + 2
    ensures MatchesAsWritten(Range(v, true, v, false), Some(w))
    ensures !Matches(Range(v, true, v, false), Some(w))
  {
    TypeGap(v, w);
  }

  // ---------------------------------------------------------------------
  // Properties: the range factories

  /** The single-version range of v: [v, v with the next major) when v is
      stable, [v, v) when it is not. */
  function SingleRange(v: Version): Range
  {
    Range(v, true, if Stable(v) then v.(major := Int32(v.major + 1)) else v, false)
  }

  /** A text without a comma gives the single-version range of of(text). */
  lemma SingleForm(text: string)
    requires ',' !in text
    ensures RangeText(text).Ok? <==> Parse(text).Ok?
    ensures Parse(text).Ok? ==> RangeText(text) == Ok(SingleRange(Parse(text).value))
  {
    IndexOfNone(text, ',');
    if Parse(text).Ok? {
      ParseStable(text);
      NumberCopyOf(Parse(text).value, Major, Int32(Parse(text).value.major + 1));
    }
  }

  /** An unstable version's single range matches nothing; a stable one's is
      the versions from v up to, not including, the next major. */
  lemma SingleFormMembers(v: Version, w: Version)
    requires WellFormed(v)
    requires Comparable(v, w) && Comparable(v.(major := Int32(v.major + 1)), w)
    ensures Matches(SingleRange(v), Some(w)) <==>
      Stable(v) && !SemVer.LexLess(Key(w), Key(v)) && SemVer.LexLess(Key(w), Key(SingleRange(v).end))
  {
    if Stable(v) {
      MatchesByKeys(SingleRange(v), w);
    } else {
      UnstableSingleIsEmpty(v, Some(w));
    }
  }

  /** With a comma, a missing start or end marker throws IllegalArgumentException. */
  lemma CommaNeedsMarkers(text: string)
    requires ',' in text
    requires var k := IndexOf(text, ',');
      !(OpensWith(text[..k], '[') || OpensWith(text[..k], '('))
      || !(ClosesWith(text[k + 1..], ']') || ClosesWith(text[k + 1..], ')'))
    ensures RangeText(text) == Err(IllegalArgument)
  {
  }

  /** "<p>s,t<q>" with both markers: the two versions, flags from the markers. */
  lemma PairForm(p: char, s: string, t: string, q: char)
    requires (p == '[' || p == '(') && (q == ']' || q == ')') && ',' !in s
    ensures RangeText([p] + s + "," + t + [q]) == Bounded(s, p == '[', t, q == ']')
  {
    var text := [p] + s + "," + t + [q];
    var ps := [p] + s;
    assert ',' !in ps;
    assert text == ps + [','] + (t + [q]);
    CutAt(ps, ',', t + [q]);
    assert RangeText(text) == PairText(ps, t + [q]);
    MarkedPair(p, s, t, q);
  }

  /** Both markers present: the texts inside them go to the parser. */
  lemma MarkedPair(p: char, s: string, t: string, q: char)
    requires (p == '[' || p == '(') && (q == ']' || q == ')')
    ensures PairText([p] + s, t + [q]) == Bounded(s, p == '[', t, q == ']')
  {
    assert ([p] + s)[1..] == s && ([p] + s)[0] == p;
    assert (t + [q])[..|t|] == t && (t + [q])[|t|] == q;
  }

  /** 1.0-beta and 1.0-snapshot: the same numbers, types three and one. */
  const Beta: Version := Version(1, 0, 0, Some("beta"), None, Some(BETA))
  const Snapshot: Version := Version(1, 0, 0, Some("snapshot"), None, Some(SNAPSHOT))

  /** A version whose extra bit is a bare alias of its type is well formed. */
  lemma AliasWellFormed(v: Version, t: UType, a: string)
    requires IsInt32(v.major) && IsInt32(v.minor) && IsInt32(v.patch)
    requires v.extra == Some(a) && v.metadata.None? && v.utype == Some(t)
    requires '.' !in a && '-' !in a && '+' !in a && a in Aliases(t)
    ensures WellFormed(v)
  {
    IndexOfNone(a, '.');
    assert AliasOf(a) == a;
    ByAliasDeclared(t, a);
  }

  lemma WitnessesWellFormed()
    ensures WellFormed(Beta) && WellFormed(Snapshot)
  {
    AliasWellFormed(Beta, BETA, "beta");
    AliasWellFormed(Snapshot, SNAPSHOT, "snapshot");
  }

  lemma BetaText()
    ensures ',' !in ToString(Beta)
  {
    assert ToString(Beta) == IntToString(1) + "." + IntToString(0) + "-beta";
    assert IntToString(1) == "1" && IntToString(0) == "0";
  }

  /** range(toString(v)) of an unstable v is [v, v), and as written it
      matches every w of the same numbers two or more types below v. */
  lemma UnstableRangeText(v: Version, w: Version)
    requires WellFormed(v) && Printable(v) && !Stable(v) && ',' !in ToString(v)
    requires v.major == w.major && v.minor == w.minor && v.patch == w.patch
    requires v.utype.Some? && w.utype.Some? && Ordinal(v.utype.value) >= Ordinal(w.utype.value) + 2
    ensures RangeText(ToString(v)) == Ok(Range(v, true, v, false))
    ensures MatchesAsWritten(Range(v, true, v, false), Some(w))
    ensures !Matches(Range(v, true, v, false), Some(w))
  {
    ParseToString(v);
    SingleForm(ToString(v));
    UnstableSingleAsWritten(v, w);
  }

  /** A witness: 1.0-beta's single range [1.0-beta, 1.0-beta) matches
      1.0-snapshot as written, and nothing once corrected. Both are of() of
      their toString() (UnstableRangeText gives the range itself). */
  lemma BetaRangeMatchesSnapshot()
    ensures WellFormed(Beta) && WellFormed(Snapshot) && !Stable(Beta) && Printable(Beta)
    ensures MatchesAsWritten(Range(Beta, true, Beta, false), Some(Snapshot))
    ensures !Matches(Range(Beta, true, Beta, false), Some(Snapshot))
    ensures Matching(Range(Beta, true, Beta, false), {Snapshot}) == {Snapshot}
    ensures MatchingCorrected(Range(Beta, true, Beta, false), {Snapshot}) == {}
  {
    WitnessesWellFormed();
    UnstableSingleAsWritten(Beta, Snapshot);
  }
}
