/**
 * src/main/java/org/basinmc/faucet/plugin/PluginVersion.java: the legacy
 * plugin version. Values are immutable; they are made by a mutable Builder
 * whose parse() cuts "M.m.p-extra+metadata" apart, whose extra() derives the
 * unstable type from the extra bit's first dot-segment, and whose build()
 * hands out a version and resets itself.
 */
module PluginVersion {
  import opened JavaLang
  import opened UnstableType
  import SemVer

  /** The six fields; an absent extra, metadata or type is a null reference. */
  datatype Version = Version(major: int, minor: int, patch: int,
                             extra: Option<string>, metadata: Option<string>, utype: Option<UType>)

  /** What a new builder holds and what reset() brings it back to. */
  const Fresh: Version := Version(0, 0, 0, None, None, None)

  /** The extra bit up to its first dot: the alias that names its type. */
  function AliasOf(x: string): (a: string)
    ensures '.' !in a
    ensures a == x || (|a| < |x| && x[..|a|] == a && x[|a|] == '.')
  {
    var k := IndexOf(x, '.');
    if k == -1 then x else x[..k]
  }

  /** The unstable type Builder.extra derives: byAlias(alias).get(), or null. */
  function TypeOfExtra(extra: Option<string>): (t: Option<UType>)
    ensures t.None? <==> extra.None?
  {
    match extra
    case None => None
    case Some(x) => ByAlias(Some(AliasOf(x)))
  }

  /** No '-' and no '+' in a present extra or metadata bit. */
  predicate Plain(s: Option<string>)
  {
    s.None? || ('-' !in s.value && '+' !in s.value)
  }

  /** What every builder keeps, and so every version it builds: int fields,
      plain extra and metadata bits, and the type that belongs to the extra. */
  predicate WellFormed(v: Version)
  {
    IsInt32(v.major) && IsInt32(v.minor) && IsInt32(v.patch)
    && Plain(v.extra) && Plain(v.metadata) && v.utype == TypeOfExtra(v.extra)
  }

  // ---------------------------------------------------------------------
  // Builder steps on values

  /** A builder state after a call that either returns or throws. */
  datatype Effect = Effect(state: Version, outcome: Outcome)

  /** A step that leaves the state alone when it throws. */
  function After(s: Version, r: Result<Version>): Effect
  {
    match r
    case Ok(t) => Effect(t, Normal)
    case Err(e) => Effect(s, Thrown(e))
  }

  /** Builder.extra(value). */
  function WithExtra(s: Version, x: Option<string>): Result<Version>
  {
    if Plain(x) then Ok(s.(extra := x, utype := TypeOfExtra(x))) else Err(IllegalArgument)
  }

  /** Builder.metadata(value). */
  function WithMetadata(s: Version, x: Option<string>): Result<Version>
  {
    if Plain(x) then Ok(s.(metadata := x)) else Err(IllegalArgument)
  }

  /** The text before the first `c`, which `x` is known to hold. */
  function Before(x: string, c: char): string
    requires c in x
  {
    x[..IndexOf(x, c)]
  }

  /** Which number field parse()'s lambda is handed a setter for. */
  datatype Field = Major | Minor | Patch

  /** The three bits parse() cuts a version string into. */
  datatype Pieces = Pieces(numbers: string, extra: Option<string>, metadata: Option<string>)

  /** parse(), first block: the extra bit follows the first '-', the metadata
      bit the first '+', each cut short at the other when the other comes
      later, and the numbers are what precedes both. */
  function Cut(v: string): Pieces
  {
    var eo := IndexOf(v, '-');
    var mo := IndexOf(v, '+');
    var e := if eo != -1 then eo else |v|;
    var m := if mo != -1 then mo else |v|;
    var numbers := v[..if e < m then e else m];
    if eo != -1 && mo > eo then
      assert v[eo + 1..][mo - eo - 1] == '+';
      Pieces(numbers, Some(Before(v[eo + 1..], '+')), Some(v[mo + 1..]))
    else if mo != -1 && eo > mo then
      assert v[mo + 1..][eo - mo - 1] == '-';
      Pieces(numbers, Some(v[eo + 1..]), Some(Before(v[mo + 1..], '-')))
    else
      Pieces(numbers, if eo != -1 then Some(v[eo + 1..]) else None, if mo != -1 then Some(v[mo + 1..]) else None)
  }

  /** parse()'s number lambda: nothing for an empty rest; else the unsigned
      number before the next dot (NumberFormatException if it is not one) and
      whatever follows that dot. */
  function TakeNumber(i: string): Result<(Option<int>, string)>
  {
    if i == [] then Ok((None, i))
    else
      var k := IndexOf(i, '.');
      var digits := if k == -1 then i else i[..k];
      var rest := if k == -1 then "" else i[k + 1..];
      match ParseUnsignedInt(digits)
      case None => Err(IllegalArgument)
      case Some(n) => Ok((Some(n), rest))
  }

  /** parse(), second block: up to three numbers taken from `n` into `s`;
      whatever follows the third is ignored. */
  function TakeAll(s: Version, n: string): Effect
  {
    match TakeNumber(n)
    case Err(e) => Effect(s, Thrown(e))
    case Ok(t1) =>
      var s1 := Store(s, Major, t1.0);
      match TakeNumber(t1.1)
      case Err(e) => Effect(s1, Thrown(e))
      case Ok(t2) =>
        var s2 := Store(s1, Minor, t2.0);
        match TakeNumber(t2.1)
        case Err(e) => Effect(s2, Thrown(e))
        case Ok(t3) => Effect(Store(s2, Patch, t3.0), Normal)
  }

  /** The builder state after parse(v) on state `s`: extra, then metadata,
      then the numbers. */
  function Parsed(s: Version, v: string): Effect
  {
    var p := Cut(v);
    match WithExtra(s, p.extra)
    case Err(e) => Effect(s, Thrown(e))
    case Ok(s1) =>
      match WithMetadata(s1, p.metadata)
      case Err(e) => Effect(s1, Thrown(e))
      case Ok(s2) => TakeAll(s2, p.numbers)
  }

  /** PluginVersion.of(text): parse on a new builder, then build. */
  function Parse(text: string): Result<Version>
  {
    var e := Parsed(Fresh, text);
    if e.outcome.Normal? then Ok(e.state) else Err(e.outcome.error)
  }

  // ---------------------------------------------------------------------
  // The builder

  /** The state after the setter of `f` was called with `n`, if a number was taken. */
  function Store(s: Version, f: Field, n: Option<int>): Version
  {
    match n
    case None => s
    case Some(v) =>
      match f
      case Major => s.(major := v)
      case Minor => s.(minor := v)
      case Patch => s.(patch := v)
  }

  class Builder {
    var major: int
    var minor: int
    var patch: int
    var extra: Option<string>
    var metadata: Option<string>
    var utype: Option<UType>

    function State(): Version
      reads this
    {
      Version(major, minor, patch, extra, metadata, utype)
    }

    predicate Valid()
      reads this
    {
      WellFormed(State())
    }

    constructor()
      ensures State() == Fresh && Valid()
    {
      major, minor, patch := 0, 0, 0;
      extra, metadata, utype := None, None, None;
    }

    method SetMajor(n: int)
      requires IsInt32(n)
      modifies this
      ensures State() == old(State()).(major := n)
    {
      major := n;
    }

    method SetMinor(n: int)
      requires IsInt32(n)
      modifies this
      ensures State() == old(State()).(minor := n)
    {
      minor := n;
    }

    method SetPatch(n: int)
      requires IsInt32(n)
      modifies this
      ensures State() == old(State()).(patch := n)
    {
      patch := n;
    }

    /** extra(value): throws on '-' or '+', else stores the bit and its type. */
    method SetExtra(x: Option<string>) returns (outcome: Outcome)
      modifies this
      ensures Effect(State(), outcome) == After(old(State()), WithExtra(old(State()), x))
    {
      if x.Some? {
        if IndexOf(x.value, '-') != -1 {
          return Thrown(IllegalArgument);
        }
        if IndexOf(x.value, '+') != -1 {
          return Thrown(IllegalArgument);
        }
        var alias := x.value;
        if IndexOf(alias, '.') != -1 {
          alias := alias[..IndexOf(alias, '.')];
        }
        utype := Some(ByAlias(Some(alias)).value);
      } else {
        utype := None;
      }
      extra := x;
      return Normal;
    }

    /** metadata(value): throws on '-' or '+', else stores the bit. */
    method SetMetadata(x: Option<string>) returns (outcome: Outcome)
      modifies this
      ensures Effect(State(), outcome) == After(old(State()), WithMetadata(old(State()), x))
    {
      if x.Some? {
        if IndexOf(x.value, '-') != -1 {
          return Thrown(IllegalArgument);
        }
        if IndexOf(x.value, '+') != -1 {
          return Thrown(IllegalArgument);
        }
      }
      metadata := x;
      return Normal;
    }

    /** One application of parse()'s lambda with the setter of `f`. */
    method Take(i: string, f: Field) returns (outcome: Outcome, rest: string)
      modifies this
      ensures TakeNumber(i).Err? ==> outcome == Thrown(TakeNumber(i).error) && State() == old(State())
      ensures TakeNumber(i).Ok? ==> outcome == Normal && rest == TakeNumber(i).value.1
      ensures TakeNumber(i).Ok? ==> State() == Store(old(State()), f, TakeNumber(i).value.0)
    {
      if i == [] {
        return Normal, i;
      }
      var offset := IndexOf(i, '.');
      var digits := i;
      rest := "";
      if offset != -1 {
        digits := i[..offset];
        rest := i[offset + 1..];
      }
      var n := ParseUnsignedInt(digits);
      if n.None? {
        assert TakeNumber(i) == Err(IllegalArgument);
        return Thrown(IllegalArgument), rest;
      }
      assert TakeNumber(i) == Ok((Some(n.value), rest));
      ghost var before := State();
      match f {
        case Major => SetMajor(n.value);
        case Minor => SetMinor(n.value);
        case Patch => SetPatch(n.value);
      }
      assert State() == Store(before, f, Some(n.value));
      return Normal, rest;
    }

    /** parse(version): stores what Parsed says, throwing where it throws. */
    method Parse(version: string) returns (outcome: Outcome)
      modifies this
      ensures Effect(State(), outcome) == Parsed(old(State()), version)
    {
      var p := CutVersion(version);
      var x, m, rest := p.extra, p.metadata, p.numbers;
      outcome := SetExtra(x);
      if outcome.Thrown? {
        return;
      }
      outcome := SetMetadata(m);
      if outcome.Thrown? {
        return;
      }
      outcome, rest := Take(rest, Major);
      if outcome.Thrown? {
        return;
      }
      outcome, rest := Take(rest, Minor);
      if outcome.Thrown? {
        return;
      }
      outcome, rest := Take(rest, Patch);
    }

    /** reset(): zero numbers, and null extra, type and metadata. */
    method Reset()
      modifies this
      ensures State() == Fresh
    {
      SetMajor(0);
      SetMinor(0);
      SetPatch(0);
      var o := SetExtra(None);
      o := SetMetadata(None);
    }

    /** build(): the version of the current fields; the builder is reset. */
    method Build() returns (v: Version)
      modifies this
      ensures v == old(State()) && State() == Fresh
    {
      v := State();
      Reset();
    }
  }

  /** parse(version), first block: the offsets of '-' and '+' and the three
      bits they delimit. */
  method CutVersion(version: string) returns (p: Pieces)
    ensures p == Cut(version)
  {
    var x: Option<string> := None;
    var m: Option<string> := None;
    var extraOffset := IndexOf(version, '-');
    var metadataOffset := IndexOf(version, '+');
    if extraOffset != -1 {
      x := Some(version[extraOffset + 1..]);
    }
    if metadataOffset != -1 {
      m := Some(version[metadataOffset + 1..]);
    }
    if x.Some? && metadataOffset > extraOffset {
      assert x.value[metadataOffset - extraOffset - 1] == '+';
      x := Some(x.value[..IndexOf(x.value, '+')]);
    } else if m.Some? && extraOffset > metadataOffset {
      assert m.value[extraOffset - metadataOffset - 1] == '-';
      m := Some(m.value[..IndexOf(m.value, '-')]);
    }
    var e := if extraOffset != -1 then extraOffset else |version|;
    var k := if metadataOffset != -1 then metadataOffset else |version|;
    p := Pieces(version[..if e < k then e else k], x, m);
  }

  /** PluginVersion.of(text), through a builder. */
  method Of(text: string) returns (r: Result<Version>)
    ensures r == Parse(text)
  {
    var b := new Builder();
    var outcome := b.Parse(text);
    if outcome.Thrown? {
      return Err(outcome.error);
    }
    var v := b.Build();
    return Ok(v);
  }

  /** builder(this): a new builder given the numbers, then extra() (which
      derives the type again) and metadata(). */
  function Copied(v: Version): Result<Version>
  {
    match WithExtra(Fresh.(major := v.major, minor := v.minor, patch := v.patch), v.extra)
    case Err(e) => Err(e)
    case Ok(s1) => WithMetadata(s1, v.metadata)
  }

  /** major(value), minor(value) and patch(value): the copy with the number
      of `f` replaced, built. */
  function NumberCopy(v: Version, f: Field, n: int): Result<Version>
  {
    match Copied(v)
    case Err(e) => Err(e)
    case Ok(s) => Ok(Store(s, f, Some(n)))
  }

  /** extra(value): the copy with its extra bit, and so its type, replaced. */
  function ExtraCopy(v: Version, x: Option<string>): Result<Version>
  {
    match Copied(v)
    case Err(e) => Err(e)
    case Ok(s) => WithExtra(s, x)
  }

  /** metadata(value): the copy with its metadata bit replaced. */
  function MetadataCopy(v: Version, x: Option<string>): Result<Version>
  {
    match Copied(v)
    case Err(e) => Err(e)
    case Ok(s) => WithMetadata(s, x)
  }

  /** builder(this) reproduces every well-formed version. */
  lemma CopiedOf(v: Version)
    requires WellFormed(v)
    ensures Copied(v) == Ok(v)
  {
    assert Fresh.(major := v.major, minor := v.minor, patch := v.patch).(extra := v.extra, utype := TypeOfExtra(v.extra)).(metadata := v.metadata) == v;
  }

  /** On a well-formed version a number copy differs only in that number. */
  lemma NumberCopyOf(v: Version, f: Field, n: int)
    requires WellFormed(v)
    ensures NumberCopy(v, f, n) == Ok(Store(v, f, Some(n)))
    ensures f == Major ==> NumberCopy(v, f, n) == Ok(v.(major := n))
  {
    CopiedOf(v);
  }

  /** extra(value) throws exactly on a '-' or '+' in the new bit; otherwise
      the copy has the new bit and its type, and nothing else changes. */
  lemma ExtraCopyOf(v: Version, x: Option<string>)
    requires WellFormed(v)
    ensures ExtraCopy(v, x).Ok? <==> Plain(x)
    ensures ExtraCopy(v, x).Err? ==> ExtraCopy(v, x).error == IllegalArgument
    ensures Plain(x) ==> ExtraCopy(v, x) == Ok(v.(extra := x, utype := TypeOfExtra(x))) && WellFormed(ExtraCopy(v, x).value)
  {
    CopiedOf(v);
  }

  /** metadata(value) throws exactly on a '-' or '+' in the new bit; otherwise
      only the metadata changes. */
  lemma MetadataCopyOf(v: Version, x: Option<string>)
    requires WellFormed(v)
    ensures MetadataCopy(v, x).Ok? <==> Plain(x)
    ensures MetadataCopy(v, x).Err? ==> MetadataCopy(v, x).error == IllegalArgument
    ensures Plain(x) ==> MetadataCopy(v, x) == Ok(v.(metadata := x)) && WellFormed(MetadataCopy(v, x).value)
  {
    CopiedOf(v);
  }

  // ---------------------------------------------------------------------
  // Queries, equality, order, hash and text

  /** stable(): no unstable type and a major version above zero. */
  predicate Stable(v: Version)
  {
    v.utype.None? && v.major > 0
  }

  /** extraRevision(): the unsigned number after the extra bit's first dot,
      or 0 when there is no extra, no dot or no number there. */
  function ExtraRevision(v: Version): (r: int)
    ensures IsInt32(r)
  {
    match v.extra
    case None => 0
    case Some(x) =>
      var k := IndexOf(x, '.');
      if k == -1 then 0 else ParseUnsignedInt(x[k + 1..]).GetOr(0)
  }

  /** equals(PluginVersion): null is unequal; otherwise numbers, stability,
      type presence and, when a type is present, type and revision. */
  predicate Equals(a: Version, b: Option<Version>)
  {
    b.Some?
    && a.major == b.value.major && a.minor == b.value.minor && a.patch == b.value.patch
    && Stable(a) == Stable(b.value)
    && a.utype.Some? == b.value.utype.Some?
    && (a.utype.Some? ==> a.utype == b.value.utype && ExtraRevision(a) == ExtraRevision(b.value))
  }

  function Max(x: int, y: int): int { if x < y then y else x }
  function Min(x: int, y: int): int { if x < y then x else y }

  /** The int difference of two revisions, clamped to -1 .. 1. */
  function CompareRevisions(ra: int, rw: int): (r: int)
    ensures -1 <= r <= 1
  {
    Max(-1, Min(1, Int32(ra - rw)))
  }

  /** compareTo(version): 1 for null, 0 when equal, then the numbers, stable
      above unstable, no type above a type, the enums' compareTo (the ordinal
      difference) and the clamped int difference of the revisions. */
  function CompareTo(a: Version, b: Option<Version>): (r: int)
    ensures -4 <= r <= 4
  {
    if b.None? then 1
    else if Equals(a, b) then 0
    else
      var w := b.value;
      if a.major > w.major then 1
      else if a.major < w.major then -1
      else if a.minor > w.minor then 1
      else if a.minor < w.minor then -1
      else if a.patch > w.patch then 1
      else if a.patch < w.patch then -1
      else if Stable(a) && !Stable(w) then 1
      else if !Stable(a) && Stable(w) then -1
      else if a.utype.None? && w.utype.Some? then 1
      else if a.utype.Some? && w.utype.None? then -1
      else if a.utype.None? then 0
      else
        var c := CompareTypes(a.utype.value, w.utype.value);
        if c != 0 then c
        else CompareRevisions(ExtraRevision(a), ExtraRevision(w))
  }

  /** newerThan(version), as written: compareTo is exactly 1. */
  predicate NewerThan(a: Version, b: Option<Version>)
  {
    CompareTo(a, b) == 1
  }

  /** olderThan(version), as written: compareTo is exactly -1. */
  predicate OlderThan(a: Version, b: Option<Version>)
  {
    CompareTo(a, b) == -1
  }

  /** newerThan as its documentation means it: compareTo is positive. */
  predicate IsNewer(a: Version, b: Option<Version>)
  {
    CompareTo(a, b) > 0
  }

  /** olderThan as its documentation means it: compareTo is negative. */
  predicate IsOlder(a: Version, b: Option<Version>)
  {
    CompareTo(a, b) < 0
  }

  /** The 31-multiplier recipe over five ints, in int arithmetic. */
  function HashOf(major: int, minor: int, patch: int, t: int, revision: int): (h: int)
    ensures IsInt32(h)
  {
    Int32(31 * Int32(31 * Int32(31 * Int32(31 * major + minor) + patch) + t) + revision)
  }

  /** hashCode(): the 31-multiplier recipe over the numbers, the type's
      ordinal (0 without a type) and the revision, in int arithmetic. */
  function HashCode(v: Version): (h: int)
    ensures IsInt32(h)
  {
    HashOf(v.major, v.minor, v.patch, if v.utype.Some? then Ordinal(v.utype.value) else 0, ExtraRevision(v))
  }

  /** toString(): major and minor always, patch only when above zero, then
      "-extra" and "+metadata" when present. */
  function ToString(v: Version): string
  {
    IntToString(v.major) + "." + IntToString(v.minor)
    + (if v.patch > 0 then "." + IntToString(v.patch) else "")
    + (if v.extra.Some? then "-" + v.extra.value else "")
    + (if v.metadata.Some? then "+" + v.metadata.value else "")
  }

  /** The keys compareTo inspects, most significant first: a stable version
      ranks above an unstable one, no type above every type, and the revision
      matters only beside a type. */
  function Key(v: Version): seq<int>
  {
    [v.major, v.minor, v.patch, if Stable(v) then 1 else 0,
     if v.utype.None? then 5 else Ordinal(v.utype.value),
     if v.utype.None? then 0 else ExtraRevision(v)]
  }

  // ---------------------------------------------------------------------
  // Parsing: what the builder keeps, and the text toString() prints

  lemma TakeAllWellFormed(s: Version, n: string)
    requires WellFormed(s)
    ensures WellFormed(TakeAll(s, n).state)
  {
    var t1 := TakeNumber(n);
    if t1.Ok? {
      StoreWellFormed(s, Major, n);
      var s1 := Store(s, Major, t1.value.0);
      var t2 := TakeNumber(t1.value.1);
      if t2.Ok? {
        StoreWellFormed(s1, Minor, t1.value.1);
        var s2 := Store(s1, Minor, t2.value.0);
        if TakeNumber(t2.value.1).Ok? {
          StoreWellFormed(s2, Patch, t2.value.1);
        }
      }
    }
  }

  /** Storing a number taken from `i` keeps the builder well formed. */
  lemma StoreWellFormed(s: Version, f: Field, i: string)
    requires WellFormed(s) && TakeNumber(i).Ok?
    ensures WellFormed(Store(s, f, TakeNumber(i).value.0))
  {
  }

  /** Every parse step keeps the builder well formed, whether or not it throws. */
  lemma ParsedWellFormed(s: Version, v: string)
    requires WellFormed(s)
    ensures WellFormed(Parsed(s, v).state)
  {
    var p := Cut(v);
    var r1 := WithExtra(s, p.extra);
    if r1.Ok? {
      var r2 := WithMetadata(r1.value, p.metadata);
      if r2.Ok? {
        TakeAllWellFormed(r2.value, p.numbers);
      }
    }
  }

  /** A parsed version carries the type of its extra bit, so it is stable
      exactly when it has no extra bit and a major version above zero. */
  lemma ParseStable(text: string)
    requires Parse(text).Ok?
    ensures WellFormed(Parse(text).value)
    ensures Stable(Parse(text).value) <==> Parse(text).value.extra.None? && Parse(text).value.major > 0
  {
    ParsedWellFormed(Fresh, text);
  }

  /** The number part toString() prints for non-negative numbers. */
  function NumbersText(v: Version): string
    requires v.major >= 0 && v.minor >= 0 && v.patch >= 0
  {
    DecimalString(v.major) + "." + DecimalString(v.minor)
    + (if v.patch > 0 then "." + DecimalString(v.patch) else "")
  }

  /** "-extra" and "+metadata", each when present. */
  function Suffix(x: Option<string>, m: Option<string>): string
  {
    (if x.Some? then "-" + x.value else "") + (if m.Some? then "+" + m.value else "")
  }

  lemma DigitsOnly(s: string)
    requires AllDigits(s)
    ensures '.' !in s && '-' !in s && '+' !in s
  {
    forall i | 0 <= i < |s| ensures s[i] != '.' && s[i] != '-' && s[i] != '+' {
      assert IsDigit(s[i]);
    }
  }

  lemma NumeralFacts(a: nat)
    ensures '.' !in DecimalString(a) && '-' !in DecimalString(a) && '+' !in DecimalString(a)
    ensures a <= INT_MAX ==> ParseUnsignedInt(DecimalString(a)) == Some(a)
  {
    DecimalStringCanonical(a);
    DigitsOnly(DecimalString(a));
    ParseUnsignedNumeral(DecimalString(a));
  }

  lemma TakeFirst(a: nat, rest: string)
    requires a <= INT_MAX
    ensures TakeNumber(DecimalString(a) + "." + rest) == Ok((Some(a), rest))
  {
    NumeralFacts(a);
    CutAt(DecimalString(a), '.', rest);
    assert DecimalString(a) + "." + rest == DecimalString(a) + ['.'] + rest;
  }

  lemma TakeLast(a: nat)
    requires a <= INT_MAX
    ensures TakeNumber(DecimalString(a)) == Ok((Some(a), ""))
  {
    NumeralFacts(a);
    IndexOfNone(DecimalString(a), '.');
  }

  lemma NumbersTextFree(v: Version)
    requires v.major >= 0 && v.minor >= 0 && v.patch >= 0
    ensures '-' !in NumbersText(v) && '+' !in NumbersText(v)
  {
    NumeralFacts(v.major);
    NumeralFacts(v.minor);
    NumeralFacts(v.patch);
  }

  lemma ToStringLayout(v: Version)
    requires v.major >= 0 && v.minor >= 0 && v.patch >= 0
    ensures ToString(v) == NumbersText(v) + Suffix(v.extra, v.metadata)
  {
  }

  /** parse() finds the numbers, the extra and the metadata in
      "numbers-extra+metadata" and in each of its shorter forms. */
  lemma CutSuffix(n: string, x: Option<string>, m: Option<string>)
    requires '-' !in n && '+' !in n && Plain(x) && Plain(m)
    ensures Cut(n + Suffix(x, m)) == Pieces(n, x, m)
  {
    var t := n + Suffix(x, m);
    if x.Some? && m.Some? {
      assert t == n + "-" + x.value + "+" + m.value;
      CutForward(n, x.value, m.value);
    } else if x.Some? {
      assert t == n + ['-'] + x.value;
      CutAt(n, '-', x.value);
      IndexOfNone(t, '+');
    } else if m.Some? {
      assert t == n + ['+'] + m.value;
      CutAt(n, '+', m.value);
      IndexOfNone(t, '-');
    } else {
      IndexOfNone(t, '-');
      IndexOfNone(t, '+');
    }
  }

  lemma CutForward(n: string, x: string, m: string)
    requires '-' !in n && '+' !in n && Plain(Some(x)) && Plain(Some(m))
    ensures Cut(n + "-" + x + "+" + m) == Pieces(n, Some(x), Some(m))
  {
    var t := n + "-" + x + "+" + m;
    assert t == n + ['-'] + (x + "+" + m);
    CutAt(n, '-', x + "+" + m);
    assert t == (n + "-" + x) + ['+'] + m;
    CutAt(n + "-" + x, '+', m);
    CutAt(x, '+', m);
    assert x + "+" + m == x + ['+'] + m;
  }

  /** ... and the same bits when the metadata comes before the extra. */
  lemma CutReversed(n: string, x: string, m: string)
    requires '-' !in n && '+' !in n && Plain(Some(x)) && Plain(Some(m))
    ensures Cut(n + "+" + m + "-" + x) == Pieces(n, Some(x), Some(m))
  {
    var t := n + "+" + m + "-" + x;
    assert t == n + ['+'] + (m + "-" + x);
    CutAt(n, '+', m + "-" + x);
    assert t == (n + "+" + m) + ['-'] + x;
    CutAt(n + "+" + m, '-', x);
    CutAt(m, '-', x);
    assert m + "-" + x == m + ['-'] + x;
  }

  /** Numbers within the int range, as toString() prints them. */
  predicate Printable(v: Version)
  {
    0 <= v.major <= INT_MAX && 0 <= v.minor <= INT_MAX && 0 <= v.patch <= INT_MAX
  }

  lemma TakeAllSteps(s: Version, n: string, a: int, r1: string, b: int, r2: string, c: Option<int>, r3: string)
    requires TakeNumber(n) == Ok((Some(a), r1)) && TakeNumber(r1) == Ok((Some(b), r2))
    requires TakeNumber(r2) == Ok((c, r3))
    ensures TakeAll(s, n) == Effect(Store(s.(major := a, minor := b), Patch, c), Normal)
  {
  }

  lemma TakeThree(s: Version, n: string, a: nat, b: nat, c: nat)
    requires a <= INT_MAX && b <= INT_MAX && c <= INT_MAX
    requires n == DecimalString(a) + "." + (DecimalString(b) + "." + DecimalString(c))
    ensures TakeAll(s, n) == Effect(s.(major := a, minor := b, patch := c), Normal)
  {
    var db, dc := DecimalString(b), DecimalString(c);
    TakeFirst(a, db + "." + dc);
    TakeFirst(b, dc);
    TakeLast(c);
    TakeAllSteps(s, n, a, db + "." + dc, b, dc, Some(c), "");
  }

  lemma TakeThreeAndMore(s: Version, n: string, a: nat, b: nat, c: nat, more: string)
    requires a <= INT_MAX && b <= INT_MAX && c <= INT_MAX
    requires n == DecimalString(a) + "." + (DecimalString(b) + "." + (DecimalString(c) + "." + more))
    ensures TakeAll(s, n) == Effect(s.(major := a, minor := b, patch := c), Normal)
  {
    var db, dc := DecimalString(b), DecimalString(c);
    var rest := dc + "." + more;
    TakeFirst(a, db + "." + rest);
    TakeFirst(b, rest);
    TakeFirst(c, more);
    TakeAllSteps(s, n, a, db + "." + rest, b, rest, Some(c), more);
  }

  lemma TakeTwo(s: Version, n: string, a: nat, b: nat)
    requires a <= INT_MAX && b <= INT_MAX
    requires n == DecimalString(a) + "." + DecimalString(b)
    ensures TakeAll(s, n) == Effect(s.(major := a, minor := b), Normal)
  {
    TakeFirst(a, DecimalString(b));
    TakeLast(b);
    assert TakeNumber("") == Ok((None, ""));
    TakeAllSteps(s, n, a, DecimalString(b), b, "", None, "");
  }

  /** The three takes read NumbersText(v) back, and ignore a further ".rest"
      after the patch number. */
  lemma TakeAllNumbers(s: Version, n: string, v: Version, tail: string)
    requires Printable(v)
    requires tail == "" || (v.patch > 0 && tail[0] == '.')
    requires n == NumbersText(v) + tail
    ensures TakeAll(s, n) ==
      Effect(s.(major := v.major, minor := v.minor, patch := if v.patch > 0 then v.patch else s.patch), Normal)
  {
    var dM, dm, dp := DecimalString(v.major), DecimalString(v.minor), DecimalString(v.patch);
    if v.patch > 0 && tail == "" {
      assert n == dM + "." + (dm + "." + dp);
      TakeThree(s, n, v.major, v.minor, v.patch);
    } else if v.patch > 0 {
      assert tail == "." + tail[1..];
      assert n == dM + "." + (dm + "." + (dp + "." + tail[1..]));
      TakeThreeAndMore(s, n, v.major, v.minor, v.patch, tail[1..]);
    } else {
      assert n == dM + "." + dm;
      TakeTwo(s, n, v.major, v.minor);
    }
  }

  /** parse() on text that cuts into NumbersText(v) (plus an ignored tail)
      and plain extra and metadata bits. */
  lemma ParseFrom(s: Version, text: string, n: string, v: Version, tail: string, x: Option<string>, m: Option<string>)
    requires Printable(v) && Plain(x) && Plain(m)
    requires tail == "" || (v.patch > 0 && tail[0] == '.')
    requires n == NumbersText(v) + tail && Cut(text) == Pieces(n, x, m)
    ensures Parsed(s, text) == Effect(s.(extra := x, utype := TypeOfExtra(x), metadata := m,
                               major := v.major, minor := v.minor,
                               patch := if v.patch > 0 then v.patch else s.patch), Normal)
  {
    TakeAllNumbers(s.(extra := x, utype := TypeOfExtra(x), metadata := m), n, v, tail);
  }

  /** of() on text that cuts into NumbersText(v) and plain bits x and m. */
  lemma ParseOf(text: string, v: Version, x: Option<string>, m: Option<string>)
    requires Printable(v) && Plain(x) && Plain(m)
    requires Cut(text) == Pieces(NumbersText(v), x, m)
    ensures Parse(text) == Ok(v.(extra := x, utype := TypeOfExtra(x), metadata := m))
  {
    var n := NumbersText(v);
    assert n + "" == n;
    var w := v.(extra := x, utype := TypeOfExtra(x), metadata := m);
    ParseFrom(Fresh, text, n, v, "", x, m);
    assert Fresh.(extra := x, utype := TypeOfExtra(x), metadata := m, major := v.major, minor := v.minor,
                  patch := if v.patch > 0 then v.patch else Fresh.patch) == w;
    assert Parsed(Fresh, text) == Effect(w, Normal);
  }

  /** toString() and of() are inverse on every well-formed version with
      non-negative numbers: a zero patch, left out of the text, reads back as 0. */
  lemma ParseToString(v: Version)
    requires WellFormed(v) && Printable(v)
    ensures Parse(ToString(v)) == Ok(v)
  {
    var n, text := NumbersText(v), ToString(v);
    NumbersTextFree(v);
    ToStringLayout(v);
    CutSuffix(n, v.extra, v.metadata);
    ParseOf(text, v, v.extra, v.metadata);
    assert v.(extra := v.extra, utype := TypeOfExtra(v.extra), metadata := v.metadata) == v;
  }

  /** v with the extra bit x, the type parse() derives from it, and metadata m. */
  function Tagged(v: Version, x: string, m: Option<string>): Version
  {
    v.(extra := Some(x), utype := TypeOfExtra(Some(x)), metadata := m)
  }

  /** "n-x+m" reads its extra and metadata bits into the version. */
  lemma ParseForward(v: Version, x: string, m: string, t: string)
    requires WellFormed(v) && Printable(v) && Plain(Some(x)) && Plain(Some(m))
    requires t == NumbersText(v) + "-" + x + "+" + m
    ensures Parse(t) == Ok(Tagged(v, x, Some(m)))
  {
    NumbersTextFree(v);
    CutForward(NumbersText(v), x, m);
    ParseOf(t, v, Some(x), Some(m));
  }

  /** The metadata may come before the extra bit: "n+m-x" reads as "n-x+m". */
  lemma ParseEitherOrder(v: Version, x: string, m: string, t: string)
    requires WellFormed(v) && Printable(v) && Plain(Some(x)) && Plain(Some(m))
    requires t == NumbersText(v) + "+" + m + "-" + x
    ensures Parse(t) == Ok(Tagged(v, x, Some(m)))
  {
    NumbersTextFree(v);
    CutReversed(NumbersText(v), x, m);
    ParseOf(t, v, Some(x), Some(m));
  }

  /** Only "M" given: minor and patch stay 0. */
  lemma ParseMajorOnly(a: nat)
    requires a <= INT_MAX
    ensures Parse(DecimalString(a)) == Ok(Fresh.(major := a))
  {
    var d := DecimalString(a);
    NumeralFacts(a);
    IndexOfNone(d, '-');
    IndexOfNone(d, '+');
    assert Cut(d) == Pieces(d, None, None);
    TakeLast(a);
    assert TakeNumber("") == Ok((None, ""));
    assert TakeAll(Fresh, d) == Effect(Fresh.(major := a), Normal);
  }

  /** Anything after the patch number is ignored: "1.2.3.9" reads as 1.2.3. */
  lemma ParseIgnoresFourthNumber(v: Version, rest: string)
    requires Printable(v) && v.patch > 0 && v.extra.None? && v.metadata.None? && v.utype.None?
    requires '-' !in rest && '+' !in rest
    ensures Parse(NumbersText(v) + "." + rest) == Ok(v)
  {
    var n := NumbersText(v) + "." + rest;
    NumbersTextFree(v);
    assert '-' !in n && '+' !in n;
    IndexOfNone(n, '-');
    IndexOfNone(n, '+');
    assert Cut(n) == Pieces(n, None, None);
    assert n == NumbersText(v) + ("." + rest);
    ParseFrom(Fresh, n, n, v, "." + rest, None, None);
  }

  /** A second '-' in the extra bit, or a second '+' in the metadata bit,
      makes parse() throw IllegalArgumentException. */
  lemma ParseRejectsSecondMark(v: Version, c: char, x: string)
    requires Printable(v) && (c == '-' || c == '+')
    requires c in x && (if c == '-' then '+' else '-') !in x
    ensures Parse(NumbersText(v) + [c] + x) == Err(IllegalArgument)
  {
    var n := NumbersText(v);
    NumbersTextFree(v);
    CutAt(n, c, x);
    IndexOfNone(n + [c] + x, if c == '-' then '+' else '-');
  }

  // ---------------------------------------------------------------------
  // Equality, order and hash

  /** equals holds exactly when the compareTo keys agree, so it ignores the
      metadata and tells aliases of one type apart only by revision. */
  lemma EqualsByKeys(a: Version, b: Version)
    ensures Equals(a, Some(b)) <==> Key(a) == Key(b)
  {
    if Key(a) == Key(b) && a.utype.Some? && b.utype.Some? {
      assert CompareTypes(a.utype.value, b.utype.value) == 0;
    }
  }

  /** compareTo is 0 exactly on equal versions, and 1 against null. */
  lemma CompareToZero(a: Version, b: Version)
    ensures CompareTo(a, Some(b)) == 0 <==> Equals(a, Some(b))
    ensures CompareTo(a, None) == 1 && !Equals(a, None)
  {
    if !Equals(a, Some(b)) && a.major == b.major && a.minor == b.minor && a.patch == b.patch
       && Stable(a) == Stable(b) && a.utype.Some? && b.utype.Some? && a.utype == b.utype {
      RevisionsTie(ExtraRevision(a), ExtraRevision(b));
    }
  }

  /** Two int revisions tie exactly when they are equal: their difference,
      non-zero, stays non-zero in int arithmetic. */
  lemma RevisionsTie(ra: int, rw: int)
    requires IsInt32(ra) && IsInt32(rw)
    ensures CompareRevisions(ra, rw) == 0 <==> ra == rw
  {
  }

  /** The first six places of the strict lexicographic order. */
  lemma LexLessSix(k: seq<int>, l: seq<int>)
    requires |k| == |l| == 6
    ensures SemVer.LexLess(k, l) <==>
      (k[0] < l[0] || (k[0] == l[0] &&
      (k[1] < l[1] || (k[1] == l[1] &&
      (k[2] < l[2] || (k[2] == l[2] &&
      (k[3] < l[3] || (k[3] == l[3] &&
      (k[4] < l[4] || (k[4] == l[4] && k[5] < l[5]))))))))))
  {
    SemVer.LexLessStep(k, l);
    SemVer.LexLessStep(k[1..], l[1..]);
    SemVer.LexLessStep(k[2..], l[2..]);
    SemVer.LexLessStep(k[3..], l[3..]);
    SemVer.LexLessStep(k[4..], l[4..]);
    SemVer.LexLessStep(k[5..], l[5..]);
    assert k[1..][1..] == k[2..] && l[1..][1..] == l[2..];
    assert k[2..][1..] == k[3..] && l[2..][1..] == l[3..];
    assert k[3..][1..] == k[4..] && l[3..][1..] == l[4..];
    assert k[4..][1..] == k[5..] && l[4..][1..] == l[5..];
    assert !SemVer.LexLess(k[5..][1..], l[5..][1..]);
  }

  /** The revisions' int difference does not overflow, either way round. */
  predicate Comparable(a: Version, b: Version)
  {
    IsInt32(ExtraRevision(a) - ExtraRevision(b)) && IsInt32(ExtraRevision(b) - ExtraRevision(a))
  }

  /** Where the revisions' difference fits an int, compareTo is the
      lexicographic order of the keys: numbers, stable above unstable, no type
      above any type, type order, then revision. */
  lemma CompareToByKeys(a: Version, b: Version)
    requires IsInt32(ExtraRevision(a) - ExtraRevision(b))
    ensures CompareTo(a, Some(b)) > 0 <==> SemVer.LexLess(Key(b), Key(a))
    ensures CompareTo(a, Some(b)) < 0 <==> SemVer.LexLess(Key(a), Key(b))
  {
    LexLessSix(Key(a), Key(b));
    LexLessSix(Key(b), Key(a));
    CompareToZero(a, b);
    EqualsByKeys(a, b);
    if a.utype.Some? && b.utype.Some? {
      assert CompareTypes(a.utype.value, b.utype.value) == 0 ==> a.utype == b.utype;
    }
  }

  /** On comparable versions compareTo is antisymmetric in sign. */
  lemma CompareToAntisymmetric(a: Version, b: Version)
    requires Comparable(a, b)
    ensures CompareTo(a, Some(b)) > 0 <==> CompareTo(b, Some(a)) < 0
    ensures CompareTo(a, Some(b)) == 0 <==> CompareTo(b, Some(a)) == 0
  {
    CompareToByKeys(a, b);
    CompareToByKeys(b, a);
    CompareToZero(a, b);
    CompareToZero(b, a);
    EqualsByKeys(a, b);
    EqualsByKeys(b, a);
  }

  /** ... and transitive. */
  lemma CompareToTransitive(a: Version, b: Version, c: Version)
    requires Comparable(a, b) && Comparable(b, c) && Comparable(a, c)
    requires CompareTo(a, Some(b)) > 0 && CompareTo(b, Some(c)) > 0
    ensures CompareTo(a, Some(c)) > 0
  {
    CompareToByKeys(a, b);
    CompareToByKeys(b, c);
    CompareToByKeys(a, c);
    SemVer.LexLessTransitive(Key(c), Key(b), Key(a));
  }

  /** A revision of 2^31 comes back from parseUnsignedInt as Integer.MIN_VALUE. */
  lemma RevisionWraps(v: Version, alias: string)
    requires '.' !in alias
    ensures ExtraRevision(v.(extra := Some(alias + "." + DecimalString(TWO31)))) == INT_MIN
  {
    var d := DecimalString(TWO31);
    DecimalStringCanonical(TWO31);
    ParseUnsignedNumeral(d);
    CutAt(alias, '.', d);
    assert alias + "." + d == alias + ['.'] + d;
  }

  /** With revisions 0 and Integer.MIN_VALUE the int difference overflows, and
      each version compares below the other. */
  lemma RevisionOverflow(a: Version, b: Version)
    requires a.major == b.major && a.minor == b.minor && a.patch == b.patch
    requires a.utype.Some? && a.utype == b.utype
    requires ExtraRevision(a) == 0 && ExtraRevision(b) == INT_MIN
    ensures CompareTo(a, Some(b)) == -1 && CompareTo(b, Some(a)) == -1
  {
    assert Int32(0 - INT_MIN) == INT_MIN;
  }

  /** newerThan and olderThan test for exactly 1 and -1, but compareTo returns
      the ordinal difference of two types: versions two or more types apart
      are neither newer nor older than each other, nor equal. */
  lemma TypeGap(a: Version, b: Version)
    requires a.major == b.major && a.minor == b.minor && a.patch == b.patch
    requires a.utype.Some? && b.utype.Some? && Ordinal(a.utype.value) >= Ordinal(b.utype.value) + 2
    ensures !NewerThan(a, Some(b)) && !OlderThan(a, Some(b)) && !Equals(a, Some(b))
    ensures !NewerThan(b, Some(a)) && !OlderThan(b, Some(a))
    ensures IsNewer(a, Some(b)) && IsOlder(b, Some(a))
  {
  }

  /** The corrected newerThan / olderThan are the key order, and never both hold. */
  lemma IsNewerByKeys(a: Version, b: Version)
    requires Comparable(a, b)
    ensures IsNewer(a, Some(b)) <==> SemVer.LexLess(Key(b), Key(a))
    ensures IsOlder(a, Some(b)) <==> SemVer.LexLess(Key(a), Key(b))
    ensures !(IsNewer(a, Some(b)) && IsOlder(a, Some(b)))
    ensures IsNewer(a, Some(b)) <==> IsOlder(b, Some(a))
  {
    CompareToByKeys(a, b);
    CompareToAntisymmetric(a, b);
    if SemVer.LexLess(Key(b), Key(a)) {
      SemVer.LexLessAsymmetric(Key(b), Key(a));
    }
  }

  /** Equal versions are interchangeable on the left of compareTo and equals. */
  lemma CompareToOfEquals(x: Version, y: Version, w: Option<Version>)
    requires Equals(x, Some(y))
    ensures Equals(x, w) == Equals(y, w)
    ensures CompareTo(x, w) == CompareTo(y, w)
  {
    if w.Some? {
      if x.utype.Some? {
        TypedInterchangeable(x, y, w.value);
      } else {
        UntypedInterchangeable(x, y, w.value);
      }
    }
  }

  lemma TypedInterchangeable(x: Version, y: Version, w: Version)
    requires Equals(x, Some(y)) && x.utype.Some?
    ensures Equals(x, Some(w)) == Equals(y, Some(w))
    ensures CompareTo(x, Some(w)) == CompareTo(y, Some(w))
  {
    assert x.major == y.major && x.minor == y.minor && x.patch == y.patch;
    assert Stable(x) == Stable(y) && x.utype == y.utype;
    assert ExtraRevision(x) == ExtraRevision(y);
  }

  lemma UntypedInterchangeable(x: Version, y: Version, w: Version)
    requires Equals(x, Some(y)) && x.utype.None?
    ensures Equals(x, Some(w)) == Equals(y, Some(w))
    ensures CompareTo(x, Some(w)) == CompareTo(y, Some(w))
  {
    assert x.major == y.major && x.minor == y.minor && x.patch == y.patch;
    assert Stable(x) == Stable(y) && y.utype.None?;
  }

  /** Equal well-formed versions hash alike. */
  lemma HashCodeOfEquals(a: Version, b: Version)
    requires WellFormed(a) && WellFormed(b) && Equals(a, Some(b))
    ensures HashCode(a) == HashCode(b)
  {
    if a.utype.None? {
      assert a.extra.None? && b.extra.None?;
    }
    HashOfParts(a, b);
  }

  /** hashCode reads only the numbers, the type and the revision. */
  lemma HashOfParts(a: Version, b: Version)
    requires a.major == b.major && a.minor == b.minor && a.patch == b.patch
    requires a.utype == b.utype && ExtraRevision(a) == ExtraRevision(b)
    ensures HashCode(a) == HashCode(b)
  {
  }

  /** A dot-free word followed by nothing or by a dot-led revision: the word
      is the alias, and the first dot follows it. */
  lemma WordThenRevision(w: string, r: string)
    requires '.' !in w && (r == "" || r[0] == '.')
    ensures IndexOf(w + r, '.') == (if r == "" then -1 else |w|)
    ensures AliasOf(w + r) == w
  {
    if r == "" {
      assert w + r == w;
      IndexOfNone(w, '.');
    } else {
      assert w + r == w + ['.'] + r[1..];
      CutAt(w, '.', r[1..]);
    }
  }

  /** The revision of an extra bit made of a word and a dot-led revision. */
  lemma RevisionOfWord(v: Version, w: string, r: string, m: Option<string>)
    requires '.' !in w && (r == "" || r[0] == '.')
    ensures ExtraRevision(Tagged(v, w + r, m)) == if r == "" then 0 else ParseUnsignedInt(r[1..]).GetOr(0)
  {
    var x := w + r;
    assert Tagged(v, x, m).extra == Some(x);
    WordThenRevision(w, r);
    if r != "" {
      assert x[|w| + 1..] == r[1..];
    }
  }

  /** "a" and "alpha" name the same type, with the same revision text. */
  lemma AliasesAgree(r: string)
    requires r == "" || r[0] == '.'
    ensures TypeOfExtra(Some("a" + r)) == TypeOfExtra(Some("alpha" + r)) == Some(ALPHA)
    ensures IndexOf("a" + r, '.') == (if r == "" then -1 else 1)
    ensures IndexOf("alpha" + r, '.') == (if r == "" then -1 else 5)
  {
    WordThenRevision("a", r);
    WordThenRevision("alpha", r);
    ByAliasDeclared(ALPHA, "a");
    ByAliasDeclared(ALPHA, "alpha");
  }

  /** Versions agreeing in their numbers, their type and its revision are
      equal, compare 0 and hash alike. */
  lemma SameTypeEqual(a: Version, b: Version)
    requires a.major == b.major && a.minor == b.minor && a.patch == b.patch
    requires a.utype.Some? && a.utype == b.utype && ExtraRevision(a) == ExtraRevision(b)
    ensures Equals(a, Some(b)) && CompareTo(a, Some(b)) == 0
    ensures HashCode(a) == HashCode(b)
  {
    assert !Stable(a) && !Stable(b);
    assert Equals(a, Some(b));
    HashOfParts(a, b);
  }

  /** Versions that differ only in whether they spell the type "a" or "alpha",
      and in metadata, are equal, compare 0 and hash alike. */
  lemma AliasesEqual(v: Version, r: string, m1: Option<string>, m2: Option<string>)
    requires r == "" || r[0] == '.'
    ensures Equals(Tagged(v, "a" + r, m1), Some(Tagged(v, "alpha" + r, m2)))
    ensures HashCode(Tagged(v, "a" + r, m1)) == HashCode(Tagged(v, "alpha" + r, m2))
    ensures CompareTo(Tagged(v, "a" + r, m1), Some(Tagged(v, "alpha" + r, m2))) == 0
  {
    AliasesAgree(r);
    var a, b := Tagged(v, "a" + r, m1), Tagged(v, "alpha" + r, m2);
    RevisionOfWord(v, "a", r, m1);
    RevisionOfWord(v, "alpha", r, m2);
    SameTypeEqual(a, b);
  }
}
