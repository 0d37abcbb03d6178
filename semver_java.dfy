/**
 * faucet/src/main/java/org/basinmc/faucet/util/Version.java: the Java twin
 * of the semantic version. It shares the pattern, the number parsing, the
 * Stability enumeration and the field layout with the Kotlin class (module
 * SemVer, whose Version datatype and matcher are reused here); it differs in
 * how the stability index is read, in what happens when the extra part is
 * made of dots only, and in the hash recipe. It has no toString.
 */
module SemVerJava {
  import opened JavaLang
  import opened SemVer

  // ---------------------------------------------------------------------
  // The stability fields

  /** extra.split("\\.") */
  function JavaElements(extra: string): seq<string>
  {
    JavaSplit(extra, '.')
  }

  /** The second element read by Integer.parseUnsignedInt, when there are at
      least two elements and it is a number; 0 otherwise. */
  function JavaIndexOf(elements: seq<string>): (r: int)
    ensures IsInt32(r)
    ensures |elements| < 2 ==> r == 0
  {
    if |elements| >= 2 then ParseUnsignedInt(elements[1]).GetOr(0) else 0
  }

  /** The stability and index of a present extra part as written: reading
      elements[0] of an empty array fails with ArrayIndexOutOfBoundsException. */
  function JavaStabilityAsWritten(extra: string): (r: Result<(Stability, int)>)
    ensures r.Err? <==> |JavaElements(extra)| == 0
    ensures r.Err? ==> r.error == ArrayIndexOutOfBounds
    ensures r.Ok? ==> r.value.0 != STABLE
  {
    var elements := JavaElements(extra);
    if |elements| == 0 then Err(ArrayIndexOutOfBounds)
    else Ok((ByKeyword(elements[0]).GetOr(UNKNOWN), JavaIndexOf(elements)))
  }

  /** The corrected reading: no element gives UNKNOWN with index 0, as the
      Kotlin class does. */
  function JavaStability(extra: string): (r: (Stability, int))
    ensures r.0 != STABLE
    ensures JavaStabilityAsWritten(extra).Ok? ==> r == JavaStabilityAsWritten(extra).value
    ensures JavaStabilityAsWritten(extra).Err? ==> r == (UNKNOWN, 0)
  {
    var elements := JavaElements(extra);
    if |elements| == 0 then (UNKNOWN, 0)
    else (ByKeyword(elements[0]).GetOr(UNKNOWN), JavaIndexOf(elements))
  }

  // ---------------------------------------------------------------------
  // Version(String)

  /** The three numbers of the matched groups, read by Integer.parseUnsignedInt. */
  function Numbers(s: string): (r: Option<(Groups, int, int, int)>)
    ensures r.Some? ==> Match(s) == Some(r.value.0)
  {
    match Match(s)
    case None => None
    case Some(g) =>
      var major := ParseUnsignedInt(g.major);
      var minor := ParseUnsignedInt(g.minor);
      var patch := ParseUnsignedInt(g.patch);
      if major.None? || minor.None? || patch.None? then None
      else Some((g, major.value, minor.value, patch.value))
  }

  /** new Version(String) as written. */
  function ParseAsWritten(s: string): (r: Result<Version>)
    ensures r.Err? ==> r.error in {IllegalArgument, ArrayIndexOutOfBounds}
    ensures r.Ok? ==> (r.value.stability == STABLE <==> r.value.extra.None?)
  {
    match Numbers(s)
    case None => Err(IllegalArgument)
    case Some((g, major, minor, patch)) =>
      if g.extra.None? then Ok(Version(major, minor, patch, None, g.meta, STABLE, 0))
      else
        match JavaStabilityAsWritten(g.extra.value)
        case Err(e) => Err(e)
        case Ok((stability, index)) => Ok(Version(major, minor, patch, g.extra, g.meta, stability, index))
  }

  /** new Version(String) with the empty element array read as UNKNOWN. */
  function Parse(s: string): (r: Result<Version>)
    ensures r.Err? ==> r.error == IllegalArgument
    ensures r.Ok? ==> (r.value.stability == STABLE <==> r.value.extra.None?)
    ensures ParseAsWritten(s).Ok? ==> r == ParseAsWritten(s)
  {
    match Numbers(s)
    case None => Err(IllegalArgument)
    case Some((g, major, minor, patch)) =>
      if g.extra.None? then Ok(Version(major, minor, patch, None, g.meta, STABLE, 0))
      else
        var (stability, index) := JavaStability(g.extra.value);
        Ok(Version(major, minor, patch, g.extra, g.meta, stability, index))
  }

  // ---------------------------------------------------------------------
  // isNewerThan, isOlderThan, compareTo, hashCode

  /** isNewerThan: major, minor, patch, stability ordinal, stability index,
      first difference decides; a tie (the same object included) is false. */
  predicate IsNewerThan(a: Version, b: Version)
  {
    if a.major != b.major then a.major > b.major
    else if a.minor != b.minor then a.minor > b.minor
    else if a.patch != b.patch then a.patch > b.patch
    else if Ordinal(a.stability) != Ordinal(b.stability) then Ordinal(a.stability) > Ordinal(b.stability)
    else a.stabilityIndex > b.stabilityIndex
  }

  /** isOlderThan: the same chain with every answer flipped; a tie is false. */
  predicate IsOlderThan(a: Version, b: Version)
  {
    if a.major != b.major then a.major < b.major
    else if a.minor != b.minor then a.minor < b.minor
    else if a.patch != b.patch then a.patch < b.patch
    else if Ordinal(a.stability) != Ordinal(b.stability) then Ordinal(a.stability) < Ordinal(b.stability)
    else a.stabilityIndex < b.stabilityIndex
  }

  /** compareTo: 0 for equal versions, 1 when newer, -1 otherwise. */
  function CompareTo(a: Version, b: Version): (r: int)
    ensures r in {-1, 0, 1}
    ensures r == 0 <==> Equals(a, b)
  {
    if Equals(a, b) then 0 else if IsNewerThan(a, b) then 1 else -1
  }

  /** Objects.hash(major, minor, patch, extra). */
  function HashCode(v: Version): (h: int)
    ensures IsInt32(h)
  {
    HashAll([v.major, v.minor, v.patch, OptionStringHash(v.extra)])
  }

  // ---------------------------------------------------------------------
  // Properties

  /** isNewerThan is the strict lexicographic order on the keys, read from
      the right-hand side. */
  lemma IsNewerThanByKeys(a: Version, b: Version)
    ensures IsNewerThan(a, b) <==> LexLess(Key(b), Key(a))
  {
    LexLessKeys(b, a);
  }

  /** isOlderThan is the strict lexicographic order on the keys. */
  lemma IsOlderThanByKeys(a: Version, b: Version)
    ensures IsOlderThan(a, b) <==> LexLess(Key(a), Key(b))
  {
    LexLessKeys(a, b);
  }

  /** The two questions are each other's mirror and never both true. */
  lemma NewerOlderMirror(a: Version, b: Version)
    ensures IsOlderThan(a, b) <==> IsNewerThan(b, a)
    ensures !(IsNewerThan(a, b) && IsOlderThan(a, b))
  {
    IsNewerThanByKeys(a, b);
    IsOlderThanByKeys(a, b);
    if LexLess(Key(a), Key(b)) {
      LexLessAsymmetric(Key(a), Key(b));
    }
  }

  /** On the same five keys, neither version is newer or older than the other. */
  lemma TieIsNeither(a: Version, b: Version)
    requires Key(a) == Key(b)
    ensures !IsNewerThan(a, b) && !IsOlderThan(a, b)
  {
    IsNewerThanByKeys(a, b);
    IsOlderThanByKeys(a, b);
    LexLessIrreflexive(Key(a));
  }

  /** Java's compareTo answers exactly what the Kotlin compareTo answers. */
  lemma CompareToAgrees(a: Version, b: Version)
    ensures CompareTo(a, b) == SemVer.CompareTo(a, b)
  {
    CompareToByKeys(a, b);
    IsNewerThanByKeys(a, b);
  }

  /** Equal versions hash alike. */
  lemma HashCodeOfEquals(a: Version, b: Version)
    requires Equals(a, b)
    ensures HashCode(a) == HashCode(b)
  {
  }

  /** On a non-empty extra part Java's split and Kotlin's split-and-drop agree. */
  lemma JavaElementsAgree(extra: string)
    requires extra != ""
    ensures JavaElements(extra) == Elements(extra)
  {
    if '.' !in extra {
      IndexOfNone(extra, '.');
      assert Split(extra, '.') == [extra];
    }
  }

  /** The stability is the one the Kotlin class derives. */
  lemma JavaStabilityAgrees(extra: string)
    requires extra != ""
    ensures JavaStability(extra).0 == StabilityOf(Some(extra))
  {
    JavaElementsAgree(extra);
  }

  /** Parsing a string built from valid groups: the numbers as the Kotlin version
      reads them, the stability fields by Java's rule. */
  lemma {:induction false} ParseLayout(g: Groups)
    requires ValidGroups(g)
    ensures Parse(Layout(g)).Ok? <==> FromGroups(g).Ok?
    ensures Parse(Layout(g)).Ok? ==> (Parse(Layout(g)).value ==
      FromGroups(g).value.(stability := if g.extra.None? then STABLE else JavaStability(g.extra.value).0,
                           stabilityIndex := if g.extra.None? then 0 else JavaStability(g.extra.value).1))
  {
    SemVer.ParseLayout(g);
    ParseAgrees(Layout(g));
    MatchLayout(g);
  }

  /** Java and Kotlin accept the same strings, and agree on every field except
      the stability index. */
  lemma ParseAgrees(s: string)
    ensures Parse(s).Ok? <==> SemVer.Parse(s).Ok?
    ensures Parse(s).Ok? ==> Parse(s).value.(stabilityIndex := 0) == SemVer.Parse(s).value.(stabilityIndex := 0)
  {
    if Match(s).Some? {
      var g := Match(s).value;
      assert Numbers(s).Some? <==> SemVer.Parse(s).Ok?;
      if Numbers(s).Some? {
        var n := Numbers(s).value;
        assert SemVer.Parse(s).value == Version(n.1, n.2, n.3, g.extra, g.meta, StabilityOf(g.extra), StabilityIndexOf(g.extra));
        if g.extra.Some? {
          MatchSound(s);
          JavaStabilityAgrees(g.extra.value);
          assert Parse(s).value == Version(n.1, n.2, n.3, g.extra, g.meta, JavaStability(g.extra.value).0, JavaStability(g.extra.value).1);
        }
      }
    }
  }

  /** The as-written constructor fails with ArrayIndexOutOfBoundsException
      exactly on accepted strings whose extra part consists of dots only. */
  lemma AsWrittenFailsOnDots(s: string)
    ensures (ParseAsWritten(s).Err? && ParseAsWritten(s).error == ArrayIndexOutOfBounds)
        <==> (Parse(s).Ok? && Parse(s).value.extra.Some? && DotsOnly(Parse(s).value.extra.value))
  {
    ParseShapes(s);
    if Numbers(s).Some? {
      var g := Numbers(s).value.0;
      if g.extra.Some? {
        MatchSound(s);
        NoElementsIffDots(g.extra.value);
      }
    }
  }

  /** Both constructors succeed only on matched numbers; the as-written one
      fails with ArrayIndexOutOfBoundsException exactly on an extra part
      without elements. */
  lemma ParseShapes(s: string)
    ensures Parse(s).Ok? <==> Numbers(s).Some?
    ensures Parse(s).Ok? ==> Parse(s).value.extra == Numbers(s).value.0.extra
    ensures (ParseAsWritten(s).Err? && ParseAsWritten(s).error == ArrayIndexOutOfBounds) <==>
      (Numbers(s).Some? && Numbers(s).value.0.extra.Some? && |JavaElements(Numbers(s).value.0.extra.value)| == 0)
  {
  }

  /** An extra part made of dots and nothing else. */
  predicate DotsOnly(x: string)
  {
    AllAre(x, '.')
  }

  /** A non-empty extra part has no element exactly when it is dots only. */
  lemma NoElementsIffDots(x: string)
    requires x != ""
    ensures |JavaElements(x)| == 0 <==> DotsOnly(x)
  {
    JavaSplitEmpty(x, '.');
  }

  /** A pattern-conforming string whose extra part is dots only makes the
      as-written constructor fail; the corrected one reads it as UNKNOWN. */
  lemma DotsLayout(g: Groups)
    requires ValidGroups(g) && g.extra.Some? && DotsOnly(g.extra.value)
    requires FromGroups(g).Ok?
    ensures ParseAsWritten(Layout(g)) == Err(ArrayIndexOutOfBounds)
    ensures Parse(Layout(g)) == Ok(FromGroups(g).value.(stability := UNKNOWN, stabilityIndex := 0))
  {
    ParseLayout(g);
    ParseAgrees(Layout(g));
    AsWrittenFailsOnDots(Layout(g));
    NoElementsIffDots(g.extra.value);
  }

  /** Three dot-free pieces joined by dots split back into those pieces. */
  lemma SplitThree(x: string, y: string, z: string)
    requires '.' !in x && '.' !in y && '.' !in z
    ensures Split(x + "." + y + "." + z, '.') == [x, y, z]
    ensures '.' in x + "." + y + "." + z
  {
    var s := x + "." + y + "." + z;
    assert s == x + ['.'] + (y + ['.'] + z);
    CutAt(x, '.', y + ['.'] + z);
    CutAt(y, '.', z);
    IndexOfNone(z, '.');
    assert Split(z, '.') == [z];
    assert Split(y + ['.'] + z, '.') == [y, z];
    assert s[|x|] == '.';
  }

  /** Three dot-free elements: Java reads the index from the middle one,
      Kotlin from the last one. */
  lemma IndexOfThree(x: string, y: string, z: string)
    requires '.' !in x && '.' !in y && '.' !in z && z != ""
    ensures JavaElements(x + "." + y + "." + z) == [x, y, z]
    ensures JavaIndexOf(JavaElements(x + "." + y + "." + z)) == ParseUnsignedInt(y).GetOr(0)
    ensures StabilityIndexOf(Some(x + "." + y + "." + z)) == ParseInt(z).GetOr(0)
  {
    SplitThree(x, y, z);
    assert DropTrailingEmpty([x, y, z]) == [x, y, z];
  }

  /** "RC.1.2": index 1 here, 2 in the Kotlin class. */
  lemma IndexExample(x: string, y: string, z: string)
    requires x == "RC" && y == "1" && z == "2"
    ensures JavaIndexOf(JavaElements(x + "." + y + "." + z)) == 1
    ensures StabilityIndexOf(Some(x + "." + y + "." + z)) == 2
  {
    IndexOfThree(x, y, z);
    assert y[..0] == [] && z[..0] == [];
    assert NumberValue(y) == 1 && IsInt32(1);
    assert ParseUnsignedInt(y) == Some(1);
    assert ParseInt(z) == Some(2);
  }
}
