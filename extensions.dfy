/**
 * faucet/src/main/kotlin/org/basinmc/faucet/extension/Extension.kt and
 * faucet/src/main/kotlin/org/basinmc/faucet/extension/dependency/ExtensionReference.kt:
 * the phases an extension passes through, what a manifest declares, how a
 * reference to another extension matches a manifest, and the dependency
 * comparator extensions are sorted with.
 */
module Extensions {
  import opened JavaLang
  import opened SemVer
  import VersionRange

  /** Extension.Phase, in declaration order. */
  datatype Phase = NONE | REGISTERED | RESOLVED | LOADED | RUNNING

  /** ExtensionReference: an identifier and the versions accepted. */
  datatype Reference = Reference(identifier: string, range: VersionRange.Range)

  /** ExtensionDependency and ServiceDependency: a reference that may be optional. */
  datatype Dependency = Dependency(reference: Reference, optional: bool)

  /** ServiceVersion: a provided service and its version. */
  datatype ServiceVersion = ServiceVersion(identifier: string, version: Version)

  /** ExtensionAuthor: a name and an optional alias. */
  datatype Author = Author(name: string, alias: Option<string>)

  /** What an extension manifest declares. */
  datatype Manifest = Manifest(
    identifier: string,
    version: Version,
    distributionId: Option<string>,
    authors: seq<Author>,
    contributors: seq<Author>,
    services: seq<ServiceVersion>,
    extensionDependencies: seq<Dependency>,
    serviceDependencies: seq<Dependency>)

  /** matches(manifest): the identifiers agree ignoring case and the
      manifest's version lies in the range. */
  predicate Matches(r: Reference, m: Manifest)
  {
    EqualsIgnoreCase(m.identifier, r.identifier) && VersionRange.Contains(r.range, m.version)
  }

  /** equals: the identifier, case-sensitively, and the range by its equals. */
  predicate ReferenceEquals(a: Reference, b: Reference)
  {
    a.identifier == b.identifier && VersionRange.RangeEquals(a.range, b.range)
  }

  /** hashCode(): Objects.hash(identifier, versionRange). */
  function ReferenceHash(r: Reference): (h: int)
    ensures IsInt32(h)
  {
    HashAll([StringHash(r.identifier), VersionRange.HashCode(r.range)])
  }

  /** Whether one of a manifest's declared extension dependencies matches the
      other manifest (the anyMatch over extensionDependencies). */
  predicate DependsOn(a: Manifest, b: Manifest)
  {
    exists d :: d in a.extensionDependencies && Matches(d.reference, b)
  }

  /** compareTo(other): 0 when neither or both depend on each other, -1 when
      only the other depends on this one, 1 when only this one depends on the
      other. */
  function CompareExtensions(a: Manifest, b: Manifest): (r: int)
    ensures r in {-1, 0, 1}
  {
    var dependsOnLocal := DependsOn(b, a);
    var dependsOnOther := DependsOn(a, b);
    if dependsOnLocal == dependsOnOther then 0
    else if dependsOnLocal then -1
    else 1
  }

  // ---------------------------------------------------------------------
  // Properties

  /** Versions equal by Version.equals lie in the same ranges. */
  lemma ContainsRespectsEquals(r: VersionRange.Range, v: Version, w: Version)
    requires WellFormed(v) && WellFormed(w) && Equals(v, w)
    ensures VersionRange.Contains(r, v) <==> VersionRange.Contains(r, w)
  {
    EqualsSameKey(v, w);
    VersionRange.ContainsByKeys(r, v);
    VersionRange.ContainsByKeys(r, w);
  }

  /** matches depends on the identifier only up to case ... */
  lemma MatchesIgnoresCase(r: Reference, m: Manifest, id: string)
    requires Lower(id) == Lower(r.identifier)
    ensures Matches(r, m) <==> Matches(r.(identifier := id), m)
  {
  }

  /** ... on nothing of the manifest but its identifier (up to case) and its
      version (up to Version.equals) ... */
  lemma MatchesByIdentity(r: Reference, m: Manifest, n: Manifest)
    requires WellFormed(m.version) && WellFormed(n.version)
    requires Lower(m.identifier) == Lower(n.identifier) && Equals(m.version, n.version)
    ensures Matches(r, m) <==> Matches(r, n)
  {
    ContainsRespectsEquals(r.range, m.version, n.version);
  }

  /** ... and never accepts another identifier. */
  lemma MatchesNeedsIdentifier(r: Reference, m: Manifest)
    requires Lower(m.identifier) != Lower(r.identifier)
    ensures !Matches(r, m)
  {
  }

  /** Equal references match the same manifests and hash alike. */
  lemma ReferenceEqualsAgree(a: Reference, b: Reference, m: Manifest)
    requires ReferenceEquals(a, b)
    requires a.range.start.Some? ==> WellFormed(a.range.start.value) && WellFormed(b.range.start.value)
    requires a.range.end.Some? ==> WellFormed(a.range.end.value) && WellFormed(b.range.end.value)
    ensures Matches(a, m) <==> Matches(b, m)
    ensures ReferenceHash(a) == ReferenceHash(b)
  {
    var ra, rb := a.range, b.range;
    if ra.start.Some? { EqualsSameKey(ra.start.value, rb.start.value); }
    if ra.end.Some? { EqualsSameKey(ra.end.value, rb.end.value); }
    VersionRange.ContainsByKeys(ra, m.version);
    VersionRange.ContainsByKeys(rb, m.version);
    VersionRange.HashCodeOfEquals(ra, rb);
  }

  /** The comparator by cases: -1 and 1 exactly for one-sided dependencies. */
  lemma CompareCases(a: Manifest, b: Manifest)
    ensures CompareExtensions(a, b) == 0 <==> (DependsOn(a, b) <==> DependsOn(b, a))
    ensures CompareExtensions(a, b) == -1 <==> DependsOn(b, a) && !DependsOn(a, b)
    ensures CompareExtensions(a, b) == 1 <==> DependsOn(a, b) && !DependsOn(b, a)
  {
  }

  /** It is antisymmetric and reflexive. */
  lemma CompareAntisymmetric(a: Manifest, b: Manifest)
    ensures CompareExtensions(a, b) == -CompareExtensions(b, a)
    ensures CompareExtensions(a, a) == 0
  {
  }

  /** A manifest of the given identifier and version that depends on the given
      identifiers, each at exactly that version or later. */
  function Declaring(id: string, v: Version, deps: seq<string>): Manifest
  {
    Manifest(id, v, None, [], [], [], Requiring(deps, v), [])
  }

  function Requiring(ids: seq<string>, v: Version): (r: seq<Dependency>)
    ensures |r| == |ids|
    ensures forall i :: 0 <= i < |ids| ==> r[i] == Dependency(Reference(ids[i], AtLeast(v)), false)
  {
    if ids == [] then [] else [Dependency(Reference(ids[0], AtLeast(v)), false)] + Requiring(ids[1..], v)
  }

  /** The range "[v": v and every later version. */
  function AtLeast(v: Version): VersionRange.Range
  {
    VersionRange.Range(Some(v), true, None, false, false)
  }

  /** It is not transitive: when c depends on b and b on a, but c not on a,
      a sorts before b and b before c while a and c tie, so sorting with it
      gives no topological order. */
  lemma CompareNotTransitive(v: Version)
    ensures var a, b, c := Declaring("a", v, []), Declaring("b", v, ["a"]), Declaring("c", v, ["b"]);
      CompareExtensions(a, b) == -1 && CompareExtensions(b, c) == -1 && CompareExtensions(a, c) == 0
  {
    var a, b, c := Declaring("a", v, []), Declaring("b", v, ["a"]), Declaring("c", v, ["b"]);
    CompareToZero(v, v);
    assert Matches(b.extensionDependencies[0].reference, a);
    assert Matches(c.extensionDependencies[0].reference, b);
    assert Lower("b") != Lower("a") by { assert Lower("b")[0] != Lower("a")[0]; }
    assert Lower("c") != Lower("b") by { assert Lower("c")[0] != Lower("b")[0]; }
    assert !DependsOn(c, a) by {
      forall d | d in c.extensionDependencies ensures !Matches(d.reference, a) {
        MatchesNeedsIdentifier(d.reference, a);
      }
    }
    assert !DependsOn(b, c) by {
      forall d | d in b.extensionDependencies ensures !Matches(d.reference, c) {
        assert Lower("a")[0] != Lower("c")[0];
        MatchesNeedsIdentifier(d.reference, c);
      }
    }
  }
}
