/**
 * sink/src/main/java/org/basinmc/sink/plugin/manifest/ExtensionManifestImpl.java:
 * the binary extension manifest. Reading it means the magic number, then the
 * identifier, the version and the distribution id as strings, then the
 * author and contributor lists, the provided services, and the extension
 * and service dependencies, each through BufferUtil.
 *
 * No constructor of ExtensionAuthorImpl reads from a buffer, so the decoder
 * for one author is a parameter here. Versions and ranges are parsed by the
 * Java Version and VersionRange constructors as they are written
 * (SemVerJava.ParseAsWritten, VersionRangeJava.ParseAsWritten).
 */
module ManifestCodec {
  import opened JavaLang
  import opened Utf8
  import opened Buffers
  import opened SemVer
  import SemVerJava
  import VersionRange
  import VersionRangeJava
  import opened Extensions
  import Header

  // ---------------------------------------------------------------------
  // Fields

  /** A string that must be present: the zero-length frame throws `missing`. */
  function RequiredString(d: seq<Byte>, missing: Exception): (r: Result<(string, seq<Byte>)>)
    ensures r.Ok? ==> r.value.0 != [] && Suffix(r.value.1, d)
    ensures StringAt(d).Ok? && StringAt(d).value.0.None? ==> r == Err(missing)
  {
    var s := StringAt(d);
    if s.Err? then Err(s.error)
    else if s.value.0.None? then Err(missing)
    else Ok((s.value.0.value, s.value.1))
  }

  /** readString(..).map(Version::new).orElseThrow(..): a missing version
      throws `missing`; a malformed one the Version constructor's error. */
  function VersionField(d: seq<Byte>, missing: Exception): (r: Result<(Version, seq<Byte>)>)
    ensures r.Ok? ==> Suffix(r.value.1, d)
    ensures r.Ok? ==> RequiredString(d, missing).Ok? && SemVerJava.ParseAsWritten(RequiredString(d, missing).value.0) == Ok(r.value.0)
  {
    var s := RequiredString(d, missing);
    if s.Err? then Err(s.error)
    else
      var v := SemVerJava.ParseAsWritten(s.value.0);
      if v.Err? then Err(v.error) else Ok((v.value, s.value.1))
  }

  /** readString(..).map(VersionRange::new).orElseThrow(..). */
  function RangeField(d: seq<Byte>, missing: Exception): (r: Result<(VersionRange.Range, seq<Byte>)>)
    ensures r.Ok? ==> Suffix(r.value.1, d)
    ensures r.Ok? ==> RequiredString(d, missing).Ok? && VersionRangeJava.ParseAsWritten(RequiredString(d, missing).value.0) == Ok(r.value.0)
  {
    var s := RequiredString(d, missing);
    if s.Err? then Err(s.error)
    else
      var v := VersionRangeJava.ParseAsWritten(s.value.0);
      if v.Err? then Err(v.error) else Ok((v.value, s.value.1))
  }

  /** The service decoder: an identifier and a version, both required, a
      missing one throwing IllegalArgumentException. */
  function ServiceAt(d: seq<Byte>): (r: Result<(ServiceVersion, seq<Byte>)>)
    ensures r.Ok? ==> Suffix(r.value.1, d) && r.value.0.identifier != []
  {
    var id := RequiredString(d, IllegalArgument);
    if id.Err? then Err(id.error)
    else
      var version := VersionField(id.value.1, IllegalArgument);
      if version.Err? then Err(version.error)
      else Ok((ServiceVersion(id.value.0, version.value.0), version.value.1))
  }

  /** readDependency: an identifier and a version range, both required, then
      the optional flag. */
  function DependencyAt(d: seq<Byte>): (r: Result<(Dependency, seq<Byte>)>)
    ensures r.Ok? ==> Suffix(r.value.1, d) && r.value.0.reference.identifier != []
  {
    var id := RequiredString(d, IllegalArgument);
    if id.Err? then Err(id.error)
    else
      var range := RangeField(id.value.1, IllegalArgument);
      if range.Err? then Err(range.error)
      else
        var optional := BooleanAt(range.value.1);
        if optional.Err? then Err(optional.error)
        else
          SuffixOfSuffix(optional.value.1, range.value.1, id.value.1);
          SuffixOfSuffix(optional.value.1, id.value.1, d);
          Ok((Dependency(Reference(id.value.0, range.value.0), optional.value.0), optional.value.1))
  }

  // ---------------------------------------------------------------------
  // The manifest

  /** The fields before the lists. */
  datatype Head = Head(identifier: string, version: Version, distributionId: Option<string>)

  /** The five lists, in the order they are read. */
  datatype Lists = Lists(
    authors: seq<Author>,
    contributors: seq<Author>,
    services: seq<ServiceVersion>,
    extensionDependencies: seq<Dependency>,
    serviceDependencies: seq<Dependency>)

  /** The magic number, then the required identifier and version (both
      missing ones throwing ExtensionManifestException), then the optional
      distribution id. */
  function HeadAt(d: seq<Byte>): (r: Result<(Head, seq<Byte>)>)
    ensures r.Ok? ==> r.value.0.identifier != []
    ensures |d| >= 4 && IntAt(d).value.0 != Header.MAGIC_NUMBER ==> r == Err(ManifestError)
  {
    var magic := CheckMagic(d, Header.MAGIC_NUMBER, ManifestError);
    if magic.Err? then Err(magic.error) else NamedAt(magic.value)
  }

  /** The fields after the magic number. */
  function NamedAt(d: seq<Byte>): (r: Result<(Head, seq<Byte>)>)
    ensures r.Ok? ==> r.value.0.identifier != []
  {
    var id := RequiredString(d, ManifestError);
    if id.Err? then Err(id.error) else VersionedAt(id.value.0, id.value.1)
  }

  /** The fields after the identifier. */
  function VersionedAt(identifier: string, d: seq<Byte>): (r: Result<(Head, seq<Byte>)>)
    ensures r.Ok? ==> r.value.0.identifier == identifier
  {
    var version := VersionField(d, ManifestError);
    if version.Err? then Err(version.error)
    else
      var distribution := StringAt(version.value.1);
      if distribution.Err? then Err(distribution.error)
      else Ok((Head(identifier, version.value.0, distribution.value.0), distribution.value.1))
  }

  function ListsAt(d: seq<Byte>, author: seq<Byte> -> Result<(Author, seq<Byte>)>): Result<(Lists, seq<Byte>)>
  {
    var authors := ListAt(d, author);
    if authors.Err? then Err(authors.error)
    else
      var contributors := ListAt(authors.value.1, author);
      if contributors.Err? then Err(contributors.error)
      else
        var services := ListAt(contributors.value.1, ServiceAt);
        if services.Err? then Err(services.error)
        else
          var extensions := ListAt(services.value.1, DependencyAt);
          if extensions.Err? then Err(extensions.error)
          else
            var serviceDeps := ListAt(extensions.value.1, DependencyAt);
            if serviceDeps.Err? then Err(serviceDeps.error)
            else Ok((Lists(authors.value.0, contributors.value.0, services.value.0, extensions.value.0, serviceDeps.value.0), serviceDeps.value.1))
  }

  function Assemble(h: Head, l: Lists): Manifest
  {
    Manifest(h.identifier, h.version, h.distributionId, l.authors, l.contributors, l.services, l.extensionDependencies, l.serviceDependencies)
  }

  /** The private constructor reading from a buffer, field by field; the
      first failure is what it throws. */
  function ManifestAt(d: seq<Byte>, author: seq<Byte> -> Result<(Author, seq<Byte>)>): (r: Result<(Manifest, seq<Byte>)>)
    ensures r.Ok? ==> r.value.0.identifier != []
    ensures |d| >= 4 && IntAt(d).value.0 != Header.MAGIC_NUMBER ==> r == Err(ManifestError)
  {
    var head := HeadAt(d);
    if head.Err? then Err(head.error)
    else
      var lists := ListsAt(head.value.1, author);
      if lists.Err? then Err(lists.error)
      else Ok((Assemble(head.value.0, lists.value.0), lists.value.1))
  }

  lemma DecodersConsume()
    ensures Consumes(ServiceAt) && Consumes(DependencyAt)
  {
  }

  /** readString(..).orElseThrow(..). */
  method ReadRequiredString(buffer: ByteBuf, missing: Exception) returns (r: Result<string>)
    requires buffer.Valid()
    modifies buffer
    ensures buffer.Valid() && buffer.data == old(buffer.data)
    ensures r == Value(RequiredString(old(buffer.Readable()), missing))
    ensures r.Ok? ==> buffer.Readable() == RequiredString(old(buffer.Readable()), missing).value.1
  {
    var s := ReadString(buffer);
    if s.Err? {
      return Err(s.error);
    }
    if s.value.None? {
      return Err(missing);
    }
    r := Ok(s.value.value);
  }

  /** readString(..).map(Version::new).orElseThrow(..). */
  method ReadVersion(buffer: ByteBuf, missing: Exception) returns (r: Result<Version>)
    requires buffer.Valid()
    modifies buffer
    ensures buffer.Valid() && buffer.data == old(buffer.data)
    ensures r == Value(VersionField(old(buffer.Readable()), missing))
    ensures r.Ok? ==> buffer.Readable() == VersionField(old(buffer.Readable()), missing).value.1
  {
    var s := ReadRequiredString(buffer, missing);
    if s.Err? {
      return Err(s.error);
    }
    r := SemVerJava.ParseAsWritten(s.value);
  }

  method ReadHead(buffer: ByteBuf) returns (r: Result<Head>)
    requires buffer.Valid()
    modifies buffer
    ensures buffer.Valid() && buffer.data == old(buffer.data)
    ensures r == Value(HeadAt(old(buffer.Readable())))
    ensures r.Ok? ==> buffer.Readable() == HeadAt(old(buffer.Readable())).value.1
  {
    var magic := CheckMagicValue(buffer, Header.MAGIC_NUMBER, ManifestError);
    if magic.Thrown? {
      return Err(magic.error);
    }
    r := ReadNamed(buffer);
  }

  method ReadNamed(buffer: ByteBuf) returns (r: Result<Head>)
    requires buffer.Valid()
    modifies buffer
    ensures buffer.Valid() && buffer.data == old(buffer.data)
    ensures r == Value(NamedAt(old(buffer.Readable())))
    ensures r.Ok? ==> buffer.Readable() == NamedAt(old(buffer.Readable())).value.1
  {
    var identifier := ReadRequiredString(buffer, ManifestError);
    if identifier.Err? {
      return Err(identifier.error);
    }
    r := ReadVersioned(buffer, identifier.value);
  }

  method ReadVersioned(buffer: ByteBuf, identifier: string) returns (r: Result<Head>)
    requires buffer.Valid()
    modifies buffer
    ensures buffer.Valid() && buffer.data == old(buffer.data)
    ensures r == Value(VersionedAt(identifier, old(buffer.Readable())))
    ensures r.Ok? ==> buffer.Readable() == VersionedAt(identifier, old(buffer.Readable())).value.1
  {
    var version := ReadVersion(buffer, ManifestError);
    if version.Err? {
      return Err(version.error);
    }
    var distributionId := ReadUUID(buffer);
    if distributionId.Err? {
      return Err(distributionId.error);
    }
    r := Ok(Head(identifier, version.value, distributionId.value));
  }

  method ReadLists(buffer: ByteBuf, author: seq<Byte> -> Result<(Author, seq<Byte>)>) returns (r: Result<Lists>)
    requires buffer.Valid() && Consumes(author)
    modifies buffer
    ensures buffer.Valid() && buffer.data == old(buffer.data)
    ensures r == Value(ListsAt(old(buffer.Readable()), author))
    ensures r.Ok? ==> buffer.Readable() == ListsAt(old(buffer.Readable()), author).value.1
  {
    DecodersConsume();
    var authors := ReadList(buffer, author);
    if authors.Err? {
      return Err(authors.error);
    }
    var contributors := ReadList(buffer, author);
    if contributors.Err? {
      return Err(contributors.error);
    }
    var services := ReadList(buffer, ServiceAt);
    if services.Err? {
      return Err(services.error);
    }
    var extensionDependencies := ReadList(buffer, DependencyAt);
    if extensionDependencies.Err? {
      return Err(extensionDependencies.error);
    }
    var serviceDependencies := ReadList(buffer, DependencyAt);
    if serviceDependencies.Err? {
      return Err(serviceDependencies.error);
    }
    r := Ok(Lists(authors.value, contributors.value, services.value, extensionDependencies.value, serviceDependencies.value));
  }

  /** The constructor over a buffer. */
  method ReadManifest(buffer: ByteBuf, author: seq<Byte> -> Result<(Author, seq<Byte>)>) returns (r: Result<Manifest>)
    requires buffer.Valid() && Consumes(author)
    modifies buffer
    ensures buffer.Valid() && buffer.data == old(buffer.data)
    ensures r == Value(ManifestAt(old(buffer.Readable()), author))
    ensures r.Ok? ==> buffer.Readable() == ManifestAt(old(buffer.Readable()), author).value.1
  {
    var head := ReadHead(buffer);
    if head.Err? {
      return Err(head.error);
    }
    var lists := ReadLists(buffer, author);
    if lists.Err? {
      return Err(lists.error);
    }
    r := Ok(Assemble(head.value, lists.value));
  }

  /** equals: the identifiers, case-sensitively, and the versions by
      Version.equals. */
  function ManifestEquals(a: Manifest, b: Manifest): (r: bool)
    ensures r <==> a.identifier == b.identifier && SemVerJava.CompareTo(a.version, b.version) == 0
  {
    a.identifier == b.identifier && Equals(a.version, b.version)
  }

  /** hashCode: Objects.hash(identifier, version). */
  function ManifestHash(m: Manifest): (h: int)
    ensures IsInt32(h)
  {
    HashAll([StringHash(m.identifier), SemVerJava.HashCode(m.version)])
  }

  // ---------------------------------------------------------------------
  // What a writer lays out

  datatype ServiceRecord = ServiceRecord(identifier: string, versionText: string, version: Version)

  datatype DependencyRecord = DependencyRecord(identifier: string, rangeText: string, range: VersionRange.Range, optional: bool)

  /** A manifest as written: the version and ranges as text, next to what
      that text stands for. */
  datatype ManifestRecord = ManifestRecord(
    identifier: string,
    versionText: string,
    version: Version,
    distributionId: Option<string>,
    authors: seq<Author>,
    contributors: seq<Author>,
    services: seq<ServiceRecord>,
    extensionDependencies: seq<DependencyRecord>,
    serviceDependencies: seq<DependencyRecord>)

  /** A non-empty string whose UTF-8 form fits a 16-bit length. */
  predicate Fits(s: string)
  {
    s != [] && |Encode(s)| < 0x1_0000
  }

  function ServiceBytes(s: ServiceRecord): seq<Byte>
  {
    StringFrame(Some(s.identifier)) + StringFrame(Some(s.versionText))
  }

  function ServiceView(s: ServiceRecord): ServiceVersion
  {
    ServiceVersion(s.identifier, s.version)
  }

  predicate ServiceEncodable(s: ServiceRecord)
  {
    Fits(s.identifier) && Fits(s.versionText) && SemVerJava.ParseAsWritten(s.versionText) == Ok(s.version)
  }

  function DependencyBytes(x: DependencyRecord): seq<Byte>
  {
    StringFrame(Some(x.identifier)) + StringFrame(Some(x.rangeText)) + BooleanBytes(x.optional)
  }

  function DependencyView(x: DependencyRecord): Dependency
  {
    Dependency(Reference(x.identifier, x.range), x.optional)
  }

  predicate DependencyEncodable(x: DependencyRecord)
  {
    Fits(x.identifier) && Fits(x.rangeText) && VersionRangeJava.ParseAsWritten(x.rangeText) == Ok(x.range)
  }

  function HeadBytes(m: ManifestRecord): seq<Byte>
  {
    IntBytes(Header.MAGIC_NUMBER) + StringFrame(Some(m.identifier)) + StringFrame(Some(m.versionText)) + StringFrame(m.distributionId)
  }

  function ListsBytes(m: ManifestRecord, authorBytes: Author -> seq<Byte>): seq<Byte>
  {
    ListFrame(m.authors, authorBytes) + ListFrame(m.contributors, authorBytes) + ListFrame(m.services, ServiceBytes)
    + ListFrame(m.extensionDependencies, DependencyBytes) + ListFrame(m.serviceDependencies, DependencyBytes)
  }

  /** The manifest's bytes as a writer lays them out, field by field. */
  function ManifestBytes(m: ManifestRecord, authorBytes: Author -> seq<Byte>): seq<Byte>
  {
    HeadBytes(m) + ListsBytes(m, authorBytes)
  }

  /** The manifest a record stands for. */
  function ManifestOf(m: ManifestRecord): Manifest
  {
    Manifest(m.identifier, m.version, m.distributionId, m.authors, m.contributors,
             MapSeq(m.services, ServiceView), MapSeq(m.extensionDependencies, DependencyView),
             MapSeq(m.serviceDependencies, DependencyView))
  }

  /** What a record needs to be read back: present strings that fit, texts
      that parse to the values beside them, lists that fit a 16-bit count,
      and an author decoder that undoes the author encoder. */
  ghost predicate Encodable(m: ManifestRecord, authorBytes: Author -> seq<Byte>, author: seq<Byte> -> Result<(Author, seq<Byte>)>)
  {
    && Fits(m.identifier) && Fits(m.versionText) && SemVerJava.ParseAsWritten(m.versionText) == Ok(m.version)
    && (m.distributionId.Some? ==> Fits(m.distributionId.value))
    && |m.authors| < 0x1_0000 && |m.contributors| < 0x1_0000 && |m.services| < 0x1_0000
    && |m.extensionDependencies| < 0x1_0000 && |m.serviceDependencies| < 0x1_0000
    && (forall a, r :: a in m.authors + m.contributors ==> author(authorBytes(a) + r) == Ok((a, r)))
    && (forall i :: 0 <= i < |m.services| ==> ServiceEncodable(m.services[i]))
    && (forall i :: 0 <= i < |m.extensionDependencies| ==> DependencyEncodable(m.extensionDependencies[i]))
    && (forall i :: 0 <= i < |m.serviceDependencies| ==> DependencyEncodable(m.serviceDependencies[i]))
  }

  // ---------------------------------------------------------------------
  // Properties

  lemma RequiredStringRoundTrip(s: string, missing: Exception, rest: seq<Byte>)
    requires Fits(s)
    ensures RequiredString(StringFrame(Some(s)) + rest, missing) == Ok((s, rest))
  {
    StringRoundTrip(s, rest);
  }

  lemma VersionFieldRoundTrip(text: string, v: Version, missing: Exception, rest: seq<Byte>)
    requires Fits(text) && SemVerJava.ParseAsWritten(text) == Ok(v)
    ensures VersionField(StringFrame(Some(text)) + rest, missing) == Ok((v, rest))
  {
    RequiredStringRoundTrip(text, missing, rest);
  }

  lemma RangeFieldRoundTrip(text: string, range: VersionRange.Range, missing: Exception, rest: seq<Byte>)
    requires Fits(text) && VersionRangeJava.ParseAsWritten(text) == Ok(range)
    ensures RangeField(StringFrame(Some(text)) + rest, missing) == Ok((range, rest))
  {
    RequiredStringRoundTrip(text, missing, rest);
  }

  /** A service reads back as written. */
  lemma ServiceRoundTrip(s: ServiceRecord, rest: seq<Byte>)
    requires ServiceEncodable(s)
    ensures ServiceAt(ServiceBytes(s) + rest) == Ok((ServiceView(s), rest))
  {
    var tail := StringFrame(Some(s.versionText)) + rest;
    var d := ServiceBytes(s) + rest;
    Concat2(StringFrame(Some(s.identifier)), StringFrame(Some(s.versionText)), rest);
    RequiredStringRoundTrip(s.identifier, IllegalArgument, tail);
    assert RequiredString(d, IllegalArgument) == Ok((s.identifier, tail));
    VersionFieldRoundTrip(s.versionText, s.version, IllegalArgument, rest);
  }

  /** A dependency reads back as written. */
  lemma DependencyRoundTrip(x: DependencyRecord, rest: seq<Byte>)
    requires DependencyEncodable(x)
    ensures DependencyAt(DependencyBytes(x) + rest) == Ok((DependencyView(x), rest))
  {
    var flag := BooleanBytes(x.optional) + rest;
    var tail := StringFrame(Some(x.rangeText)) + flag;
    var d := DependencyBytes(x) + rest;
    Concat3(StringFrame(Some(x.identifier)), StringFrame(Some(x.rangeText)), BooleanBytes(x.optional), rest);
    RequiredStringRoundTrip(x.identifier, IllegalArgument, tail);
    assert RequiredString(d, IllegalArgument) == Ok((x.identifier, tail));
    RangeFieldRoundTrip(x.rangeText, x.range, IllegalArgument, flag);
    BooleanRoundTrip(x.optional, rest);
  }

  lemma ServicesRoundTrip(items: seq<ServiceRecord>, rest: seq<Byte>)
    requires |items| < 0x1_0000 && forall i :: 0 <= i < |items| ==> ServiceEncodable(items[i])
    ensures ListAt(ListFrame(items, ServiceBytes) + rest, ServiceAt) == Ok((MapSeq(items, ServiceView), rest))
  {
    forall x, r | x in items
      ensures ServiceAt(ServiceBytes(x) + r) == Ok((ServiceView(x), r))
    {
      ServiceRoundTrip(x, r);
    }
    ListRoundTrip(items, ServiceBytes, ServiceView, ServiceAt, rest);
  }

  lemma DependenciesRoundTrip(items: seq<DependencyRecord>, rest: seq<Byte>)
    requires |items| < 0x1_0000 && forall i :: 0 <= i < |items| ==> DependencyEncodable(items[i])
    ensures ListAt(ListFrame(items, DependencyBytes) + rest, DependencyAt) == Ok((MapSeq(items, DependencyView), rest))
  {
    forall x, r | x in items
      ensures DependencyAt(DependencyBytes(x) + r) == Ok((DependencyView(x), r))
    {
      DependencyRoundTrip(x, r);
    }
    ListRoundTrip(items, DependencyBytes, DependencyView, DependencyAt, rest);
  }

  lemma AuthorsRoundTrip(items: seq<Author>, authorBytes: Author -> seq<Byte>, author: seq<Byte> -> Result<(Author, seq<Byte>)>, rest: seq<Byte>)
    requires |items| < 0x1_0000
    requires forall a, r :: a in items ==> author(authorBytes(a) + r) == Ok((a, r))
    ensures ListAt(ListFrame(items, authorBytes) + rest, author) == Ok((items, rest))
  {
    var same := (a: Author) => a;
    ListRoundTrip(items, authorBytes, same, author, rest);
    assert MapSeq(items, same) == items;
  }

  lemma HeadRoundTrip(m: ManifestRecord, authorBytes: Author -> seq<Byte>, author: seq<Byte> -> Result<(Author, seq<Byte>)>, t4: seq<Byte>)
    requires Encodable(m, authorBytes, author)
    ensures HeadAt(HeadBytes(m) + t4) == Ok((Head(m.identifier, m.version, m.distributionId), t4))
  {
    var t3 := StringFrame(m.distributionId) + t4;
    var t2 := StringFrame(Some(m.versionText)) + t3;
    var t1 := StringFrame(Some(m.identifier)) + t2;
    Concat4(IntBytes(Header.MAGIC_NUMBER), StringFrame(Some(m.identifier)), StringFrame(Some(m.versionText)), StringFrame(m.distributionId), t4);
    IntRoundTrip(Header.MAGIC_NUMBER, t1);
    RequiredStringRoundTrip(m.identifier, ManifestError, t2);
    VersionFieldRoundTrip(m.versionText, m.version, ManifestError, t3);
    OptionStringRoundTrip(m.distributionId, t4);
  }

  lemma ListsRoundTrip(m: ManifestRecord, authorBytes: Author -> seq<Byte>, author: seq<Byte> -> Result<(Author, seq<Byte>)>, rest: seq<Byte>)
    requires Encodable(m, authorBytes, author)
    ensures ListsAt(ListsBytes(m, authorBytes) + rest, author)
         == Ok((Lists(m.authors, m.contributors, MapSeq(m.services, ServiceView), MapSeq(m.extensionDependencies, DependencyView),
                      MapSeq(m.serviceDependencies, DependencyView)), rest))
  {
    var t8 := ListFrame(m.serviceDependencies, DependencyBytes) + rest;
    var t7 := ListFrame(m.extensionDependencies, DependencyBytes) + t8;
    var t6 := ListFrame(m.services, ServiceBytes) + t7;
    var t5 := ListFrame(m.contributors, authorBytes) + t6;
    Concat5(ListFrame(m.authors, authorBytes), ListFrame(m.contributors, authorBytes), ListFrame(m.services, ServiceBytes),
            ListFrame(m.extensionDependencies, DependencyBytes), ListFrame(m.serviceDependencies, DependencyBytes), rest);
    assert forall a :: a in m.authors ==> a in m.authors + m.contributors;
    assert forall a :: a in m.contributors ==> a in m.authors + m.contributors;
    AuthorsRoundTrip(m.authors, authorBytes, author, t5);
    AuthorsRoundTrip(m.contributors, authorBytes, author, t6);
    ServicesRoundTrip(m.services, t7);
    DependenciesRoundTrip(m.extensionDependencies, t8);
    DependenciesRoundTrip(m.serviceDependencies, rest);
    ListsAtSteps(ListFrame(m.authors, authorBytes) + t5, author, m.authors, t5, m.contributors, t6,
      MapSeq(m.services, ServiceView), t7, MapSeq(m.extensionDependencies, DependencyView), t8,
      MapSeq(m.serviceDependencies, DependencyView), rest);
  }

  /** The lists are the five lists read in turn. */
  lemma ListsAtSteps(d: seq<Byte>, author: seq<Byte> -> Result<(Author, seq<Byte>)>,
                     a: seq<Author>, t1: seq<Byte>, c: seq<Author>, t2: seq<Byte>, s: seq<ServiceVersion>, t3: seq<Byte>,
                     e: seq<Dependency>, t4: seq<Byte>, sd: seq<Dependency>, rest: seq<Byte>)
    requires ListAt(d, author) == Ok((a, t1)) && ListAt(t1, author) == Ok((c, t2)) && ListAt(t2, ServiceAt) == Ok((s, t3))
    requires ListAt(t3, DependencyAt) == Ok((e, t4)) && ListAt(t4, DependencyAt) == Ok((sd, rest))
    ensures ListsAt(d, author) == Ok((Lists(a, c, s, e, sd), rest))
  {
  }

  /** Reading gives back the manifest a writer laid out, and leaves what
      follows it. */
  lemma ManifestRoundTrip(m: ManifestRecord, authorBytes: Author -> seq<Byte>, author: seq<Byte> -> Result<(Author, seq<Byte>)>, rest: seq<Byte>)
    requires Encodable(m, authorBytes, author)
    ensures ManifestAt(ManifestBytes(m, authorBytes) + rest, author) == Ok((ManifestOf(m), rest))
  {
    var t4 := ListsBytes(m, authorBytes) + rest;
    Concat2(HeadBytes(m), ListsBytes(m, authorBytes), rest);
    HeadRoundTrip(m, authorBytes, author, t4);
    ListsRoundTrip(m, authorBytes, author, rest);
    ManifestAtSteps(HeadBytes(m) + t4, author, Head(m.identifier, m.version, m.distributionId), t4,
      Lists(m.authors, m.contributors, MapSeq(m.services, ServiceView), MapSeq(m.extensionDependencies, DependencyView),
            MapSeq(m.serviceDependencies, DependencyView)), rest);
  }

  /** The manifest is the head read first and the lists read after it. */
  lemma ManifestAtSteps(d: seq<Byte>, author: seq<Byte> -> Result<(Author, seq<Byte>)>, h: Head, t: seq<Byte>, l: Lists, rest: seq<Byte>)
    requires HeadAt(d) == Ok((h, t)) && ListsAt(t, author) == Ok((l, rest))
    ensures ManifestAt(d, author) == Ok((Assemble(h, l), rest))
  {
  }

  /** A zero-length identifier throws ExtensionManifestException, whatever
      follows. */
  lemma MissingIdentifier(author: seq<Byte> -> Result<(Author, seq<Byte>)>, rest: seq<Byte>)
    ensures ManifestAt(IntBytes(Header.MAGIC_NUMBER) + StringFrame(None) + rest, author) == Err(ManifestError)
  {
    var tail := StringFrame(None) + rest;
    assert IntBytes(Header.MAGIC_NUMBER) + StringFrame(None) + rest == IntBytes(Header.MAGIC_NUMBER) + tail;
    IntRoundTrip(Header.MAGIC_NUMBER, tail);
    StringEmptyRoundTrip(rest);
  }

  /** A version text the Version constructor rejects escapes as the
      constructor's own exception (IllegalArgumentException, or
      ArrayIndexOutOfBoundsException for an extra part of dots only), not as
      ExtensionManifestException. */
  lemma MalformedVersion(id: string, text: string, author: seq<Byte> -> Result<(Author, seq<Byte>)>, rest: seq<Byte>)
    requires Fits(id) && Fits(text) && SemVerJava.ParseAsWritten(text).Err?
    ensures ManifestAt(IntBytes(Header.MAGIC_NUMBER) + StringFrame(Some(id)) + StringFrame(Some(text)) + rest, author)
      == Err(SemVerJava.ParseAsWritten(text).error)
  {
    var t2 := StringFrame(Some(text)) + rest;
    var t1 := StringFrame(Some(id)) + t2;
    Concat3(IntBytes(Header.MAGIC_NUMBER), StringFrame(Some(id)), StringFrame(Some(text)), rest);
    IntRoundTrip(Header.MAGIC_NUMBER, t1);
    RequiredStringRoundTrip(id, ManifestError, t2);
    RequiredStringRoundTrip(text, ManifestError, rest);
    var e := SemVerJava.ParseAsWritten(text).error;
    assert VersionField(t2, ManifestError) == Err(e);
    assert NamedAt(t1) == Err(e);
    assert HeadAt(IntBytes(Header.MAGIC_NUMBER) + t1) == Err(e);
  }

  /** Equal manifests hash alike. */
  lemma ManifestHashOfEquals(a: Manifest, b: Manifest)
    requires ManifestEquals(a, b)
    ensures ManifestHash(a) == ManifestHash(b)
  {
    SemVerJava.HashCodeOfEquals(a.version, b.version);
  }
}
