/**
 * sink/src/main/java/org/basinmc/sink/plugin/manifest/ExtensionHeader.java:
 * the fixed-size area at the start of an extension container. It holds the
 * magic number, two flag bytes that are skipped, then the lengths of the
 * manifest, the signature and the content as longs.
 */
module Header {
  import opened JavaLang
  import opened Utf8
  import opened Buffers

  /** The total length of the header area in bytes. */
  const LENGTH: int := 30

  /** The magic number opening every container and manifest
      (faucet/src/main/java/org/basinmc/faucet/extension/manifest/ExtensionManifest.java). */
  const MAGIC_NUMBER: int := 0x0DEB_AC1E

  datatype ExtensionHeader = ExtensionHeader(manifestLength: int, signatureLength: int, contentLength: int)

  /** Every field fits a Java long. */
  predicate WellFormed(h: ExtensionHeader)
  {
    IsInt64(h.manifestLength) && IsInt64(h.signatureLength) && IsInt64(h.contentLength)
  }

  /** The header read from the start of `d`, and the bytes after it: the
      magic number is checked first, a mismatch failing with
      ExtensionManifestException. */
  function HeaderAt(d: seq<Byte>): (r: Result<(ExtensionHeader, seq<Byte>)>)
    ensures r.Ok? ==> |d| >= LENGTH && r.value.1 == d[LENGTH..] && WellFormed(r.value.0)
    ensures |d| >= 4 && IntAt(d).value.0 != MAGIC_NUMBER ==> r == Err(ManifestError)
    ensures |d| >= LENGTH && IntAt(d).value.0 == MAGIC_NUMBER ==> r.Ok?
  {
    var magic := CheckMagic(d, MAGIC_NUMBER, ManifestError);
    if magic.Err? then Err(magic.error)
    else
      var flags := BytesOf(magic.value, 2);
      if flags.Err? then Err(flags.error)
      else
        var manifest := LongAt(flags.value.1);
        if manifest.Err? then Err(manifest.error)
        else
          var signature := LongAt(manifest.value.1);
          if signature.Err? then Err(signature.error)
          else
            var content := LongAt(signature.value.1);
            if content.Err? then Err(content.error)
            else Ok((ExtensionHeader(manifest.value.0, signature.value.0, content.value.0), content.value.1))
  }

  /** The constructor reading from a buffer. */
  method ReadHeader(input: ByteBuf) returns (r: Result<ExtensionHeader>)
    requires input.Valid()
    modifies input
    ensures input.Valid() && input.data == old(input.data)
    ensures r == Value(HeaderAt(old(input.Readable())))
    ensures r.Ok? ==> input.Readable() == old(input.Readable())[LENGTH..]
  {
    var magic := CheckMagicValue(input, MAGIC_NUMBER, ManifestError);
    if magic.Thrown? {
      return Err(magic.error);
    }
    var flags := input.ReadBytes(2);
    if flags.Err? {
      return Err(flags.error);
    }
    var manifestLength := input.ReadLong();
    if manifestLength.Err? {
      return Err(manifestLength.error);
    }
    var signatureLength := input.ReadLong();
    if signatureLength.Err? {
      return Err(signatureLength.error);
    }
    var contentLength := input.ReadLong();
    if contentLength.Err? {
      return Err(contentLength.error);
    }
    r := Ok(ExtensionHeader(manifestLength.value, signatureLength.value, contentLength.value));
  }

  /** The header's bytes as a container writer lays them out. */
  function HeaderBytes(h: ExtensionHeader, flags: seq<Byte>): seq<Byte>
  {
    IntBytes(MAGIC_NUMBER) + flags + LongBytes(h.manifestLength) + LongBytes(h.signatureLength) + LongBytes(h.contentLength)
  }

  /** The constructor from three ints: every int is a long. */
  function OfInts(manifestLength: int, signatureLength: int, contentLength: int): (h: ExtensionHeader)
    requires IsInt32(manifestLength) && IsInt32(signatureLength) && IsInt32(contentLength)
    ensures WellFormed(h)
    ensures h.manifestLength == manifestLength && h.signatureLength == signatureLength && h.contentLength == contentLength
  {
    ExtensionHeader(manifestLength, signatureLength, contentLength)
  }

  /** getContentOffset: the header, signature and manifest lengths added in
      long arithmetic. */
  function ContentOffset(h: ExtensionHeader): (offset: int)
    requires WellFormed(h)
    ensures IsInt64(offset)
    ensures IsInt64(LENGTH + h.signatureLength + h.manifestLength) ==> offset == LENGTH + h.signatureLength + h.manifestLength
  {
    Int64(LENGTH + h.signatureLength + h.manifestLength)
  }

  /** equals: the three lengths agree. */
  predicate HeaderEquals(a: ExtensionHeader, b: ExtensionHeader)
  {
    a.manifestLength == b.manifestLength && a.signatureLength == b.signatureLength && a.contentLength == b.contentLength
  }

  /** hashCode: Objects.hash over the three longs. */
  function HeaderHash(h: ExtensionHeader): (r: int)
    requires WellFormed(h)
    ensures IsInt32(r)
  {
    HashAll([LongHash(h.manifestLength), LongHash(h.signatureLength), LongHash(h.contentLength)])
  }

  // ---------------------------------------------------------------------
  // Properties

  /** The header area is LENGTH bytes long whatever it holds. */
  lemma HeaderBytesLength(h: ExtensionHeader, flags: seq<Byte>)
    requires |flags| == 2
    ensures |HeaderBytes(h, flags)| == LENGTH
  {
  }

  /** Reading gives back the header written, whatever the flag bytes, and
      leaves exactly what follows the header area. */
  lemma HeaderRoundTrip(h: ExtensionHeader, flags: seq<Byte>, rest: seq<Byte>)
    requires WellFormed(h) && |flags| == 2
    ensures HeaderAt(HeaderBytes(h, flags) + rest) == Ok((h, rest))
  {
    var m, s, c := LongBytes(h.manifestLength), LongBytes(h.signatureLength), LongBytes(h.contentLength);
    var t3 := c + rest;
    var t2 := s + t3;
    var t1 := m + t2;
    var t0 := flags + t1;
    Concat5(IntBytes(MAGIC_NUMBER), flags, m, s, c, rest);
    IntRoundTrip(MAGIC_NUMBER, t0);
    assert CheckMagic(HeaderBytes(h, flags) + rest, MAGIC_NUMBER, ManifestError) == Ok(t0);
    assert t0[..2] == flags && t0[2..] == t1;
    assert BytesOf(t0, 2) == Ok((flags, t1));
    LongRoundTrip(h.manifestLength, t2);
    LongRoundTrip(h.signatureLength, t3);
    LongRoundTrip(h.contentLength, rest);
  }

  /** Equal headers hash alike. */
  lemma HashOfEquals(a: ExtensionHeader, b: ExtensionHeader)
    requires WellFormed(a) && WellFormed(b) && HeaderEquals(a, b)
    ensures HeaderHash(a) == HeaderHash(b)
  {
  }

  /** getContentOffset wraps around for a signature length near the long
      maximum, giving a negative offset. */
  lemma ContentOffsetWraps()
    ensures ContentOffset(ExtensionHeader(0, LONG_MAX, 0)) == LONG_MIN + LENGTH - 1
  {
  }
}
