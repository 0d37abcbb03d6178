# Basin core, modelled in Dafny

This project models the sequential core of Basin, a Minecraft server written
against the Faucet API. It covers three areas.

- **Versions and version ranges.** There are two generations.
  - The current `Version` / `VersionRange` pair exists as Kotlin and Java twins. It follows a SemVer-like grammar.
  - The legacy `PluginVersion`, with its builder, `UnstableVersionType` and the legacy `VersionRange` with its builder.
  - Each has parsing, formatting, comparison, equality, hashing and range membership.
- **The extension life cycle.**
  - The dependency comparator of `Extension` and `ExtensionReference.matches`.
  - The per-extension state machine of `ExtensionImpl`: REGISTERED, RESOLVED, LOADED, RUNNING, and back to REGISTERED on close.
  - The pipeline of `ExtensionManagerImpl`: discovery, the three initialisation passes with their veto-able pre-events, shutdown and clearing of the registry.
  - The running flag of `LifecycleService`.
- **Codecs and small helpers.**
  - The length-prefixed framing of `BufferUtil`, a big-endian 16-bit length followed by the bytes, over a byte buffer with a reader cursor.
  - The `ExtensionHeader` container header.
  - The `ExtensionManifestImpl` decoder.
  - `BitMask`.
  - The step arithmetic of `PluginContext.State`.

The modules follow the source files:

- JavaLang: Java `int`/`long` arithmetic, `Integer.parseInt` / `parseUnsignedInt`, `String.hashCode`, `Objects.hash`, case folding (functions)
- SemVer: faucet/.../util/Version.kt (datatype, functions, lemmas)
- SemVerJava: faucet/.../util/Version.java (functions, lemmas)
- VersionRange: faucet/.../util/VersionRange.kt (datatype, functions, lemmas)
- VersionRangeJava: faucet/.../util/VersionRange.java (functions, lemmas)
- UnstableType: src/.../plugin/UnstableVersionType.java (datatype, functions)
- PluginVersion: src/.../plugin/PluginVersion.java (datatype, functions; `Builder` class)
- PluginRange: src/.../plugin/VersionRange.java (datatype, functions; `RangeBuilder` class)
- PluginContext: src/.../plugin/PluginContext.java (`State`) (datatype, functions)
- BitMask: faucet/.../util/BitMask.kt (functions over 32-bit masks)
- Extensions: faucet/.../extension/Extension.kt, .../dependency/ExtensionReference.kt (functions, lemmas)
- Lifecycle: sink/.../util/LifecycleService.kt (class `LifecycleService`)
- SinkExtension: sink/.../plugin/ExtensionImpl.kt (class `ExtensionImpl`)
- SinkExtensionManager: sink/.../plugin/ExtensionManagerImpl.kt (class `ExtensionManager`)
- Utf8 and Buffers: sink/.../util/BufferUtil.kt, the UTF-8 codec it calls and the Netty buffer it reads and writes (functions on byte sequences; class `ByteBuf` with reading and writing methods)
- Header: sink/.../plugin/manifest/ExtensionHeader.java (functions, a reading method)
- ManifestCodec: sink/.../plugin/manifest/ExtensionManifestImpl.java (functions, a reading method)

Each imperative operation is a method. It is proved against a function that
reads the same bytes or computes the same new state, and the properties are
proved about that function. Java and Kotlin integer arithmetic is written out
where it matters: 32-bit hash wrap-around, the wrap of `parseUnsignedInt` into
negative ints, and 64-bit long addition in `getContentOffset`.

Environment parts are parameters of the model:

- The event bus becomes the set of pre-events a subscriber vetoes.
- Class-loader and Spring-context creation become the sets of paths whose creation fails. The loaders and contexts themselves are opaque tokens.
- A directory listing becomes the list of paths. A map gives what reading each container yields: its manifest, or the exception the read or the decoder throws. A path the map does not know cannot be read, which the `ExtensionImpl` constructor turns into `ExtensionAccessException`.

## Model

| member | source | states |
|---|---|---|
| JavaLang.Int32 | faucet/src/main/kotlin/org/basinmc/faucet/util/Version.kt:184-190 | Java int arithmetic: the result is an int congruent to the exact value modulo 2^32, equal to it when it fits, and shifted down by 2^32 just above the int range |
| JavaLang.Int64 | sink/src/main/java/org/basinmc/sink/plugin/manifest/ExtensionHeader.java:67-69 | Java long arithmetic: the result is a long congruent to the exact value modulo 2^64, equal to it when it fits |
| JavaLang.DecimalStringCanonical | faucet/src/main/kotlin/org/basinmc/faucet/util/Version.kt:161-162 | a number printed in decimal has no sign and no leading zero and reads back as itself |
| JavaLang.NumberValueCanonical | faucet/src/main/kotlin/org/basinmc/faucet/util/Version.kt:51-53 | a canonical numeral (what the pattern's number groups accept) is the decimal printing of its value |
| JavaLang.ParseInt | faucet/src/main/kotlin/org/basinmc/faucet/util/Version.kt:103-106 | Integer.parseInt: an optional sign and digits in the int range; ParseIntToString states that it inverts Integer.toString |
| JavaLang.ParseIntToString | faucet/src/main/kotlin/org/basinmc/faucet/util/Version.kt:103-106 | Integer.parseInt reads back every int Integer.toString prints, negative ones included |
| JavaLang.ParseUnsignedInt | faucet/src/main/kotlin/org/basinmc/faucet/util/Version.kt:67-83 | Integer.parseUnsignedInt: digits below 2^32, stored as an int; ParseUnsignedNumeral states the value, its wrap into negative ints, and the rejection of 2^32 and above |
| JavaLang.ParseUnsignedNumeral | faucet/src/main/kotlin/org/basinmc/faucet/util/Version.kt:67-83 | Integer.parseUnsignedInt gives the value of a numeral up to the int maximum, wraps values below 2^32 to negative ints, and throws NumberFormatException from 2^32 on |
| JavaLang.IndexOf | faucet/src/main/kotlin/org/basinmc/faucet/util/VersionRange.kt:73 | indexOf is -1 exactly when the character is absent, else the position of its first occurrence |
| JavaLang.Split | faucet/src/main/kotlin/org/basinmc/faucet/util/Version.kt:95 | splitting yields at least one piece and no piece holds the delimiter |
| JavaLang.SplitJoin | faucet/src/main/kotlin/org/basinmc/faucet/util/Version.kt:95 | joining the pieces of a split with the delimiter gives back the string |
| JavaLang.SplitAllEmpty | faucet/src/main/kotlin/org/basinmc/faucet/util/Version.kt:95 | every piece of a split is empty exactly when the string consists of delimiters only |
| JavaLang.DropTrailingEmpty | faucet/src/main/kotlin/org/basinmc/faucet/util/Version.kt:96 | dropLastWhile(isEmpty) keeps a prefix ending in a non-empty piece and drops only empty pieces |
| JavaLang.JavaSplit | faucet/src/main/java/org/basinmc/faucet/util/Version.java:91 | String.split on one character, trailing empty pieces dropped; JavaSplitEmpty states when it yields no piece |
| JavaLang.JavaSplitEmpty | faucet/src/main/java/org/basinmc/faucet/util/Version.java:91 | Java's String.split returns no pieces exactly when a non-empty string consists of delimiters only |
| JavaLang.Lower | faucet/src/main/kotlin/org/basinmc/faucet/util/Version.kt:215 | on ASCII text, toLowerCase keeps the length and lowers each letter on its own |
| JavaLang.StringHash | faucet/src/main/kotlin/org/basinmc/faucet/util/Version.kt:188 | String.hashCode is a Java int |
| JavaLang.OptionStringHash | faucet/src/main/kotlin/org/basinmc/faucet/util/Version.kt:188 | the hash of a nullable string, 0 for null, is a Java int |
| JavaLang.LongHash | sink/src/main/java/org/basinmc/sink/plugin/manifest/ExtensionHeader.java:97 | Long.hashCode of any long is a Java int |
| JavaLang.HashAll | sink/src/main/java/org/basinmc/sink/plugin/manifest/ExtensionHeader.java:97 | Objects.hash over a list of hashes is a Java int |
| Buffers.U16 | sink/src/main/kotlin/org/basinmc/sink/util/BufferUtil.kt:68 | readUnsignedShort succeeds exactly when two bytes remain, gives a value below 65536 and consumes two bytes |
| Buffers.IntAt | sink/src/main/kotlin/org/basinmc/sink/util/BufferUtil.kt:52 | readInt succeeds exactly when four bytes remain, gives a 32-bit value and consumes four bytes |
| Buffers.LongAt | sink/src/main/java/org/basinmc/sink/plugin/manifest/ExtensionHeader.java:48-50 | readLong succeeds exactly when eight bytes remain, gives a 64-bit value and consumes eight bytes |
| Buffers.BooleanAt | sink/src/main/java/org/basinmc/sink/plugin/manifest/ExtensionManifestImpl.java:120 | readBoolean succeeds exactly when a byte remains and consumes one byte |
| Buffers.BytesOf | sink/src/main/java/org/basinmc/sink/plugin/manifest/ExtensionHeader.java:47 | reading or skipping n bytes succeeds exactly when n remain; the bytes taken and the rest make up the input |
| Buffers.CheckMagic | sink/src/main/kotlin/org/basinmc/sink/util/BufferUtil.kt:50-55 | a successful magic check had four bytes and leaves what follows them |
| Buffers.BytesAt | sink/src/main/kotlin/org/basinmc/sink/util/BufferUtil.kt:101-111 | a zero length reads as empty; any other length gives that many non-empty bytes; what is left follows the frame |
| Buffers.StringAt | sink/src/main/kotlin/org/basinmc/sink/util/BufferUtil.kt:171-175 | a present string read from a frame is non-empty; what is left is a suffix of the input |
| Buffers.Items | sink/src/main/kotlin/org/basinmc/sink/util/BufferUtil.kt:144-146 | decoding n items one after the other gives exactly n items |
| Buffers.ByteBuf.Skip | sink/src/main/java/org/basinmc/sink/plugin/manifest/ExtensionHeader.java:47 | skipBytes drops exactly the first n readable bytes and leaves the data unchanged |
| Buffers.ByteBuf.ReadUnsignedShort | sink/src/main/kotlin/org/basinmc/sink/util/BufferUtil.kt:68 | the value and the new readable bytes are those of U16 on the old readable bytes |
| Buffers.ByteBuf.ReadInt | sink/src/main/kotlin/org/basinmc/sink/util/BufferUtil.kt:52 | the value and the new readable bytes are those of IntAt on the old readable bytes |
| Buffers.ByteBuf.ReadLong | sink/src/main/java/org/basinmc/sink/plugin/manifest/ExtensionHeader.java:48-50 | the value and the new readable bytes are those of LongAt on the old readable bytes |
| Buffers.ByteBuf.ReadBoolean | sink/src/main/java/org/basinmc/sink/plugin/manifest/ExtensionManifestImpl.java:120 | the value and the new readable bytes are those of BooleanAt on the old readable bytes |
| Buffers.ByteBuf.ReadBytes | sink/src/main/kotlin/org/basinmc/sink/util/BufferUtil.kt:107-108 | the bytes and the new readable bytes are those of BytesOf on the old readable bytes |
| Buffers.ByteBuf.Write | sink/src/main/kotlin/org/basinmc/sink/util/BufferUtil.kt:125-126 | writing appends the bytes to the data and to the readable bytes, keeping the reader index |
| Buffers.CheckMagicValue | sink/src/main/kotlin/org/basinmc/sink/util/BufferUtil.kt:50-55 | throws the supplied exception exactly when CheckMagic fails; otherwise consumes the int read |
| Buffers.ReadBytesFrame | sink/src/main/kotlin/org/basinmc/sink/util/BufferUtil.kt:101-111 | the result and the bytes left are those of BytesAt on the readable bytes |
| Buffers.WriteBytesFrame | sink/src/main/kotlin/org/basinmc/sink/util/BufferUtil.kt:119-127 | appends exactly BytesFrame of the value: a zero short for null or empty, else the size and the bytes |
| Buffers.ReadBuffer | sink/src/main/kotlin/org/basinmc/sink/util/BufferUtil.kt:67-77 | empty for a zero length, otherwise a new buffer holding exactly the framed bytes, none of them read |
| Buffers.WriteBuffer | sink/src/main/kotlin/org/basinmc/sink/util/BufferUtil.kt:85-93 | appends BytesFrame of the source's readable bytes (zero for null or unreadable) and leaves the source fully read |
| Buffers.ReadString | sink/src/main/kotlin/org/basinmc/sink/util/BufferUtil.kt:171-175 | the result and the bytes left are those of StringAt on the readable bytes |
| Buffers.WriteString | sink/src/main/kotlin/org/basinmc/sink/util/BufferUtil.kt:184-193 | appends StringFrame of the value: null and "" both become a zero length |
| Buffers.ReadUUID | sink/src/main/kotlin/org/basinmc/sink/util/BufferUtil.kt:201-204 | reads the framed string as readString does |
| Buffers.WriteUUID | sink/src/main/kotlin/org/basinmc/sink/util/BufferUtil.kt:212-219 | appends the zero frame for null, the text's frame otherwise |
| Buffers.ReadList | sink/src/main/kotlin/org/basinmc/sink/util/BufferUtil.kt:139-148 | the items and the bytes left are those of ListAt: the count, then the decoder applied that many times, stopping at the first error |
| Buffers.WriteList | sink/src/main/kotlin/org/basinmc/sink/util/BufferUtil.kt:158-162 | appends exactly ListFrame: the count as a short, then every item's encoding in order |
| Buffers.U16RoundTrip | sink/src/main/kotlin/org/basinmc/sink/util/BufferUtil.kt:119-127 | readUnsignedShort after writeShort(n) gives n modulo 65536, so n itself when it fits 16 bits |
| Buffers.IntRoundTrip | sink/src/main/kotlin/org/basinmc/sink/util/BufferUtil.kt:50-55 | readInt after writeInt gives every 32-bit value back and leaves what follows |
| Buffers.LongRoundTrip | sink/src/main/java/org/basinmc/sink/plugin/manifest/ExtensionHeader.java:48-50 | readLong after writeLong gives every 64-bit value back and leaves what follows |
| Buffers.BooleanRoundTrip | sink/src/main/java/org/basinmc/sink/plugin/manifest/ExtensionManifestImpl.java:120 | readBoolean after writeBoolean gives the value back and leaves what follows |
| Buffers.CheckMagicIff | sink/src/main/kotlin/org/basinmc/sink/util/BufferUtil.kt:50-55 | the check passes if and only if the int read is the expected one, and fails with the supplied exception otherwise |
| Buffers.BytesRoundTrip | sink/src/main/kotlin/org/basinmc/sink/util/BufferUtil.kt:101-127 | readBytes gives back every array of 1 to 65535 bytes that writeBytes wrote |
| Buffers.BytesEmptyRoundTrip | sink/src/main/kotlin/org/basinmc/sink/util/BufferUtil.kt:101-127 | null and the empty array are written alike as a zero length, which reads back as absent |
| Buffers.BytesFrameTruncates | sink/src/main/kotlin/org/basinmc/sink/util/BufferUtil.kt:125 | an array of 65536 bytes or more is framed with its size modulo 65536, so it never reads back whole |
| Buffers.StringRoundTrip | sink/src/main/kotlin/org/basinmc/sink/util/BufferUtil.kt:171-193 | readString gives back every non-empty string writeString wrote, when its UTF-8 form fits 16 bits |
| Buffers.OptionStringRoundTrip | sink/src/main/kotlin/org/basinmc/sink/util/BufferUtil.kt:171-193 | a nullable string field reads back as written, absent included |
| Buffers.StringEmptyRoundTrip | sink/src/main/kotlin/org/basinmc/sink/util/BufferUtil.kt:184-193 | null and "" are written alike and read back as absent |
| Buffers.ItemsRoundTrip | sink/src/main/kotlin/org/basinmc/sink/util/BufferUtil.kt:144-161 | decoding the concatenated encodings of items gives back each item's view, when the decoder inverts the encoder |
| Buffers.ListAtCount | sink/src/main/kotlin/org/basinmc/sink/util/BufferUtil.kt:141-146 | readList reads a count that fits 16 bits back as written and then decodes that many items |
| Buffers.ListRoundTrip | sink/src/main/kotlin/org/basinmc/sink/util/BufferUtil.kt:139-162 | readList gives back what writeList wrote, when the count fits 16 bits and the decoder inverts the encoder |
| Utf8.Encode | sink/src/main/kotlin/org/basinmc/sink/util/BufferUtil.kt:192 | a string's UTF-8 bytes are at least as many as its characters, and only "" encodes to nothing |
| Utf8.Decode | sink/src/main/kotlin/org/basinmc/sink/util/BufferUtil.kt:174 | decoding gives at least one character for every non-empty input |
| Utf8.EncodeChar | sink/src/main/kotlin/org/basinmc/sink/util/BufferUtil.kt:38 | the UTF-8 bytes of one scalar value; DecodeEncodeChar states that DecodeChar reads them back |
| Utf8.DecodeChar | sink/src/main/kotlin/org/basinmc/sink/util/BufferUtil.kt:38 | the scalar value a well-formed UTF-8 sequence at the head of the bytes stands for; DecodeEncodeChar states that it inverts EncodeChar |
| Utf8.DecodeEncodeChar | sink/src/main/kotlin/org/basinmc/sink/util/BufferUtil.kt:38 | a scalar value's one to four bytes decode back to it, whatever follows them |
| Utf8.DecodeEncode | sink/src/main/kotlin/org/basinmc/sink/util/BufferUtil.kt:171-193 | decoding the UTF-8 form of a string gives the string back |
| Header.HeaderAt | sink/src/main/java/org/basinmc/sink/plugin/manifest/ExtensionHeader.java:43-51 | fails with ExtensionManifestException exactly when the magic number differs; with the magic number and 30 bytes it succeeds, giving three 64-bit lengths and the bytes after the header area |
| Header.ReadHeader | sink/src/main/java/org/basinmc/sink/plugin/manifest/ExtensionHeader.java:43-51 | the constructor's result and the bytes left are those of HeaderAt |
| Header.OfInts | sink/src/main/java/org/basinmc/sink/plugin/manifest/ExtensionHeader.java:53-57 | the int constructor keeps the three lengths, all of which fit a long |
| Header.ContentOffset | sink/src/main/java/org/basinmc/sink/plugin/manifest/ExtensionHeader.java:67-69 | the offset is the header, signature and manifest lengths added in long arithmetic, so the exact sum when it fits |
| Header.HeaderEquals | sink/src/main/java/org/basinmc/sink/plugin/manifest/ExtensionHeader.java:79-90 | equals(): the three lengths agree; HashOfEquals states that equal headers hash alike |
| Header.HeaderHash | sink/src/main/java/org/basinmc/sink/plugin/manifest/ExtensionHeader.java:96-98 | the hash is a 32-bit value |
| Header.HeaderBytes | sink/src/main/java/org/basinmc/sink/plugin/manifest/ExtensionHeader.java:43-51 | the header's bytes in the order the constructor reads them; HeaderBytesLength and HeaderRoundTrip state its length and that the reader reads it back |
| Header.HeaderBytesLength | sink/src/main/java/org/basinmc/sink/plugin/manifest/ExtensionHeader.java:37 | the header area is 30 bytes long whatever it holds, given two flag bytes |
| Header.HeaderRoundTrip | sink/src/main/java/org/basinmc/sink/plugin/manifest/ExtensionHeader.java:43-51 | reading a written header gives it back, whatever the flag bytes, and leaves exactly what follows |
| Header.HashOfEquals | sink/src/main/java/org/basinmc/sink/plugin/manifest/ExtensionHeader.java:79-98 | equal headers hash alike |
| Header.ContentOffsetWraps | sink/src/main/java/org/basinmc/sink/plugin/manifest/ExtensionHeader.java:67-69 | a signature length of Long.MAX_VALUE wraps the offset round to a negative value |
| SemVer.ByKeyword | faucet/src/main/kotlin/org/basinmc/faucet/util/Version.kt:195-216 | the keyword table only ever yields ALPHA, BETA or RELEASE_CANDIDATE |
| SemVer.DigitRun | faucet/src/main/kotlin/org/basinmc/faucet/util/Version.kt:52 | the run of digits at the head of a string is all digits and is followed by a non-digit or the end |
| SemVer.StabilityOf | faucet/src/main/kotlin/org/basinmc/faucet/util/Version.kt:88-99 | the stability is STABLE exactly when there is no extra part |
| SemVer.Parse | faucet/src/main/kotlin/org/basinmc/faucet/util/Version.kt:61-113 | parsing fails only with IllegalArgumentException; a parsed version's stability fields agree with its extra part and it is STABLE exactly when it has no extra part |
| SemVer.HashCode | faucet/src/main/kotlin/org/basinmc/faucet/util/Version.kt:184-190 | the hash is a 32-bit value |
| SemVer.CompareTo | faucet/src/main/kotlin/org/basinmc/faucet/util/Version.kt:119-156 | compareTo answers -1, 0 or 1 |
| SemVer.SuffixGroupsOfLayout | faucet/src/main/kotlin/org/basinmc/faucet/util/Version.kt:52 | "-extra" and "+metadata" parts made of label characters are split into exactly those groups |
| SemVer.SuffixGroupsSound | faucet/src/main/kotlin/org/basinmc/faucet/util/Version.kt:52 | whatever the suffix reader accepts is made of labels behind their markers, and starts with no digit |
| SemVer.MatchPatchLayout | faucet/src/main/kotlin/org/basinmc/faucet/util/Version.kt:52 | the patch number and any suffix built from valid groups are matched back into those groups |
| SemVer.MatchLayout | faucet/src/main/kotlin/org/basinmc/faucet/util/Version.kt:51-53 | every string built from groups the pattern allows matches and yields those groups |
| SemVer.MatchPatchSound | faucet/src/main/kotlin/org/basinmc/faucet/util/Version.kt:52 | a matched patch part is made of valid groups and the pattern's separators |
| SemVer.Match | faucet/src/main/kotlin/org/basinmc/faucet/util/Version.kt:51-53 | the version pattern's matcher: the groups of a string the pattern accepts, none otherwise; MatchSound and MatchLayout state which strings match and that the groups rebuild the string |
| SemVer.MatchSound | faucet/src/main/kotlin/org/basinmc/faucet/util/Version.kt:51-53 | any string that matches is the layout of the valid groups it yields |
| SemVer.ParseLayout | faucet/src/main/kotlin/org/basinmc/faucet/util/Version.kt:61-113 | parsing a layout of valid groups gives the version those groups denote |
| SemVer.ParseAcceptsExactlyPattern | faucet/src/main/kotlin/org/basinmc/faucet/util/Version.kt:61-113 | Version(String) succeeds if and only if the string is the layout of valid groups whose numbers are below 2^32, and then yields their version |
| SemVer.IntToStringCanonical | faucet/src/main/kotlin/org/basinmc/faucet/util/Version.kt:162 | "%d" prints a non-negative number as its canonical numeral |
| SemVer.ToString | faucet/src/main/kotlin/org/basinmc/faucet/util/Version.kt:161-170 | toString(): "%d.%d.%d", then "-extra" and "+metadata" when present; ToStringOfParse states that a parsed version prints back as its text |
| SemVer.ToStringOfParse | faucet/src/main/kotlin/org/basinmc/faucet/util/Version.kt:161-170 | a parsed version with non-negative numbers renders back to its input, so parsing its rendering gives it again |
| SemVer.ToStringOfGroups | faucet/src/main/kotlin/org/basinmc/faucet/util/Version.kt:161-170 | rendering the version of valid groups gives back their layout, when its numbers are non-negative |
| SemVer.NumberValueInt32 | faucet/src/main/kotlin/org/basinmc/faucet/util/Version.kt:67-83 | a numeral below 2^31 read by parseUnsignedInt prints back as itself |
| SemVer.ToStringOfNegative | faucet/src/main/kotlin/org/basinmc/faucet/util/Version.kt:161-170 | a version with a negative number, as 2^31 and above parse to, renders to a string no version parses from |
| SemVer.RenderingMatch | faucet/src/main/kotlin/org/basinmc/faucet/util/Version.kt:52 | the pattern refuses a rendering whose major, minor or patch number carries a minus sign |
| SemVer.MatchMajor | faucet/src/main/kotlin/org/basinmc/faucet/util/Version.kt:52 | the major number runs up to the first dot |
| SemVer.MatchMinorShape | faucet/src/main/kotlin/org/basinmc/faucet/util/Version.kt:52 | the minor number runs up to the next dot |
| SemVer.MatchPatchNumerals | faucet/src/main/kotlin/org/basinmc/faucet/util/Version.kt:52 | a match has numerals for major and minor, and a patch part that starts with a digit |
| SemVer.NoDotInRendering | faucet/src/main/kotlin/org/basinmc/faucet/util/Version.kt:162 | "%d" prints no dot, and a minus sign first for a negative number |
| SemVer.LexLessIrreflexive | faucet/src/main/kotlin/org/basinmc/faucet/util/Version.kt:119-156 | the key order is irreflexive |
| SemVer.LexLessAsymmetric | faucet/src/main/kotlin/org/basinmc/faucet/util/Version.kt:119-156 | the key order is asymmetric |
| SemVer.LexLessTransitive | faucet/src/main/kotlin/org/basinmc/faucet/util/Version.kt:119-156 | the key order is transitive |
| SemVer.LexLessTotal | faucet/src/main/kotlin/org/basinmc/faucet/util/Version.kt:119-156 | any two different keys are ordered one way or the other |
| SemVer.LexLessKeys | faucet/src/main/kotlin/org/basinmc/faucet/util/Version.kt:124-154 | the key order compares major, minor, patch, stability ordinal and stability index in turn |
| SemVer.CompareToByKeys | faucet/src/main/kotlin/org/basinmc/faucet/util/Version.kt:119-156 | compareTo is 0 on equal versions, 1 when the other's keys are smaller, and -1 otherwise, ties included |
| SemVer.CompareToAntisymmetric | faucet/src/main/kotlin/org/basinmc/faucet/util/Version.kt:119-156 | versions whose keys differ compare in opposite directions |
| SemVer.CompareToTie | faucet/src/main/kotlin/org/basinmc/faucet/util/Version.kt:151-155 | two unequal versions with the same keys are each older than the other |
| SemVer.Equals | faucet/src/main/kotlin/org/basinmc/faucet/util/Version.kt:172-182 | equals(): major, minor, patch and the extra text agree, the metadata is ignored; EqualsSameKey, CompareToZero and HashCodeOfEquals tie it to compareTo and hashCode |
| SemVer.EqualsSameKey | faucet/src/main/kotlin/org/basinmc/faucet/util/Version.kt:172-182 | equal well-formed versions have the same keys |
| SemVer.CompareToTransitive | faucet/src/main/kotlin/org/basinmc/faucet/util/Version.kt:119-156 | on parsed versions "newer than" is transitive |
| SemVer.CompareToZero | faucet/src/main/kotlin/org/basinmc/faucet/util/Version.kt:119-122 | compareTo answers 0 if and only if the versions are equal |
| SemVer.HashCodeOfEquals | faucet/src/main/kotlin/org/basinmc/faucet/util/Version.kt:172-190 | equal versions hash alike |
| SemVer.ElementsOfWord | faucet/src/main/kotlin/org/basinmc/faucet/util/Version.kt:95-96 | an extra part without dots is its own only element |
| SemVer.TagFacts | faucet/src/main/kotlin/org/basinmc/faucet/util/Version.kt:195-201 | "-alpha" and "-beta" are labels giving ALPHA and BETA with index 0, and no extra part gives STABLE |
| SemVer.WordFacts | faucet/src/main/kotlin/org/basinmc/faucet/util/Version.kt:95-109 | a lower-case word is a label and its own only element, and gives index 0 |
| SemVer.ParseRelease | faucet/src/test/kotlin/org/basinmc/faucet/util/VersionTest.kt:30-52 | "x.y.z", "x.y.z-alpha" and "x.y.z-beta" parse to the numbers and stability they show, for numbers up to Integer.MAX_VALUE |
| SemVer.TestVersions | faucet/src/test/kotlin/org/basinmc/faucet/util/VersionTest.kt:105-111 | the versions of the ordering test are those of its listed strings |
| SemVer.TestVersionsParse | faucet/src/test/kotlin/org/basinmc/faucet/util/VersionTest.kt:105-111 | every string of the ordering test parses to its listed version |
| SemVer.TestReleasesIncrease | faucet/src/test/kotlin/org/basinmc/faucet/util/VersionTest.kt:105-111 | the ordering test lists its releases oldest first |
| SemVer.TestVersionsIncrease | faucet/src/test/kotlin/org/basinmc/faucet/util/VersionTest.kt:105-111 | the listed versions' keys increase strictly |
| SemVer.TestVersionsOrdered | faucet/src/test/kotlin/org/basinmc/faucet/util/VersionTest.kt:104-138 | each listed version is newer than every one before it, older than every one after it, and equal to neither |
| SemVer.ParseShortAlpha | faucet/src/main/kotlin/org/basinmc/faucet/util/Version.kt:197 | "1.0.0-a" parses to the ALPHA version 1.0.0 with index 0 |
| SemVer.AliasTie | faucet/src/main/kotlin/org/basinmc/faucet/util/Version.kt:151-155 | "1.0.0-a" and "1.0.0-alpha" are unequal ALPHA versions, each older than the other |
| SemVer.StabilityOfRcExample | faucet/src/main/kotlin/org/basinmc/faucet/util/Version.kt:95-109 | "RC.1.2" is RELEASE_CANDIDATE, matched case-insensitively, with its index read from the last element, 2 |
| SemVer.StabilityOfElements | faucet/src/main/kotlin/org/basinmc/faucet/util/Version.kt:95-109 | with two or more elements the stability is the first one's keyword or UNKNOWN, and the index is the last one read as an int or 0 |
| SemVer.ElementsOfThree | faucet/src/main/kotlin/org/basinmc/faucet/util/Version.kt:95-96 | three dot-free elements joined by dots, the last non-empty, split back into those three |
| SemVer.SplitOfThree | faucet/src/main/kotlin/org/basinmc/faucet/util/Version.kt:95 | three dot-free words joined by dots split into those three |
| SemVer.SplitStep | faucet/src/main/kotlin/org/basinmc/faucet/util/Version.kt:95 | splitting at a dot after a dot-free word gives that word, then the pieces of the rest |
| SemVer.StabilityOfUnknownExample | faucet/src/test/kotlin/org/basinmc/faucet/util/VersionTest.kt:45-46 | "-potato", no keyword, gives UNKNOWN with index 0 |
| SemVerJava.JavaIndexOf | faucet/src/main/java/org/basinmc/faucet/util/Version.java:92-98 | the index is an int, 0 when there are fewer than two elements |
| SemVerJava.JavaStabilityAsWritten | faucet/src/main/java/org/basinmc/faucet/util/Version.java:90-103 | reading the first element throws ArrayIndexOutOfBoundsException exactly when the split yields no element; otherwise the stability is never STABLE |
| SemVerJava.JavaStability | faucet/src/main/java/org/basinmc/faucet/util/Version.java:90-103 | agrees with the as-written reading wherever that succeeds, and gives UNKNOWN with index 0 where it throws |
| SemVerJava.Numbers | faucet/src/main/java/org/basinmc/faucet/util/Version.java:61-82 | the three numbers are read only from a string the pattern matches, with those groups |
| SemVerJava.ParseAsWritten | faucet/src/main/java/org/basinmc/faucet/util/Version.java:60-104 | fails only with IllegalArgumentException or ArrayIndexOutOfBoundsException; a result is STABLE exactly when it has no extra part |
| SemVerJava.Parse | faucet/src/main/java/org/basinmc/faucet/util/Version.java:60-104 | fails only with IllegalArgumentException, is STABLE exactly without an extra part, and agrees with the as-written constructor wherever that succeeds |
| SemVerJava.CompareTo | faucet/src/main/java/org/basinmc/faucet/util/Version.java:228-234 | compareTo answers -1, 0 or 1, and 0 if and only if the versions are equal |
| SemVerJava.HashCode | faucet/src/main/java/org/basinmc/faucet/util/Version.java:258-260 | the hash is a 32-bit value |
| SemVerJava.IsNewerThan | faucet/src/main/java/org/basinmc/faucet/util/Version.java:143-179 | isNewerThan(): the first of major, minor, patch, stability ordinal and stability index that differs decides, and a tie is false; IsNewerThanByKeys states this as a lexicographic order on the keys |
| SemVerJava.IsNewerThanByKeys | faucet/src/main/java/org/basinmc/faucet/util/Version.java:143-180 | isNewerThan holds if and only if the other version's keys are lexicographically smaller |
| SemVerJava.IsOlderThan | faucet/src/main/java/org/basinmc/faucet/util/Version.java:188-222 | isOlderThan(): the same chain with each comparison reversed, a tie false; IsOlderThanByKeys states the lexicographic order, NewerOlderMirror the mirror with IsNewerThan |
| SemVerJava.IsOlderThanByKeys | faucet/src/main/java/org/basinmc/faucet/util/Version.java:188-222 | isOlderThan holds if and only if this version's keys are lexicographically smaller |
| SemVerJava.NewerOlderMirror | faucet/src/main/java/org/basinmc/faucet/util/Version.java:143-222 | a is older than b if and only if b is newer than a, and never both |
| SemVerJava.TieIsNeither | faucet/src/main/java/org/basinmc/faucet/util/Version.java:172-179 | on the same keys neither version is newer or older than the other |
| SemVerJava.CompareToAgrees | faucet/src/main/java/org/basinmc/faucet/util/Version.java:228-234 | the Java compareTo answers what the Kotlin compareTo answers on every pair |
| SemVerJava.HashCodeOfEquals | faucet/src/main/java/org/basinmc/faucet/util/Version.java:240-260 | equal versions hash alike |
| SemVerJava.JavaElementsAgree | faucet/src/main/java/org/basinmc/faucet/util/Version.java:91 | on a non-empty extra part the Java split and the Kotlin split-and-drop give the same elements |
| SemVerJava.JavaStabilityAgrees | faucet/src/main/java/org/basinmc/faucet/util/Version.java:100-101 | the stability is the one the Kotlin class derives |
| SemVerJava.ParseLayout | faucet/src/main/java/org/basinmc/faucet/util/Version.java:60-104 | a layout of valid groups parses exactly when its numbers fit, to the Kotlin numbers with the stability fields by the Java rule |
| SemVerJava.ParseAgrees | faucet/src/main/java/org/basinmc/faucet/util/Version.java:60-104 | the Java and Kotlin constructors accept the same strings and agree on every field except the stability index |
| SemVerJava.AsWrittenFailsOnDots | faucet/src/main/java/org/basinmc/faucet/util/Version.java:91-100 | the as-written constructor throws ArrayIndexOutOfBoundsException exactly on accepted strings whose extra part is dots only |
| SemVerJava.ParseShapes | faucet/src/main/java/org/basinmc/faucet/util/Version.java:60-104 | both constructors succeed only on matched numbers; the as-written one throws exactly on an extra part without elements |
| SemVerJava.NoElementsIffDots | faucet/src/main/java/org/basinmc/faucet/util/Version.java:91 | a non-empty extra part splits into no element exactly when it is dots only |
| SemVerJava.DotsLayout | faucet/src/main/java/org/basinmc/faucet/util/Version.java:91-100 | a valid layout whose extra part is dots only makes the as-written constructor throw, while the corrected one reads UNKNOWN with index 0 |
| SemVerJava.SplitThree | faucet/src/main/java/org/basinmc/faucet/util/Version.java:91 | three dot-free pieces joined by dots split back into those pieces |
| SemVerJava.IndexOfThree | faucet/src/main/java/org/basinmc/faucet/util/Version.java:93-98 | with three elements, Java reads the index from the second one and Kotlin from the last |
| SemVerJava.IndexExample | faucet/src/main/java/org/basinmc/faucet/util/Version.java:93-98 | "RC.1.2" has index 1 here and 2 in the Kotlin class |
| VersionRange.CutRange | faucet/src/main/kotlin/org/basinmc/faucet/util/VersionRange.kt:70-99 | cutting the text at the first comma and stripping the markers fails only with IndexOutOfBoundsException |
| VersionRange.Assemble | faucet/src/main/kotlin/org/basinmc/faucet/util/VersionRange.kt:101-139 | building the bounds fails only with IllegalArgumentException, and every range built is well formed |
| VersionRange.Parse | faucet/src/main/kotlin/org/basinmc/faucet/util/VersionRange.kt:69-140 | the constructor fails only with IllegalArgumentException or IndexOutOfBoundsException, and every range it builds is well formed |
| VersionRange.OptionHash | faucet/src/main/kotlin/org/basinmc/faucet/util/VersionRange.kt:208 | the hash of a nullable bound is a 32-bit value |
| VersionRange.HashCode | faucet/src/main/kotlin/org/basinmc/faucet/util/VersionRange.kt:207-209 | the hash is a 32-bit value |
| VersionRange.ParseIndexError | faucet/src/main/kotlin/org/basinmc/faucet/util/VersionRange.kt:73-80 | the constructor throws IndexOutOfBoundsException exactly when the text is empty, starts with a comma, or has its first comma last |
| VersionRange.HashCodeOfEquals | faucet/src/main/kotlin/org/basinmc/faucet/util/VersionRange.kt:190-209 | equal ranges hash alike |
| VersionRange.GreaterByKeys | faucet/src/main/kotlin/org/basinmc/faucet/util/VersionRange.kt:149-152 | compareTo(bound, v) above 0 means the two are unequal and v's keys are smaller, below 0 means unequal and not smaller |
| VersionRange.Contains | faucet/src/main/kotlin/org/basinmc/faucet/util/VersionRange.kt:148-153 | contains(version): the version is not below the start, nor equal to an exclusive start, nor above the end, nor equal to an exclusive end; ContainsByKeys states this over the comparison keys |
| VersionRange.ContainsByKeys | faucet/src/main/kotlin/org/basinmc/faucet/util/VersionRange.kt:148-153 | v is in the range if and only if it is not below the start and strictly below the end by the key order, an equal bound counting only when inclusive |
| VersionRange.SharedContainsOnlyEquals | faucet/src/main/kotlin/org/basinmc/faucet/util/VersionRange.kt:116-117 | a single version without markers contains exactly the versions equal to it |
| VersionRange.TieAtBounds | faucet/src/main/kotlin/org/basinmc/faucet/util/VersionRange.kt:148-153 | a version that ties with a bound on every key without being equal to it is inside "[x" and outside "x]" |
| VersionRange.LayoutChars | faucet/src/main/kotlin/org/basinmc/faucet/util/VersionRange.kt:65-66 | the text of a version holds only version characters and is never empty |
| VersionRange.VersionCharsFacts | faucet/src/main/kotlin/org/basinmc/faucet/util/VersionRange.kt:73-83 | version text holds no comma and no bound marker |
| VersionRange.MatchedText | faucet/src/main/kotlin/org/basinmc/faucet/util/VersionRange.kt:104 | any text the version pattern matches is plain: non-empty, without comma or marker |
| VersionRange.ParsedText | faucet/src/main/kotlin/org/basinmc/faucet/util/VersionRange.kt:104 | any text a version parses from is plain |
| VersionRange.CutPlain | faucet/src/main/kotlin/org/basinmc/faucet/util/VersionRange.kt:70-99 | a version text alone is cut into itself twice, with no marker |
| VersionRange.CutLower | faucet/src/main/kotlin/org/basinmc/faucet/util/VersionRange.kt:79-98 | "(v" and "[v" lose their prefix in both texts |
| VersionRange.CutUpper | faucet/src/main/kotlin/org/basinmc/faucet/util/VersionRange.kt:80-95 | "v)" and "v]" lose their suffix in both texts |
| VersionRange.CutBoth | faucet/src/main/kotlin/org/basinmc/faucet/util/VersionRange.kt:79-98 | a single version with both markers loses both in both texts |
| VersionRange.FormPlain | faucet/src/main/kotlin/org/basinmc/faucet/util/VersionRange.kt:116-139 | a version text alone gives the same version as both bounds, both inclusive |
| VersionRange.FormLower | faucet/src/main/kotlin/org/basinmc/faucet/util/VersionRange.kt:126-138 | "[v" and "(v" give the versions from v on, inclusive exactly for "[", without end |
| VersionRange.FormUpper | faucet/src/main/kotlin/org/basinmc/faucet/util/VersionRange.kt:128-139 | "v]" and "v)" give the versions up to v, inclusive exactly for "]", without start |
| VersionRange.FormBothMarkers | faucet/src/main/kotlin/org/basinmc/faucet/util/VersionRange.kt:120-124 | a single version with both markers, such as "(1.0.0]", is rejected with IllegalArgumentException |
| VersionRange.CutAtComma | faucet/src/main/kotlin/org/basinmc/faucet/util/VersionRange.kt:73-77 | the text before and after the first comma are the start and end texts |
| VersionRange.CutPair | faucet/src/main/kotlin/org/basinmc/faucet/util/VersionRange.kt:73-90 | two plain versions around a comma are cut into their texts whatever the outer characters |
| VersionRange.FormPair | faucet/src/main/kotlin/org/basinmc/faucet/util/VersionRange.kt:101-139 | "<p>v,w<q>" with both markers gives the two bounds, inclusive exactly for "[" and "]" |
| VersionRange.FormPairUnmarked | faucet/src/main/kotlin/org/basinmc/faucet/util/VersionRange.kt:131-134 | "v,w" without markers is rejected with IllegalArgumentException |
| VersionRange.FormPairStartOnly | faucet/src/main/kotlin/org/basinmc/faucet/util/VersionRange.kt:131-134 | two versions with only the start marker are rejected |
| VersionRange.FormPairEndOnly | faucet/src/main/kotlin/org/basinmc/faucet/util/VersionRange.kt:131-134 | two versions with only the end marker are rejected |
| VersionRange.CutEndOnly | faucet/src/main/kotlin/org/basinmc/faucet/util/VersionRange.kt:73-90 | "v,w]" is cut into the two texts with only the suffix stripped |
| VersionRange.CutRangeSound | faucet/src/main/kotlin/org/basinmc/faucet/util/VersionRange.kt:70-99 | cutting loses nothing: putting the stripped markers back gives the text, and a single version's two texts are the same |
| VersionRange.CutCommaSound | faucet/src/main/kotlin/org/basinmc/faucet/util/VersionRange.kt:73-90 | with a comma, putting the markers back around the two texts gives the input |
| VersionRange.RebuildPair | faucet/src/main/kotlin/org/basinmc/faucet/util/VersionRange.kt:73-90 | the two comma-separated parts with their markers rebuild the input |
| VersionRange.CutSingleSound | faucet/src/main/kotlin/org/basinmc/faucet/util/VersionRange.kt:79-98 | without a comma, putting the markers back gives the input and both texts agree |
| VersionRange.ToString | faucet/src/main/kotlin/org/basinmc/faucet/util/VersionRange.kt:155-185 | toString(): the shared version alone, otherwise the bounds with their markers and a comma between; ToStringOfParse and the Render lemmas state that it prints the text the range was parsed from |
| VersionRange.ToStringOfParse | faucet/src/main/kotlin/org/basinmc/faucet/util/VersionRange.kt:155-185 | toString gives back the parsed text, except "(v" and "v)", which render as the bare version; that text parses to a single-version range |
| VersionRange.RenderCutPair | faucet/src/main/kotlin/org/basinmc/faucet/util/VersionRange.kt:160-184 | a two-version range renders as its cut markers around the two parsed texts |
| VersionRange.RenderCutSingle | faucet/src/main/kotlin/org/basinmc/faucet/util/VersionRange.kt:155-184 | a single-version range renders as its text with its marker, except the exclusive one-sided forms, which render bare |
| VersionRange.RenderPair | faucet/src/main/kotlin/org/basinmc/faucet/util/VersionRange.kt:160-184 | a two-version range renders as its marked text whenever each bound renders as its text |
| VersionRange.RenderBoth | faucet/src/main/kotlin/org/basinmc/faucet/util/VersionRange.kt:160-184 | with both bounds the rendering is the start marker, the start, a comma, the end and the end marker |
| VersionRange.RenderSingle | faucet/src/main/kotlin/org/basinmc/faucet/util/VersionRange.kt:155-184 | a single-version range renders as its text, its kept marker apart |
| VersionRange.SingleLower | faucet/src/main/kotlin/org/basinmc/faucet/util/VersionRange.kt:161-169 | "[v" renders with its "[", and "(v" without the "(" |
| VersionRange.SingleUpper | faucet/src/main/kotlin/org/basinmc/faucet/util/VersionRange.kt:170-182 | "v]" renders with its "]", and "v)" without the ")" |
| VersionRange.RenderLower | faucet/src/main/kotlin/org/basinmc/faucet/util/VersionRange.kt:161-169 | a start-only range renders "[" only when inclusive, then the start |
| VersionRange.RenderUpper | faucet/src/main/kotlin/org/basinmc/faucet/util/VersionRange.kt:170-182 | an end-only range renders the end, then "]" only when inclusive |
| VersionRange.ReleaseKeys | faucet/src/main/kotlin/org/basinmc/faucet/util/VersionRange.kt:148-153 | release versions compare by their key order exactly as releases are ordered, and are equal exactly when the releases are |
| VersionRange.PairMembership | faucet/src/test/kotlin/org/basinmc/faucet/util/VersionRangeTest.kt:38-111 | "[a,b]"-style ranges of releases parse, and contain exactly the releases between the ends, an end counting when its marker is inclusive |
| VersionRange.PairRangeMembership | faucet/src/main/kotlin/org/basinmc/faucet/util/VersionRange.kt:148-153 | a two-bound range contains exactly the releases between its ends, each end counting when inclusive |
| VersionRange.LowerMembership | faucet/src/test/kotlin/org/basinmc/faucet/util/VersionRangeTest.kt:34-35 | "(a" and "[a" parse and contain exactly the releases after a, a itself only for "[" |
| VersionRange.LowerRangeMembership | faucet/src/main/kotlin/org/basinmc/faucet/util/VersionRange.kt:148-153 | a start-only range contains exactly the releases after its start, the start only when inclusive |
| VersionRange.UpperMembership | faucet/src/test/kotlin/org/basinmc/faucet/util/VersionRangeTest.kt:36-37 | "a)" and "a]" parse and contain exactly the releases before a, a itself only for "]" |
| VersionRange.UpperRangeMembership | faucet/src/main/kotlin/org/basinmc/faucet/util/VersionRange.kt:148-153 | an end-only range contains exactly the releases before its end, the end only when inclusive |
| VersionRange.PlainMembership | faucet/src/test/kotlin/org/basinmc/faucet/util/VersionRangeTest.kt:33 | a release alone parses to a range containing exactly that release |
| VersionRangeJava.ParseAsWritten | faucet/src/main/java/org/basinmc/faucet/util/VersionRange.java:69-136 | the constructor as written reads each version with new Version as written and fails only with IllegalArgumentException, IndexOutOfBoundsException, or the ArrayIndexOutOfBoundsException a dotted extra part lets escape; every range it builds is well formed |
| VersionRangeJava.Uncaught | faucet/src/main/java/org/basinmc/faucet/util/VersionRange.java:102-115 | an exception of new Version other than IllegalArgumentException escapes the catch blocks, from the start or from the end of a two-version text; an IllegalArgumentException is caught |
| VersionRangeJava.Build | faucet/src/main/java/org/basinmc/faucet/util/VersionRange.java:100-135 | the bounds built from the cut text fail only with IllegalArgumentException or an escaped ArrayIndexOutOfBoundsException, and are well formed otherwise |
| VersionRangeJava.Parse | faucet/src/main/java/org/basinmc/faucet/util/VersionRange.java:69-136 | the constructor with only the marker check added fails with the same three exceptions, and every range it accepts is the one the as-written constructor builds |
| VersionRangeJava.OptionHash | faucet/src/main/java/org/basinmc/faucet/util/VersionRange.java:180 | the hash of a nullable bound is a 32-bit value |
| VersionRangeJava.HashCode | faucet/src/main/java/org/basinmc/faucet/util/VersionRange.java:179-181 | the hash is a 32-bit value |
| VersionRangeJava.HashCodeOfEquals | faucet/src/main/java/org/basinmc/faucet/util/VersionRange.java:161-181 | equal ranges hash alike |
| VersionRangeJava.Matches | faucet/src/main/java/org/basinmc/faucet/util/VersionRange.java:144-155 | matches(version) of the Java range: not newer than the start, not older than the end, and not equal to an excluded bound; MatchesByKeys states this over the comparison keys and MatchesAgrees ties it to the Kotlin contains |
| VersionRangeJava.MatchesByKeys | faucet/src/main/java/org/basinmc/faucet/util/VersionRange.java:144-155 | v matches if and only if the bounds' keys enclose v's keys and an equal bound is inclusive |
| VersionRangeJava.MatchesAgrees | faucet/src/main/java/org/basinmc/faucet/util/VersionRange.java:144-155 | where equal versions are exactly those with equal keys, matches answers as the Kotlin contains does |
| VersionRangeJava.TieWithEnd | faucet/src/main/java/org/basinmc/faucet/util/VersionRange.java:149-150 | a version tying with an inclusive end on every key without being equal to it matches here but is outside the Kotlin range |
| VersionRangeJava.AsWrittenAcceptsUnmarked | faucet/src/main/java/org/basinmc/faucet/util/VersionRange.java:118-129 | "v,w" without markers, with v and w accepted by new Version, is accepted as written as a range excluding both ends, and rejected by the corrected constructor |
| VersionRangeJava.CorrectionOnlyAddsCheck | faucet/src/main/java/org/basinmc/faucet/util/VersionRange.java:118-129 | the corrected constructor rejects, beyond what the original rejects, exactly the two-version texts that lack a marker |
| VersionRangeJava.DottedBoundEscapes | faucet/src/main/java/org/basinmc/faucet/util/VersionRange.java:102-115 | a bound whose new Version throws ArrayIndexOutOfBoundsException makes the range constructor throw it, alone, as the start or as the end of a pair, with or without the marker check |
| VersionRangeJava.FormPair | faucet/src/main/java/org/basinmc/faucet/util/VersionRange.java:69-136 | "<p>v,w<q>" with both markers and versions new Version accepts gives the two bounds, inclusive exactly for "[" and "]" |
| VersionRangeJava.ParseRelease | faucet/src/test/java/org/basinmc/faucet/util/VersionRangeTest.java:33-48 | a release text reads as the same version in Java, with index 0 |
| VersionRangeJava.TagStabilityJava | faucet/src/main/java/org/basinmc/faucet/util/VersionRange.java:100-101 | "alpha" and "beta" give ALPHA and BETA with index 0 |
| VersionRangeJava.PairMembership | faucet/src/test/java/org/basinmc/faucet/util/VersionRangeTest.java:38-111 | a marked two-release range parses and matches exactly the releases between its ends, an end counting when its marker is inclusive |
| VersionRangeJava.ReleaseKeyInjective | faucet/src/main/java/org/basinmc/faucet/util/VersionRange.java:144-155 | two releases have the same keys exactly when they are the same release |
| UnstableType.Ordinal | src/main/java/org/basinmc/faucet/plugin/UnstableVersionType.java:34-38 | the ordinal of each of the five constants is below 5 |
| UnstableType.CompareTypes | src/main/java/org/basinmc/faucet/plugin/UnstableVersionType.java:33 | Enum.compareTo is 0 exactly for the same constant, positive exactly for a later-declared one, and between -4 and 4 |
| UnstableType.ByAlias | src/main/java/org/basinmc/faucet/plugin/UnstableVersionType.java:71-76 | byAlias is empty exactly for null |
| UnstableType.RegisterOne | src/main/java/org/basinmc/faucet/plugin/UnstableVersionType.java:50-52 | putIfAbsent of a new alias adds it for its constant |
| UnstableType.RegisterTwo | src/main/java/org/basinmc/faucet/plugin/UnstableVersionType.java:50-52 | offering two new distinct aliases adds both for the constant |
| UnstableType.RegisterAll | src/main/java/org/basinmc/faucet/plugin/UnstableVersionType.java:45-53 | the static initialiser's loop over the constants, registering each alias; RegisterAllStep states one step of the loop |
| UnstableType.RegisterAllStep | src/main/java/org/basinmc/faucet/plugin/UnstableVersionType.java:45-53 | the initialiser's loop after k constants is the loop after k - 1, then the k-th constant's aliases |
| UnstableType.AliasMap | src/main/java/org/basinmc/faucet/plugin/UnstableVersionType.java:42-56 | aliasMap as the static initialiser leaves it; AliasMapContents states which alias maps to which constant |
| UnstableType.AliasMapContents | src/main/java/org/basinmc/faucet/plugin/UnstableVersionType.java:42-56 | the alias table maps exactly snapshot, a, alpha, b, beta and rc to their constants |
| UnstableType.ByAliasDeclared | src/main/java/org/basinmc/faucet/plugin/UnstableVersionType.java:71-76 | each declared alias names its own constant |
| UnstableType.ByAliasOther | src/main/java/org/basinmc/faucet/plugin/UnstableVersionType.java:75 | byAlias gives UNKNOWN exactly for texts that are no declared alias, "ALPHA" and "" included |
| UnstableType.DeclarationOrder | src/main/java/org/basinmc/faucet/plugin/UnstableVersionType.java:34-38 | the constants compare in the order UNKNOWN, SNAPSHOT, ALPHA, BETA, RELEASE_CANDIDATE, and values() lists each at its ordinal |
| PluginVersion.AliasOf | src/main/java/org/basinmc/faucet/plugin/PluginVersion.java:698-702 | the alias looked up for an extra bit is dot-free and is either the whole bit or exactly the part before its first dot |
| PluginVersion.TypeOfExtra | src/main/java/org/basinmc/faucet/plugin/PluginVersion.java:696-706 | a version type is recorded exactly when an extra bit is present |
| PluginVersion.Builder.constructor | src/main/java/org/basinmc/faucet/plugin/PluginVersion.java:637-647 | a new builder holds 0.0.0 with no extra, metadata or type |
| PluginVersion.Builder.SetMajor | src/main/java/org/basinmc/faucet/plugin/PluginVersion.java:728-731 | major(n) replaces the major number and leaves every other field as it was |
| PluginVersion.Builder.SetMinor | src/main/java/org/basinmc/faucet/plugin/PluginVersion.java:786-789 | minor(n) replaces the minor number and leaves every other field as it was |
| PluginVersion.Builder.SetPatch | src/main/java/org/basinmc/faucet/plugin/PluginVersion.java:879-882 | patch(n) replaces the patch number and leaves every other field as it was |
| PluginVersion.Builder.SetExtra | src/main/java/org/basinmc/faucet/plugin/PluginVersion.java:682-709 | extra(x) either throws IllegalArgumentException on a bit containing '-' or '+' and leaves the builder unchanged, or stores the bit together with the type its alias names |
| PluginVersion.Builder.SetMetadata | src/main/java/org/basinmc/faucet/plugin/PluginVersion.java:752-767 | metadata(x) either throws on a bit containing '-' or '+' and leaves the builder unchanged, or stores the bit |
| PluginVersion.Builder.Take | src/main/java/org/basinmc/faucet/plugin/PluginVersion.java:835-852 | one step of the number lambda: a malformed number throws and changes nothing; otherwise the field takes the number before the next dot (nothing for an empty rest) and the rest after that dot is returned |
| PluginVersion.CutVersion | src/main/java/org/basinmc/faucet/plugin/PluginVersion.java:806-831 | the loop-free cut of a version string into numbers, extra and metadata agrees with the reference cut, whichever of '-' and '+' comes first |
| PluginVersion.Builder.Parse | src/main/java/org/basinmc/faucet/plugin/PluginVersion.java:798-860 | parse(v) leaves the builder in the state, and ends with the outcome, the reference parse gives, including the partial state left when a later step throws |
| PluginVersion.Builder.Reset | src/main/java/org/basinmc/faucet/plugin/PluginVersion.java:890-899 | reset() returns every field to its initial value |
| PluginVersion.Builder.Build | src/main/java/org/basinmc/faucet/plugin/PluginVersion.java:655-661 | build() yields the builder's state and resets the builder |
| PluginVersion.Of | src/main/java/org/basinmc/faucet/plugin/PluginVersion.java:97-119 | of(text) runs parse on a fresh builder and then build, and so gives the reference parse of the text |
| PluginVersion.CopiedOf | src/main/java/org/basinmc/faucet/plugin/PluginVersion.java:73-83 | builder(version) copies a well-formed version exactly, without throwing |
| PluginVersion.NumberCopyOf | src/main/java/org/basinmc/faucet/plugin/PluginVersion.java:348-354 | major(n), minor(n) and patch(n) on a version give the same version with that one number replaced |
| PluginVersion.ExtraCopyOf | src/main/java/org/basinmc/faucet/plugin/PluginVersion.java:302-308 | extra(x) on a version succeeds exactly for a bit free of '-' and '+', replacing the bit and its type and keeping the result well-formed; otherwise it throws IllegalArgumentException |
| PluginVersion.MetadataCopyOf | src/main/java/org/basinmc/faucet/plugin/PluginVersion.java:373-376 | metadata(x) on a version succeeds exactly for a bit free of '-' and '+', replacing only the metadata; otherwise it throws IllegalArgumentException |
| PluginVersion.ExtraRevision | src/main/java/org/basinmc/faucet/plugin/PluginVersion.java:316-334 | the revision after the extra bit's first dot is a Java int (0 when absent or malformed) |
| PluginVersion.CompareRevisions | src/main/java/org/basinmc/faucet/plugin/PluginVersion.java:282 | the clamped int difference of two revisions is -1, 0 or 1 |
| PluginVersion.CompareTo | src/main/java/org/basinmc/faucet/plugin/PluginVersion.java:207-283 | compareTo stays within -4..4: a sign, or the ordinal gap between two version types |
| PluginVersion.HashOf | src/main/java/org/basinmc/faucet/plugin/PluginVersion.java:590-597 | the 31-multiplier hash of the five parts wraps like Java int arithmetic and is a Java int |
| PluginVersion.HashCode | src/main/java/org/basinmc/faucet/plugin/PluginVersion.java:590-597 | hashCode is a Java int |
| PluginVersion.TakeAllWellFormed | src/main/java/org/basinmc/faucet/plugin/PluginVersion.java:835-856 | taking the numbers keeps every number non-negative and keeps the type in step with the extra bit |
| PluginVersion.StoreWellFormed | src/main/java/org/basinmc/faucet/plugin/PluginVersion.java:838-852 | storing a parsed number keeps the state well-formed |
| PluginVersion.ParsedWellFormed | src/main/java/org/basinmc/faucet/plugin/PluginVersion.java:798-860 | parse from a well-formed state leaves a well-formed state, whether or not it throws |
| PluginVersion.Stable | src/main/java/org/basinmc/faucet/plugin/PluginVersion.java:462-464 | stable(): no unstable type and a major version above zero; ParseStable states that a parsed version is stable exactly when it has no extra part and a positive major |
| PluginVersion.ParseStable | src/main/java/org/basinmc/faucet/plugin/PluginVersion.java:462-464 | a parsed version is stable exactly when it has no extra bit and a positive major number |
| PluginVersion.DigitsOnly | src/main/java/org/basinmc/faucet/plugin/PluginVersion.java:838-852 | a string of digits holds none of the separators '.', '-' and '+' |
| PluginVersion.NumeralFacts | src/main/java/org/basinmc/faucet/plugin/PluginVersion.java:838-852 | a printed number holds no separator and parses back to itself as an unsigned int |
| PluginVersion.TakeFirst | src/main/java/org/basinmc/faucet/plugin/PluginVersion.java:838-852 | the number lambda takes a printed number followed by a dot and hands on exactly what follows the dot |
| PluginVersion.TakeLast | src/main/java/org/basinmc/faucet/plugin/PluginVersion.java:838-852 | the number lambda takes a final printed number and leaves nothing |
| PluginVersion.NumbersTextFree | src/main/java/org/basinmc/faucet/plugin/PluginVersion.java:608-616 | the number part of toString contains neither '-' nor '+' |
| PluginVersion.ToString | src/main/java/org/basinmc/faucet/plugin/PluginVersion.java:604-631 | toString(): major and minor, the patch only when above zero, then "-extra" and "+metadata"; ToStringLayout and ParseToString tie it to the parser |
| PluginVersion.ToStringLayout | src/main/java/org/basinmc/faucet/plugin/PluginVersion.java:604-631 | toString is the numbers, then '-' and the extra bit if present, then '+' and the metadata if present |
| PluginVersion.CutSuffix | src/main/java/org/basinmc/faucet/plugin/PluginVersion.java:806-831 | cutting a printed version gives back its numbers, extra bit and metadata |
| PluginVersion.CutForward | src/main/java/org/basinmc/faucet/plugin/PluginVersion.java:818-822 | with '-' before '+', the extra bit ends at the '+' and the metadata runs to the end |
| PluginVersion.CutReversed | src/main/java/org/basinmc/faucet/plugin/PluginVersion.java:818-822 | with '+' before '-', the metadata ends at the '-' and the extra bit runs to the end |
| PluginVersion.TakeAllSteps | src/main/java/org/basinmc/faucet/plugin/PluginVersion.java:853-856 | three successful number steps set major, minor and patch in that order and end normally |
| PluginVersion.TakeThree | src/main/java/org/basinmc/faucet/plugin/PluginVersion.java:853-856 | "a.b.c" sets the three numbers to a, b and c |
| PluginVersion.TakeThreeAndMore | src/main/java/org/basinmc/faucet/plugin/PluginVersion.java:853-856 | anything after a third number and a dot is ignored |
| PluginVersion.TakeTwo | src/main/java/org/basinmc/faucet/plugin/PluginVersion.java:853-856 | "a.b" sets major and minor and leaves patch as it was |
| PluginVersion.TakeAllNumbers | src/main/java/org/basinmc/faucet/plugin/PluginVersion.java:853-856 | the number text toString prints is taken back into the same three numbers |
| PluginVersion.ParseFrom | src/main/java/org/basinmc/faucet/plugin/PluginVersion.java:798-860 | parse of a string cut into printable numbers and plain bits stores exactly those numbers and bits and ends normally |
| PluginVersion.ParseOf | src/main/java/org/basinmc/faucet/plugin/PluginVersion.java:114-119 | of() on such a string yields that version |
| PluginVersion.ParseToString | src/main/java/org/basinmc/faucet/plugin/PluginVersion.java:604-631 | of(toString()) gives back any well-formed version whose parts toString prints faithfully |
| PluginVersion.ParseForward | src/test/java/org/basinmc/faucet/plugin/PluginVersionTest.java:2296-2380 | "n-x+m" parses to the version with extra x and metadata m |
| PluginVersion.ParseEitherOrder | src/main/java/org/basinmc/faucet/plugin/PluginVersion.java:818-822 | "n+m-x" parses to the same version as "n-x+m" |
| PluginVersion.ParseMajorOnly | src/main/java/org/basinmc/faucet/plugin/PluginVersion.java:838-856 | a lone number parses to that major version with minor and patch 0 |
| PluginVersion.ParseIgnoresFourthNumber | src/main/java/org/basinmc/faucet/plugin/PluginVersion.java:853-856 | text after the third number is silently dropped |
| PluginVersion.ParseRejectsSecondMark | src/main/java/org/basinmc/faucet/plugin/PluginVersion.java:689-694 | an extra or metadata bit that repeats its own mark and lacks the other fails with IllegalArgumentException |
| PluginVersion.Equals | src/main/java/org/basinmc/faucet/plugin/PluginVersion.java:522-575 | equals(PluginVersion): null is unequal; otherwise numbers, stability and type presence agree, and type and revision when a type is present; EqualsByKeys states that this is equality of the comparison keys |
| PluginVersion.EqualsByKeys | src/main/java/org/basinmc/faucet/plugin/PluginVersion.java:522-575 | equals holds exactly when numbers, stability, type and revision all agree |
| PluginVersion.CompareToZero | src/main/java/org/basinmc/faucet/plugin/PluginVersion.java:207-217 | compareTo is 0 exactly for equal versions, and 1 against null, which is never equal |
| PluginVersion.RevisionsTie | src/main/java/org/basinmc/faucet/plugin/PluginVersion.java:282 | the clamped revision comparison is 0 exactly when the revisions agree |
| PluginVersion.LexLessSix | src/main/java/org/basinmc/faucet/plugin/PluginVersion.java:221-282 | lexicographic order on six keys unfolds into the cascade of field comparisons |
| PluginVersion.CompareToByKeys | src/main/java/org/basinmc/faucet/plugin/PluginVersion.java:207-283 | without revision overflow, compareTo's sign is the lexicographic order of (major, minor, patch, stability, type, revision) |
| PluginVersion.CompareToAntisymmetric | src/main/java/org/basinmc/faucet/plugin/PluginVersion.java:207-283 | a is newer than b exactly when b is older than a, and ties are mutual |
| PluginVersion.CompareToTransitive | src/main/java/org/basinmc/faucet/plugin/PluginVersion.java:207-283 | "newer than" is transitive |
| PluginVersion.RevisionWraps | src/main/java/org/basinmc/faucet/plugin/PluginVersion.java:327-329 | parseUnsignedInt reads "alias.2147483648" as the revision Integer.MIN_VALUE |
| PluginVersion.RevisionOverflow | src/main/java/org/basinmc/faucet/plugin/PluginVersion.java:282 | revisions 0 and Integer.MIN_VALUE each compare as older than the other, since their difference wraps |
| PluginVersion.NewerThan | src/main/java/org/basinmc/faucet/plugin/PluginVersion.java:404-406 | newerThan() as written: compareTo is exactly 1; TypeGap shows two versions two type ordinals apart that are then neither newer, older nor equal |
| PluginVersion.OlderThan | src/main/java/org/basinmc/faucet/plugin/PluginVersion.java:423-425 | olderThan() as written: compareTo is exactly -1; TypeGap shows the versions it misses |
| PluginVersion.TypeGap | src/main/java/org/basinmc/faucet/plugin/PluginVersion.java:404-406 | as written, two versions whose types lie two or more ordinals apart are neither newer, older nor equal, though the corrected tests order them |
| PluginVersion.IsNewer | src/main/java/org/basinmc/faucet/plugin/PluginVersion.java:404-406 | newerThan() as its documentation means it: compareTo is positive; IsNewerByKeys states this as the lexicographic order on the keys |
| PluginVersion.IsOlder | src/main/java/org/basinmc/faucet/plugin/PluginVersion.java:423-425 | olderThan() as its documentation means it: compareTo is negative; IsNewerByKeys states the order and that a version is never both newer and older |
| PluginVersion.IsNewerByKeys | src/main/java/org/basinmc/faucet/plugin/PluginVersion.java:404-425 | corrected newerThan/olderThan (sign of compareTo) follow the key order, exclude each other, and are converses |
| PluginVersion.CompareToOfEquals | src/main/java/org/basinmc/faucet/plugin/PluginVersion.java:522-575 | equal versions are interchangeable in equals and compareTo |
| PluginVersion.TypedInterchangeable | src/main/java/org/basinmc/faucet/plugin/PluginVersion.java:522-575 | equal typed versions compare alike against any third version |
| PluginVersion.UntypedInterchangeable | src/main/java/org/basinmc/faucet/plugin/PluginVersion.java:522-575 | equal untyped versions compare alike against any third version |
| PluginVersion.HashCodeOfEquals | src/main/java/org/basinmc/faucet/plugin/PluginVersion.java:590-597 | equal well-formed versions hash alike |
| PluginVersion.HashOfParts | src/main/java/org/basinmc/faucet/plugin/PluginVersion.java:590-597 | the hash depends only on the numbers, the type and the revision |
| PluginVersion.WordThenRevision | src/main/java/org/basinmc/faucet/plugin/PluginVersion.java:698-702 | the alias of "word.revision" is the word, found at the first dot |
| PluginVersion.RevisionOfWord | src/main/java/org/basinmc/faucet/plugin/PluginVersion.java:316-334 | the revision of "word.r" is r read as an unsigned int, 0 without a dot or for a malformed r |
| PluginVersion.AliasesAgree | src/main/java/org/basinmc/faucet/plugin/UnstableVersionType.java:34-38 | "a" and "alpha", with or without a revision, both name the alpha type |
| PluginVersion.SameTypeEqual | src/main/java/org/basinmc/faucet/plugin/PluginVersion.java:522-597 | same numbers, type and revision make versions equal, compare 0 and hash alike, whatever the extra text |
| PluginVersion.AliasesEqual | src/test/java/org/basinmc/faucet/plugin/PluginVersionTest.java:743-749 | "-a.r" and "-alpha.r" give equal versions with equal hashes that compare 0, whatever the metadata |
| PluginRange.Matching | src/main/java/org/basinmc/faucet/plugin/VersionRange.java:166-172 | matching(versions) by matches() as written keeps only versions of the given set |
| PluginRange.MatchingCorrected | src/main/java/org/basinmc/faucet/plugin/VersionRange.java:166-172 | matching(versions) by the corrected matches() keeps only versions of the given set |
| PluginRange.RangeHash | src/main/java/org/basinmc/faucet/plugin/VersionRange.java:254-260 | the range's 31-multiplier hash of its bounds and flags is a Java int |
| PluginRange.RangeBuilder.constructor | src/main/java/org/basinmc/faucet/plugin/VersionRange.java:273-274 | a new range builder holds no bounds and both flags false |
| PluginRange.RangeBuilder.SetStart | src/main/java/org/basinmc/faucet/plugin/VersionRange.java:378-381 | startBound(v) replaces only the start bound |
| PluginRange.RangeBuilder.SetStartInclusive | src/main/java/org/basinmc/faucet/plugin/VersionRange.java:399-402 | startInclusive(b) replaces only the start flag |
| PluginRange.RangeBuilder.SetEnd | src/main/java/org/basinmc/faucet/plugin/VersionRange.java:317-320 | endBound(v) replaces only the end bound |
| PluginRange.RangeBuilder.SetEndInclusive | src/main/java/org/basinmc/faucet/plugin/VersionRange.java:339-342 | endInclusive(b) replaces only the end flag |
| PluginRange.RangeBuilder.Reset | src/main/java/org/basinmc/faucet/plugin/VersionRange.java:350-359 | reset() clears both bounds, makes the start inclusive and the end exclusive |
| PluginRange.RangeBuilder.Build | src/main/java/org/basinmc/faucet/plugin/VersionRange.java:285-297 | build() behaves as the reference build step: IllegalStateException without both bounds, else the range, and the builder is reset |
| PluginRange.Replicate | src/main/java/org/basinmc/faucet/plugin/VersionRange.java:68-75 | builder(range) starts from exactly the range's bounds and flags |
| PluginRange.WithStart | src/main/java/org/basinmc/faucet/plugin/VersionRange.java:191-193 | startBound(v) on a range replaces only the start bound |
| PluginRange.WithStartInclusive | src/main/java/org/basinmc/faucet/plugin/VersionRange.java:212-214 | startInclusive(x) on a range replaces only the start flag |
| PluginRange.WithEnd | src/main/java/org/basinmc/faucet/plugin/VersionRange.java:95-97 | endBound(v) on a range replaces only the end bound |
| PluginRange.WithEndInclusive | src/main/java/org/basinmc/faucet/plugin/VersionRange.java:116-118 | endInclusive(x) on a range replaces only the end flag |
| PluginRange.Span | src/main/java/org/basinmc/faucet/plugin/PluginVersion.java:130-137 | range(v1, v2) has both bounds exclusive |
| PluginRange.SpanOf | src/main/java/org/basinmc/faucet/plugin/PluginVersion.java:148-150 | range(t1, t2) parses both texts, start first, and then spans them |
| PluginRange.RangeOf | src/main/java/org/basinmc/faucet/plugin/PluginVersion.java:164-205 | range(text) behaves as the reference range parse: single-version form without a comma, marked pair otherwise |
| PluginRange.SingleOf | src/main/java/org/basinmc/faucet/plugin/PluginVersion.java:167-177 | the single-version path builds the version and its single end, start inclusive and end exclusive |
| PluginRange.PairOf | src/main/java/org/basinmc/faucet/plugin/PluginVersion.java:180-204 | the two-version path checks both markers before parsing either version, and sets the flags from them |
| PluginRange.BoundedOf | src/main/java/org/basinmc/faucet/plugin/PluginVersion.java:197-204 | the final build of the two-version path parses the start, then the end, keeping the flags the markers set |
| PluginRange.BuildStep | src/main/java/org/basinmc/faucet/plugin/VersionRange.java:285-297 | build(): IllegalStateException with the builder untouched when a bound is missing, otherwise the range and a reset builder; BuildNeedsBounds and BuildOfBounds state both cases |
| PluginRange.BuildNeedsBounds | src/main/java/org/basinmc/faucet/plugin/VersionRange.java:285-297 | build succeeds exactly with both bounds set; a successful build leaves a builder whose next build throws; a failed build changes nothing |
| PluginRange.BuildOfBounds | src/main/java/org/basinmc/faucet/plugin/VersionRange.java:68-75 | building a copy of a range gives that range back and clears the builder |
| PluginRange.Matches | src/main/java/org/basinmc/faucet/plugin/VersionRange.java:126-142 | matches(version) over the sign of compareTo; MatchesByKeys states that the version lies between the bounds, each inclusive or exclusive as the range says |
| PluginRange.MatchesByKeys | src/main/java/org/basinmc/faucet/plugin/VersionRange.java:126-142 | with the corrected newer/older tests, a version matches exactly when it lies above the start (or at it, if inclusive) and below the end (or at it, if inclusive) in version order |
| PluginRange.MatchesAsWritten | src/main/java/org/basinmc/faucet/plugin/VersionRange.java:126-142 | matches(version) as written, over newerThan / olderThan; CorrectionNarrows, CorrectionAgrees and BetaRangeMatchesSnapshot relate it to the corrected Matches |
| PluginRange.MatchesNull | src/main/java/org/basinmc/faucet/plugin/VersionRange.java:126-142 | null matches no range |
| PluginRange.CorrectionNarrows | src/main/java/org/basinmc/faucet/plugin/VersionRange.java:126-142 | every version the corrected test accepts is accepted as written |
| PluginRange.CorrectionAgrees | src/main/java/org/basinmc/faucet/plugin/VersionRange.java:126-142 | when both compareTo results are -1, 0 or 1 the corrected and as-written tests agree |
| PluginRange.EqualRangesMatchAlike | src/main/java/org/basinmc/faucet/plugin/VersionRange.java:221-249 | equal ranges accept the same versions |
| PluginRange.RangeHashOfEquals | src/main/java/org/basinmc/faucet/plugin/VersionRange.java:221-260 | equal ranges hash alike |
| PluginRange.MatchingContents | src/main/java/org/basinmc/faucet/plugin/VersionRange.java:166-172 | both matchings keep exactly the members of the set that their matches() accepts and distribute over union; the corrected one keeps a subset of the as-written one |
| PluginRange.UnstableSingleIsEmpty | src/main/java/org/basinmc/faucet/plugin/PluginVersion.java:168-177 | the single range of an unstable version, [v, v), contains nothing |
| PluginRange.UnstableSingleAsWritten | src/main/java/org/basinmc/faucet/plugin/VersionRange.java:134-139 | as written, [v, v) accepts a version whose type lies two or more ordinals below v's |
| PluginRange.SingleForm | src/main/java/org/basinmc/faucet/plugin/PluginVersion.java:167-177 | a text without a comma parses as a range exactly when it parses as a version, giving that version's single range |
| PluginRange.SingleFormMembers | src/main/java/org/basinmc/faucet/plugin/PluginVersion.java:167-177 | the single range of a stable version holds exactly the versions from it up to, not including, the next major; an unstable one's holds nothing |
| PluginRange.CommaNeedsMarkers | src/main/java/org/basinmc/faucet/plugin/PluginVersion.java:183-193 | with a comma, a missing '['/'(' or ']'/')' throws IllegalArgumentException |
| PluginRange.PairForm | src/main/java/org/basinmc/faucet/plugin/PluginVersion.java:180-204 | "[s,t]", "(s,t)" and mixes give the two versions with inclusive flags taken from the brackets |
| PluginRange.MarkedPair | src/main/java/org/basinmc/faucet/plugin/PluginVersion.java:183-196 | the markers are stripped and set the flags |
| PluginRange.AliasWellFormed | src/main/java/org/basinmc/faucet/plugin/PluginVersion.java:682-709 | a version with an alias as its extra bit and the alias's type is well-formed |
| PluginRange.WitnessesWellFormed | src/main/java/org/basinmc/faucet/plugin/PluginVersion.java:682-709 | the two witness versions, a beta and a snapshot, are well-formed |
| PluginRange.BetaText | src/main/java/org/basinmc/faucet/plugin/PluginVersion.java:604-631 | the beta witness prints without a comma |
| PluginRange.UnstableRangeText | src/main/java/org/basinmc/faucet/plugin/PluginVersion.java:164-177 | range(toString(v)) for an unstable v is [v, v), which as written accepts a version two or more types below v and, corrected, accepts nothing |
| PluginRange.BetaRangeMatchesSnapshot | src/main/java/org/basinmc/faucet/plugin/VersionRange.java:126-142 | concretely, the range of a beta version accepts a snapshot of the same numbers as written, and not when corrected |
| PluginContext.Numeric | src/main/java/org/basinmc/faucet/plugin/PluginContext.java:112-143 | the seven states are numbered 0 to 6 |
| PluginContext.StepMap | src/main/java/org/basinmc/faucet/plugin/PluginContext.java:145-155 | the step map has an entry exactly for 0..6, and maps each number to the state carrying it |
| PluginContext.NextStep | src/main/java/org/basinmc/faucet/plugin/PluginContext.java:170-177 | getNextStep returns the state itself at the target, and otherwise the neighbouring state one step nearer the target |
| PluginContext.NumericInjective | src/main/java/org/basinmc/faucet/plugin/PluginContext.java:157-161 | no two states share a number |
| PluginContext.StepMapOfNumeric | src/main/java/org/basinmc/faucet/plugin/PluginContext.java:147-155 | the step map gives every state back from its number |
| PluginContext.StepsReach | src/main/java/org/basinmc/faucet/plugin/PluginContext.java:170-177 | k repeated steps shorten the distance to the target by exactly k |
| PluginContext.StepsReachFrom | src/main/java/org/basinmc/faucet/plugin/PluginContext.java:170-177 | the same from the first step on |
| PluginContext.StepCloser | src/main/java/org/basinmc/faucet/plugin/PluginContext.java:170-177 | one step shortens the distance by one, and k steps are one step followed by k - 1 |
| PluginContext.StepsArrive | src/main/java/org/basinmc/faucet/plugin/PluginContext.java:170-177 | stepping towards a target reaches it after exactly as many steps as their distance, and not before |
| PluginContext.IsClosestStep | src/main/java/org/basinmc/faucet/plugin/PluginContext.java:185-191 | isClosestStep(state): equal, or one numeric step apart; NextStepIsClosest and ClosestStepSymmetric state its properties |
| PluginContext.NextStepIsClosest | src/main/java/org/basinmc/faucet/plugin/PluginContext.java:170-191 | the next step is always a closest step of the state |
| PluginContext.ClosestStepSymmetric | src/main/java/org/basinmc/faucet/plugin/PluginContext.java:185-191 | isClosestStep holds of a state and itself, and is symmetric |
| PluginContext.IsCloserTo | src/main/java/org/basinmc/faucet/plugin/PluginContext.java:200-213 | isCloserTo(target, state): never for the state itself, always for the target, otherwise by distance to the target; CloserByDistance states this as a comparison of distances |
| PluginContext.CloserByDistance | src/main/java/org/basinmc/faucet/plugin/PluginContext.java:200-213 | isCloserTo(target, b) holds exactly when the state is strictly nearer the target than b |
| PluginContext.CloserToOrder | src/main/java/org/basinmc/faucet/plugin/PluginContext.java:200-213 | isCloserTo is irreflexive, asymmetric and transitive for a fixed target |
| PluginContext.NextStepIsCloser | src/main/java/org/basinmc/faucet/plugin/PluginContext.java:170-213 | away from the target, the next step is closer to it than the state |
| BitMask.And | faucet/src/main/kotlin/org/basinmc/faucet/util/BitMask.kt:46 | the bitwise and of two masks stays within the 32-bit width |
| BitMask.AndNot | faucet/src/main/kotlin/org/basinmc/faucet/util/BitMask.kt:74 | and with the complement stays within the 32-bit width |
| BitMask.Xor | faucet/src/main/kotlin/org/basinmc/faucet/util/BitMask.kt:60 | exclusive or stays within the 32-bit width |
| BitMask.Count | faucet/src/main/kotlin/org/basinmc/faucet/util/BitMask.kt:35 | Integer.bitCount of a 32-bit mask is at most 32 |
| BitMask.Size | faucet/src/main/kotlin/org/basinmc/faucet/util/BitMask.kt:35 | size is at most the width |
| BitMask.Set | faucet/src/main/kotlin/org/basinmc/faucet/util/BitMask.kt:54-61 | set(state) yields a valid mask of the same class, or IllegalArgumentException |
| BitMask.Unset | faucet/src/main/kotlin/org/basinmc/faucet/util/BitMask.kt:68-75 | unset(state) yields a valid mask of the same class, or IllegalArgumentException |
| BitMask.Elements | faucet/src/main/kotlin/org/basinmc/faucet/util/BitMask.kt:80-84 | iteration yields exactly those of the definition's values the mask has, and no more elements than there are values |
| BitMask.Signed | faucet/src/main/kotlin/org/basinmc/faucet/util/BitMask.kt:122-124 | the 32 mask bits read as a Java int |
| BitMask.MaskHash | faucet/src/main/kotlin/org/basinmc/faucet/util/BitMask.kt:122-124 | hashCode, Objects.hash of the mask, is a Java int |
| BitMask.Pow2Sum | faucet/src/main/kotlin/org/basinmc/faucet/util/BitMask.kt:35 | powers of two multiply by adding exponents |
| BitMask.CountZero | faucet/src/main/kotlin/org/basinmc/faucet/util/BitMask.kt:35 | the bit count is 0 exactly for the empty mask |
| BitMask.CountSplit | faucet/src/main/kotlin/org/basinmc/faucet/util/BitMask.kt:35 | the bits of a mask split into those inside and those outside a state |
| BitMask.CountDisjoint | faucet/src/main/kotlin/org/basinmc/faucet/util/BitMask.kt:60 | xor with disjoint bits adds their counts |
| BitMask.XorTwice | faucet/src/main/kotlin/org/basinmc/faucet/util/BitMask.kt:60 | xor with the same bits twice gives back the mask |
| BitMask.XorPresent | faucet/src/main/kotlin/org/basinmc/faucet/util/BitMask.kt:60-74 | xor with bits already set clears exactly them |
| BitMask.XorOutside | faucet/src/main/kotlin/org/basinmc/faucet/util/BitMask.kt:60 | xor leaves the bits outside the state alone |
| BitMask.XorInside | faucet/src/main/kotlin/org/basinmc/faucet/util/BitMask.kt:60 | inside the state, xor flips the bits |
| BitMask.AndNotTwice | faucet/src/main/kotlin/org/basinmc/faucet/util/BitMask.kt:74 | clearing the same bits twice is clearing them once |
| BitMask.AndNotInside | faucet/src/main/kotlin/org/basinmc/faucet/util/BitMask.kt:74 | after clearing, no bit of the state is left |
| BitMask.XorSingle | faucet/src/main/kotlin/org/basinmc/faucet/util/BitMask.kt:46-60 | for a single-bit state, xor makes the bit present exactly when it was absent |
| BitMask.SizeZero | faucet/src/main/kotlin/org/basinmc/faucet/util/BitMask.kt:35 | a mask is empty exactly when its size is 0 |
| BitMask.SizeOfUnset | faucet/src/main/kotlin/org/basinmc/faucet/util/BitMask.kt:35-75 | unset lowers the size by the number of the state's bits that were set |
| BitMask.SizeOfSetAbsent | faucet/src/main/kotlin/org/basinmc/faucet/util/BitMask.kt:35-61 | setting absent bits raises the size by the state's size |
| BitMask.SetTwice | faucet/src/main/kotlin/org/basinmc/faucet/util/BitMask.kt:54-61 | set(state) twice gives back the mask, since set toggles |
| BitMask.SetPresentClears | faucet/src/main/kotlin/org/basinmc/faucet/util/BitMask.kt:54-75 | set of a state already present clears it, like unset |
| BitMask.SetToggles | faucet/src/main/kotlin/org/basinmc/faucet/util/BitMask.kt:54-61 | set keeps the class and the bits outside the state, and flips the bits inside it |
| BitMask.SetSingleToggles | faucet/src/main/kotlin/org/basinmc/faucet/util/BitMask.kt:43-61 | for a single flag, has after set is the negation of has before |
| BitMask.UnsetClears | faucet/src/main/kotlin/org/basinmc/faucet/util/BitMask.kt:68-75 | unset keeps the class and the other bits, clears the state's bits, is idempotent, and after it a non-empty state is not had |
| BitMask.Has | faucet/src/main/kotlin/org/basinmc/faucet/util/BitMask.kt:43-47 | has(state): false across classes, otherwise every bit of the flag is set; HasSelf, SetPresentClears, UnsetClears and ElementsInOrder state its properties |
| BitMask.HasSelf | faucet/src/main/kotlin/org/basinmc/faucet/util/BitMask.kt:43-47 | every mask has itself |
| BitMask.OtherClass | faucet/src/main/kotlin/org/basinmc/faucet/util/BitMask.kt:43-75 | a state of another class is never had, and set and unset with it throw IllegalArgumentException |
| BitMask.ElementsInOrder | faucet/src/main/kotlin/org/basinmc/faucet/util/BitMask.kt:80-84 | the iteration is values.filter(has): the k-th element is the value at the k-th position the mask has, the positions increase, and they are exactly the positions of values the mask has |
| BitMask.ElementsKeepAll | faucet/src/main/kotlin/org/basinmc/faucet/util/BitMask.kt:80-84 | the iteration yields every value exactly when the mask has all of them |
| BitMask.MaskHashOfEquals | faucet/src/main/kotlin/org/basinmc/faucet/util/BitMask.kt:108-124 | equal masks hash alike |
| Extensions.ReferenceHash | faucet/src/main/kotlin/org/basinmc/faucet/extension/dependency/ExtensionReference.kt:59-61 | Objects.hash of the identifier and the range is a Java int |
| Extensions.CompareExtensions | faucet/src/main/kotlin/org/basinmc/faucet/extension/Extension.kt:58-75 | compareTo returns only -1, 0 or 1 |
| Extensions.ContainsRespectsEquals | faucet/src/main/kotlin/org/basinmc/faucet/extension/dependency/ExtensionReference.kt:37-40 | versions equal by Version.equals lie in the same ranges |
| Extensions.Matches | faucet/src/main/kotlin/org/basinmc/faucet/extension/dependency/ExtensionReference.kt:37-40 | matches(manifest): the identifiers agree ignoring case and the version lies in the range; MatchesIgnoresCase, MatchesByIdentity and MatchesNeedsIdentifier state its properties |
| JavaLang.EqualsIgnoreCase | faucet/src/main/kotlin/org/basinmc/faucet/extension/dependency/ExtensionReference.kt:38 | String.equalsIgnoreCase on ASCII letters; Extensions.MatchesIgnoresCase states that references whose identifiers agree this way match alike |
| Extensions.MatchesIgnoresCase | faucet/src/main/kotlin/org/basinmc/faucet/extension/dependency/ExtensionReference.kt:37-40 | matches does not depend on the case of the reference's identifier |
| Extensions.MatchesByIdentity | faucet/src/main/kotlin/org/basinmc/faucet/extension/dependency/ExtensionReference.kt:37-40 | matches sees of the manifest only its identifier, up to case, and its version, up to equals |
| Extensions.MatchesNeedsIdentifier | faucet/src/main/kotlin/org/basinmc/faucet/extension/dependency/ExtensionReference.kt:37-40 | a manifest whose identifier differs, ignoring case, never matches |
| Extensions.ReferenceEquals | faucet/src/main/kotlin/org/basinmc/faucet/extension/dependency/ExtensionReference.kt:45-57 | equals(): the identifier case-sensitively and the range by its equals; ReferenceEqualsAgree states that equal references match the same manifests |
| Extensions.ReferenceEqualsAgree | faucet/src/main/kotlin/org/basinmc/faucet/extension/dependency/ExtensionReference.kt:45-61 | equal references match the same manifests and hash alike |
| Extensions.DependsOn | faucet/src/main/kotlin/org/basinmc/faucet/extension/Extension.kt:59-62 | the anyMatch over a manifest's extension dependencies; CompareCases states compareTo's three outcomes in terms of it |
| Extensions.CompareCases | faucet/src/main/kotlin/org/basinmc/faucet/extension/Extension.kt:58-75 | compareTo is 0 when neither or both depend on each other, -1 exactly when only the other depends on this one, 1 exactly when only this one depends on the other |
| Extensions.CompareAntisymmetric | faucet/src/main/kotlin/org/basinmc/faucet/extension/Extension.kt:58-75 | swapping the extensions negates compareTo, and an extension ties with itself |
| Extensions.CompareNotTransitive | faucet/src/main/kotlin/org/basinmc/faucet/extension/Extension.kt:58-75 | the comparator is not transitive: with c depending on b and b on a, a sorts before b and b before c while a and c tie |
| Lifecycle.StartStep | sink/src/main/kotlin/org/basinmc/sink/util/LifecycleService.kt:38-49 | start() runs the startup hook exactly when the service is not running, and leaves it running |
| Lifecycle.StopStep | sink/src/main/kotlin/org/basinmc/sink/util/LifecycleService.kt:54-65 | stop() runs the shutdown hook exactly when the service is running, and leaves it stopped |
| Lifecycle.LifecycleService.constructor | sink/src/main/kotlin/org/basinmc/sink/util/LifecycleService.kt:32-33 | a new service is not running |
| Lifecycle.LifecycleService.OnStart | sink/src/main/kotlin/org/basinmc/sink/util/LifecycleService.kt:87-89 | the base startup hook sets the running flag |
| Lifecycle.LifecycleService.OnStop | sink/src/main/kotlin/org/basinmc/sink/util/LifecycleService.kt:99-101 | the base shutdown hook clears the running flag |
| Lifecycle.LifecycleService.Start | sink/src/main/kotlin/org/basinmc/sink/util/LifecycleService.kt:38-49 | start() on the object does what StartStep says for the flag it finds |
| Lifecycle.LifecycleService.Stop | sink/src/main/kotlin/org/basinmc/sink/util/LifecycleService.kt:54-65 | stop() on the object does what StopStep says for the flag it finds |
| Lifecycle.StartStopIdempotent | sink/src/main/kotlin/org/basinmc/sink/util/LifecycleService.kt:38-65 | a second start, or a second stop, runs no hook |
| Lifecycle.StartStopAlternate | sink/src/main/kotlin/org/basinmc/sink/util/LifecycleService.kt:38-65 | a stop after a start, and a start after a stop, always run their hook |
| SinkExtension.ExtensionImpl.constructor | sink/src/main/kotlin/org/basinmc/sink/plugin/ExtensionImpl.kt:43-75 | a new extension keeps its container path and manifest, is REGISTERED, and has no dependencies, sources, class loader or context |
| SinkExtension.ExtensionImpl.WireDependency | sink/src/main/kotlin/org/basinmc/sink/plugin/ExtensionImpl.kt:85-96 | wireDependency on the object does what WireStep says |
| SinkExtension.ExtensionImpl.Resolve | sink/src/main/kotlin/org/basinmc/sink/plugin/ExtensionImpl.kt:98-113 | resolve on the object does what ResolveStep says |
| SinkExtension.ExtensionImpl.DropOptional | sink/src/main/kotlin/org/basinmc/sink/plugin/ExtensionImpl.kt:129-141 | the removal loop leaves the wired list and source map as Dropped computes them, touching nothing else |
| SinkExtension.ExtensionImpl.InitializeAsWritten | sink/src/main/kotlin/org/basinmc/sink/plugin/ExtensionImpl.kt:120-160 | initialize as written on the object does what InitializeStepAsWritten says |
| SinkExtension.ExtensionImpl.Initialize | sink/src/main/kotlin/org/basinmc/sink/plugin/ExtensionImpl.kt:120-160 | corrected initialize on the object does what InitializeStep says |
| SinkExtension.ExtensionImpl.Start | sink/src/main/kotlin/org/basinmc/sink/plugin/ExtensionImpl.kt:169-201 | start on the object does what StartStep says |
| SinkExtension.ExtensionImpl.Close | sink/src/main/kotlin/org/basinmc/sink/plugin/ExtensionImpl.kt:206-230 | close on the object does what CloseStep says |
| SinkExtension.Phases | sink/src/main/kotlin/org/basinmc/sink/plugin/ExtensionImpl.kt:127 | the phases of the wired dependencies, one per dependency, in order |
| SinkExtension.Manifests | sink/src/main/kotlin/org/basinmc/sink/plugin/ExtensionImpl.kt:102 | the manifests of the wired dependencies, one per dependency, in order |
| SinkExtension.Unresolved | sink/src/main/kotlin/org/basinmc/sink/plugin/ExtensionImpl.kt:100-102 | the unresolved list holds exactly the declared required dependencies that no wired dependency's manifest matches |
| SinkExtension.NotLoaded | sink/src/main/kotlin/org/basinmc/sink/plugin/ExtensionImpl.kt:126-127 | the filtered list is empty exactly when every wired dependency is LOADED, and holds every one that is not |
| SinkExtension.NotLoadedSound | sink/src/main/kotlin/org/basinmc/sink/plugin/ExtensionImpl.kt:126-127 | every entry of the filtered list is a wired dependency that is not LOADED |
| SinkExtension.WithoutOptionalSource | sink/src/main/kotlin/org/basinmc/sink/plugin/ExtensionImpl.kt:142-145 | the required list holds exactly the entries whose recorded source is absent or not optional |
| SinkExtension.RemoveFirst | sink/src/main/kotlin/org/basinmc/sink/plugin/ExtensionImpl.kt:139 | removing an element from a list removes one occurrence of it, or nothing when absent |
| SinkExtension.FreshConsistent | sink/src/main/kotlin/org/basinmc/sink/plugin/ExtensionImpl.kt:58-75 | a new extension's phase and fields agree |
| SinkExtension.WireStep | sink/src/main/kotlin/org/basinmc/sink/plugin/ExtensionImpl.kt:85-96 | wireDependency: IllegalStateException unless REGISTERED, otherwise the extension appended and its source recorded; WireOnlyWhileRegistered states both cases |
| SinkExtension.WireOnlyWhileRegistered | sink/src/main/kotlin/org/basinmc/sink/plugin/ExtensionImpl.kt:85-96 | wiring succeeds exactly in REGISTERED, appending the extension and recording the source given; otherwise it throws IllegalStateException and changes nothing |
| SinkExtension.ResolveStep | sink/src/main/kotlin/org/basinmc/sink/plugin/ExtensionImpl.kt:99-113 | resolve(): fails with nothing changed when a required dependency has no wired match, otherwise RESOLVED; ResolveFailsIff states both directions |
| SinkExtension.ResolveFailsIff | sink/src/main/kotlin/org/basinmc/sink/plugin/ExtensionImpl.kt:98-113 | resolve throws exactly when a required declared dependency is matched by no wired dependency, then changing nothing; otherwise only the phase becomes RESOLVED |
| SinkExtension.ResolveUnwired | sink/src/main/kotlin/org/basinmc/sink/plugin/ExtensionImpl.kt:98-113 | with nothing wired, resolve succeeds exactly when every declared dependency is optional |
| SinkExtension.Dropped | sink/src/main/kotlin/org/basinmc/sink/plugin/ExtensionImpl.kt:129-141 | the removeIf over unloaded dependencies whose source is optional, applied to the wired list and the source map; DroppedKeepsOthers, DroppedRemovesOptional and DroppedSources state what it keeps and removes |
| SinkExtension.DroppedKeepsOthers | sink/src/main/kotlin/org/basinmc/sink/plugin/ExtensionImpl.kt:129-141 | the removal loop keeps every entry whose source is not optional, with its source |
| SinkExtension.DroppedRemovesOptional | sink/src/main/kotlin/org/basinmc/sink/plugin/ExtensionImpl.kt:129-141 | after the loop no visited entry has an optional source |
| SinkExtension.DroppedSources | sink/src/main/kotlin/org/basinmc/sink/plugin/ExtensionImpl.kt:129-141 | the loop only removes sources, and keeps every one it does not visit |
| SinkExtension.InitializeStepAsWritten | sink/src/main/kotlin/org/basinmc/sink/plugin/ExtensionImpl.kt:121-160 | initialize() as written, which checks optionality against the pruned source map; InitializeAsWrittenFailsIff states when it fails |
| SinkExtension.InitializeAsWrittenFailsIff | sink/src/main/kotlin/org/basinmc/sink/plugin/ExtensionImpl.kt:142-149 | as written, initialize throws a resolver error exactly when some wired dependency is not LOADED, optional or not |
| SinkExtension.InitializeStep | sink/src/main/kotlin/org/basinmc/sink/plugin/ExtensionImpl.kt:121-160 | initialize() with optionality checked against the sources before pruning; InitializeFailsIff and InitializeShape state when it fails and what it leaves |
| SinkExtension.InitializeFailsIff | sink/src/main/kotlin/org/basinmc/sink/plugin/ExtensionImpl.kt:142-149 | corrected, initialize throws a resolver error exactly when some wired dependency that is not LOADED has no optional source |
| SinkExtension.InitializeShape | sink/src/main/kotlin/org/basinmc/sink/plugin/ExtensionImpl.kt:120-160 | with a context initialize does nothing; otherwise the drop persists whatever follows, a failure keeps the phase, and success sets the class loader and LOADED |
| SinkExtension.InitializeCorrectionAgrees | sink/src/main/kotlin/org/basinmc/sink/plugin/ExtensionImpl.kt:129-149 | when no unloaded dependency has an optional source, as written and corrected agree |
| SinkExtension.OptionalDependencyBlocksAsWritten | sink/src/main/kotlin/org/basinmc/sink/plugin/ExtensionImpl.kt:129-149 | one optional dependency that is only RESOLVED makes initialize as written throw, while corrected it is dropped and the extension loads |
| SinkExtension.StartFailsIff | sink/src/main/kotlin/org/basinmc/sink/plugin/ExtensionImpl.kt:169-201 | without a context, start succeeds exactly when every wired dependency is RUNNING and the context starts; a failure changes nothing, success sets the context and RUNNING |
| SinkExtension.CloseStep | sink/src/main/kotlin/org/basinmc/sink/plugin/ExtensionImpl.kt:206-230 | close(): REGISTERED, with no loader, context or wired dependencies, the sources kept; CloseResets states that it is idempotent and consistent |
| SinkExtension.CloseResets | sink/src/main/kotlin/org/basinmc/sink/plugin/ExtensionImpl.kt:206-230 | close is idempotent and ends REGISTERED and consistent with no wired dependencies, keeping the recorded sources |
| SinkExtension.StepsKeepConsistent | sink/src/main/kotlin/org/basinmc/sink/plugin/ExtensionImpl.kt:98-201 | resolve from REGISTERED, initialize from RESOLVED and start from LOADED keep the phase and the fields consistent |
| SinkExtensionManager.Visit | sink/src/main/kotlin/org/basinmc/sink/plugin/ExtensionManagerImpl.kt:129-225 | one pass's visit leaves the extension unwired and keeps its recorded sources |
| SinkExtensionManager.Advance | sink/src/main/kotlin/org/basinmc/sink/plugin/ExtensionManagerImpl.kt:129-225 | a pass leaves every extension unwired |
| SinkExtensionManager.Startup | sink/src/main/kotlin/org/basinmc/sink/plugin/ExtensionManagerImpl.kt:125-190 | the three startup passes leave the extension unwired |
| SinkExtensionManager.PassEvents | sink/src/main/kotlin/org/basinmc/sink/plugin/ExtensionManagerImpl.kt:129-145 | the events a pass posts over the sorted extensions, in order; PassEventsStep, PassEventsOverOwn and ShutdownEventsPaired state its properties |
| SinkExtensionManager.PassEventsStep | sink/src/main/kotlin/org/basinmc/sink/plugin/ExtensionManagerImpl.kt:132-145 | the events of a pass over one more extension are the earlier events followed by that extension's visit |
| SinkExtensionManager.StatesOf | sink/src/main/kotlin/org/basinmc/sink/plugin/ExtensionManagerImpl.kt:129-131 | the states of the snapshot's extensions, one per extension, in order |
| SinkExtensionManager.Removals | sink/src/main/kotlin/org/basinmc/sink/plugin/ExtensionManagerImpl.kt:196 | one removal event of the stage per path, in order |
| SinkExtensionManager.Sorted | sink/src/main/kotlin/org/basinmc/sink/plugin/ExtensionManagerImpl.kt:131 | sorted() rearranges the snapshot without losing or adding an extension |
| SinkExtensionManager.Insert | sink/src/main/kotlin/org/basinmc/sink/plugin/ExtensionManagerImpl.kt:131 | inserting adds exactly the one extension |
| SinkExtensionManager.Snapshot | sink/src/main/kotlin/org/basinmc/sink/plugin/ExtensionManagerImpl.kt:129-130 | the filter keeps exactly the extensions in the phase, in registry order, each once if the registry has no duplicates |
| SinkExtensionManager.StateIn | sink/src/main/kotlin/org/basinmc/sink/plugin/ExtensionManagerImpl.kt:129-131 | a looked-up state carries no wired dependency when none of the registry's does |
| SinkExtensionManager.StatesIn | sink/src/main/kotlin/org/basinmc/sink/plugin/ExtensionManagerImpl.kt:129-131 | the looked-up states of a snapshot, one per extension, unwired when the registry's are |
| SinkExtensionManager.AdvanceAll | sink/src/main/kotlin/org/basinmc/sink/plugin/ExtensionManagerImpl.kt:129-187 | the states a pass leaves are, extension by extension, what Advance gives, and unwired |
| SinkExtensionManager.FreshStates | sink/src/main/kotlin/org/basinmc/sink/plugin/ExtensionManagerImpl.kt:104-118 | newly registered extensions start REGISTERED with nothing wired |
| SinkExtensionManager.Select | sink/src/main/kotlin/org/basinmc/sink/plugin/ExtensionManagerImpl.kt:129-130 | the filter on a phase over the registry; SelectIsSnapshot states that it is the registry's extensions in that phase, in order |
| SinkExtensionManager.SelectIsSnapshot | sink/src/main/kotlin/org/basinmc/sink/plugin/ExtensionManagerImpl.kt:129-130 | the filter over states given as values is the filter over the registry's own states |
| SinkExtensionManager.StateInAt | sink/src/main/kotlin/org/basinmc/sink/plugin/ExtensionManagerImpl.kt:129-131 | in a registry without duplicates an extension's looked-up state is its own |
| SinkExtensionManager.StatesInOwn | sink/src/main/kotlin/org/basinmc/sink/plugin/ExtensionManagerImpl.kt:129-131 | looking up a snapshot's extensions in the registry gives their own states |
| SinkExtensionManager.PassEventsOverOwn | sink/src/main/kotlin/org/basinmc/sink/plugin/ExtensionManagerImpl.kt:129-145 | a pass's events over the registry's own states are those of its forEach over the sorted snapshot |
| SinkExtensionManager.ShutdownEventsPaired | sink/src/main/kotlin/org/basinmc/sink/plugin/ExtensionManagerImpl.kt:207-226 | the shutdown forEach posts exactly a shutdown Pre and Post for each extension it visits, in its order, whatever the subscribers decide |
| SinkExtensionManager.ShutdownPassEvents | sink/src/main/kotlin/org/basinmc/sink/plugin/ExtensionManagerImpl.kt:207-226 | the shutdown pass over a registry posts a Pre and Post pair for each RUNNING extension, in its sorted order, and nothing else |
| SinkExtensionManager.StartupAll | sink/src/main/kotlin/org/basinmc/sink/plugin/ExtensionManagerImpl.kt:125-190 | the states initialize() leaves are, extension by extension, what Startup gives, and unwired |
| SinkExtensionManager.StartupOf | sink/src/main/kotlin/org/basinmc/sink/plugin/ExtensionManagerImpl.kt:125-190 | the resolve, load and run passes in turn leave the states StartupAll gives and append StartupEvents |
| SinkExtensionManager.StartupAllGrown | sink/src/main/kotlin/org/basinmc/sink/plugin/ExtensionManagerImpl.kt:60-65 | over a registry grown by discovery, Startup takes each earlier extension from its earlier state and each new one from a fresh state |
| SinkExtensionManager.StatesOfGrown | sink/src/main/kotlin/org/basinmc/sink/plugin/ExtensionManagerImpl.kt:104-118 | after discovery the registry's states are the earlier states followed by fresh ones |
| SinkExtensionManager.Decoded | sink/src/main/kotlin/org/basinmc/sink/plugin/ExtensionImpl.kt:51-55 | reading a container gives what the map records for it; a path the map does not know fails with ExtensionAccessException, which is an ExtensionException |
| SinkExtensionManager.ExtensionManager.constructor | sink/src/main/kotlin/org/basinmc/sink/plugin/ExtensionManagerImpl.kt:42-55 | a new manager has no extensions, registrations or events, is not running and keeps its parent context |
| SinkExtensionManager.ExtensionManager.ExtensionsDistinct | sink/src/main/kotlin/org/basinmc/sink/plugin/ExtensionManagerImpl.kt:104-118 | since no path is registered twice, no extension is registered twice |
| SinkExtensionManager.ExtensionManager.Discover | sink/src/main/kotlin/org/basinmc/sink/plugin/ExtensionManagerImpl.kt:104-123 | discover(path) updates registrations and events and yields the outcome DiscoverStep gives: a known path or an ExtensionException leaves everything as it was, any other exception is thrown with nothing changed, and a registered path gets a fresh REGISTERED extension |
| SinkExtensionManager.ExtensionManager.DiscoverListing | sink/src/main/kotlin/org/basinmc/sink/plugin/ExtensionManagerImpl.kt:80-102 | discover() over a listing stops at the first exception that escapes discover(path), and updates registrations, events and the outcome as DiscoverAll does, keeping the earlier extensions and appending only fresh REGISTERED ones |
| SinkExtensionManager.ExtensionManager.VisitOne | sink/src/main/kotlin/org/basinmc/sink/plugin/ExtensionManagerImpl.kt:132-145 | one forEach body changes the extension and the event log as Visit says, and nothing of the registry |
| SinkExtensionManager.ExtensionManager.RunOver | sink/src/main/kotlin/org/basinmc/sink/plugin/ExtensionManagerImpl.kt:132-187 | the forEach over a snapshot changes each visited extension as Visit says and appends the pass's events in order |
| SinkExtensionManager.ExtensionManager.VisitAt | sink/src/main/kotlin/org/basinmc/sink/plugin/ExtensionManagerImpl.kt:132-187 | the i-th forEach body extends the visited prefix by one extension and leaves the others as they were |
| SinkExtensionManager.ExtensionManager.PassOf | sink/src/main/kotlin/org/basinmc/sink/plugin/ExtensionManagerImpl.kt:129-187 | a pass leaves the registry's states as AdvanceAll of the states before it (every extension as Advance says), keeps the registry consistent, and appends exactly the events PassEventsOver gives for those earlier states: its sorted snapshot visited in order |
| SinkExtensionManager.ExtensionManager.PassOver | sink/src/main/kotlin/org/basinmc/sink/plugin/ExtensionManagerImpl.kt:132-187 | the forEach over the sorted snapshot advances every registered extension as Advance says, those outside the phase staying as they were, and appends the snapshot's events over its earlier states |
| SinkExtensionManager.ExtensionManager.Initialize | sink/src/main/kotlin/org/basinmc/sink/plugin/ExtensionManagerImpl.kt:125-190 | initialize() leaves the registry's states as StartupAll of the earlier ones, every extension through the three passes as Startup says, and appends exactly StartupEvents: the resolve, load and run passes' events, each over the states the pass before left |
| SinkExtensionManager.ExtensionManager.ShutdownAll | sink/src/main/kotlin/org/basinmc/sink/plugin/ExtensionManagerImpl.kt:207-226 | shutdown() closes the RUNNING extensions, leaves the others as they were, and appends the shutdown pass's events, a Pre and Post pair per RUNNING extension (ShutdownPassEvents) |
| SinkExtensionManager.ExtensionManager.PostRemovals | sink/src/main/kotlin/org/basinmc/sink/plugin/ExtensionManagerImpl.kt:196 | posting removal events appends one per path and changes nothing else |
| SinkExtensionManager.ExtensionManager.ClearRegistry | sink/src/main/kotlin/org/basinmc/sink/plugin/ExtensionManagerImpl.kt:192-205 | clearRegistry() empties both lists, posting removal Pre for every registered path before removal Post for each |
| SinkExtensionManager.ExtensionManager.Start | sink/src/main/kotlin/org/basinmc/sink/plugin/ExtensionManagerImpl.kt:60-65 | start() runs the hook only when not already running; the flag ends set exactly when it was set or the hook completed normally; discovery registers what DiscoverAll registers and throws what it throws; when discovery completes the states are StartupAll over the old states and fresh ones for the new extensions and the log continues with StartupEvents, and when it throws the new extensions stay REGISTERED and no startup event is posted (StartStates, StartLog) |
| SinkExtensionManager.ExtensionManager.OnStart | sink/src/main/kotlin/org/basinmc/sink/plugin/ExtensionManagerImpl.kt:60-65 | onStart() throws what discovery throws; otherwise it runs initialize() and sets the flag; registrations, states and events are as StartStates and StartLog give over the grown registry |
| SinkExtensionManager.ExtensionManager.DiscoverFresh | sink/src/main/kotlin/org/basinmc/sink/plugin/ExtensionManagerImpl.kt:80-102 | discover() over a listing updates registrations, events and the outcome as DiscoverAll does, stopping at an escaping exception, keeps the earlier extensions, and leaves the states as the earlier ones followed by fresh ones |
| SinkExtensionManager.ExtensionManager.DiscoverThenInitialize | sink/src/main/kotlin/org/basinmc/sink/plugin/ExtensionManagerImpl.kt:60-63 | discover() then, unless it threw, initialize(): the same outcome, registrations, states and events as onStart(), with the flag unchanged |
| SinkExtensionManager.ExtensionManager.MarkRunning | sink/src/main/kotlin/org/basinmc/sink/util/LifecycleService.kt:87-101 | the lifecycle flag's write changes the flag and nothing else |
| SinkExtensionManager.ExtensionManager.Stop | sink/src/main/kotlin/org/basinmc/sink/plugin/ExtensionManagerImpl.kt:70-75 | stop() shuts down and empties the registry only when running, closing what was RUNNING, and appends the shutdown pass's events, then removal Pre for every registered path, then removal Post for each |
| SinkExtensionManager.PermutationKeeps | sink/src/main/kotlin/org/basinmc/sink/plugin/ExtensionManagerImpl.kt:131 | a rearranged snapshot holds the same extensions, each once |
| SinkExtensionManager.TwiceCounted | sink/src/main/kotlin/org/basinmc/sink/plugin/ExtensionManagerImpl.kt:131 | an element at two positions counts at least twice |
| SinkExtensionManager.DistinctCountedOnce | sink/src/main/kotlin/org/basinmc/sink/plugin/ExtensionManagerImpl.kt:131 | an element of a list without duplicates counts at most once |
| SinkExtensionManager.VisitKeepsConsistent | sink/src/main/kotlin/org/basinmc/sink/plugin/ExtensionManagerImpl.kt:129-225 | a visit from the pass's phase keeps the phase and the fields consistent |
| SinkExtensionManager.ShutdownClosesRunning | sink/src/main/kotlin/org/basinmc/sink/plugin/ExtensionManagerImpl.kt:207-226 | shutdown closes a RUNNING extension between its Pre and Post event, and leaves the others alone |
| SinkExtensionManager.VisitVeto | sink/src/main/kotlin/org/basinmc/sink/plugin/ExtensionManagerImpl.kt:132-187 | a pass touches only extensions in its phase; a vetoed Pre leaves the extension as it was with Pre the only event; Post follows exactly a successful step or a shutdown |
| SinkExtensionManager.ResolvePassOutcome | sink/src/main/kotlin/org/basinmc/sink/plugin/ExtensionManagerImpl.kt:128-145 | the resolve pass makes a REGISTERED extension RESOLVED exactly when the bus accepts and every declared dependency is optional, and otherwise leaves it alone |
| SinkExtensionManager.LoadPassOutcome | sink/src/main/kotlin/org/basinmc/sink/plugin/ExtensionManagerImpl.kt:147-166 | the load pass makes a RESOLVED extension LOADED with a loader, closes it when the loader fails, and leaves it on a veto |
| SinkExtensionManager.RunPassOutcome | sink/src/main/kotlin/org/basinmc/sink/plugin/ExtensionManagerImpl.kt:168-187 | the run pass makes a LOADED extension RUNNING under the manager's context, closes it when the start fails, and leaves it on a veto |
| SinkExtensionManager.StartupRunsIff | sink/src/main/kotlin/org/basinmc/sink/plugin/ExtensionManagerImpl.kt:125-190 | a fresh extension ends RUNNING exactly when all three Pre events are accepted, every declared dependency is optional, and neither loader nor context fails; it always ends consistent |
| SinkExtensionManager.IsExtensionException | sink/src/main/kotlin/org/basinmc/sink/plugin/ExtensionManagerImpl.kt:119-121 | the exceptions the catch in discover(path) covers: ExtensionException and its subclasses; DiscoverStepRegisters and DiscoverAllRegisters state what escapes |
| SinkExtensionManager.DiscoverStep | sink/src/main/kotlin/org/basinmc/sink/plugin/ExtensionManagerImpl.kt:104-123 | discover(path) on the registered paths and the event log; DiscoverStepRegisters states what it registers, posts and throws |
| SinkExtensionManager.DiscoverStepRegisters | sink/src/main/kotlin/org/basinmc/sink/plugin/ExtensionManagerImpl.kt:104-123 | discover(path) never registers a path twice, keeps the registered paths, registers a new one exactly when its manifest was read and the bus accepts, returns at once for a known path, and throws exactly when reading a new path fails with something other than an ExtensionException, changing nothing |
| SinkExtensionManager.DiscoverAll | sink/src/main/kotlin/org/basinmc/sink/plugin/ExtensionManagerImpl.kt:94-96 | the forEach of discover(path) over the containers of a listing, ending at the first exception; DiscoverAllRegisters, DiscoverAllStops and DiscoverEscapesAt state its properties |
| SinkExtensionManager.IsContainer | sink/src/main/kotlin/org/basinmc/sink/plugin/ExtensionManagerImpl.kt:95 | the filter on the ".bec" container extension; DiscoverAllRegisters states that only containers are registered |
| SinkExtensionManager.DiscoverAllRegisters | sink/src/main/kotlin/org/basinmc/sink/plugin/ExtensionManagerImpl.kt:80-102 | after a listing the registry holds the earlier paths plus listed containers that were read and accepted, each once; when discovery completes it holds every such container; a thrown exception is not an ExtensionException and is what reading some listed container failed with; discovery completes whenever every failing container fails with an ExtensionException |
| SinkExtensionManager.DiscoverAllStops | sink/src/main/kotlin/org/basinmc/sink/plugin/ExtensionManagerImpl.kt:95-97 | once an exception escapes discover(path), the rest of the listing is not visited: discovery over a longer listing ends as it did where the exception arose |
| SinkExtensionManager.DiscoverEscapesAt | sink/src/main/kotlin/org/basinmc/sink/plugin/ExtensionManagerImpl.kt:95-97 | a new container whose read fails with something other than an ExtensionException ends discovery there with that exception, whatever follows it in the listing |
| SinkExtensionManager.MalformedFirstStops | sink/src/main/kotlin/org/basinmc/sink/plugin/ExtensionManagerImpl.kt:95-97 | over the listing ["a.bec", "b.bec"] where a.bec fails with IllegalArgumentException, nothing is registered, no event is posted, b.bec is not read, and the exception escapes |
| SinkExtensionManager.StartLog | sink/src/main/kotlin/org/basinmc/sink/plugin/ExtensionManagerImpl.kt:60-63 | the events onStart() posts after discovery: those of initialize() when discovery completes, none when it throws; Start, OnStart and DiscoverThenInitialize end their logs with it |
| SinkExtensionManager.StartStates | sink/src/main/kotlin/org/basinmc/sink/plugin/ExtensionManagerImpl.kt:60-63 | the states onStart() leaves: each old extension advanced by the three startup passes and each new one from REGISTERED when discovery completes, and the states unchanged when it throws |
| SinkExtensionManager.RemovalsPaired | sink/src/main/kotlin/org/basinmc/sink/plugin/ExtensionManagerImpl.kt:192-205 | each registered path gets a removal Pre and a removal Post, every Pre before every Post |
| ManifestCodec.RequiredString | sink/src/main/java/org/basinmc/sink/plugin/manifest/ExtensionManifestImpl.java:60-61 | a required string is non-empty and read from the front of the bytes; an absent one throws the given exception |
| ManifestCodec.VersionField | sink/src/main/java/org/basinmc/sink/plugin/manifest/ExtensionManifestImpl.java:62-64 | the version field is a required string that new Version, as written, accepts, and the rest follows it |
| ManifestCodec.RangeField | sink/src/main/java/org/basinmc/sink/plugin/manifest/ExtensionManifestImpl.java:117-119 | the range field is a required string that new VersionRange, as written, accepts (unmarked pairs included), and the rest follows it |
| ManifestCodec.ServiceAt | sink/src/main/java/org/basinmc/sink/plugin/manifest/ExtensionManifestImpl.java:71-79 | a decoded service has an identifier and leaves a suffix of the bytes |
| ManifestCodec.DependencyAt | sink/src/main/java/org/basinmc/sink/plugin/manifest/ExtensionManifestImpl.java:113-124 | a decoded dependency has an identifier and leaves a suffix of the bytes |
| ManifestCodec.HeadAt | sink/src/main/java/org/basinmc/sink/plugin/manifest/ExtensionManifestImpl.java:55-66 | a decoded head has an identifier; a wrong magic number fails with ExtensionManifestException |
| ManifestCodec.NamedAt | sink/src/main/java/org/basinmc/sink/plugin/manifest/ExtensionManifestImpl.java:60-66 | the fields after the magic number give a head with an identifier |
| ManifestCodec.VersionedAt | sink/src/main/java/org/basinmc/sink/plugin/manifest/ExtensionManifestImpl.java:62-66 | the fields after the identifier keep the identifier read |
| ManifestCodec.ManifestAt | sink/src/main/java/org/basinmc/sink/plugin/manifest/ExtensionManifestImpl.java:55-91 | a decoded manifest has an identifier; a wrong magic number fails with ExtensionManifestException |
| ManifestCodec.DecodersConsume | sink/src/main/java/org/basinmc/sink/plugin/manifest/ExtensionManifestImpl.java:71-90 | the service and dependency decoders consume a prefix of their input, as readList requires of an element decoder |
| ManifestCodec.ReadRequiredString | sink/src/main/java/org/basinmc/sink/plugin/manifest/ExtensionManifestImpl.java:60-61 | reading a required string from the buffer gives what RequiredString gives and moves the reader past it |
| ManifestCodec.ReadVersion | sink/src/main/java/org/basinmc/sink/plugin/manifest/ExtensionManifestImpl.java:62-64 | reading the version from the buffer gives what VersionField gives and moves the reader past it |
| ManifestCodec.ReadHead | sink/src/main/java/org/basinmc/sink/plugin/manifest/ExtensionManifestImpl.java:55-66 | reading the head from the buffer gives what HeadAt gives and moves the reader past it |
| ManifestCodec.ReadNamed | sink/src/main/java/org/basinmc/sink/plugin/manifest/ExtensionManifestImpl.java:60-66 | reading the fields after the magic number gives what NamedAt gives |
| ManifestCodec.ReadVersioned | sink/src/main/java/org/basinmc/sink/plugin/manifest/ExtensionManifestImpl.java:62-66 | reading the fields after the identifier gives what VersionedAt gives |
| ManifestCodec.ReadLists | sink/src/main/java/org/basinmc/sink/plugin/manifest/ExtensionManifestImpl.java:68-90 | reading the five lists gives what ListsAt gives and moves the reader past them |
| ManifestCodec.ReadManifest | sink/src/main/java/org/basinmc/sink/plugin/manifest/ExtensionManifestImpl.java:55-91 | the buffer constructor gives what ManifestAt gives and moves the reader past the manifest |
| ManifestCodec.ManifestEquals | sink/src/main/java/org/basinmc/sink/plugin/manifest/ExtensionManifestImpl.java:220-230 | equals holds exactly when the identifiers agree and the versions compare equal |
| ManifestCodec.ManifestHash | sink/src/main/java/org/basinmc/sink/plugin/manifest/ExtensionManifestImpl.java:236-238 | hashCode is a Java int |
| ManifestCodec.RequiredStringRoundTrip | sink/src/main/java/org/basinmc/sink/plugin/manifest/ExtensionManifestImpl.java:60-61 | a written non-empty string is read back as the required string, leaving what follows |
| ManifestCodec.VersionFieldRoundTrip | sink/src/main/java/org/basinmc/sink/plugin/manifest/ExtensionManifestImpl.java:62-64 | a written version text is read back as the version new Version, as written, reads it as |
| ManifestCodec.RangeFieldRoundTrip | sink/src/main/java/org/basinmc/sink/plugin/manifest/ExtensionManifestImpl.java:117-119 | a written range text is read back as the range new VersionRange, as written, reads it as |
| ManifestCodec.ServiceRoundTrip | sink/src/main/java/org/basinmc/sink/plugin/manifest/ExtensionManifestImpl.java:71-79 | a written service is read back |
| ManifestCodec.DependencyRoundTrip | sink/src/main/java/org/basinmc/sink/plugin/manifest/ExtensionManifestImpl.java:113-124 | a written dependency, with its optional flag, is read back whenever new VersionRange as written accepts its range text, unmarked pairs included |
| ManifestCodec.ServicesRoundTrip | sink/src/main/java/org/basinmc/sink/plugin/manifest/ExtensionManifestImpl.java:71-79 | a written list of services is read back element by element |
| ManifestCodec.DependenciesRoundTrip | sink/src/main/java/org/basinmc/sink/plugin/manifest/ExtensionManifestImpl.java:81-90 | a written list of dependencies is read back element by element |
| ManifestCodec.AuthorsRoundTrip | sink/src/main/java/org/basinmc/sink/plugin/manifest/ExtensionManifestImpl.java:68-69 | a written list of authors is read back when the author decoder reads back each author |
| ManifestCodec.HeadRoundTrip | sink/src/main/java/org/basinmc/sink/plugin/manifest/ExtensionManifestImpl.java:55-66 | a written head is read back |
| ManifestCodec.ListsRoundTrip | sink/src/main/java/org/basinmc/sink/plugin/manifest/ExtensionManifestImpl.java:68-90 | the five written lists are read back |
| ManifestCodec.ManifestBytes | sink/src/main/java/org/basinmc/sink/plugin/manifest/ExtensionManifestImpl.java:55-91 | the manifest's bytes in the order the constructor reads them; ManifestRoundTrip states that they are read back whole |
| ManifestCodec.ManifestRoundTrip | sink/src/main/java/org/basinmc/sink/plugin/manifest/ExtensionManifestImpl.java:55-91 | a written manifest is read back whole, leaving exactly what follows, whenever its version and range texts are ones the Java constructors as written accept |
| ManifestCodec.ManifestAtSteps | sink/src/main/java/org/basinmc/sink/plugin/manifest/ExtensionManifestImpl.java:55-91 | the manifest is the head followed by the lists |
| ManifestCodec.MissingIdentifier | sink/src/main/java/org/basinmc/sink/plugin/manifest/ExtensionManifestImpl.java:60-61 | a manifest without an identifier fails with ExtensionManifestException |
| ManifestCodec.MalformedVersion | sink/src/main/java/org/basinmc/sink/plugin/manifest/ExtensionManifestImpl.java:62-64 | a version text new Version rejects fails the manifest with that constructor's own exception: IllegalArgumentException, or ArrayIndexOutOfBoundsException for a dotted extra part |
| ManifestCodec.ManifestHashOfEquals | sink/src/main/java/org/basinmc/sink/plugin/manifest/ExtensionManifestImpl.java:220-238 | equal manifests hash alike |

## Left out

- Filesystem I/O. Directory scanning in `discover()`, file reading in the `ExtensionImpl` constructor and the creation of the extension directory are not modelled. The manager receives the list of paths and, per path, the manifest read from it or the exception reading it threw. An `ExtensionException` (a manifest, access, resolver or container error) is caught in `discover(path)` and skips the container; any other exception, such as the `IllegalArgumentException` or `ArrayIndexOutOfBoundsException` of a malformed version, escapes `discover()`, `onStart()` and `start()`, so the containers after it are not read, `initialize()` is skipped and the service stays stopped.
- The event bus. It becomes the set of (event, path) pairs whose pre-event a subscriber vetoes. Every posted event, Pre or Post, is appended in order to a log the manager keeps. Event objects, subscriber order and reflection are not modelled.
- The Spring `AnnotationConfigApplicationContext` and the extension class loader. They are opaque tokens. Their failures are the set of paths whose creation, scan, refresh or start fails. What the context loads is not modelled.
- Logging. It has no effect on state.
- Concurrency and locking. Every operation is modelled as one sequential step.
- `SinkExtensionManager.Sorted`: the JDK's `sorted()` with the `Extension` comparator becomes a stable insertion sort. The comparator is not transitive (`Extensions.CompareNotTransitive`), so the JDK's TimSort order for such inputs is not reproduced. Only the facts that hold for any sort are relied on: the result is a permutation of the input, and each extension is visited once.
- `wireDependency` is modelled on `ExtensionImpl`. Nothing in the manager calls it, so the manager pipeline never wires a dependency. The manager's invariant records this.
- `Buffers.ReadUUID`: `UUID.fromString` validation is not modelled. The identifier string is kept as read, and a malformed UUID is not rejected.
- `Extensions.Matches`: `String.equalsIgnoreCase` folds the case of every character ('Ä' and 'ä' are equal), while the model folds ASCII letters only, so identifiers that differ only in the case of a non-ASCII letter are not matched here.
- `Extensions.MatchesIgnoresCase`: `String.equalsIgnoreCase` folds the case of every character ('Ä' and 'ä' are equal), while the model folds ASCII letters only, so identifiers that differ only in the case of a non-ASCII letter are not matched here.
- `Extensions.MatchesByIdentity`: `String.equalsIgnoreCase` folds the case of every character ('Ä' and 'ä' are equal), while the model folds ASCII letters only, so identifiers that differ only in the case of a non-ASCII letter are not matched here.
- `Extensions.MatchesNeedsIdentifier`: `String.equalsIgnoreCase` folds the case of every character ('Ä' and 'ä' are equal), while the model folds ASCII letters only, so identifiers that differ only in the case of a non-ASCII letter are not matched here.
- `Utf8.Decode`: a malformed sequence becomes U+FFFD per byte. Java's decoder replaces each maximal malformed subpart, so the number of replacement characters can differ. Well-formed input decodes the same.
- `JavaLang.StringHash`: characters are Unicode scalar values. A character outside the Basic Multilingual Plane is hashed as one unit, not as the two UTF-16 surrogates Java hashes.
- Netty's `ByteBuf` is reduced to a byte sequence with a reader cursor and appending writes. After a failed read the reader index is not specified, and the model states nothing about it. The capacity and the writer index are not modelled.
- `Buffers.WriteBuffer`: writing a buffer into itself is excluded by its precondition. Aliasing between the two buffers is not modelled.
- The author records of a manifest use the buffer constructor of `ExtensionAuthorImpl`, which is not part of this model. Their decoder is a parameter of the manifest decoder.
- `ManifestCodec` reads versions and ranges with the Java constructors as written, so it inherits both of their findings: an unmarked "v,w" range is accepted, and "1.0.0-." throws ArrayIndexOutOfBoundsException. The corrected constructors stand beside them and the decoder does not use them.
- The Java `VersionRange` has no `toString`, although its test calls one. No formatting is modelled for it.
- The overloads taking a `Consumer` (`newerThan`, `olderThan`, `stable`, `unstable`, `equals`, `matches` with a callback) only call the callback when the plain predicate holds. They are not modelled separately.
- The protected `PluginVersion.Builder.unstableVersionType` setter is not modelled. It is only reachable from subclasses.
- `PluginContext`: only the `State` enum and its step arithmetic are modelled. The interface methods have no implementation in the repository.
- The Kotlin `ExtensionManifestImpl` delegates to an external decoder and is not part of this model. The Java decoder is modelled instead.
- `Integer.parseUnsignedInt` in the Java `Version` parser accepts 2^31 to 2^32-1 and wraps them to negative ints. This is modelled as written (`JavaLang.ParseUnsignedNumeral`), not treated as a finding.

## Findings

| source | as written | input that shows it | evidently intended | confidence | as-written member | corrected member |
|---|---|---|---|---|---|---|
| faucet/src/main/java/org/basinmc/faucet/util/VersionRange.java:118-135 | the constructor checks markers only for a single version; two versions without '['/'(' and ']'/')' are accepted as a range excluding both ends | "1.0.0,2.0.0" is accepted, while VersionRangeTest.java:120-124 expects IllegalArgumentException and the Kotlin twin throws | reject two versions unless both markers are present, as VersionRange.kt does | not executed | VersionRangeJava.ParseAsWritten, VersionRangeJava.AsWrittenAcceptsUnmarked | VersionRangeJava.Parse, VersionRangeJava.CorrectionOnlyAddsCheck |
| src/main/java/org/basinmc/faucet/plugin/PluginVersion.java:404-406 | newerThan / olderThan test compareTo == 1 / == -1, but compareTo returns the difference of the unstable type ordinals (lines 277-279), which can be 2 or more | 1.0.0-beta against 1.0.0-snapshot: compareTo gives 2, so neither is newer or older and they are not equal; the range built from "1.0.0-beta", [1.0.0-beta, 1.0.0-beta), then matches 1.0.0-snapshot | test the sign of compareTo (> 0, < 0) | not executed | PluginVersion.NewerThan, PluginVersion.TypeGap, PluginRange.UnstableSingleAsWritten, PluginRange.BetaRangeMatchesSnapshot, PluginRange.Matching | PluginVersion.IsNewer, PluginVersion.IsNewerByKeys, PluginRange.Matches, PluginRange.UnstableSingleIsEmpty, PluginRange.MatchingCorrected |
| sink/src/main/kotlin/org/basinmc/sink/plugin/ExtensionImpl.kt:129-149 | the optional sources are removed from resolvedDependencySources before requiredUnresolved is computed, so each dropped optional dependency counts as required | an extension whose one wired dependency is optional and only RESOLVED: it is dropped, then initialize throws ExtensionResolverException | select the required unresolved dependencies by the sources as they were before removal | not executed | SinkExtension.ExtensionImpl.InitializeAsWritten, SinkExtension.ExtensionImpl.InitializeAsWrittenFailsIff, SinkExtension.ExtensionImpl.OptionalDependencyBlocksAsWritten | SinkExtension.ExtensionImpl.Initialize, SinkExtension.ExtensionImpl.InitializeFailsIff, SinkExtension.ExtensionImpl.InitializeCorrectionAgrees |
| faucet/src/main/java/org/basinmc/faucet/util/Version.java:91-98 | the extra part is split at dots and element 0 is read without a length check; String.split drops trailing empty strings, so an extra of dots only gives an empty array | "1.0.0-." passes the grammar and then throws ArrayIndexOutOfBoundsException | treat it as UNKNOWN stability with index 0, as Version.kt does | not executed | SemVerJava.ParseAsWritten, SemVerJava.AsWrittenFailsOnDots, VersionRangeJava.DottedBoundEscapes | SemVerJava.Parse, SemVerJava.DotsLayout |
