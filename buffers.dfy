/**
 * sink/src/main/kotlin/org/basinmc/sink/util/BufferUtil.kt over the part of
 * Netty's ByteBuf it uses: a byte sequence with a reader index, read from the
 * index and written at the end. Multi-byte values are big-endian; a read
 * past the end throws IndexOutOfBoundsException and moves nothing.
 *
 * Each reading operation is specified by a function from the readable bytes
 * to the value read and the bytes left; each writing operation by the bytes
 * it appends.
 */
module Buffers {
  import opened JavaLang
  import opened Utf8

  // ---------------------------------------------------------------------
  // Fixed-width values

  function Pow256(k: nat): (p: nat)
    ensures p >= 1
  {
    if k == 0 then 1 else 256 * Pow256(k - 1)
  }

  /** The unsigned value of big-endian bytes. */
  function BigEndian(bs: seq<Byte>): (x: nat)
    ensures x < Pow256(|bs|)
  {
    if bs == [] then 0 else BigEndian(bs[..|bs| - 1]) * 256 + bs[|bs| - 1]
  }

  /** The k low bytes of x, big-endian. */
  function BigEndianBytes(x: int, k: nat): (bs: seq<Byte>)
    ensures |bs| == k
    decreases k
  {
    if k == 0 then [] else BigEndianBytes(x / 256, k - 1) + [x % 256]
  }

  /** Whether `r` is what is left of `d` after reading from its front. */
  predicate Suffix(r: seq<Byte>, d: seq<Byte>)
  {
    |r| <= |d| && r == d[|d| - |r|..]
  }

  /** What is left after two reads is what is left of the whole. */
  lemma SuffixOfSuffix(r: seq<Byte>, m: seq<Byte>, d: seq<Byte>)
    requires Suffix(r, m) && Suffix(m, d)
    ensures Suffix(r, d)
  {
  }

  function Value<T>(r: Result<(T, seq<Byte>)>): Result<T>
  {
    if r.Ok? then Ok(r.value.0) else Err(r.error)
  }

  /** The bytes left after a read: all of them when it failed. */
  function After<T>(r: Result<(T, seq<Byte>)>, d: seq<Byte>): seq<Byte>
  {
    if r.Ok? then r.value.1 else d
  }

  /** readUnsignedShort. */
  function U16(d: seq<Byte>): (r: Result<(nat, seq<Byte>)>)
    ensures r.Ok? <==> |d| >= 2
    ensures r.Ok? ==> r.value.0 < 0x1_0000 && r.value.1 == d[2..]
  {
    if |d| < 2 then Err(IndexOutOfBounds) else Ok((d[0] as int * 256 + d[1] as int, d[2..]))
  }

  /** writeShort(n): the low 16 bits of n. */
  function U16Bytes(n: int): seq<Byte>
  {
    [(n / 256) % 256, n % 256]
  }

  /** readInt. */
  function IntAt(d: seq<Byte>): (r: Result<(int, seq<Byte>)>)
    ensures r.Ok? <==> |d| >= 4
    ensures r.Ok? ==> IsInt32(r.value.0) && r.value.1 == d[4..]
  {
    if |d| < 4 then Err(IndexOutOfBounds) else Ok((Int32(BigEndian(d[..4])), d[4..]))
  }

  /** writeInt(x). */
  function IntBytes(x: int): seq<Byte>
  {
    BigEndianBytes(x, 4)
  }

  /** readLong. */
  function LongAt(d: seq<Byte>): (r: Result<(int, seq<Byte>)>)
    ensures r.Ok? <==> |d| >= 8
    ensures r.Ok? ==> IsInt64(r.value.0) && r.value.1 == d[8..]
  {
    if |d| < 8 then Err(IndexOutOfBounds) else Ok((Int64(BigEndian(d[..8])), d[8..]))
  }

  /** writeLong(x). */
  function LongBytes(x: int): seq<Byte>
  {
    BigEndianBytes(x, 8)
  }

  /** readBoolean: any byte but zero is true. */
  function BooleanAt(d: seq<Byte>): (r: Result<(bool, seq<Byte>)>)
    ensures r.Ok? <==> |d| >= 1
    ensures r.Ok? ==> r.value.1 == d[1..] && Suffix(r.value.1, d)
  {
    if |d| < 1 then Err(IndexOutOfBounds) else Ok((d[0] != 0, d[1..]))
  }

  function BooleanBytes(b: bool): seq<Byte>
  {
    [if b then 1 else 0]
  }

  /** readBytes(n) and skipBytes(n). */
  function BytesOf(d: seq<Byte>, n: nat): (r: Result<(seq<Byte>, seq<Byte>)>)
    ensures r.Ok? <==> |d| >= n
    ensures r.Ok? ==> r.value.0 + r.value.1 == d && |r.value.0| == n
  {
    if |d| < n then Err(IndexOutOfBounds) else Ok((d[..n], d[n..]))
  }

  // ---------------------------------------------------------------------
  // BufferUtil framing

  /** checkMagicValue: the int read must be the expected one; the supplied
      error otherwise. */
  function CheckMagic(d: seq<Byte>, expected: int, error: Exception): (r: Result<seq<Byte>>)
    ensures r.Ok? ==> |d| >= 4 && r.value == d[4..]
  {
    var i := IntAt(d);
    if i.Err? then Err(i.error)
    else if i.value.0 != expected then Err(error)
    else Ok(i.value.1)
  }

  /** readBytes / readBuffer: an unsigned 16-bit length, then that many
      bytes; a zero length reads as empty. */
  function BytesAt(d: seq<Byte>): (r: Result<(Option<seq<Byte>>, seq<Byte>)>)
    ensures r.Ok? ==> |d| >= 2
    ensures r.Ok? && r.value.0.Some? ==> r.value.0.value != [] && r.value.0.value + r.value.1 == d[2..]
    ensures r.Ok? && r.value.0.None? ==> r.value.1 == d[2..]
    ensures r.Ok? ==> Suffix(r.value.1, d)
  {
    var n := U16(d);
    if n.Err? then Err(n.error)
    else if n.value.0 == 0 then Ok((None, n.value.1))
    else
      var b := BytesOf(n.value.1, n.value.0);
      if b.Err? then Err(b.error) else Ok((Some(b.value.0), b.value.1))
  }

  /** writeBytes / writeBuffer: null or empty is a zero length; anything else
      its size as a short, then its bytes. */
  function BytesFrame(v: Option<seq<Byte>>): seq<Byte>
  {
    if v.None? || v.value == [] then U16Bytes(0) else U16Bytes(|v.value|) + v.value
  }

  /** readString: the bytes read, decoded as UTF-8. */
  function StringAt(d: seq<Byte>): (r: Result<(Option<string>, seq<Byte>)>)
    ensures r.Ok? ==> Suffix(r.value.1, d)
    ensures r.Ok? && r.value.0.Some? ==> r.value.0.value != []
  {
    var b := BytesAt(d);
    if b.Err? then Err(b.error)
    else if b.value.0.None? then Ok((None, b.value.1))
    else Ok((Some(Decode(b.value.0.value)), b.value.1))
  }

  /** writeString: null and "" both become a zero length. */
  function StringFrame(s: Option<string>): seq<Byte>
  {
    if s.None? || s.value == [] then BytesFrame(None) else BytesFrame(Some(Encode(s.value)))
  }

  /** Whether a decoder always leaves a suffix of its input. */
  ghost predicate Consumes<T>(decode: seq<Byte> -> Result<(T, seq<Byte>)>)
  {
    forall d :: decode(d).Ok? ==> Suffix(decode(d).value.1, d)
  }

  /** n items decoded one after the other. */
  function Items<T>(d: seq<Byte>, n: nat, decode: seq<Byte> -> Result<(T, seq<Byte>)>): (r: Result<(seq<T>, seq<Byte>)>)
    ensures r.Ok? ==> |r.value.0| == n
    decreases n
  {
    if n == 0 then Ok(([], d))
    else
      var x := decode(d);
      if x.Err? then Err(x.error)
      else
        var rest := Items(x.value.1, n - 1, decode);
        if rest.Err? then rest else Ok(([x.value.0] + rest.value.0, rest.value.1))
  }

  /** readList: an unsigned 16-bit count, then that many items. */
  function ListAt<T>(d: seq<Byte>, decode: seq<Byte> -> Result<(T, seq<Byte>)>): (r: Result<(seq<T>, seq<Byte>)>)
  {
    var n := U16(d);
    if n.Err? then Err(n.error) else Items(n.value.1, n.value.0, decode)
  }

  function EncodeAll<T>(items: seq<T>, encode: T -> seq<Byte>): seq<Byte>
  {
    if items == [] then [] else EncodeAll(items[..|items| - 1], encode) + encode(items[|items| - 1])
  }

  /** writeList: the count as a short, then each item. */
  function ListFrame<T>(items: seq<T>, encode: T -> seq<Byte>): seq<Byte>
  {
    U16Bytes(|items|) + EncodeAll(items, encode)
  }

  // ---------------------------------------------------------------------
  // The buffer

  class ByteBuf {
    var data: seq<Byte>
    var readerIndex: nat

    predicate Valid()
      reads this
    {
      readerIndex <= |data|
    }

    /** The bytes not yet read. */
    function Readable(): seq<Byte>
      reads this
      requires Valid()
    {
      data[readerIndex..]
    }

    /** A buffer holding the given bytes, none of them read. */
    constructor(data: seq<Byte>)
      ensures Valid() && this.data == data && readerIndex == 0
    {
      this.data := data;
      readerIndex := 0;
    }

    /** Moves the reader index past the first n readable bytes. */
    method Skip(n: nat)
      requires Valid() && n <= |Readable()|
      modifies this
      ensures Valid() && data == old(data) && Readable() == old(Readable())[n..]
    {
      readerIndex := readerIndex + n;
      assert data[readerIndex..] == old(data[readerIndex..])[n..];
    }

    method ReadUnsignedShort() returns (r: Result<nat>)
      requires Valid()
      modifies this
      ensures Valid() && data == old(data)
      ensures r == Value(U16(old(Readable()))) && Readable() == After(U16(old(Readable())), old(Readable()))
    {
      if |data| - readerIndex < 2 {
        return Err(IndexOutOfBounds);
      }
      r := Ok(data[readerIndex] as int * 256 + data[readerIndex + 1] as int);
      Skip(2);
    }

    method ReadInt() returns (r: Result<int>)
      requires Valid()
      modifies this
      ensures Valid() && data == old(data)
      ensures r == Value(IntAt(old(Readable()))) && Readable() == After(IntAt(old(Readable())), old(Readable()))
    {
      if |data| - readerIndex < 4 {
        return Err(IndexOutOfBounds);
      }
      r := Ok(Int32(BigEndian(data[readerIndex..readerIndex + 4])));
      assert data[readerIndex..readerIndex + 4] == Readable()[..4];
      Skip(4);
    }

    method ReadLong() returns (r: Result<int>)
      requires Valid()
      modifies this
      ensures Valid() && data == old(data)
      ensures r == Value(LongAt(old(Readable()))) && Readable() == After(LongAt(old(Readable())), old(Readable()))
    {
      if |data| - readerIndex < 8 {
        return Err(IndexOutOfBounds);
      }
      r := Ok(Int64(BigEndian(data[readerIndex..readerIndex + 8])));
      assert data[readerIndex..readerIndex + 8] == Readable()[..8];
      Skip(8);
    }

    method ReadBoolean() returns (r: Result<bool>)
      requires Valid()
      modifies this
      ensures Valid() && data == old(data)
      ensures r == Value(BooleanAt(old(Readable()))) && Readable() == After(BooleanAt(old(Readable())), old(Readable()))
    {
      if |data| - readerIndex < 1 {
        return Err(IndexOutOfBounds);
      }
      r := Ok(data[readerIndex] != 0);
      Skip(1);
    }

    /** readBytes(n) into a new array, and skipBytes(n) when the bytes are dropped. */
    method ReadBytes(n: nat) returns (r: Result<seq<Byte>>)
      requires Valid()
      modifies this
      ensures Valid() && data == old(data)
      ensures r == Value(BytesOf(old(Readable()), n)) && Readable() == After(BytesOf(old(Readable()), n), old(Readable()))
    {
      if |data| - readerIndex < n {
        return Err(IndexOutOfBounds);
      }
      r := Ok(data[readerIndex..readerIndex + n]);
      assert data[readerIndex..readerIndex + n] == Readable()[..n];
      Skip(n);
    }

    /** Appends bytes at the writer index, the end of the data. */
    method Write(bs: seq<Byte>)
      requires Valid()
      modifies this
      ensures Valid() && data == old(data) + bs && readerIndex == old(readerIndex)
      ensures Readable() == old(Readable()) + bs
    {
      data := data + bs;
      assert data[readerIndex..] == old(data[readerIndex..]) + bs;
    }
  }

  // ---------------------------------------------------------------------
  // BufferUtil

  method CheckMagicValue(buffer: ByteBuf, expected: int, error: Exception) returns (o: Outcome)
    requires buffer.Valid()
    modifies buffer
    ensures buffer.Valid() && buffer.data == old(buffer.data)
    ensures var r := CheckMagic(old(buffer.Readable()), expected, error);
      (o.Normal? <==> r.Ok?) && (o.Thrown? ==> o.error == r.error) && (r.Ok? ==> buffer.Readable() == r.value)
  {
    var i := buffer.ReadInt();
    if i.Err? {
      return Thrown(i.error);
    }
    if expected != i.value {
      return Thrown(error);
    }
    o := Normal;
  }

  method ReadBytesFrame(buffer: ByteBuf) returns (r: Result<Option<seq<Byte>>>)
    requires buffer.Valid()
    modifies buffer
    ensures buffer.Valid() && buffer.data == old(buffer.data)
    ensures r == Value(BytesAt(old(buffer.Readable())))
    ensures r.Ok? ==> buffer.Readable() == BytesAt(old(buffer.Readable())).value.1
  {
    var length := buffer.ReadUnsignedShort();
    if length.Err? {
      return Err(length.error);
    }
    if length.value == 0 {
      return Ok(None);
    }
    var out := buffer.ReadBytes(length.value);
    if out.Err? {
      return Err(out.error);
    }
    r := Ok(Some(out.value));
  }

  method WriteBytesFrame(buffer: ByteBuf, value: Option<seq<Byte>>)
    requires buffer.Valid()
    modifies buffer
    ensures buffer.Valid() && buffer.data == old(buffer.data) + BytesFrame(value)
    ensures buffer.readerIndex == old(buffer.readerIndex)
  {
    if value.None? || value.value == [] {
      buffer.Write(U16Bytes(0));
      return;
    }
    buffer.Write(U16Bytes(|value.value|));
    buffer.Write(value.value);
  }

  /** readBuffer: the framed bytes in a new buffer. */
  method ReadBuffer(buffer: ByteBuf) returns (r: Result<Option<ByteBuf>>)
    requires buffer.Valid()
    modifies buffer
    ensures buffer.Valid() && buffer.data == old(buffer.data)
    ensures var b := BytesAt(old(buffer.Readable()));
      (r.Ok? <==> b.Ok?) && (r.Err? ==> r.error == b.error)
      && (r.Ok? ==> buffer.Readable() == b.value.1 && (r.value.Some? <==> b.value.0.Some?))
      && (r.Ok? && r.value.Some? ==>
            fresh(r.value.value) && r.value.value.Valid() && r.value.value.Readable() == b.value.0.value)
  {
    var bytes := ReadBytesFrame(buffer);
    if bytes.Err? {
      return Err(bytes.error);
    }
    if bytes.value.None? {
      return Ok(None);
    }
    var out := new ByteBuf(bytes.value.value);
    r := Ok(Some(out));
  }

  /** writeBuffer: the readable bytes of `value`, framed; they count as read
      in `value` afterwards. */
  method WriteBuffer(buffer: ByteBuf, value: Option<ByteBuf>)
    requires buffer.Valid() && (value.Some? ==> value.value.Valid() && value.value != buffer)
    modifies buffer, if value.Some? then {value.value} else {}
    ensures buffer.Valid() && buffer.readerIndex == old(buffer.readerIndex)
    ensures value.None? ==> buffer.data == old(buffer.data) + BytesFrame(None)
    ensures value.Some? ==>
      buffer.data == old(buffer.data) + BytesFrame(Some(old(value.value.Readable())))
      && value.value.Valid() && value.value.data == old(value.value.data) && value.value.Readable() == []
  {
    if value.None? || |value.value.data| - value.value.readerIndex == 0 {
      buffer.Write(U16Bytes(0));
      return;
    }
    var src := value.value;
    var bytes := src.Readable();
    buffer.Write(U16Bytes(|bytes|));
    buffer.Write(bytes);
    src.Skip(|bytes|);
  }

  /** readString. */
  method ReadString(buffer: ByteBuf) returns (r: Result<Option<string>>)
    requires buffer.Valid()
    modifies buffer
    ensures buffer.Valid() && buffer.data == old(buffer.data)
    ensures r == Value(StringAt(old(buffer.Readable())))
    ensures r.Ok? ==> buffer.Readable() == StringAt(old(buffer.Readable())).value.1
  {
    var bytes := ReadBytesFrame(buffer);
    if bytes.Err? {
      return Err(bytes.error);
    }
    if bytes.value.None? {
      return Ok(None);
    }
    r := Ok(Some(Decode(bytes.value.value)));
  }

  method WriteString(buffer: ByteBuf, value: Option<string>)
    requires buffer.Valid()
    modifies buffer
    ensures buffer.Valid() && buffer.data == old(buffer.data) + StringFrame(value)
    ensures buffer.readerIndex == old(buffer.readerIndex)
  {
    if value.None? || value.value == [] {
      WriteBytesFrame(buffer, None);
      return;
    }
    WriteBytesFrame(buffer, Some(Encode(value.value)));
  }

  /** readUUID: the string read; its UUID syntax is not checked here. */
  method ReadUUID(buffer: ByteBuf) returns (r: Result<Option<string>>)
    requires buffer.Valid()
    modifies buffer
    ensures buffer.Valid() && buffer.data == old(buffer.data)
    ensures r == Value(StringAt(old(buffer.Readable())))
    ensures r.Ok? ==> buffer.Readable() == StringAt(old(buffer.Readable())).value.1
  {
    r := ReadString(buffer);
  }

  /** writeUUID: null as a zero length, anything else as its text. */
  method WriteUUID(buffer: ByteBuf, value: Option<string>)
    requires buffer.Valid()
    modifies buffer
    ensures buffer.Valid() && buffer.data == old(buffer.data) + StringFrame(value)
    ensures buffer.readerIndex == old(buffer.readerIndex)
  {
    if value.None? {
      WriteString(buffer, None);
      return;
    }
    WriteString(buffer, value);
  }

  /** The items after `done`, prefixed by `done`, or the first error. */
  function Prefixed<T>(done: seq<T>, r: Result<(seq<T>, seq<Byte>)>): Result<(seq<T>, seq<Byte>)>
  {
    if r.Err? then r else Ok((done + r.value.0, r.value.1))
  }

  /** readList: the count, then the decoder applied count times, each item
      added to the collection in turn. */
  method ReadList<T>(buffer: ByteBuf, decode: seq<Byte> -> Result<(T, seq<Byte>)>) returns (r: Result<seq<T>>)
    requires buffer.Valid() && Consumes(decode)
    modifies buffer
    ensures buffer.Valid() && buffer.data == old(buffer.data)
    ensures r == Value(ListAt(old(buffer.Readable()), decode))
    ensures r.Ok? ==> buffer.Readable() == ListAt(old(buffer.Readable()), decode).value.1
  {
    ghost var spec := ListAt(buffer.Readable(), decode);
    var length := buffer.ReadUnsignedShort();
    if length.Err? {
      return Err(length.error);
    }
    var collection: seq<T> := [];
    var i := 0;
    PrefixedEmpty(Items(buffer.Readable(), length.value, decode));
    while i < length.value
      invariant 0 <= i <= length.value
      invariant buffer.Valid() && buffer.data == old(buffer.data)
      invariant spec == Prefixed(collection, Items(buffer.Readable(), length.value - i, decode))
    {
      var d := buffer.Readable();
      var item := decode(d);
      if item.Err? {
        return Err(item.error);
      }
      var rest := item.value.1;
      assert Suffix(rest, d);
      PrefixedAppend(collection, item.value.0, Items(rest, length.value - i - 1, decode));
      buffer.Skip(|d| - |rest|);
      collection := collection + [item.value.0];
      i := i + 1;
    }
    assert collection + [] == collection;
    r := Ok(collection);
  }

  lemma PrefixedEmpty<T>(r: Result<(seq<T>, seq<Byte>)>)
    ensures Prefixed([], r) == r
  {
    if r.Ok? {
      assert [] + r.value.0 == r.value.0;
    }
  }

  lemma PrefixedAppend<T>(done: seq<T>, x: T, r: Result<(seq<T>, seq<Byte>)>)
    ensures Prefixed(done, Prefixed([x], r)) == Prefixed(done + [x], r)
  {
    if r.Ok? {
      assert done + ([x] + r.value.0) == (done + [x]) + r.value.0;
    }
  }

  /** writeList: the count as a short, then each item through the encoder. */
  method WriteList<T>(buffer: ByteBuf, collection: seq<T>, encode: T -> seq<Byte>)
    requires buffer.Valid()
    modifies buffer
    ensures buffer.Valid() && buffer.data == old(buffer.data) + ListFrame(collection, encode)
    ensures buffer.readerIndex == old(buffer.readerIndex)
  {
    buffer.Write(U16Bytes(|collection|));
    var i := 0;
    while i < |collection|
      invariant 0 <= i <= |collection|
      invariant buffer.Valid() && buffer.readerIndex == old(buffer.readerIndex)
      invariant buffer.data == old(buffer.data) + U16Bytes(|collection|) + EncodeAll(collection[..i], encode)
    {
      assert collection[..i + 1][..i] == collection[..i];
      buffer.Write(encode(collection[i]));
      i := i + 1;
    }
    assert collection[..i] == collection;
  }

  // ---------------------------------------------------------------------
  // Properties

  lemma {:induction false} MulAtLeast(m: int, d: int)
    requires m > 0 && d >= 1
    ensures m * d >= m
    decreases d
  {
    if d > 1 {
      MulAtLeast(m, d - 1);
      assert m * d == m * (d - 1) + m;
    }
  }

  /** Euclidean division's remainder is the only one in range. */
  lemma ModUnique(x: int, m: int, t: int, r: int)
    requires m > 0 && x == m * t + r && 0 <= r < m
    ensures x % m == r && x / m == t
  {
    var q, s := x / m, x % m;
    assert x == m * q + s;
    assert m * q - m * t == m * (q - t);
    assert m * (q - t) == r - s;
    if q > t {
      MulAtLeast(m, q - t);
    } else if q < t {
      MulAtLeast(m, t - q);
    }
  }

  /** x modulo 256p from x's low byte and the rest modulo p. */
  lemma ModSplit(x: int, p: int)
    requires p > 0
    ensures ((x / 256) % p) * 256 + x % 256 == x % (256 * p)
  {
    var q, r := x / 256, x % 256;
    var t, s := q / p, q % p;
    assert x == 256 * q + r;
    assert q == p * t + s;
    assert 256 * q == (256 * p) * t + 256 * s;
    assert 0 <= 256 * s + r < 256 * p;
    ModUnique(x, 256 * p, t, 256 * s + r);
  }

  /** The bytes of x read back as x modulo 256^k. */
  lemma {:induction false} BigEndianBytesRoundTrip(x: int, k: nat)
    ensures BigEndian(BigEndianBytes(x, k)) == x % Pow256(k)
    decreases k
  {
    if k == 0 {
      ModUnique(x, 1, x, 0);
    } else {
      var bs := BigEndianBytes(x, k);
      assert bs[..k - 1] == BigEndianBytes(x / 256, k - 1);
      assert bs[k - 1] == x % 256;
      BigEndianBytesRoundTrip(x / 256, k - 1);
      ModSplit(x, Pow256(k - 1));
    }
  }

  lemma Pow256Values()
    ensures Pow256(2) == 0x1_0000 && Pow256(4) == TWO32 && Pow256(8) == TWO64
  {
  }

  /** writeShort then readUnsignedShort gives the low 16 bits back. */
  lemma U16RoundTrip(n: int, rest: seq<Byte>)
    ensures U16(U16Bytes(n) + rest) == Ok((n % 0x1_0000, rest))
    ensures 0 <= n < 0x1_0000 ==> U16(U16Bytes(n) + rest) == Ok((n, rest))
  {
    var b := U16Bytes(n) + rest;
    assert b[0] == (n / 256) % 256 && b[1] == n % 256 && b[2..] == rest;
    ModSplit(n, 256);
  }

  /** Regrouping a concatenation to the right, as the readers consume it. */
  lemma Concat2(a: seq<Byte>, b: seq<Byte>, t: seq<Byte>)
    ensures a + b + t == a + (b + t)
  {
  }

  lemma Concat3(a: seq<Byte>, b: seq<Byte>, c: seq<Byte>, t: seq<Byte>)
    ensures a + b + c + t == a + (b + (c + t))
  {
  }

  lemma Concat4(a: seq<Byte>, b: seq<Byte>, c: seq<Byte>, d: seq<Byte>, t: seq<Byte>)
    ensures a + b + c + d + t == a + (b + (c + (d + t)))
  {
  }

  lemma Concat5(a: seq<Byte>, b: seq<Byte>, c: seq<Byte>, d: seq<Byte>, e: seq<Byte>, t: seq<Byte>)
    ensures a + b + c + d + e + t == a + (b + (c + (d + (e + t))))
  {
  }

  /** writeInt then readInt gives any int back. */
  lemma IntRoundTrip(x: int, rest: seq<Byte>)
    requires IsInt32(x)
    ensures IntAt(IntBytes(x) + rest) == Ok((x, rest))
  {
    var b := IntBytes(x) + rest;
    assert b[..4] == IntBytes(x) && b[4..] == rest;
    Pow256Values();
    BigEndianBytesRoundTrip(x, 4);
    if x < 0 {
      ModUnique(x, TWO32, -1, x + TWO32);
    } else {
      ModUnique(x, TWO32, 0, x);
    }
  }

  /** writeLong then readLong gives any long back. */
  lemma LongRoundTrip(x: int, rest: seq<Byte>)
    requires IsInt64(x)
    ensures LongAt(LongBytes(x) + rest) == Ok((x, rest))
  {
    var b := LongBytes(x) + rest;
    assert b[..8] == LongBytes(x) && b[8..] == rest;
    Pow256Values();
    BigEndianBytesRoundTrip(x, 8);
    var u := x % TWO64;
    if x < 0 {
      ModUnique(x, TWO64, -1, x + TWO64);
      assert u == x + TWO64;
    } else {
      ModUnique(x, TWO64, 0, x);
      assert u == x;
    }
    ModUnique(u, TWO64, 0, u);
    assert Int64(u) == x;
  }

  lemma BooleanRoundTrip(v: bool, rest: seq<Byte>)
    ensures BooleanAt(BooleanBytes(v) + rest) == Ok((v, rest))
  {
    assert (BooleanBytes(v) + rest)[1..] == rest;
  }

  /** checkMagicValue accepts exactly the expected int and consumes it. */
  lemma CheckMagicIff(d: seq<Byte>, expected: int, error: Exception)
    requires |d| >= 4
    ensures CheckMagic(d, expected, error).Ok? <==> IntAt(d).value.0 == expected
    ensures CheckMagic(d, expected, error).Err? ==> CheckMagic(d, expected, error).error == error
  {
  }

  /** readBytes gives back what writeBytes wrote, for 1 to 65535 bytes. */
  lemma BytesRoundTrip(v: seq<Byte>, rest: seq<Byte>)
    requires 0 < |v| < 0x1_0000
    ensures BytesAt(BytesFrame(Some(v)) + rest) == Ok((Some(v), rest))
  {
    var b := BytesFrame(Some(v)) + rest;
    assert b == U16Bytes(|v|) + (v + rest);
    U16RoundTrip(|v|, v + rest);
    assert (v + rest)[..|v|] == v && (v + rest)[|v|..] == rest;
  }

  /** null and the empty array are both written as a zero length, which
      reads back as empty. */
  lemma BytesEmptyRoundTrip(rest: seq<Byte>)
    ensures BytesFrame(None) == BytesFrame(Some([])) == [0, 0]
    ensures BytesAt(BytesFrame(None) + rest) == Ok((None, rest))
  {
    U16RoundTrip(0, rest);
  }

  /** writeShort keeps only 16 bits of a longer array's size while all its
      bytes are written: what reads back is the first size mod 65536 bytes,
      and the others are left unread. */
  lemma BytesFrameTruncates(v: seq<Byte>, rest: seq<Byte>)
    requires |v| >= 0x1_0000
    ensures var k := |v| % 0x1_0000;
      BytesAt(BytesFrame(Some(v)) + rest) == if k == 0 then Ok((None, v + rest)) else Ok((Some(v[..k]), v[k..] + rest))
  {
    var b := BytesFrame(Some(v)) + rest;
    assert b == U16Bytes(|v|) + (v + rest);
    U16RoundTrip(|v|, v + rest);
    var k := |v| % 0x1_0000;
    assert (v + rest)[..k] == v[..k] && (v + rest)[k..] == v[k..] + rest;
  }

  /** readString gives back what writeString wrote for a non-empty string
      whose UTF-8 form fits the 16-bit length; null and "" read back as empty. */
  lemma StringRoundTrip(s: string, rest: seq<Byte>)
    requires s != [] && |Encode(s)| < 0x1_0000
    ensures StringAt(StringFrame(Some(s)) + rest) == Ok((Some(s), rest))
  {
    BytesRoundTrip(Encode(s), rest);
    DecodeEncode(s);
  }

  /** A nullable string field reads back as written, when a present value
      is non-empty and fits the 16-bit length. */
  lemma OptionStringRoundTrip(s: Option<string>, rest: seq<Byte>)
    requires s.Some? ==> s.value != [] && |Encode(s.value)| < 0x1_0000
    ensures StringAt(StringFrame(s) + rest) == Ok((s, rest))
  {
    if s.Some? {
      StringRoundTrip(s.value, rest);
    } else {
      StringEmptyRoundTrip(rest);
    }
  }

  lemma StringEmptyRoundTrip(rest: seq<Byte>)
    ensures StringFrame(None) == StringFrame(Some([]))
    ensures StringAt(StringFrame(None) + rest) == Ok((None, rest))
  {
    BytesEmptyRoundTrip(rest);
  }

  /** Each item seen through `view`. */
  function MapSeq<W, T>(items: seq<W>, view: W -> T): (r: seq<T>)
    ensures |r| == |items|
    ensures forall i :: 0 <= i < |items| ==> r[i] == view(items[i])
  {
    if items == [] then [] else [view(items[0])] + MapSeq(items[1..], view)
  }

  /** Decoding the encodings of several items, one after the other, gives
      what decoding each one gives. */
  lemma {:induction false} ItemsRoundTrip<W, T>(items: seq<W>, encode: W -> seq<Byte>, view: W -> T, decode: seq<Byte> -> Result<(T, seq<Byte>)>, rest: seq<Byte>)
    requires forall x, r :: x in items ==> decode(encode(x) + r) == Ok((view(x), r))
    ensures Items(EncodeAll(items, encode) + rest, |items|, decode) == Ok((MapSeq(items, view), rest))
    decreases |items|
  {
    if items == [] {
      assert EncodeAll(items, encode) + rest == rest;
    } else {
      var tail := items[1..];
      EncodeAllFront(items, encode);
      assert EncodeAll(items, encode) + rest == encode(items[0]) + (EncodeAll(tail, encode) + rest);
      assert items[0] in items;
      assert forall x :: x in tail ==> x in items;
      ItemsRoundTrip(tail, encode, view, decode, rest);
    }
  }

  lemma {:induction false} EncodeAllFront<T>(items: seq<T>, encode: T -> seq<Byte>)
    requires items != []
    ensures EncodeAll(items, encode) == encode(items[0]) + EncodeAll(items[1..], encode)
    decreases |items|
  {
    if |items| > 1 {
      var init := items[..|items| - 1];
      EncodeAllFront(init, encode);
      assert init[1..] == items[1..][..|items[1..]| - 1];
      assert init[0] == items[0];
    } else {
      assert items[1..] == [];
      assert items[..0] == [];
    }
  }

  /** readList reads a count that fits 16 bits back as written. */
  lemma ListAtCount<T>(n: nat, body: seq<Byte>, decode: seq<Byte> -> Result<(T, seq<Byte>)>)
    requires n < 0x1_0000
    ensures ListAt(U16Bytes(n) + body, decode) == Items(body, n, decode)
  {
    var d := U16Bytes(n) + body;
    U16RoundTrip(n, body);
    assert U16(d) == Ok((n, body));
    ListAtOfCount(d, n, body, decode);
  }

  lemma ListAtOfCount<T>(d: seq<Byte>, n: nat, body: seq<Byte>, decode: seq<Byte> -> Result<(T, seq<Byte>)>)
    requires U16(d) == Ok((n, body))
    ensures ListAt(d, decode) == Items(body, n, decode)
  {
  }

  /** readList gives back what writeList wrote, when the count fits 16 bits
      and the decoder undoes the encoder on each item (up to `view`). */
  lemma ListRoundTrip<W, T>(items: seq<W>, encode: W -> seq<Byte>, view: W -> T, decode: seq<Byte> -> Result<(T, seq<Byte>)>, rest: seq<Byte>)
    requires |items| < 0x1_0000
    requires forall x, r :: x in items ==> decode(encode(x) + r) == Ok((view(x), r))
    ensures ListAt(ListFrame(items, encode) + rest, decode) == Ok((MapSeq(items, view), rest))
  {
    var body := EncodeAll(items, encode) + rest;
    Concat2(U16Bytes(|items|), EncodeAll(items, encode), rest);
    ListAtCount(|items|, body, decode);
    ItemsRoundTrip(items, encode, view, decode, rest);
  }
}
