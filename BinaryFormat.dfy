/**
 * The primitives of .NET's BinaryWriter and BinaryReader that the index
 * format uses: little-endian two's-complement integers, one-byte booleans,
 * and strings written as a 7-bit-encoded byte count followed by UTF-8.
 * A seekable in-memory stream carries them.
 */
module BinaryFormat {
  import opened Wrappers

  newtype byte = x: int | 0 <= x < 0x100

  type int32 = x: int | -0x8000_0000 <= x < 0x8000_0000
  type int64 = x: int | -0x8000_0000_0000_0000 <= x < 0x8000_0000_0000_0000

  const TWO_31: int := 0x8000_0000
  const TWO_32: int := 0x1_0000_0000
  const TWO_63: int := 0x8000_0000_0000_0000
  const TWO_64: int := 0x1_0000_0000_0000_0000

  /** The exceptions a BinaryReader (and the DateTime constructor) can raise. */
  datatype StreamError =
    | EndOfStream           // EndOfStreamException: fewer bytes left than requested
    | FormatError           // FormatException: malformed 7-bit integer, invalid UTF-8
    | InvalidStringLength   // IOException: negative string length prefix
    | ArgumentOutOfRange    // ArgumentOutOfRangeException: ticks outside DateTime's range

  // ---------------------------------------------------------------------
  // Little-endian unsigned integers of n bytes

  function Pow256(n: nat): (r: nat)
    ensures r >= 1
  {
    if n == 0 then 1 else 256 * Pow256(n - 1)
  }

  lemma Pow256Values()
    ensures Pow256(4) == TWO_32 && Pow256(8) == TWO_64
  {
    assert Pow256(1) == 256;
    assert Pow256(2) == 0x1_0000;
    assert Pow256(3) == 0x100_0000;
    assert Pow256(4) == 0x1_0000_0000;
    assert Pow256(5) == 0x100_0000_0000;
    assert Pow256(6) == 0x1_0000_0000_0000;
    assert Pow256(7) == 0x100_0000_0000_0000;
  }

  lemma DivBelow(u: nat, d: nat, p: nat)
    requires d > 0 && u < d * p
    ensures u / d < p
  {
    var q := u / d;
    assert u == d * q + u % d;
    if q >= p {
      MulMono(d, p, q);
    }
  }

  lemma MulMono(d: nat, p: nat, q: nat)
    requires p <= q
    ensures d * p <= d * q
  {
  }

  /** The n low-order bytes of u, least significant first. */
  function LittleEndian(u: nat, n: nat): (r: seq<byte>)
    requires u < Pow256(n)
    ensures |r| == n
  {
    if n == 0 then []
    else
      DivBelow(u, 256, Pow256(n - 1));
      [(u % 256) as byte] + LittleEndian(u / 256, n - 1)
  }

  /** The unsigned value of a little-endian byte sequence. */
  function FromLittleEndian(bs: seq<byte>): (u: nat)
    ensures u < Pow256(|bs|)
  {
    if bs == [] then 0
    else
      var rest := FromLittleEndian(bs[1..]);
      assert rest <= Pow256(|bs| - 1) - 1;
      assert 256 * rest <= 256 * Pow256(|bs| - 1) - 256;
      bs[0] as int + 256 * rest
  }

  lemma {:induction false} LittleEndianRoundTrip(u: nat, n: nat)
    requires u < Pow256(n)
    ensures FromLittleEndian(LittleEndian(u, n)) == u
  {
    if n > 0 {
      DivBelow(u, 256, Pow256(n - 1));
      LittleEndianRoundTrip(u / 256, n - 1);
      assert LittleEndian(u, n)[1..] == LittleEndian(u / 256, n - 1);
    }
  }

  /** BinaryWriter.Write(int): four bytes, two's complement, little-endian. */
  function Int32Bytes(v: int32): (r: seq<byte>)
    ensures |r| == 4
  {
    Pow256Values();
    LittleEndian(if v < 0 then v + TWO_32 else v, 4)
  }

  /** BinaryWriter.Write(long): eight bytes, two's complement, little-endian. */
  function Int64Bytes(v: int64): (r: seq<byte>)
    ensures |r| == 8
  {
    Pow256Values();
    LittleEndian(if v < 0 then v + TWO_64 else v, 8)
  }

  function ToInt32(bs: seq<byte>): int32
    requires |bs| == 4
  {
    Pow256Values();
    var u := FromLittleEndian(bs);
    if u >= TWO_31 then u - TWO_32 else u
  }

  function ToInt64(bs: seq<byte>): int64
    requires |bs| == 8
  {
    Pow256Values();
    var u := FromLittleEndian(bs);
    if u >= TWO_63 then u - TWO_64 else u
  }

  lemma Int32RoundTrip(v: int32)
    ensures ToInt32(Int32Bytes(v)) == v
  {
    Pow256Values();
    LittleEndianRoundTrip(if v < 0 then v + TWO_32 else v, 4);
  }

  lemma Int64RoundTrip(v: int64)
    ensures ToInt64(Int64Bytes(v)) == v
  {
    Pow256Values();
    LittleEndianRoundTrip(if v < 0 then v + TWO_64 else v, 8);
  }

  /** BinaryWriter.Write(bool): one byte, 1 for true and 0 for false. */
  function BooleanByte(b: bool): byte {
    if b then 1 else 0
  }

  // ---------------------------------------------------------------------
  // 7-bit encoded integers (the length prefix of a string)

  /**
   * Write7BitEncodedInt for a non-negative value: seven bits per byte,
   * least significant group first, the high bit set on every byte but the last.
   */
  function SevenBitEncoded(v: nat): (r: seq<byte>)
    ensures |r| >= 1
    decreases v
  {
    if v < 128 then [v as byte]
    else [(v % 128 + 128) as byte] + SevenBitEncoded(v / 128)
  }

  /** The int32 that a uint32 bit pattern denotes. */
  function AsInt32(u: nat): int32
    requires u < TWO_32
  {
    if u >= TWO_31 then u - TWO_32 else u
  }

  /** An int counter incremented n times from zero, wrapping around as unchecked C# arithmetic does. */
  function WrapInt32(n: nat): (r: int32)
    ensures n < TWO_31 ==> r == n
  {
    AsInt32(n % TWO_32)
  }

  // ---------------------------------------------------------------------
  // UTF-8

  /** The UTF-8 encoding of one Unicode scalar value. */
  function Utf8Char(c: char): (r: seq<byte>)
    ensures 1 <= |r| <= 4
  {
    var cp := c as int;
    if cp < 0x80 then [cp as byte]
    else if cp < 0x800 then
      [(0xC0 + cp / 64) as byte, (0x80 + cp % 64) as byte]
    else if cp < 0x1_0000 then
      [(0xE0 + cp / 4096) as byte, (0x80 + (cp / 64) % 64) as byte, (0x80 + cp % 64) as byte]
    else
      [(0xF0 + cp / 262144) as byte, (0x80 + (cp / 4096) % 64) as byte,
       (0x80 + (cp / 64) % 64) as byte, (0x80 + cp % 64) as byte]
  }

  /** Encoding.UTF8.GetBytes. */
  function Utf8(s: string): (r: seq<byte>)
    ensures |r| >= |s|
  {
    if s == [] then [] else Utf8Char(s[0]) + Utf8(s[1..])
  }

  predicate IsContinuation(b: byte) {
    0x80 <= b < 0xC0
  }

  predicate IsScalar(cp: int) {
    0 <= cp < 0xD800 || 0xE000 <= cp < 0x11_0000
  }

  /**
   * Decodes the scalar value at the start of bs and says how many bytes it
   * took; None for an ill-formed sequence (overlong forms, surrogates and
   * values above U+10FFFF are ill-formed).
   */
  function DecodeChar(bs: seq<byte>): (r: Option<(char, nat)>)
    requires |bs| > 0
    ensures r.Some? ==> 1 <= r.value.1 <= |bs|
  {
    var b0 := bs[0] as int;
    if b0 < 0x80 then Some((b0 as char, 1))
    else if b0 < 0xC2 then None
    else if b0 < 0xE0 then
      if |bs| < 2 || !IsContinuation(bs[1]) then None
      else Some((((b0 - 0xC0) * 64 + (bs[1] as int - 0x80)) as char, 2))
    else if b0 < 0xF0 then
      if |bs| < 3 || !IsContinuation(bs[1]) || !IsContinuation(bs[2]) then None
      else
        var cp := (b0 - 0xE0) * 4096 + (bs[1] as int - 0x80) * 64 + (bs[2] as int - 0x80);
        if cp < 0x800 || !IsScalar(cp) then None else Some((cp as char, 3))
    else if b0 < 0xF5 then
      if |bs| < 4 || !IsContinuation(bs[1]) || !IsContinuation(bs[2]) || !IsContinuation(bs[3]) then None
      else
        var cp := (b0 - 0xF0) * 262144 + (bs[1] as int - 0x80) * 4096
                  + (bs[2] as int - 0x80) * 64 + (bs[3] as int - 0x80);
        if cp < 0x1_0000 || !IsScalar(cp) then None else Some((cp as char, 4))
    else None
  }

  /** Decodes a whole byte sequence as UTF-8; None when it is ill-formed. */
  function DecodeUtf8(bs: seq<byte>): (r: Option<string>)
    decreases |bs|
  {
    if bs == [] then Some([])
    else
      match DecodeChar(bs)
      case None => None
      case Some((c, n)) =>
        match DecodeUtf8(bs[n..])
        case None => None
        case Some(rest) => Some([c] + rest)
  }

  lemma Utf8CharDecodes(c: char, rest: seq<byte>)
    ensures DecodeChar(Utf8Char(c) + rest) == Some((c, |Utf8Char(c)|))
  {
    var cp := c as int;
    var bs := Utf8Char(c) + rest;
    if cp < 0x80 {
    } else if cp < 0x800 {
      assert (cp / 64) * 64 + cp % 64 == cp;
    } else if cp < 0x1_0000 {
      var hi, mid, lo := cp / 4096, (cp / 64) % 64, cp % 64;
      assert (cp / 64) / 64 == hi;
      assert hi * 4096 + mid * 64 + lo == cp;
    } else {
      var b0, b1, b2, b3 := cp / 262144, (cp / 4096) % 64, (cp / 64) % 64, cp % 64;
      assert (cp / 64) / 64 == cp / 4096;
      assert (cp / 4096) / 64 == b0;
      assert b0 * 262144 + b1 * 4096 + b2 * 64 + b3 == cp;
    }
  }

  lemma {:induction false} Utf8RoundTrip(s: string)
    ensures DecodeUtf8(Utf8(s)) == Some(s)
  {
    if s != [] {
      var head := Utf8Char(s[0]);
      var bs := Utf8(s);
      assert bs == head + Utf8(s[1..]);
      Utf8CharDecodes(s[0], Utf8(s[1..]));
      var first: Option<(char, nat)> := Some((s[0], |head|));
      assert DecodeChar(bs) == first;
      assert bs[|head|..] == Utf8(s[1..]);
      Utf8RoundTrip(s[1..]);
      assert DecodeUtf8(bs) == Some([s[0]] + s[1..]);
      assert [s[0]] + s[1..] == s;
    }
  }

  /** BinaryWriter.Write(string): the UTF-8 byte count, 7-bit encoded, then the bytes. */
  function StringBytes(s: string): (r: seq<byte>)
    ensures |r| > |Utf8(s)|
  {
    SevenBitEncoded(|Utf8(s)|) + Utf8(s)
  }

  // ---------------------------------------------------------------------
  // Reading from a byte sequence at a position. Each parser returns the
  // value read and the position after it.

  /** data holds x starting at pos. */
  predicate HoldsAt(data: seq<byte>, pos: nat, x: seq<byte>) {
    pos + |x| <= |data| && data[pos..pos + |x|] == x
  }

  /** A holding of x + y at pos is a holding of x at pos and of y at mid, where x ends. */
  lemma HoldsAtSplit(data: seq<byte>, pos: nat, x: seq<byte>, y: seq<byte>, mid: nat)
    requires HoldsAt(data, pos, x + y)
    requires mid == pos + |x|
    ensures HoldsAt(data, pos, x) && HoldsAt(data, mid, y)
  {
    assert data[pos..pos + |x|] == (x + y)[..|x|];
    assert data[pos + |x|..pos + |x| + |y|] == (x + y)[|x|..];
  }

  function ParseBytes(data: seq<byte>, pos: nat, n: nat): (r: Result<(seq<byte>, nat), StreamError>)
    requires pos <= |data|
    ensures r.Ok? ==> r.value.1 == pos + n <= |data| && r.value.0 == data[pos..pos + n]
    ensures r.Err? <==> pos + n > |data|
    ensures r.Err? ==> r.error == EndOfStream
  {
    if pos + n <= |data| then Ok((data[pos..pos + n], pos + n)) else Err(EndOfStream)
  }

  /** BinaryReader.ReadBoolean: one byte, any non-zero value reads as true. */
  function ParseBoolean(data: seq<byte>, pos: nat): (r: Result<(bool, nat), StreamError>)
    requires pos <= |data|
    ensures r.Ok? <==> pos < |data|
    ensures r.Ok? ==> r.value == (data[pos] != 0, pos + 1)
  {
    var bs :- ParseBytes(data, pos, 1);
    Ok((bs.0[0] != 0, bs.1))
  }

  /** BinaryReader.ReadInt32. */
  function ParseInt32(data: seq<byte>, pos: nat): (r: Result<(int32, nat), StreamError>)
    requires pos <= |data|
    ensures r.Ok? <==> pos + 4 <= |data|
    ensures r.Ok? ==> r.value.1 == pos + 4
  {
    var bs :- ParseBytes(data, pos, 4);
    Ok((ToInt32(bs.0), bs.1))
  }

  /** BinaryReader.ReadInt64. */
  function ParseInt64(data: seq<byte>, pos: nat): (r: Result<(int64, nat), StreamError>)
    requires pos <= |data|
    ensures r.Ok? <==> pos + 8 <= |data|
    ensures r.Ok? ==> r.value.1 == pos + 8
  {
    var bs :- ParseBytes(data, pos, 8);
    Ok((ToInt64(bs.0), bs.1))
  }

  /** The values that the groups from the k-th byte of a 7-bit integer on can carry within 32 bits. */
  function GroupBound(k: nat): (r: nat)
    requires k <= 4
    ensures r >= 16
    decreases 4 - k
  {
    if k == 4 then 16 else 128 * GroupBound(k + 1)
  }

  lemma GroupBoundValues()
    ensures GroupBound(0) == TWO_32 && GroupBound(1) == 0x200_0000
  {
    assert GroupBound(3) == 2048;
    assert GroupBound(2) == 0x4_0000;
  }

  /**
   * Read7BitEncodedInt from its k-th byte on: the value of this byte's low
   * seven bits plus 128 times the value of the bytes after it, as long as
   * the high bit is set. At most four bytes carry a continuation bit; a
   * fifth byte above 15 would overflow 32 bits and is a FormatError.
   */
  function Parse7BitFrom(data: seq<byte>, pos: nat, k: nat): (r: Result<(nat, nat), StreamError>)
    requires pos <= |data| && k <= 4
    ensures r.Ok? ==> r.value.0 < GroupBound(k) && pos < r.value.1 <= |data|
    decreases 4 - k
  {
    if pos == |data| then Err(EndOfStream)
    else
      var b := data[pos] as int;
      if k == 4 then
        if b > 15 then Err(FormatError) else Ok((b, pos + 1))
      else if b < 128 then Ok((b, pos + 1))
      else
        var (rest, p) :- Parse7BitFrom(data, pos + 1, k + 1);
        Ok(((b - 128) + 128 * rest, p))
  }

  function Parse7BitEncodedInt(data: seq<byte>, pos: nat): (r: Result<(int32, nat), StreamError>)
    requires pos <= |data|
    ensures r.Ok? ==> pos < r.value.1 <= |data|
  {
    GroupBoundValues();
    var (u, p) :- Parse7BitFrom(data, pos, 0);
    Ok((AsInt32(u), p))
  }

  /**
   * BinaryReader.ReadString: a 7-bit-encoded byte count, then that many
   * bytes of UTF-8. A negative count is an InvalidStringLength error.
   */
  function ParseString(data: seq<byte>, pos: nat): (r: Result<(string, nat), StreamError>)
    requires pos <= |data|
    ensures r.Ok? ==> pos < r.value.1 <= |data|
  {
    match Parse7BitEncodedInt(data, pos)
    case Err(e) => Err(e)
    case Ok((len, p)) =>
      if len < 0 then Err(InvalidStringLength)
      else if len == 0 then Ok(("", p))
      else
        match ParseBytes(data, p, len)
        case Err(e) => Err(e)
        case Ok((bs, q)) =>
          match DecodeUtf8(bs)
          case None => Err(FormatError)
          case Some(s) => Ok((s, q))
  }

  // ---------------------------------------------------------------------
  // What is written reads back

  lemma BytesReadBack(data: seq<byte>, pos: nat, x: seq<byte>, end: nat)
    requires HoldsAt(data, pos, x) && end == pos + |x|
    ensures ParseBytes(data, pos, |x|) == Ok((x, end))
  {
  }

  lemma BooleanReadsBack(data: seq<byte>, pos: nat, b: bool)
    requires HoldsAt(data, pos, [BooleanByte(b)])
    ensures ParseBoolean(data, pos) == Ok((b, pos + 1))
  {
    assert data[pos] == data[pos..pos + 1][0];
  }

  lemma Int32ReadsBack(data: seq<byte>, pos: nat, v: int32)
    requires HoldsAt(data, pos, Int32Bytes(v))
    ensures ParseInt32(data, pos) == Ok((v, pos + 4))
  {
    Int32RoundTrip(v);
  }

  lemma Int64ReadsBack(data: seq<byte>, pos: nat, v: int64)
    requires HoldsAt(data, pos, Int64Bytes(v))
    ensures ParseInt64(data, pos) == Ok((v, pos + 8))
  {
    Int64RoundTrip(v);
  }

  lemma {:induction false} SevenBitReadsBackFrom(data: seq<byte>, pos: nat, k: nat, v: nat)
    requires k <= 4 && v < GroupBound(k)
    requires HoldsAt(data, pos, SevenBitEncoded(v))
    ensures Parse7BitFrom(data, pos, k) == Ok((v, pos + |SevenBitEncoded(v)|))
    decreases 4 - k
  {
    var enc := SevenBitEncoded(v);
    assert data[pos] == enc[0];
    if v >= 128 {
      assert k < 4;
      DivBelow(v, 128, GroupBound(k + 1));
      HoldsAtSplit(data, pos, [enc[0]], SevenBitEncoded(v / 128), pos + 1);
      SevenBitReadsBackFrom(data, pos + 1, k + 1, v / 128);
    }
  }

  /** A 7-bit encoded non-negative int32 reads back as itself. */
  lemma SevenBitIntReadsBack(data: seq<byte>, pos: nat, n: nat, end: nat)
    requires n < TWO_31
    requires HoldsAt(data, pos, SevenBitEncoded(n)) && end == pos + |SevenBitEncoded(n)|
    ensures Parse7BitEncodedInt(data, pos) == Ok((n as int32, end))
  {
    GroupBoundValues();
    SevenBitReadsBackFrom(data, pos, 0, n);
  }

  lemma StringReadsBack(data: seq<byte>, pos: nat, s: string, end: nat)
    requires |Utf8(s)| < TWO_31
    requires HoldsAt(data, pos, StringBytes(s)) && end == pos + |StringBytes(s)|
    ensures ParseString(data, pos) == Ok((s, end))
  {
    var n := |Utf8(s)|;
    var prefix := SevenBitEncoded(n);
    var p := pos + |prefix|;
    assert end == p + n;
    HoldsAtSplit(data, pos, prefix, Utf8(s), p);
    SevenBitIntReadsBack(data, pos, n, p);
    if n == 0 {
      assert s == [];
    } else {
      BytesReadBack(data, p, Utf8(s), end);
      Utf8RoundTrip(s);
    }
  }

  // ---------------------------------------------------------------------
  // A seekable byte stream with BinaryWriter and BinaryReader operations

  /** The bytes d after writing b at position p, over-writing or extending. */
  function Overwrite(d: seq<byte>, p: nat, b: seq<byte>): (r: seq<byte>)
    requires p <= |d|
    ensures |r| == if p + |b| <= |d| then |d| else p + |b|
    ensures r[..p] == d[..p] && r[p..p + |b|] == b && r[p + |b|..] == d[if p + |b| <= |d| then p + |b| else |d|..]
    ensures p == |d| ==> r == d + b
  {
    d[..p] + b + (if p + |b| <= |d| then d[p + |b|..] else [])
  }

  /** Writing y over a placeholder x of the same length replaces just the placeholder. */
  lemma BackPatch(d: seq<byte>, x: seq<byte>, rest: seq<byte>, y: seq<byte>)
    requires |x| == |y|
    ensures Overwrite(d + x + rest, |d|, y) == d + y + rest
  {
    var e := d + x + rest;
    assert e[..|d|] == d;
    assert e[|d| + |y|..] == rest;
  }

  datatype SeekOrigin = Begin | End

  class Stream {
    var data: seq<byte>
    var position: nat

    ghost predicate Valid()
      reads this
    {
      position <= |data|
    }

    /** An empty stream, as FileMode.Create leaves it. */
    constructor ()
      ensures Valid() && data == [] && position == 0
    {
      data, position := [], 0;
    }

    /** A stream over existing bytes, positioned at the start. */
    constructor Over(bytes: seq<byte>)
      ensures Valid() && data == bytes && position == 0
    {
      data, position := bytes, 0;
    }

    method Write(bytes: seq<byte>)
      requires Valid()
      modifies this
      ensures Valid()
      ensures data == Overwrite(old(data), old(position), bytes)
      ensures position == old(position) + |bytes|
    {
      data := Overwrite(data, position, bytes);
      position := position + |bytes|;
    }

    /** BinaryWriter.Seek; offsets that leave the written bytes are not used here. */
    method Seek(offset: int, origin: SeekOrigin)
      requires Valid()
      requires 0 <= (match origin case Begin => 0 case End => |data|) + offset <= |data|
      modifies this
      ensures Valid() && data == old(data)
      ensures position == (match origin case Begin => 0 case End => |data|) + offset
    {
      match origin
      case Begin => position := offset;
      case End => position := |data| + offset;
    }

    method WriteInt32(v: int32)
      requires Valid()
      modifies this
      ensures Valid()
      ensures data == Overwrite(old(data), old(position), Int32Bytes(v))
      ensures position == old(position) + 4
    {
      Write(Int32Bytes(v));
    }

    method WriteInt64(v: int64)
      requires Valid()
      modifies this
      ensures Valid()
      ensures data == Overwrite(old(data), old(position), Int64Bytes(v))
      ensures position == old(position) + 8
    {
      Write(Int64Bytes(v));
    }

    method WriteBoolean(b: bool)
      requires Valid()
      modifies this
      ensures Valid()
      ensures data == Overwrite(old(data), old(position), [BooleanByte(b)])
      ensures position == old(position) + 1
    {
      Write([BooleanByte(b)]);
    }

    method WriteString(s: string)
      requires Valid() && |Utf8(s)| < TWO_31
      modifies this
      ensures Valid()
      ensures data == Overwrite(old(data), old(position), StringBytes(s))
      ensures position == old(position) + |StringBytes(s)|
    {
      Write(StringBytes(s));
    }

    method ReadInt32() returns (r: Result<int32, StreamError>)
      requires Valid()
      modifies this
      ensures Valid() && data == old(data)
      ensures match ParseInt32(data, old(position))
              case Ok((v, p)) => r == Ok(v) && position == p
              case Err(e) => r == Err(e)
    {
      match ParseInt32(data, position)
      case Ok((v, p)) => r := Ok(v); position := p;
      case Err(e) => r := Err(e);
    }

    method ReadInt64() returns (r: Result<int64, StreamError>)
      requires Valid()
      modifies this
      ensures Valid() && data == old(data)
      ensures match ParseInt64(data, old(position))
              case Ok((v, p)) => r == Ok(v) && position == p
              case Err(e) => r == Err(e)
    {
      match ParseInt64(data, position)
      case Ok((v, p)) => r := Ok(v); position := p;
      case Err(e) => r := Err(e);
    }

    method ReadBoolean() returns (r: Result<bool, StreamError>)
      requires Valid()
      modifies this
      ensures Valid() && data == old(data)
      ensures match ParseBoolean(data, old(position))
              case Ok((v, p)) => r == Ok(v) && position == p
              case Err(e) => r == Err(e)
    {
      match ParseBoolean(data, position)
      case Ok((v, p)) => r := Ok(v); position := p;
      case Err(e) => r := Err(e);
    }

    method ReadString() returns (r: Result<string, StreamError>)
      requires Valid()
      modifies this
      ensures Valid() && data == old(data)
      ensures match ParseString(data, old(position))
              case Ok((v, p)) => r == Ok(v) && position == p
              case Err(e) => r == Err(e)
    {
      match ParseString(data, position)
      case Ok((v, p)) => r := Ok(v); position := p;
      case Err(e) => r := Err(e);
    }
  }
}
