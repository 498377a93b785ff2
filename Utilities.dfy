/**
 * Path splitting and the hexadecimal codec of the console application's
 * Utilities class. Their implementation is not part of this model; their
 * behaviour is the one the unit tests of test/Bit.Tests/UtilitiesTests.cs
 * pin down, and the lemmas at the end check every test vector.
 */
module Utilities {
  import opened Wrappers
  import opened BinaryFormat

  // ---------------------------------------------------------------------
  // SplitPathIntoParts

  /**
   * The parts of path from index i on, the part being read starting at
   * index start. Parts are slices of the path, as the ReadOnlyMemory<char>
   * values the source returns are.
   */
  function PartsFrom(path: string, i: nat, start: nat): (r: seq<string>)
    requires start <= i <= |path|
    decreases |path| - i
  {
    if i == |path| then
      (if start < i then [path[start..i]] else [])
    else if path[i] == '/' then
      (if start < i then [path[start..i]] else []) + PartsFrom(path, i + 1, i + 1)
    else
      PartsFrom(path, i + 1, start)
  }

  predicate IsPart(p: string) {
    p != [] && '/' !in p
  }

  /** The maximal runs of characters other than '/', in order. */
  function SplitPathIntoParts(path: string): (r: seq<string>)
    ensures forall i :: 0 <= i < |r| ==> IsPart(r[i])
  {
    PartsFromAreParts(path, 0, 0);
    PartsFrom(path, 0, 0)
  }

  lemma {:induction false} PartsFromAreParts(path: string, i: nat, start: nat)
    requires start <= i <= |path|
    requires '/' !in path[start..i]
    ensures forall k :: 0 <= k < |PartsFrom(path, i, start)| ==> IsPart(PartsFrom(path, i, start)[k])
    decreases |path| - i
  {
    if i < |path| {
      if path[i] == '/' {
        PartsFromAreParts(path, i + 1, i + 1);
      } else {
        assert path[start..i + 1] == path[start..i] + [path[i]];
        PartsFromAreParts(path, i + 1, start);
      }
    }
  }

  /** Splitting p + q past the end of p is splitting q. */
  lemma {:induction false} PartsFromShift(p: string, q: string, j: nat, st: nat)
    requires st <= j <= |q|
    ensures PartsFrom(p + q, |p| + j, |p| + st) == PartsFrom(q, j, st)
    decreases |q| - j
  {
    assert (p + q)[|p| + st..|p| + j] == q[st..j];
    if j < |q| {
      assert (p + q)[|p| + j] == q[j];
      if q[j] == '/' {
        PartsFromShift(p, q, j + 1, j + 1);
      } else {
        PartsFromShift(p, q, j + 1, st);
      }
    }
  }

  lemma {:induction false} PartsFromSlash(x: string, y: string, i: nat, start: nat)
    requires start <= i <= |x|
    ensures PartsFrom(x + "/" + y, i, start) == PartsFrom(x, i, start) + PartsFrom(y, 0, 0)
    decreases |x| - i
  {
    if i == |x| {
      PartsFromAtSlash(x, y, start);
    } else {
      PartsFromBeforeSlash(x, y, i, start);
      var s, rest := x + "/" + y, PartsFrom(y, 0, 0);
      if x[i] == '/' {
        var head := if start < i then [x[start..i]] else [];
        PartsFromSlash(x, y, i + 1, i + 1);
        assert PartsFrom(x, i, start) == head + PartsFrom(x, i + 1, i + 1);
        assert PartsFrom(s, i, start) == head + (PartsFrom(x, i + 1, i + 1) + rest);
        assert head + (PartsFrom(x, i + 1, i + 1) + rest) == (head + PartsFrom(x, i + 1, i + 1)) + rest;
      } else {
        PartsFromSlash(x, y, i + 1, start);
        assert PartsFrom(x, i, start) == PartsFrom(x, i + 1, start);
      }
    }
  }

  /** At the separating '/', the part read so far ends and y is split on its own. */
  lemma PartsFromAtSlash(x: string, y: string, start: nat)
    requires start <= |x|
    ensures PartsFrom(x + "/" + y, |x|, start) == PartsFrom(x, |x|, start) + PartsFrom(y, 0, 0)
  {
    var s := x + "/" + y;
    assert s[start..|x|] == x[start..|x|];
    assert s[|x|] == '/';
    assert s == (x + "/") + y;
    PartsFromShift(x + "/", y, 0, 0);
  }

  /** Before the separating '/', x + "/" + y is read as x is. */
  lemma PartsFromBeforeSlash(x: string, y: string, i: nat, start: nat)
    requires start <= i < |x|
    ensures var s := x + "/" + y;
      PartsFrom(s, i, start) ==
        if x[i] == '/' then (if start < i then [x[start..i]] else []) + PartsFrom(s, i + 1, i + 1)
        else PartsFrom(s, i + 1, start)
  {
    var s := x + "/" + y;
    assert s[start..i] == x[start..i];
    assert s[i] == x[i];
  }

  /**
   * A '/' separates: the parts of x, then those of y. Together with
   * SplitOfPart this determines the function: leading, trailing and
   * repeated slashes contribute no parts.
   */
  lemma SplitAtSlash(x: string, y: string)
    ensures SplitPathIntoParts(x + "/" + y) == SplitPathIntoParts(x) + SplitPathIntoParts(y)
  {
    PartsFromSlash(x, y, 0, 0);
  }

  lemma {:induction false} PartsFromRun(x: string, i: nat)
    requires i <= |x| && '/' !in x
    ensures PartsFrom(x, i, 0) == if x == [] then [] else [x]
    decreases |x| - i
  {
    if i < |x| {
      assert x[i] in x;
      PartsFromRun(x, i + 1);
    } else {
      assert x[0..i] == x;
    }
  }

  /** A non-empty name without slashes is a single part. */
  lemma SplitOfPart(x: string)
    requires IsPart(x)
    ensures SplitPathIntoParts(x) == [x]
  {
    PartsFromRun(x, 0);
  }

  /** The characters of s other than '/'. */
  function WithoutSlashes(s: string): string {
    if s == [] then [] else (if s[0] == '/' then [] else [s[0]]) + WithoutSlashes(s[1..])
  }

  function Concat(parts: seq<string>): string {
    if parts == [] then [] else parts[0] + Concat(parts[1..])
  }

  lemma ConcatAppend(xs: seq<string>, ys: seq<string>)
    ensures Concat(xs + ys) == Concat(xs) + Concat(ys)
  {
    if xs == [] {
      assert xs + ys == ys;
    } else {
      assert (xs + ys)[1..] == xs[1..] + ys;
      ConcatAppend(xs[1..], ys);
    }
  }

  lemma {:induction false} PartsFromKeep(path: string, i: nat, start: nat)
    requires start <= i <= |path|
    ensures Concat(PartsFrom(path, i, start)) == path[start..i] + WithoutSlashes(path[i..])
    decreases |path| - i
  {
    if i < |path| {
      assert path[i..][1..] == path[i + 1..];
      var head := if start < i then [path[start..i]] else [];
      if path[i] == '/' {
        PartsFromKeep(path, i + 1, i + 1);
        ConcatAppend(head, PartsFrom(path, i + 1, i + 1));
      } else {
        PartsFromKeep(path, i + 1, start);
        assert path[start..i + 1] == path[start..i] + [path[i]];
      }
    }
  }

  /** Splitting discards exactly the slashes: the parts concatenate to the other characters. */
  lemma SplitKeepsCharacters(path: string)
    ensures Concat(SplitPathIntoParts(path)) == WithoutSlashes(path)
  {
    PartsFromKeep(path, 0, 0);
    assert path[0..0] == [] && path[0..] == path;
  }

  // ---------------------------------------------------------------------
  // ToHex and FromHex

  const HexDigits: string := "0123456789abcdef"

  function HexDigit(n: nat): char
    requires n < 16
  {
    HexDigits[n]
  }

  /** Two lower-case hexadecimal digits per byte, the high nibble first. */
  function ToHex(bytes: seq<byte>): (r: string)
    ensures |r| == 2 * |bytes| && |r| % 2 == 0
  {
    if bytes == [] then []
    else [HexDigit(bytes[0] as int / 16), HexDigit(bytes[0] as int % 16)] + ToHex(bytes[1..])
  }

  /** Byte i becomes the digits at 2i (its high nibble) and 2i + 1 (its low nibble). */
  lemma {:induction false} ToHexAt(bytes: seq<byte>, i: nat)
    requires i < |bytes|
    ensures ToHex(bytes)[2 * i] == HexDigit(bytes[i] as int / 16)
    ensures ToHex(bytes)[2 * i + 1] == HexDigit(bytes[i] as int % 16)
  {
    if i > 0 {
      ToHexAt(bytes[1..], i - 1);
      assert ToHex(bytes)[2..] == ToHex(bytes[1..]);
    }
  }

  /** Hex-encoding a concatenation concatenates the encodings. */
  lemma {:induction false} ToHexAppend(x: seq<byte>, y: seq<byte>)
    ensures ToHex(x + y) == ToHex(x) + ToHex(y)
  {
    if x == [] {
      assert x + y == y;
    } else {
      assert (x + y)[1..] == x[1..] + y;
      ToHexAppend(x[1..], y);
    }
  }

  /** Every digit ToHex emits is one of the sixteen lower-case digits. */
  lemma ToHexLowerCase(bytes: seq<byte>, k: nat)
    requires k < |ToHex(bytes)|
    ensures ToHex(bytes)[k] in HexDigits
  {
    ToHexAt(bytes, k / 2);
    assert k == 2 * (k / 2) || k == 2 * (k / 2) + 1;
  }

  datatype HexError =
    | ArgumentException   // the input has an odd number of characters
    | FormatException     // a character is not a hexadecimal digit

  /** The value of a hexadecimal digit of either case. */
  function DigitValue(c: char): (r: Option<nat>)
    ensures r.Some? ==> r.value < 16
  {
    if '0' <= c <= '9' then Some(c as int - '0' as int)
    else if 'a' <= c <= 'f' then Some(c as int - 'a' as int + 10)
    else if 'A' <= c <= 'F' then Some(c as int - 'A' as int + 10)
    else None
  }

  function FromHexPairs(hex: string): (r: Result<seq<byte>, HexError>)
    requires |hex| % 2 == 0
    ensures r.Ok? ==> |r.value| * 2 == |hex|
    ensures r.Err? ==> r.error == FormatException
  {
    if hex == [] then Ok([])
    else
      var hi, lo := DigitValue(hex[0]), DigitValue(hex[1]);
      if hi.None? || lo.None? then Err(FormatException)
      else
        match FromHexPairs(hex[2..])
        case Ok(rest) => Ok([PairByte(hex[0], hex[1])] + rest)
        case Err(e) => Err(e)
  }

  /** The bytes a string of hexadecimal digit pairs denotes. */
  function FromHex(hex: string): (r: Result<seq<byte>, HexError>)
    ensures |hex| % 2 != 0 <==> r == Err(ArgumentException)
    ensures r.Ok? ==> 2 * |r.value| == |hex|
  {
    if |hex| % 2 != 0 then Err(ArgumentException) else FromHexPairs(hex)
  }

  lemma HexDigitValue(n: nat)
    requires n < 16
    ensures DigitValue(HexDigit(n)) == Some(n)
  {
  }

  lemma {:induction false} FromHexPairsToHex(bytes: seq<byte>)
    ensures FromHexPairs(ToHex(bytes)) == Ok(bytes)
  {
    if bytes != [] {
      var hex := ToHex(bytes);
      ByteDigits(bytes[0]);
      assert hex[0] == HexDigit(bytes[0] as int / 16) && hex[1] == HexDigit(bytes[0] as int % 16);
      assert hex[2..] == ToHex(bytes[1..]);
      FromHexPairsToHex(bytes[1..]);
      assert FromHexPairs(hex) == Ok([bytes[0]] + bytes[1..]);
      assert [bytes[0]] + bytes[1..] == bytes;
    }
  }

  /** The two digits ToHex writes for a byte read back as that byte. */
  lemma ByteDigits(b: byte)
    ensures var hi, lo := HexDigit(b as int / 16), HexDigit(b as int % 16);
      DigitValue(hi).Some? && DigitValue(lo).Some? && PairByte(hi, lo) == b
  {
    HexDigitValue(b as int / 16);
    HexDigitValue(b as int % 16);
  }

  lemma FromHexToHex(bytes: seq<byte>)
    ensures FromHex(ToHex(bytes)) == Ok(bytes)
  {
    FromHexPairsToHex(bytes);
  }

  /** A hexadecimal digit in lower case. */
  function LowerDigit(c: char): char {
    if 'A' <= c <= 'F' then (c as int + 32) as char else c
  }

  /** The lower-case form of a hexadecimal string. */
  function LowerHex(hex: string): string {
    if hex == [] then [] else [LowerDigit(hex[0])] + LowerHex(hex[1..])
  }

  lemma DigitOfValue(c: char)
    requires DigitValue(c).Some?
    ensures HexDigit(DigitValue(c).value) == LowerDigit(c)
  {
  }

  lemma {:induction false} ToHexFromHexPairs(hex: string)
    requires |hex| % 2 == 0 && FromHexPairs(hex).Ok?
    ensures ToHex(FromHexPairs(hex).value) == LowerHex(hex)
    decreases |hex|
  {
    if hex != [] {
      var b := PairByte(hex[0], hex[1]);
      var rest := FromHexPairs(hex[2..]).value;
      assert FromHexPairs(hex).value == [b] + rest;
      ToHexFromHexPairs(hex[2..]);
      PairToHex(hex[0], hex[1]);
      ToHexAppend([b], rest);
      LowerHexPair(hex);
    }
  }

  /** The byte a pair of hexadecimal digits denotes. */
  function PairByte(hi: char, lo: char): byte
    requires DigitValue(hi).Some? && DigitValue(lo).Some?
  {
    (DigitValue(hi).value * 16 + DigitValue(lo).value) as byte
  }

  /** The byte of a digit pair hex-encodes as the pair in lower case. */
  lemma PairToHex(hi: char, lo: char)
    requires DigitValue(hi).Some? && DigitValue(lo).Some?
    ensures ToHex([PairByte(hi, lo)]) == [LowerDigit(hi), LowerDigit(lo)]
  {
    var b := PairByte(hi, lo);
    assert b as int / 16 == DigitValue(hi).value && b as int % 16 == DigitValue(lo).value;
    DigitOfValue(hi);
    DigitOfValue(lo);
    assert ToHex([b]) == [HexDigit(b as int / 16), HexDigit(b as int % 16)] + ToHex([]);
  }

  lemma LowerHexPair(hex: string)
    requires |hex| >= 2
    ensures LowerHex(hex) == [LowerDigit(hex[0]), LowerDigit(hex[1])] + LowerHex(hex[2..])
  {
    assert hex[1..][1..] == hex[2..];
  }

  /** Whatever FromHex accepts, ToHex gives back in lower case. */
  lemma ToHexFromHex(hex: string)
    requires FromHex(hex).Ok?
    ensures ToHex(FromHex(hex).value) == LowerHex(hex)
  {
    ToHexFromHexPairs(hex);
  }

  // ---------------------------------------------------------------------
  // The unit tests' vectors

  lemma SplitVectorsNoParts()
    ensures SplitPathIntoParts("") == []
    ensures SplitPathIntoParts("/") == []
    ensures SplitPathIntoParts("//") == []
  {
  }

  lemma SplitVectorsOnePart()
    ensures SplitPathIntoParts("a") == ["a"]
    ensures SplitPathIntoParts("/a") == ["a"]
    ensures SplitPathIntoParts("a/") == ["a"]
    ensures SplitPathIntoParts("a//") == ["a"]
  {
    assert "a"[0..1] == "a";
    assert "/a"[1..2] == "a";
    assert "a/"[0..1] == "a";
    assert "a//"[0..1] == "a";
  }

  lemma SplitVectorsTwoParts()
    ensures SplitPathIntoParts("a/b") == ["a", "b"]
    ensures SplitPathIntoParts("a//b") == ["a", "b"]
    ensures SplitPathIntoParts("aa/bb") == ["aa", "bb"]
    ensures SplitPathIntoParts("aa//bb") == ["aa", "bb"]
    ensures SplitPathIntoParts("a/b/") == ["a", "b"]
    ensures SplitPathIntoParts("a//b//") == ["a", "b"]
  {
    assert "a/b"[0..1] == "a" && "a/b"[2..3] == "b";
    assert "a//b"[0..1] == "a" && "a//b"[3..4] == "b";
    assert "aa/bb"[0..2] == "aa" && "aa/bb"[3..5] == "bb";
    assert "aa//bb"[0..2] == "aa" && "aa//bb"[4..6] == "bb";
    assert "a/b/"[0..1] == "a" && "a/b/"[2..3] == "b";
    assert "a//b//"[0..1] == "a" && "a//b//"[3..4] == "b";
  }

  lemma SplitVectorsMoreParts()
    ensures SplitPathIntoParts("a/b/c") == ["a", "b", "c"]
    ensures SplitPathIntoParts("a///b//c") == ["a", "b", "c"]
    ensures SplitPathIntoParts("/a/b") == ["a", "b"]
    ensures SplitPathIntoParts("//a/b") == ["a", "b"]
    ensures SplitPathIntoParts("/a/b/") == ["a", "b"]
  {
    assert "a/b/c"[0..1] == "a" && "a/b/c"[2..3] == "b" && "a/b/c"[4..5] == "c";
    assert "a///b//c"[0..1] == "a" && "a///b//c"[4..5] == "b" && "a///b//c"[7..8] == "c";
    assert "/a/b"[1..2] == "a" && "/a/b"[3..4] == "b";
    assert "//a/b"[2..3] == "a" && "//a/b"[4..5] == "b";
    assert "/a/b/"[1..2] == "a" && "/a/b/"[3..4] == "b";
  }

  lemma ToHexVectors()
    ensures ToHex([]) == ""
    ensures ToHex([0x00]) == "00"
    ensures ToHex([0x01]) == "01"
    ensures ToHex([0x0a]) == "0a"
    ensures ToHex([0xa0]) == "a0"
    ensures ToHex([0xab]) == "ab"
    ensures ToHex([0xf0]) == "f0"
    ensures ToHex([0x0f]) == "0f"
    ensures ToHex([0xff]) == "ff"
  {
  }

  lemma ToHexVectorsSeveralBytes()
    ensures ToHex([0x00, 0x00]) == "0000"
    ensures ToHex([0x01, 0x02]) == "0102"
    ensures ToHex([0xf0, 0x0f]) == "f00f"
    ensures ToHex([0xab, 0xcd]) == "abcd"
  {
    var z, o, f, a: seq<byte> := [0x00, 0x00], [0x01, 0x02], [0xf0, 0x0f], [0xab, 0xcd];
    assert z[1..] == [0x00] && o[1..] == [0x02] && f[1..] == [0x0f] && a[1..] == [0xcd];
  }

  lemma ToHexVectorsLonger()
    ensures ToHex([0x01, 0x02, 0x03]) == "010203"
    ensures ToHex([0x01, 0x02, 0x03, 0x04]) == "01020304"
  {
    ToHexVectorsSeveralBytes();
    assert ToHex([0x03]) == "03" && ToHex([0x04]) == "04";
    ToHexAppend([0x01, 0x02], [0x03]);
    ToHexAppend([0x01, 0x02, 0x03], [0x04]);
  }

  /** The FromHex vectors are the ToHex vectors read backwards. */
  lemma FromHexVectors()
    ensures FromHex("") == Ok([])
    ensures FromHex("00") == Ok([0x00])
    ensures FromHex("01") == Ok([0x01])
    ensures FromHex("0a") == Ok([0x0a])
    ensures FromHex("a0") == Ok([0xa0])
    ensures FromHex("ab") == Ok([0xab])
    ensures FromHex("f0") == Ok([0xf0])
    ensures FromHex("0f") == Ok([0x0f])
    ensures FromHex("ff") == Ok([0xff])
    ensures FromHex("0000") == Ok([0x00, 0x00])
    ensures FromHex("0102") == Ok([0x01, 0x02])
    ensures FromHex("f00f") == Ok([0xf0, 0x0f])
    ensures FromHex("abcd") == Ok([0xab, 0xcd])
    ensures FromHex("010203") == Ok([0x01, 0x02, 0x03])
    ensures FromHex("01020304") == Ok([0x01, 0x02, 0x03, 0x04])
  {
    ToHexVectors();
    ToHexVectorsSeveralBytes();
    ToHexVectorsLonger();
    FromHexToHex([]);
    FromHexToHex([0x00]);
    FromHexToHex([0x01]);
    FromHexToHex([0x0a]);
    FromHexToHex([0xa0]);
    FromHexToHex([0xab]);
    FromHexToHex([0xf0]);
    FromHexToHex([0x0f]);
    FromHexToHex([0xff]);
    FromHexToHex([0x00, 0x00]);
    FromHexToHex([0x01, 0x02]);
    FromHexToHex([0xf0, 0x0f]);
    FromHexToHex([0xab, 0xcd]);
    FromHexToHex([0x01, 0x02, 0x03]);
    FromHexToHex([0x01, 0x02, 0x03, 0x04]);
  }

  lemma FromHexRejectsOddLength()
    ensures FromHex("0") == Err(ArgumentException)
    ensures FromHex("000") == Err(ArgumentException)
  {
  }
}
