/**
 * The hex encoding both rqlite-backed stores apply to values before putting
 * them into SQL text: `str2hex` renders each byte as two lowercase hex digits,
 * and `hex2str` reads the text back two characters at a time with
 * `istream >> std::hex`. RqliteEpochStore.cpp and RqliteVersionedConfigStore.cpp
 * carry identical copies of the pair; this module is both.
 */
module HexCodec {

  /** One byte of a `std::string`, as an unsigned char. */
  type byte = x: int | 0 <= x < 256

  type Bytes = seq<byte>

  predicate IsLowerHexDigit(c: char)
  {
    '0' <= c <= '9' || 'a' <= c <= 'f'
  }

  /** A digit `std::hex` input accepts, in either case. */
  predicate IsHexDigit(c: char)
  {
    '0' <= c <= '9' || 'a' <= c <= 'f' || 'A' <= c <= 'F'
  }

  /** The characters `>>` skips before a number in the classic locale. */
  predicate IsSpace(c: char)
  {
    c == ' ' || c == '\t' || c == '\n' || c == '\r' || c == '\U{B}' || c == '\U{C}'
  }

  function HexDigitValue(c: char): (n: nat)
    requires IsHexDigit(c)
    ensures n < 16
  {
    if '0' <= c <= '9' then c as int - '0' as int
    else if 'a' <= c <= 'f' then c as int - 'a' as int + 10
    else c as int - 'A' as int + 10
  }

  function LowerHexDigit(n: nat): (c: char)
    requires n < 16
    ensures IsLowerHexDigit(c) && HexDigitValue(c) == n
  {
    if n < 10 then ((('0' as int) + n) as char) else ((('a' as int) + n - 10) as char)
  }

  /** `setw(2)` with fill '0' of one byte in `std::hex`. */
  function HexPair(b: byte): (s: string)
    ensures |s| == 2 && IsLowerHexDigit(s[0]) && IsLowerHexDigit(s[1])
  {
    [LowerHexDigit(b / 16), LowerHexDigit(b % 16)]
  }

  /** What `str2hex` returns. */
  function ToHex(v: Bytes): (h: string)
  {
    if v == [] then [] else HexPair(v[0]) + ToHex(v[1..])
  }

  /**
   * The byte `static_cast<char>` makes of what `iss >> std::hex >> byte` reads
   * from one chunk of at most two characters. Leading white space and a sign
   * are accepted; digits stop at the first non-digit; a chunk with no digit
   * fails, which leaves 0 in `byte`. A "0x" chunk reads as 0 either way.
   */
  function ChunkValue(chunk: string): (b: byte)
    requires |chunk| <= 2
  {
    if chunk == [] then 0
    else if IsHexDigit(chunk[0]) then
      if |chunk| == 2 && IsHexDigit(chunk[1]) then
        16 * HexDigitValue(chunk[0]) + HexDigitValue(chunk[1])
      else HexDigitValue(chunk[0])
    else if |chunk| == 2 && IsHexDigit(chunk[1]) then
      if IsSpace(chunk[0]) || chunk[0] == '+' then HexDigitValue(chunk[1])
      else if chunk[0] == '-' then (256 - HexDigitValue(chunk[1])) % 256
      else 0
    else 0
  }

  /** What `hex2str` returns: one byte per chunk of two characters (the last may be one). */
  function FromHex(h: string): (v: Bytes)
    ensures |v| == (|h| + 1) / 2
  {
    if h == [] then []
    else if |h| == 1 then [ChunkValue(h)]
    else [ChunkValue(h[..2])] + FromHex(h[2..])
  }

  /** The text `ToHex` produces: an even number of lowercase hex digits. */
  predicate IsCanonicalHex(h: string)
  {
    |h| % 2 == 0 && forall i :: 0 <= i < |h| ==> IsLowerHexDigit(h[i])
  }

  /** str2hex. */
  method Str2Hex(value: Bytes) returns (hex: string)
    ensures hex == ToHex(value)
  {
    hex := [];
    var i := 0;
    while i < |value|
      invariant 0 <= i <= |value|
      invariant hex + ToHex(value[i..]) == ToHex(value)
    {
      var pair, rest := HexPair(value[i]), ToHex(value[i + 1..]);
      assert value[i..][1..] == value[i + 1..];
      assert ToHex(value[i..]) == pair + rest;
      assert hex + (pair + rest) == (hex + pair) + rest;
      hex := hex + pair;
      i := i + 1;
    }
  }

  /** hex2str. */
  method Hex2Str(hex: string) returns (res: Bytes)
    ensures res == FromHex(hex)
  {
    res := [];
    var i := 0;
    while i < |hex|
      invariant 0 <= i <= |hex| + 1
      invariant res + FromHex(Suffix(hex, i)) == FromHex(hex)
    {
      var b := ChunkValue(Substr(hex, i, 2));
      FromHexStep(hex, i);
      res := res + [b];
      i := i + 2;
    }
  }

  /** `s.substr(pos, n)`: at most `n` characters from `pos` on. */
  function Substr(s: string, pos: nat, n: nat): (r: string)
    requires pos <= |s|
    ensures |r| <= n
  {
    if pos + n <= |s| then s[pos..pos + n] else s[pos..]
  }

  /** The text from index `i` on; empty once `i` is past the end. */
  function Suffix(h: string, i: nat): string
  {
    if i <= |h| then h[i..] else []
  }

  lemma FromHexStep(h: string, i: nat)
    requires i < |h|
    ensures FromHex(Suffix(h, i)) == [ChunkValue(Substr(h, i, 2))] + FromHex(Suffix(h, i + 2))
  {
    var t := h[i..];
    if |t| >= 2 {
      assert t[..2] == h[i..i + 2] && t[2..] == h[i + 2..];
    }
  }

  lemma {:induction false} ToHexShape(v: Bytes)
    ensures |ToHex(v)| == 2 * |v|
    ensures IsCanonicalHex(ToHex(v))
  {
    if v != [] {
      ToHexShape(v[1..]);
      var h := ToHex(v);
      assert h == HexPair(v[0]) + ToHex(v[1..]);
      forall i | 0 <= i < |h| ensures IsLowerHexDigit(h[i]) {
        if i >= 2 { assert h[i] == ToHex(v[1..])[i - 2]; }
      }
    }
  }

  lemma PairRoundTrip(b: byte)
    ensures ChunkValue(HexPair(b)) == b
  {
  }

  /** hex2str undoes str2hex: the stores read back exactly the bytes they wrote. */
  lemma {:induction false} FromHexToHex(v: Bytes)
    ensures FromHex(ToHex(v)) == v
  {
    if v != [] {
      ToHexShape(v[1..]);
      var h := ToHex(v);
      assert h[..2] == HexPair(v[0]) && h[2..] == ToHex(v[1..]);
      PairRoundTrip(v[0]);
      FromHexToHex(v[1..]);
    }
  }

  /** Canonical text of two or more characters: two digits, then canonical text. */
  lemma CanonicalTail(h: string)
    requires IsCanonicalHex(h) && h != []
    ensures |h| >= 2 && IsLowerHexDigit(h[0]) && IsLowerHexDigit(h[1]) && IsCanonicalHex(h[2..])
  {
    forall i | 0 <= i < |h[2..]| ensures IsLowerHexDigit(h[2..][i]) {
      assert h[2..][i] == h[i + 2];
    }
  }

  /** str2hex undoes hex2str on canonical text, so the encoding is a bijection there. */
  lemma {:induction false} ToHexFromHex(h: string)
    requires IsCanonicalHex(h)
    ensures ToHex(FromHex(h)) == h
    decreases |h|
  {
    if h != [] {
      CanonicalTail(h);
      ToHexFromHex(h[2..]);
      var v := FromHex(h);
      assert h[..2] == [h[0], h[1]];
      assert v == [ChunkValue([h[0], h[1]])] + FromHex(h[2..]);
      assert v[1..] == FromHex(h[2..]);
      DigitsRoundTrip(h[0], h[1]);
      assert ToHex(v) == HexPair(v[0]) + ToHex(v[1..]);
      assert h == [h[0], h[1]] + h[2..];
    }
  }

  lemma DigitRoundTrip(c: char)
    requires IsLowerHexDigit(c)
    ensures LowerHexDigit(HexDigitValue(c)) == c
  {
  }

  /** Two lowercase digits read as one byte render back as the same two digits. */
  lemma DigitsRoundTrip(c0: char, c1: char)
    requires IsLowerHexDigit(c0) && IsLowerHexDigit(c1)
    ensures HexPair(ChunkValue([c0, c1])) == [c0, c1]
  {
    var d0, d1 := HexDigitValue(c0), HexDigitValue(c1);
    var b := 16 * d0 + d1;
    assert ChunkValue([c0, c1]) == b;
    assert b / 16 == d0 && b % 16 == d1;
    DigitRoundTrip(c0);
    DigitRoundTrip(c1);
  }

  /** Distinct values have distinct encodings, so equal hex columns mean equal values. */
  lemma ToHexInjective(v: Bytes, w: Bytes)
    requires ToHex(v) == ToHex(w)
    ensures v == w
  {
    FromHexToHex(v);
    FromHexToHex(w);
  }
}
