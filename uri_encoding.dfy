/**
 * ECMAScript `encodeURIComponent` and `decodeURIComponent`: percent-encoding of the UTF-8
 * bytes of every character outside the unreserved set of section 2.3 of RFC 3986 (plus
 * `!`, `*`, `'`, `(` and `)`), with the `%XX` triplets of section 2.1 of RFC 3986.
 */
module UriEncoding {
  import opened Wrappers

  /** Characters `encodeURIComponent` leaves as they are. */
  predicate IsUnescaped(c: char)
  {
    ('A' <= c <= 'Z') || ('a' <= c <= 'z') || ('0' <= c <= '9')
    || c == '-' || c == '_' || c == '.' || c == '!' || c == '~' || c == '*' || c == '\'' || c == '(' || c == ')'
  }

  predicate IsUpperHexDigit(c: char)
  {
    ('0' <= c <= '9') || ('A' <= c <= 'F')
  }

  /** The upper-case hexadecimal digit of a value below 16. */
  function HexDigit(v: int): (c: char)
    requires 0 <= v < 16
    ensures IsUpperHexDigit(c)
  {
    if v < 10 then ('0' as int + v) as char else ('A' as int + v - 10) as char
  }

  /** The value of a hexadecimal digit of either case. */
  function HexValue(c: char): Option<int>
  {
    if '0' <= c <= '9' then Some(c as int - '0' as int)
    else if 'A' <= c <= 'F' then Some(c as int - 'A' as int + 10)
    else if 'a' <= c <= 'f' then Some(c as int - 'a' as int + 10)
    else None
  }

  lemma HexRoundTrip(v: int)
    requires 0 <= v < 16
    ensures HexValue(HexDigit(v)) == Some(v)
  {
  }

  /** The UTF-8 bytes of a Unicode scalar value. */
  function Utf8(c: char): (bytes: seq<int>)
    ensures 1 <= |bytes| <= 4
    ensures forall k :: 0 <= k < |bytes| ==> 0 <= bytes[k] < 256
  {
    var cp := c as int;
    if cp < 0x80 then [cp]
    else if cp < 0x800 then [0xC0 + cp / 64, 0x80 + cp % 64]
    else if cp < 0x10000 then [0xE0 + cp / 4096, 0x80 + (cp / 64) % 64, 0x80 + cp % 64]
    else [0xF0 + cp / 262144, 0x80 + (cp / 4096) % 64, 0x80 + (cp / 64) % 64, 0x80 + cp % 64]
  }

  /** `%XX` for each byte. */
  function PercentEncode(bytes: seq<int>): (r: string)
    requires forall k :: 0 <= k < |bytes| ==> 0 <= bytes[k] < 256
    ensures |r| == 3 * |bytes|
  {
    if bytes == [] then []
    else ['%', HexDigit(bytes[0] / 16), HexDigit(bytes[0] % 16)] + PercentEncode(bytes[1..])
  }

  function EncodeChar(c: char): string
  {
    if IsUnescaped(c) then [c] else PercentEncode(Utf8(c))
  }

  /** `encodeURIComponent(s)`. */
  function EncodeURIComponent(s: string): string
    decreases |s|
  {
    if s == [] then [] else EncodeChar(s[0]) + EncodeURIComponent(s[1..])
  }

  /** The byte written as `%XX` at index `i`, if there is one. */
  function ByteAt(s: string, i: nat): (b: Option<int>)
    ensures b.Some? ==> i + 3 <= |s| && 0 <= b.value < 256
  {
    if i + 3 <= |s| && s[i] == '%' && HexValue(s[i + 1]).Some? && HexValue(s[i + 2]).Some?
    then Some(16 * HexValue(s[i + 1]).value + HexValue(s[i + 2]).value)
    else None
  }

  predicate IsContinuation(b: Option<int>)
  {
    b.Some? && 0x80 <= b.value < 0xC0
  }

  /** The number of bytes a UTF-8 sequence starting with `b` has; 0 for a byte that cannot start one. */
  function SequenceLength(b: int): nat
  {
    if b < 0x80 then 1
    else if 0xC0 <= b < 0xE0 then 2
    else if 0xE0 <= b < 0xF0 then 3
    else if 0xF0 <= b < 0xF8 then 4
    else 0
  }

  predicate IsScalarValue(cp: int)
  {
    (0 <= cp < 0xD800) || (0xE000 <= cp < 0x110000)
  }

  /**
   * Decodes the escape sequence at the start of `s` into one character and the number of
   * characters it used; `None` where `decodeURIComponent` throws a URIError.
   */
  function DecodeEscape(s: string): (r: Option<(char, nat)>)
    requires s != [] && s[0] == '%'
    ensures r.Some? ==> 3 <= r.value.1 <= |s|
  {
    var b0 := ByteAt(s, 0);
    if b0.None? then None
    else
      var b := b0.value;
      var n := SequenceLength(b);
      if n == 1 then Some((b as char, 3))
      else if n == 2 then
        var b1 := ByteAt(s, 3);
        if !IsContinuation(b1) then None
        else
          var cp := (b - 0xC0) * 64 + (b1.value - 0x80);
          if cp < 0x80 then None else Some((cp as char, 6))
      else if n == 3 then
        var b1, b2 := ByteAt(s, 3), ByteAt(s, 6);
        if !IsContinuation(b1) || !IsContinuation(b2) then None
        else
          var cp := (b - 0xE0) * 4096 + (b1.value - 0x80) * 64 + (b2.value - 0x80);
          if cp < 0x800 || !IsScalarValue(cp) then None else Some((cp as char, 9))
      else if n == 4 then
        var b1, b2, b3 := ByteAt(s, 3), ByteAt(s, 6), ByteAt(s, 9);
        if !IsContinuation(b1) || !IsContinuation(b2) || !IsContinuation(b3) then None
        else
          var cp := (b - 0xF0) * 262144 + (b1.value - 0x80) * 4096 + (b2.value - 0x80) * 64 + (b3.value - 0x80);
          if cp < 0x10000 || !IsScalarValue(cp) then None else Some((cp as char, 12))
      else None
  }

  /** `decodeURIComponent(s)`; `None` where it throws a URIError. */
  function DecodeURIComponent(s: string): Option<string>
    decreases |s|
  {
    if s == [] then Some([])
    else if s[0] != '%' then
      match DecodeURIComponent(s[1..])
      case None => None
      case Some(rest) => Some([s[0]] + rest)
    else
      match DecodeEscape(s)
      case None => None
      case Some((c, used)) =>
        match DecodeURIComponent(s[used..])
        case None => None
        case Some(rest) => Some([c] + rest)
  }

  // ---------------------------------------------------------------------------------------

  /** Only unescaped characters, `%` and upper-case hexadecimal digits occur in the output. */
  predicate IsEncoded(r: string)
  {
    forall k :: 0 <= k < |r| ==> IsUnescaped(r[k]) || r[k] == '%' || IsUpperHexDigit(r[k])
  }

  lemma {:induction false} PercentEncodeAlphabet(bytes: seq<int>)
    requires forall k :: 0 <= k < |bytes| ==> 0 <= bytes[k] < 256
    ensures IsEncoded(PercentEncode(bytes))
    decreases |bytes|
  {
    if bytes != [] {
      PercentEncodeAlphabet(bytes[1..]);
    }
  }

  lemma {:induction false} EncodeAlphabet(s: string)
    ensures IsEncoded(EncodeURIComponent(s))
    decreases |s|
  {
    if s != [] {
      EncodeAlphabet(s[1..]);
      if !IsUnescaped(s[0]) {
        PercentEncodeAlphabet(Utf8(s[0]));
      }
    }
  }

  /** Text made only of unescaped characters is encoded as itself. */
  lemma {:induction false} EncodeUnescaped(s: string)
    requires forall k :: 0 <= k < |s| ==> IsUnescaped(s[k])
    ensures EncodeURIComponent(s) == s
    decreases |s|
  {
    if s != [] {
      EncodeUnescaped(s[1..]);
    }
  }

  lemma {:induction false} EncodeAppend(a: string, b: string)
    ensures EncodeURIComponent(a + b) == EncodeURIComponent(a) + EncodeURIComponent(b)
    decreases |a|
  {
    if a == [] {
      assert a + b == b;
    } else {
      assert (a + b)[1..] == a[1..] + b;
      EncodeAppend(a[1..], b);
    }
  }

  lemma ByteAtPercent(bytes: seq<int>, rest: string, j: nat)
    requires forall k :: 0 <= k < |bytes| ==> 0 <= bytes[k] < 256
    requires j < |bytes|
    ensures ByteAt(PercentEncode(bytes) + rest, 3 * j) == Some(bytes[j])
    decreases j, 1
  {
    if j == 0 {
      HexRoundTrip(bytes[0] / 16);
      HexRoundTrip(bytes[0] % 16);
    } else {
      ByteAtPercentLater(bytes, rest, j);
    }
  }

  lemma ByteAtPercentLater(bytes: seq<int>, rest: string, j: nat)
    requires forall k :: 0 <= k < |bytes| ==> 0 <= bytes[k] < 256
    requires 0 < j < |bytes|
    ensures ByteAt(PercentEncode(bytes) + rest, 3 * j) == Some(bytes[j])
    decreases j, 0
  {
    var s := PercentEncode(bytes) + rest;
    ByteAtPercent(bytes[1..], rest, j - 1);
    assert s[3..] == PercentEncode(bytes[1..]) + rest;
    ByteAtShift(s, 3 * j);
  }

  /** Reading a byte does not depend on the three characters in front. */
  lemma ByteAtShift(s: string, i: nat)
    requires 3 <= i && 3 <= |s|
    ensures ByteAt(s, i) == ByteAt(s[3..], i - 3)
  {
    if i + 3 <= |s| {
      assert s[i] == s[3..][i - 3] && s[i + 1] == s[3..][i - 2] && s[i + 2] == s[3..][i - 1];
    }
  }

  lemma Utf8Decodes(c: char, rest: string)
    requires !IsUnescaped(c)
    ensures var e := PercentEncode(Utf8(c));
            && e != [] && e[0] == '%'
            && DecodeEscape(e + rest) == Some((c, |e|))
  {
    var bytes := Utf8(c);
    var s := PercentEncode(bytes) + rest;
    forall j | 0 <= j < |bytes| ensures ByteAt(s, 3 * j) == Some(bytes[j]) {
      ByteAtPercent(bytes, rest, j);
    }
    var cp := c as int;
    if cp < 0x80 {
    } else if cp < 0x800 {
      TwoByteDecodes(c, s);
    } else if cp < 0x10000 {
      ThreeByteDecodes(c, s);
    } else {
      FourByteDecodes(c, s);
    }
  }

  lemma TwoByteDecodes(c: char, s: string)
    requires 0x80 <= c as int < 0x800
    requires |s| >= 6 && s[0] == '%'
    requires ByteAt(s, 0) == Some(Utf8(c)[0]) && ByteAt(s, 3) == Some(Utf8(c)[1])
    ensures DecodeEscape(s) == Some((c, 6))
  {
  }

  lemma ThreeByteDecodes(c: char, s: string)
    requires 0x800 <= c as int < 0x10000
    requires |s| >= 9 && s[0] == '%'
    requires ByteAt(s, 0) == Some(Utf8(c)[0]) && ByteAt(s, 3) == Some(Utf8(c)[1])
    requires ByteAt(s, 6) == Some(Utf8(c)[2])
    ensures DecodeEscape(s) == Some((c, 9))
  {
    ThreeByteValue(c as int);
  }

  lemma FourByteDecodes(c: char, s: string)
    requires 0x10000 <= c as int
    requires |s| >= 12 && s[0] == '%'
    requires ByteAt(s, 0) == Some(Utf8(c)[0]) && ByteAt(s, 3) == Some(Utf8(c)[1])
    requires ByteAt(s, 6) == Some(Utf8(c)[2]) && ByteAt(s, 9) == Some(Utf8(c)[3])
    ensures DecodeEscape(s) == Some((c, 12))
  {
    FourByteValue(c as int);
  }

  lemma ThreeByteValue(cp: int)
    requires 0x800 <= cp < 0x10000
    ensures (cp / 4096) * 4096 + ((cp / 64) % 64) * 64 + cp % 64 == cp
    ensures cp / 4096 < 16
  {
  }

  lemma FourByteValue(cp: int)
    requires 0x10000 <= cp < 0x110000
    ensures (cp / 262144) * 262144 + ((cp / 4096) % 64) * 4096 + ((cp / 64) % 64) * 64 + cp % 64 == cp
    ensures cp / 262144 < 8
  {
    var q := cp / 64;
    assert cp == q * 64 + cp % 64;
    assert q == (q / 64) * 64 + q % 64;
    assert cp / 4096 == q / 64;
    assert (cp / 4096) == (cp / 262144) * 64 + (cp / 4096) % 64;
  }

  /** Decoding undoes encoding. */
  lemma {:induction false} DecodeEncode(s: string)
    ensures DecodeURIComponent(EncodeURIComponent(s)) == Some(s)
    decreases |s|
  {
    if s != [] {
      DecodeEncode(s[1..]);
      if IsUnescaped(s[0]) {
        DecodeEncodeUnescaped(s[0], s[1..]);
      } else {
        DecodeEncodeEscaped(s[0], s[1..]);
      }
      assert [s[0]] + s[1..] == s;
    }
  }

  /** A character written as itself is read back as itself. */
  lemma DecodeEncodeUnescaped(c: char, t: string)
    requires IsUnescaped(c) && DecodeURIComponent(EncodeURIComponent(t)) == Some(t)
    ensures DecodeURIComponent(EncodeURIComponent([c] + t)) == Some([c] + t)
  {
    var e := EncodeChar(c);
    var rest := EncodeURIComponent(t);
    assert ([c] + t)[1..] == t;
    assert EncodeURIComponent([c] + t) == e + rest;
    assert (e + rest)[0] == c && c != '%';
    assert (e + rest)[1..] == rest;
  }

  /** A character written as `%XX` escapes is read back from them. */
  lemma DecodeEncodeEscaped(c: char, t: string)
    requires !IsUnescaped(c) && DecodeURIComponent(EncodeURIComponent(t)) == Some(t)
    ensures DecodeURIComponent(EncodeURIComponent([c] + t)) == Some([c] + t)
  {
    var e := EncodeChar(c);
    var rest := EncodeURIComponent(t);
    assert ([c] + t)[1..] == t;
    assert EncodeURIComponent([c] + t) == e + rest;
    Utf8Decodes(c, rest);
    assert (e + rest)[|e|..] == rest;
  }
}
