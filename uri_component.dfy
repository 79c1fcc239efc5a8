/**
 * `encodeURIComponent` (ECMA-262, 2022 edition, section 19.2.6.5, built on the
 * Encode operation of section 19.2.6.1.1) and, as its inverse,
 * `decodeURIComponent` (section 19.2.6.3, built on Decode, 19.2.6.1.2).
 *
 * Strings are sequences of Unicode scalar values, so the lone-surrogate error
 * of Encode cannot arise. Every character outside the unreserved set becomes
 * the UTF-8 bytes of its code point, each written as a percent-encoded
 * triplet `%XX` with upper-case hexadecimal digits (section 2.1 of RFC 3986).
 */
module UriComponent {
  import opened Wrappers

  type Byte = b: int | 0 <= b < 256

  /**
   * The characters `encodeURIComponent` leaves as they are: the ASCII letters
   * and digits and `- _ . ! ~ * ' ( )`.
   */
  predicate IsUnreserved(c: char) {
    ('A' <= c <= 'Z') || ('a' <= c <= 'z') || ('0' <= c <= '9') ||
    c == '-' || c == '_' || c == '.' || c == '!' || c == '~' ||
    c == '*' || c == '\'' || c == '(' || c == ')'
  }

  /** An upper-case hexadecimal digit, as the encoder writes them. */
  predicate IsUpperHex(c: char) {
    ('0' <= c <= '9') || ('A' <= c <= 'F')
  }

  /** The upper-case hexadecimal digit for `d`. */
  function HexDigit(d: int): (c: char)
    requires 0 <= d < 16
    ensures IsUpperHex(c)
  {
    if d < 10 then ('0' as int + d) as char else ('A' as int + d - 10) as char
  }

  /** The value of a hexadecimal digit of either case. */
  function HexValue(c: char): (r: Option<int>)
    ensures r.Some? ==> 0 <= r.value < 16
  {
    if '0' <= c <= '9' then Some(c as int - '0' as int)
    else if 'A' <= c <= 'F' then Some(c as int - 'A' as int + 10)
    else if 'a' <= c <= 'f' then Some(c as int - 'a' as int + 10)
    else None
  }

  /** The triplet `%XX` for one byte. */
  function Triplet(b: Byte): string {
    ['%', HexDigit(b / 16), HexDigit(b % 16)]
  }

  /** The triplets of a byte sequence, in order. */
  function PercentEncode(bs: seq<Byte>): (s: string)
    ensures |s| == 3 * |bs|
  {
    if bs == [] then [] else Triplet(bs[0]) + PercentEncode(bs[1..])
  }

  /** The number of bytes a lead byte announces; 0 when it cannot lead. */
  function Utf8Length(lead: Byte): nat {
    if lead < 0x80 then 1
    else if lead < 0xC0 then 0
    else if lead < 0xE0 then 2
    else if lead < 0xF0 then 3
    else if lead < 0xF8 then 4
    else 0
  }

  /**
   * The UTF-8 encoding of a scalar value (RFC 3629, section 3). The six-bit
   * groups are taken by repeated division by 64, the same bits as the usual
   * shifts and masks.
   */
  function Utf8Encode(c: char): (bs: seq<Byte>)
    ensures 1 <= |bs| <= 4
    ensures |bs| == (if c as int < 0x80 then 1 else if c as int < 0x800 then 2
                     else if c as int < 0x10000 then 3 else 4)
    ensures Utf8Length(bs[0]) == |bs|
    ensures forall k :: 1 <= k < |bs| ==> 0x80 <= bs[k] < 0xC0
  {
    var cp := c as int;
    var q1 := cp / 64;
    var q2 := q1 / 64;
    var q3 := q2 / 64;
    if cp < 0x80 then [cp]
    else if cp < 0x800 then [0xC0 + q1, 0x80 + cp % 64]
    else if cp < 0x10000 then [0xE0 + q2, 0x80 + q1 % 64, 0x80 + cp % 64]
    else [0xF0 + q3, 0x80 + q2 % 64, 0x80 + q1 % 64, 0x80 + cp % 64]
  }

  /**
   * What one character becomes: itself, or one to four triplets that start
   * with `%`.
   */
  function EncodeChar(c: char): (r: string)
    ensures 1 <= |r| <= 12
    ensures !IsUnreserved(c) ==> r[0] == '%' && |r| == 3 * |Utf8Encode(c)|
  {
    if IsUnreserved(c) then [c] else PercentEncode(Utf8Encode(c))
  }

  /** `encodeURIComponent(s)`: never shorter, at most twelve characters per character. */
  function Encode(s: string): (r: string)
    ensures |s| <= |r| <= 12 * |s|
  {
    if s == [] then [] else EncodeChar(s[0]) + Encode(s[1..])
  }

  /** The byte written as a triplet at position `i`, if there is one. */
  function ByteAt(s: string, i: nat): (r: Option<Byte>)
    ensures r.Some? ==> i + 3 <= |s|
  {
    if i + 3 <= |s| && s[i] == '%' then
      match (HexValue(s[i + 1]), HexValue(s[i + 2]))
      case (Some(hi), Some(lo)) => Some(16 * hi + lo)
      case _ => None
    else None
  }

  /** The six payload bits of the `k`-th triplet, if it holds a continuation byte. */
  function ContinuationAt(s: string, k: nat): (r: Option<int>)
    ensures r.Some? ==> 3 * k + 3 <= |s| && 0 <= r.value < 64
  {
    match ByteAt(s, 3 * k)
    case Some(b) => if 0x80 <= b < 0xC0 then Some(b as int - 0x80) else None
    case None => None
  }

  /**
   * Decodes the escape sequence at the start of `s` (which starts with `%`):
   * the character and the number of characters consumed, or None where
   * decodeURIComponent throws a URIError (bad hex, a byte that cannot lead,
   * a missing or bad continuation byte, an overlong form, a surrogate or a
   * value beyond U+10FFFF).
   */
  function DecodeEscape(s: string): (r: Option<(char, nat)>)
    ensures r.Some? ==> 3 <= r.value.1 <= |s|
  {
    match ByteAt(s, 0)
    case None => None
    case Some(lead) =>
      var n := Utf8Length(lead);
      if n == 1 then Some((lead as char, 3))
      else if n == 2 then
        match ContinuationAt(s, 1)
        case None => None
        case Some(c1) =>
          var cp := (lead as int - 0xC0) * 64 + c1;
          if 0x80 <= cp then Some((cp as char, 6)) else None
      else if n == 3 then
        match (ContinuationAt(s, 1), ContinuationAt(s, 2))
        case (Some(c1), Some(c2)) =>
          var cp := ((lead as int - 0xE0) * 64 + c1) * 64 + c2;
          if 0x800 <= cp && !(0xD800 <= cp < 0xE000) then Some((cp as char, 9)) else None
        case _ => None
      else if n == 4 then
        match (ContinuationAt(s, 1), ContinuationAt(s, 2), ContinuationAt(s, 3))
        case (Some(c1), Some(c2), Some(c3)) =>
          var cp := (((lead as int - 0xF0) * 64 + c1) * 64 + c2) * 64 + c3;
          if 0x10000 <= cp < 0x110000 then Some((cp as char, 12)) else None
        case _ => None
      else None
  }

  /** `decodeURIComponent(s)`; None where it throws a URIError. */
  function Decode(s: string): (r: Option<string>)
    decreases |s|
  {
    if s == [] then Some([])
    else if s[0] != '%' then
      match Decode(s[1..])
      case Some(t) => Some([s[0]] + t)
      case None => None
    else
      match DecodeEscape(s)
      case None => None
      case Some((c, k)) =>
        match Decode(s[k..])
        case Some(t) => Some([c] + t)
        case None => None
  }

  // ---------------------------------------------------------------------
  // Properties of the encoder
  // ---------------------------------------------------------------------

  /** A character is left unchanged exactly when it is unreserved. */
  lemma EncodeCharUnchanged(c: char)
    ensures EncodeChar(c) == [c] <==> IsUnreserved(c)
  {
  }

  /**
   * Well-formed encoder output: unreserved characters and triplets `%XX`
   * with two upper-case hexadecimal digits, nothing else.
   */
  ghost predicate WellFormed(s: string)
    decreases |s|
  {
    s == [] ||
    (IsUnreserved(s[0]) && WellFormed(s[1..])) ||
    (|s| >= 3 && s[0] == '%' && IsUpperHex(s[1]) && IsUpperHex(s[2]) && WellFormed(s[3..]))
  }

  lemma {:induction false} WellFormedAppend(a: string, b: string)
    requires WellFormed(a) && WellFormed(b)
    ensures WellFormed(a + b)
  {
    if a != [] {
      if IsUnreserved(a[0]) && WellFormed(a[1..]) {
        WellFormedAppend(a[1..], b);
        assert (a + b)[1..] == a[1..] + b;
      } else {
        WellFormedAppend(a[3..], b);
        assert (a + b)[3..] == a[3..] + b;
      }
    } else {
      assert a + b == b;
    }
  }

  lemma {:induction false} PercentEncodeWellFormed(bs: seq<Byte>)
    ensures WellFormed(PercentEncode(bs))
  {
    if bs != [] {
      PercentEncodeWellFormed(bs[1..]);
      var s := PercentEncode(bs);
      assert s[3..] == PercentEncode(bs[1..]);
    }
  }

  /** The encoder's output consists of unreserved characters and `%XX` triplets only. */
  lemma {:induction false} EncodeWellFormed(s: string)
    ensures WellFormed(Encode(s))
  {
    if s != [] {
      EncodeWellFormed(s[1..]);
      if IsUnreserved(s[0]) {
        assert WellFormed([s[0]]) by { assert [s[0]][1..] == []; }
      } else {
        PercentEncodeWellFormed(Utf8Encode(s[0]));
      }
      WellFormedAppend(EncodeChar(s[0]), Encode(s[1..]));
    }
  }

  /** Every character of well-formed output is unreserved or `%`. */
  lemma {:induction false} WellFormedAlphabet(s: string)
    requires WellFormed(s)
    ensures forall i :: 0 <= i < |s| ==> IsUnreserved(s[i]) || s[i] == '%'
  {
    if s != [] {
      if IsUnreserved(s[0]) && WellFormed(s[1..]) {
        WellFormedAlphabet(s[1..]);
        assert forall i :: 1 <= i < |s| ==> s[i] == s[1..][i - 1];
      } else {
        WellFormedAlphabet(s[3..]);
        assert forall i :: 3 <= i < |s| ==> s[i] == s[3..][i - 3];
      }
    }
  }

  /** The characters that give a url or its query string structure. */
  predicate IsDelimiter(c: char) {
    c == ':' || c == '/' || c == '?' || c == '#' || c == '&' || c == '=' || c == ' '
  }

  /** Encoded text never holds `:`, `/`, `?`, `#`, `&`, `=` or a space. */
  lemma EncodeHasNoDelimiters(s: string)
    ensures forall i :: 0 <= i < |Encode(s)| ==> !IsDelimiter(Encode(s)[i])
  {
    EncodeWellFormed(s);
    WellFormedAlphabet(Encode(s));
  }

  /** Encoding distributes over concatenation. */
  lemma {:induction false} EncodeAppend(a: string, b: string)
    ensures Encode(a + b) == Encode(a) + Encode(b)
  {
    if a != [] {
      assert (a + b)[0] == a[0] && (a + b)[1..] == a[1..] + b;
      EncodeAppend(a[1..], b);
    } else {
      assert a + b == b;
    }
  }

  // ---------------------------------------------------------------------
  // Round trip
  // ---------------------------------------------------------------------

  lemma HexRoundTrip(d: int)
    requires 0 <= d < 16
    ensures HexValue(HexDigit(d)) == Some(d)
  {
  }

  /** Reading a triplet after a prefix. */
  lemma ByteAtShift(p: string, t: string, i: nat)
    ensures ByteAt(p + t, |p| + i) == ByteAt(t, i)
  {
  }

  /** The `k`-th triplet of an encoded byte sequence reads back as its `k`-th byte. */
  lemma {:induction false} ByteAtPercentEncode(bs: seq<Byte>, rest: string, k: nat)
    requires k < |bs|
    ensures ByteAt(PercentEncode(bs) + rest, 3 * k) == Some(bs[k])
  {
    var t := Triplet(bs[0]);
    var tail := PercentEncode(bs[1..]) + rest;
    assert PercentEncode(bs) + rest == t + tail;
    if k == 0 {
      HexRoundTrip(bs[0] / 16);
      HexRoundTrip(bs[0] % 16);
      assert (t + tail)[0] == '%';
      assert (t + tail)[1] == HexDigit(bs[0] / 16);
      assert (t + tail)[2] == HexDigit(bs[0] % 16);
    } else {
      ByteAtPercentEncode(bs[1..], rest, k - 1);
      ByteAtShift(t, tail, 3 * (k - 1));
    }
  }

  /** The UTF-8 bytes of a scalar value put back together give the value. */
  lemma Utf8Reassemble(c: char)
    ensures var bs := Utf8Encode(c); var cp := c as int;
      (|bs| == 1 ==> bs[0] == cp) &&
      (|bs| == 2 ==> (bs[0] as int - 0xC0) * 64 + (bs[1] as int - 0x80) == cp) &&
      (|bs| == 3 ==>
        ((bs[0] as int - 0xE0) * 64 + (bs[1] as int - 0x80)) * 64 + (bs[2] as int - 0x80) == cp) &&
      (|bs| == 4 ==>
        (((bs[0] as int - 0xF0) * 64 + (bs[1] as int - 0x80)) * 64 + (bs[2] as int - 0x80)) * 64
          + (bs[3] as int - 0x80) == cp)
  {
  }

  /** An escaped character decodes back to itself, consuming exactly its triplets. */
  lemma EscapeRoundTrip(c: char, rest: string)
    requires !IsUnreserved(c)
    ensures DecodeEscape(EncodeChar(c) + rest) == Some((c, |EncodeChar(c)|))
  {
    var bs := Utf8Encode(c);
    var s := PercentEncode(bs) + rest;
    Utf8Reassemble(c);
    ByteAtPercentEncode(bs, rest, 0);
    if |bs| == 1 {
      assert DecodeEscape(s) == Some((c, 3));
    } else {
      ByteAtPercentEncode(bs, rest, 1);
      assert ContinuationAt(s, 1) == Some(bs[1] as int - 0x80);
      if |bs| == 2 {
        assert DecodeEscape(s) == Some((c, 6));
      } else {
        ByteAtPercentEncode(bs, rest, 2);
        assert ContinuationAt(s, 2) == Some(bs[2] as int - 0x80);
        if |bs| == 3 {
          assert DecodeEscape(s) == Some((c, 9));
        } else {
          ByteAtPercentEncode(bs, rest, 3);
          assert ContinuationAt(s, 3) == Some(bs[3] as int - 0x80);
          assert DecodeEscape(s) == Some((c, 12));
        }
      }
    }
  }

  /** `decodeURIComponent(encodeURIComponent(s)) == s`. */
  lemma {:induction false} DecodeEncode(s: string)
    ensures Decode(Encode(s)) == Some(s)
  {
    if s != [] {
      var e := EncodeChar(s[0]);
      var t := Encode(s[1..]);
      assert Encode(s) == e + t;
      DecodeEncode(s[1..]);
      if IsUnreserved(s[0]) {
        assert e == [s[0]];
        assert (e + t)[0] == s[0] && s[0] != '%';
        assert (e + t)[1..] == t;
        assert [s[0]] + s[1..] == s;
      } else {
        EscapeRoundTrip(s[0], t);
        assert (e + t)[0] == '%';
        assert (e + t)[|e|..] == t;
        assert [s[0]] + s[1..] == s;
      }
    }
  }

  /** Different strings never encode alike. */
  lemma EncodeInjective(a: string, b: string)
    requires Encode(a) == Encode(b)
    ensures a == b
  {
    DecodeEncode(a);
    DecodeEncode(b);
  }
}
