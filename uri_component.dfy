/** `encodeURIComponent` as ECMAScript defines it: a character of the
    unreserved set `A-Z a-z 0-9 - _ . ! ~ * ' ( )` stands for itself; every
    other character is replaced by its UTF-8 octets, each written `%XY` with
    upper-case hexadecimal digits (the percent-encoding of section 2.1 of
    RFC 3986). */
module UriComponent {
  import opened Wrappers
  import opened Bytes
  import Utf8

  predicate IsUnreserved(c: char) {
    || 'A' <= c <= 'Z'
    || 'a' <= c <= 'z'
    || '0' <= c <= '9'
    || c == '-' || c == '_' || c == '.' || c == '!' || c == '~'
    || c == '*' || c == '\'' || c == '(' || c == ')'
  }

  predicate IsUpperHexDigit(c: char) {
    '0' <= c <= '9' || 'A' <= c <= 'F'
  }

  function HexDigit(v: nat): (c: char)
    requires v < 16
    ensures IsUpperHexDigit(c)
  {
    if v < 10 then ('0' as int + v) as char else ('A' as int + (v - 10)) as char
  }

  /** The value of a hexadecimal digit, either case. */
  function HexValue(c: char): (r: Option<nat>)
    ensures r.Some? ==> r.value < 16
  {
    if '0' <= c <= '9' then Some(c as int - '0' as int)
    else if 'A' <= c <= 'F' then Some(c as int - 'A' as int + 10)
    else if 'a' <= c <= 'f' then Some(c as int - 'a' as int + 10)
    else None
  }

  /** The three characters `%XY` for one octet. */
  function Escape(b: Byte): string {
    ['%', HexDigit(b / 16), HexDigit(b % 16)]
  }

  function EscapeAll(bs: seq<Byte>): (r: string)
    ensures |r| == 3 * |bs|
  {
    if bs == [] then [] else Escape(bs[0]) + EscapeAll(bs[1..])
  }

  /** An escaped octet sequence is made of `%` and upper-case hexadecimal digits. */
  lemma {:induction false} EscapeAllChars(bs: seq<Byte>)
    ensures forall i :: 0 <= i < |EscapeAll(bs)| ==> EscapeAll(bs)[i] == '%' || IsUpperHexDigit(EscapeAll(bs)[i])
  {
    if bs != [] {
      EscapeAllChars(bs[1..]);
    }
  }

  /** A character of the output is an unreserved character, a `%` or an
      upper-case hexadecimal digit; in particular it is never a `/`. */
  predicate IsEncodedChar(c: char) {
    IsUnreserved(c) || c == '%' || IsUpperHexDigit(c)
  }

  function EncodeUriComponent(s: string): (r: string)
    ensures forall i :: 0 <= i < |r| ==> IsEncodedChar(r[i])
    ensures |s| <= |r| <= 12 * |s|
  {
    if s == [] then []
    else if IsUnreserved(s[0]) then [s[0]] + EncodeUriComponent(s[1..])
    else
      EscapeAllChars(Utf8.EncodeChar(s[0]));
      EscapeAll(Utf8.EncodeChar(s[0])) + EncodeUriComponent(s[1..])
  }

  /** The octets a percent-encoded string stands for: `%XY` (either case) is
      one octet; any other character stands for its own UTF-8 octets. A `%`
      not followed by two hexadecimal digits is malformed. */
  function PercentDecode(t: string): Option<seq<Byte>>
    decreases |t|
  {
    if t == [] then Some([])
    else if t[0] == '%' then
      if |t| < 3 || HexValue(t[1]).None? || HexValue(t[2]).None? then None
      else
        match PercentDecode(t[3..])
        case None => None
        case Some(rest) => Some([HexValue(t[1]).value * 16 + HexValue(t[2]).value] + rest)
    else
      match PercentDecode(t[1..])
      case None => None
      case Some(rest) => Some(Utf8.EncodeChar(t[0]) + rest)
  }

  /** `decodeURIComponent`: percent-decode, then read the octets as UTF-8
      (`None` where JavaScript throws a `URIError`). */
  function DecodeUriComponent(t: string): Option<string> {
    match PercentDecode(t)
    case None => None
    case Some(bs) => Utf8.Decode(bs)
  }

  lemma HexValueOfDigit(v: nat)
    requires v < 16
    ensures HexValue(HexDigit(v)) == Some(v)
  {
  }

  lemma PercentDecodeEscape(b: Byte, u: string)
    requires PercentDecode(u).Some?
    ensures PercentDecode(Escape(b) + u) == Some([b] + PercentDecode(u).value)
  {
    var w := Escape(b) + u;
    assert w[0] == '%' && w[1] == HexDigit(b / 16) && w[2] == HexDigit(b % 16);
    assert w[3..] == u;
    HexValueOfDigit(b / 16);
    HexValueOfDigit(b % 16);
  }

  /** Octets are escaped one at a time from the front. */
  lemma EscapeAllCons(bs: seq<Byte>, t: string)
    requires bs != []
    ensures EscapeAll(bs) + t == Escape(bs[0]) + (EscapeAll(bs[1..]) + t)
  {
  }

  lemma {:induction false} PercentDecodeEscapeAll(bs: seq<Byte>, t: string)
    requires PercentDecode(t).Some?
    ensures PercentDecode(EscapeAll(bs) + t) == Some(bs + PercentDecode(t).value)
    decreases |bs|
  {
    var d := PercentDecode(t).value;
    if bs == [] {
      assert EscapeAll(bs) + t == t;
      assert bs + d == d;
    } else {
      var u := EscapeAll(bs[1..]) + t;
      PercentDecodeEscapeAll(bs[1..], t);
      EscapeAllCons(bs, t);
      PercentDecodeEscape(bs[0], u);
      assert [bs[0]] + (bs[1..] + d) == bs + d;
    }
  }

  /** Percent-decoding the output gives back the UTF-8 octets of the input. */
  lemma {:induction false} PercentDecodeEncode(s: string)
    ensures PercentDecode(EncodeUriComponent(s)) == Some(Utf8.Encode(s))
  {
    if s != [] {
      var rest := EncodeUriComponent(s[1..]);
      PercentDecodeEncode(s[1..]);
      if IsUnreserved(s[0]) {
        assert ([s[0]] + rest)[1..] == rest;
      } else {
        PercentDecodeEscapeAll(Utf8.EncodeChar(s[0]), rest);
      }
    }
  }

  /** `decodeURIComponent(encodeURIComponent(s)) == s` for every string. */
  lemma DecodeEncodeUriComponent(s: string)
    ensures DecodeUriComponent(EncodeUriComponent(s)) == Some(s)
  {
    PercentDecodeEncode(s);
    Utf8.DecodeEncode(s);
  }

  /** A string made only of unreserved characters is left as it is. */
  lemma {:induction false} EncodeUnreserved(s: string)
    requires forall i :: 0 <= i < |s| ==> IsUnreserved(s[i])
    ensures EncodeUriComponent(s) == s
  {
    if s != [] {
      EncodeUnreserved(s[1..]);
      assert [s[0]] + s[1..] == s;
    }
  }

  /** Characters are encoded one at a time, so encoding distributes over
      concatenation. */
  lemma {:induction false} EncodeAppend(s: string, t: string)
    ensures EncodeUriComponent(s + t) == EncodeUriComponent(s) + EncodeUriComponent(t)
  {
    if s == [] {
      assert s + t == t;
    } else {
      assert (s + t)[0] == s[0] && (s + t)[1..] == s[1..] + t;
      EncodeAppend(s[1..], t);
    }
  }
}
