/** UTF-8, the encoding `Buffer.from(string)` and `encodeURIComponent` apply to
    a string before they look at its bytes. A Dafny `char` is a Unicode scalar
    value (surrogates excluded), so every string has exactly one encoding. */
module Utf8 {
  import opened Wrappers
  import opened Bytes

  /** The one- to four-byte encoding of a single scalar value. */
  function EncodeChar(c: char): (r: seq<Byte>)
    ensures 1 <= |r| <= 4
    ensures |r| == 1 <==> c as int < 0x80
    ensures |r| == 1 ==> r[0] == c as int
    ensures |r| > 1 ==> forall i :: 0 <= i < |r| ==> r[i] >= 0x80
  {
    var cp := c as int;
    if cp < 0x80 then
      [cp]
    else if cp < 0x800 then
      [0xC0 + cp / 64, 0x80 + cp % 64]
    else if cp < 0x10000 then
      [0xE0 + cp / 64 / 64, 0x80 + cp / 64 % 64, 0x80 + cp % 64]
    else
      [0xF0 + cp / 64 / 64 / 64, 0x80 + cp / 64 / 64 % 64, 0x80 + cp / 64 % 64, 0x80 + cp % 64]
  }

  /** The encoding of a whole string: the encodings of its characters, in order. */
  function Encode(s: string): (r: seq<Byte>)
    ensures |s| <= |r| <= 4 * |s|
  {
    if s == [] then [] else EncodeChar(s[0]) + Encode(s[1..])
  }

  predicate IsContinuation(b: Byte) {
    0x80 <= b < 0xC0
  }

  /** Reads the character at the front of `b`, rejecting truncated sequences,
      overlong forms, surrogates and values beyond U+10FFFF. Returns the
      character and the number of bytes it took. */
  function DecodeChar(b: seq<Byte>): (r: Option<(char, nat)>)
    ensures r.Some? ==> 1 <= r.value.1 <= |b| && r.value.1 <= 4
  {
    if b == [] then None
    else if b[0] < 0x80 then Some((b[0] as char, 1))
    else if b[0] < 0xC2 then None
    else if b[0] < 0xE0 then
      if |b| < 2 || !IsContinuation(b[1]) then None
      else Some((((b[0] as int - 0xC0) * 64 + (b[1] as int - 0x80)) as char, 2))
    else if b[0] < 0xF0 then
      if |b| < 3 || !IsContinuation(b[1]) || !IsContinuation(b[2]) then None
      else
        var cp := ((b[0] as int - 0xE0) * 64 + (b[1] as int - 0x80)) * 64 + (b[2] as int - 0x80);
        if cp < 0x800 || (0xD800 <= cp < 0xE000) then None else Some((cp as char, 3))
    else if b[0] < 0xF5 then
      if |b| < 4 || !IsContinuation(b[1]) || !IsContinuation(b[2]) || !IsContinuation(b[3]) then None
      else
        var cp := (((b[0] as int - 0xF0) * 64 + (b[1] as int - 0x80)) * 64 + (b[2] as int - 0x80)) * 64 + (b[3] as int - 0x80);
        if cp < 0x10000 || cp >= 0x110000 then None else Some((cp as char, 4))
    else None
  }

  /** Decodes a whole byte sequence; `None` when it is not well-formed UTF-8. */
  function Decode(b: seq<Byte>): Option<string>
    decreases |b|
  {
    if b == [] then Some([])
    else
      match DecodeChar(b)
      case None => None
      case Some((c, n)) =>
        match Decode(b[n..])
        case None => None
        case Some(s) => Some([c] + s)
  }

  /** Decoding the front of an encoded character gives back that character
      and consumes exactly its bytes, whatever follows. */
  lemma DecodeEncodedChar(c: char, rest: seq<Byte>)
    ensures DecodeChar(EncodeChar(c) + rest) == Some((c, |EncodeChar(c)|))
  {
    var cp := c as int;
    var b := EncodeChar(c) + rest;
    if cp < 0x80 {
    } else if cp < 0x800 {
      var b0, b1 := b[0] as int, b[1] as int;
      assert b0 == 0xC0 + cp / 64 && b1 == 0x80 + cp % 64;
      assert (b0 - 0xC0) * 64 + (b1 - 0x80) == cp;
    } else if cp < 0x10000 {
      var q := cp / 64;
      var b0, b1, b2 := b[0] as int, b[1] as int, b[2] as int;
      assert b0 == 0xE0 + q / 64 && b1 == 0x80 + q % 64 && b2 == 0x80 + cp % 64;
      assert (b0 - 0xE0) * 64 + (b1 - 0x80) == q;
      assert ((b0 - 0xE0) * 64 + (b1 - 0x80)) * 64 + (b2 - 0x80) == cp;
    } else {
      var q := cp / 64;
      var q2 := q / 64;
      var b0, b1, b2, b3 := b[0] as int, b[1] as int, b[2] as int, b[3] as int;
      assert b0 == 0xF0 + q2 / 64 && b1 == 0x80 + q2 % 64;
      assert b2 == 0x80 + q % 64 && b3 == 0x80 + cp % 64;
      assert (b0 - 0xF0) * 64 + (b1 - 0x80) == q2;
      assert ((b0 - 0xF0) * 64 + (b1 - 0x80)) * 64 + (b2 - 0x80) == q;
      assert (((b0 - 0xF0) * 64 + (b1 - 0x80)) * 64 + (b2 - 0x80)) * 64 + (b3 - 0x80) == cp;
    }
  }

  /** Every string survives a trip through its UTF-8 encoding. */
  lemma {:induction false} DecodeEncode(s: string)
    ensures Decode(Encode(s)) == Some(s)
  {
    if s != [] {
      var e := EncodeChar(s[0]);
      var rest := Encode(s[1..]);
      DecodeEncodedChar(s[0], rest);
      assert Encode(s) == e + rest;
      assert (e + rest)[|e|..] == rest;
      DecodeEncode(s[1..]);
      assert [s[0]] + s[1..] == s;
    }
  }

  /** Distinct strings have distinct encodings. */
  lemma EncodeInjective(s: string, t: string)
    requires Encode(s) == Encode(t)
    ensures s == t
  {
    DecodeEncode(s);
    DecodeEncode(t);
  }

  /** An ASCII string is encoded byte for byte. */
  lemma {:induction false} EncodeAscii(s: string)
    requires forall i :: 0 <= i < |s| ==> s[i] as int < 0x80
    ensures |Encode(s)| == |s|
    ensures forall i :: 0 <= i < |s| ==> Encode(s)[i] == s[i] as int
  {
    if s != [] {
      EncodeAscii(s[1..]);
    }
  }
}
