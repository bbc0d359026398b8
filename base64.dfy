/** Base64 as specified in section 4 of RFC 4648: the standard alphabet and
    `=` padding, which is what `Buffer.prototype.toString('base64')` emits. */
module Base64 {
  import opened Wrappers
  import opened Bytes

  /** The character for a 6-bit value (Table 1 of RFC 4648). */
  function CharOf(v: nat): (c: char)
    requires v < 64
  {
    if v < 26 then ('A' as int + v) as char
    else if v < 52 then ('a' as int + (v - 26)) as char
    else if v < 62 then ('0' as int + (v - 52)) as char
    else if v == 62 then '+'
    else '/'
  }

  /** The 6-bit value of an alphabet character; `None` for any other character,
      the pad character included. */
  function ValueOf(c: char): (r: Option<nat>)
    ensures r.Some? ==> r.value < 64
  {
    if 'A' <= c <= 'Z' then Some(c as int - 'A' as int)
    else if 'a' <= c <= 'z' then Some(c as int - 'a' as int + 26)
    else if '0' <= c <= '9' then Some(c as int - '0' as int + 52)
    else if c == '+' then Some(62)
    else if c == '/' then Some(63)
    else None
  }

  lemma ValueOfCharOf(v: nat)
    requires v < 64
    ensures ValueOf(CharOf(v)) == Some(v)
  {
  }

  /** ... and conversely, so the two are inverse bijections between the
      6-bit values and the alphabet. */
  lemma CharOfValueOf(c: char)
    requires ValueOf(c).Some?
    ensures CharOf(ValueOf(c).value) == c
  {
  }

  const Pad: char := '='

  predicate IsAlphabet(c: char) {
    ValueOf(c).Some?
  }

  /** Encodes each group of three octets as four characters; a final group of
      one or two octets is padded with `=` to four characters. */
  function Encode(b: seq<Byte>): (r: string)
    ensures |r| == 4 * ((|b| + 2) / 3)
    decreases |b|
  {
    if |b| == 0 then []
    else if |b| == 1 then Single(b[0])
    else if |b| == 2 then Double(b[0], b[1])
    else
      assert (|b| + 2) / 3 == (|b[3..]| + 2) / 3 + 1;
      Quad(b[0], b[1], b[2]) + Encode(b[3..])
  }

  /** A final group of one octet: two characters and `==`. */
  function Single(x: Byte): (r: string)
    ensures |r| == 4
  {
    [CharOf(x / 4), CharOf(x % 4 * 16), Pad, Pad]
  }

  /** A final group of two octets: three characters and `=`. */
  function Double(x: Byte, y: Byte): (r: string)
    ensures |r| == 4
  {
    [CharOf(x / 4), CharOf(x % 4 * 16 + y / 16), CharOf(y % 16 * 4), Pad]
  }

  /** The four characters of a full group of three octets. */
  function Quad(x: Byte, y: Byte, z: Byte): (r: string)
    ensures |r| == 4
  {
    [CharOf(x / 4), CharOf(x % 4 * 16 + y / 16), CharOf(y % 16 * 4 + z / 64), CharOf(z % 64)]
  }

  /** Every character of an encoding is from the alphabet or the pad. */
  lemma {:induction false} EncodeAlphabet(b: seq<Byte>)
    ensures forall i :: 0 <= i < |Encode(b)| ==> IsAlphabet(Encode(b)[i]) || Encode(b)[i] == Pad
    decreases |b|
  {
    if |b| == 1 {
      ValueOfCharOf(b[0] / 4);
      ValueOfCharOf(b[0] % 4 * 16);
    } else if |b| == 2 {
      ValueOfCharOf(b[0] / 4);
      ValueOfCharOf(b[0] % 4 * 16 + b[1] / 16);
      ValueOfCharOf(b[1] % 16 * 4);
    } else if |b| >= 3 {
      var x, y, z := b[0], b[1], b[2];
      ValueOfCharOf(x / 4);
      ValueOfCharOf(x % 4 * 16 + y / 16);
      ValueOfCharOf(y % 16 * 4 + z / 64);
      ValueOfCharOf(z % 64);
      EncodeAlphabet(b[3..]);
    }
  }

  /** The three octets that four 6-bit values stand for. */
  function Octets(v0: nat, v1: nat, v2: nat, v3: nat): (r: seq<Byte>)
    requires v0 < 64 && v1 < 64 && v2 < 64 && v3 < 64
    ensures |r| == 3
  {
    [v0 * 4 + v1 / 16, v1 % 16 * 16 + v2 / 4, v2 % 4 * 64 + v3]
  }

  /** The three octets of a group of four alphabet characters; `None` when
      one of them is outside the alphabet (the pad character included). */
  function DecodeGroup(c0: char, c1: char, c2: char, c3: char): (r: Option<seq<Byte>>)
    ensures r.Some? ==> |r.value| == 3
  {
    var a, b, c, d := ValueOf(c0), ValueOf(c1), ValueOf(c2), ValueOf(c3);
    if a.None? || b.None? || c.None? || d.None? then None
    else Some(Octets(a.value, b.value, c.value, d.value))
  }

  /** The last group, which may end in `==` (one octet) or `=` (two octets);
      the bits the padding leaves over must be zero. */
  function DecodeLast(c0: char, c1: char, c2: char, c3: char): (r: Option<seq<Byte>>)
    ensures r.Some? ==> 1 <= |r.value| <= 3
  {
    var a, b, c := ValueOf(c0), ValueOf(c1), ValueOf(c2);
    if c2 == Pad && c3 == Pad then
      if a.None? || b.None? || b.value % 16 != 0 then None
      else Some(Octets(a.value, b.value, 0, 0)[..1])
    else if c3 == Pad then
      if a.None? || b.None? || c.None? || c.value % 4 != 0 then None
      else Some(Octets(a.value, b.value, c.value, 0)[..2])
    else DecodeGroup(c0, c1, c2, c3)
  }

  /** Decodes a string made of four-character groups, only the last of which
      may end in padding. Rejects (with `None`) a length that is not a multiple
      of four, a character outside the alphabet, misplaced padding and
      non-zero pad bits (section 3.5 of RFC 4648), so it accepts exactly the
      strings `Encode` produces. */
  function Decode(s: string): (r: Option<seq<Byte>>)
    decreases |s|
  {
    if |s| == 0 then Some([])
    else if |s| < 4 then None
    else if |s| == 4 then DecodeLast(s[0], s[1], s[2], s[3])
    else
      match DecodeGroup(s[0], s[1], s[2], s[3])
      case None => None
      case Some(o) =>
        match Decode(s[4..])
        case None => None
        case Some(rest) => Some(o + rest)
  }

  /** The arithmetic of one group: splitting three octets into 6-bit values
      and joining them again is the identity. */
  lemma OctetsOfSextets(x: Byte, y: Byte, z: Byte)
    ensures Octets(x / 4, x % 4 * 16 + y / 16, y % 16 * 4 + z / 64, z % 64) == [x, y, z]
  {
  }

  /** ... and joining four 6-bit values into octets and splitting them again
      is the identity too. */
  lemma SextetsOfOctets(v0: nat, v1: nat, v2: nat, v3: nat)
    requires v0 < 64 && v1 < 64 && v2 < 64 && v3 < 64
    ensures var o := Octets(v0, v1, v2, v3);
      o[0] / 4 == v0 && o[0] % 4 * 16 + o[1] / 16 == v1 &&
      o[1] % 16 * 4 + o[2] / 64 == v2 && o[2] % 64 == v3
  {
  }

  lemma DecodeOneOctet(x: Byte)
    ensures Decode(Encode([x])) == Some([x])
  {
    var v0, v1 := x / 4, x % 4 * 16;
    assert Encode([x]) == Single(x) == [CharOf(v0), CharOf(v1), Pad, Pad];
    ValueOfCharOf(v0);
    ValueOfCharOf(v1);
    OctetsOfSextets(x, 0, 0);
    assert DecodeLast(CharOf(v0), CharOf(v1), Pad, Pad) == Some(Octets(v0, v1, 0, 0)[..1]);
    assert [x, 0, 0][..1] == [x];
  }

  lemma DecodeTwoOctets(x: Byte, y: Byte)
    ensures Decode(Encode([x, y])) == Some([x, y])
  {
    var v0, v1, v2 := x / 4, x % 4 * 16 + y / 16, y % 16 * 4;
    assert Encode([x, y]) == Double(x, y) == [CharOf(v0), CharOf(v1), CharOf(v2), Pad];
    ValueOfCharOf(v0);
    ValueOfCharOf(v1);
    ValueOfCharOf(v2);
    OctetsOfSextets(x, y, 0);
    assert CharOf(v2) != Pad;
    assert DecodeLast(CharOf(v0), CharOf(v1), CharOf(v2), Pad) == Some(Octets(v0, v1, v2, 0)[..2]);
    assert [x, y, 0][..2] == [x, y];
  }

  /** The characters of a full group decode to its three octets. */
  lemma DecodeGroupOfQuad(x: Byte, y: Byte, z: Byte)
    ensures var q := Quad(x, y, z);
      q[3] != Pad && DecodeGroup(q[0], q[1], q[2], q[3]) == Some([x, y, z])
  {
    ValueOfCharOf(x / 4);
    ValueOfCharOf(x % 4 * 16 + y / 16);
    ValueOfCharOf(y % 16 * 4 + z / 64);
    ValueOfCharOf(z % 64);
    OctetsOfSextets(x, y, z);
  }

  lemma DecodeQuad(x: Byte, y: Byte, z: Byte, t: string)
    requires Decode(t).Some?
    ensures Decode(Quad(x, y, z) + t) == Some([x, y, z] + Decode(t).value)
  {
    var q := Quad(x, y, z);
    var s := q + t;
    DecodeGroupOfQuad(x, y, z);
    assert s[0] == q[0] && s[1] == q[1] && s[2] == q[2] && s[3] == q[3];
    if t == [] {
      assert s == q;
      assert [x, y, z] + Decode(t).value == [x, y, z];
    } else {
      assert s[4..] == t;
    }
  }

  /** Decoding an encoding gives back the octets, the empty sequence included. */
  lemma {:induction false} DecodeEncode(b: seq<Byte>)
    ensures Decode(Encode(b)) == Some(b)
    decreases |b|
  {
    if |b| == 1 {
      DecodeOneOctet(b[0]);
      assert b == [b[0]];
    } else if |b| == 2 {
      DecodeTwoOctets(b[0], b[1]);
      assert b == [b[0], b[1]];
    } else if |b| >= 3 {
      var t := Encode(b[3..]);
      DecodeEncode(b[3..]);
      assert Encode(b) == Quad(b[0], b[1], b[2]) + t;
      DecodeEncodeStep(b, t);
    }
  }

  /** The step of `DecodeEncode` for more than two octets: the first group
      followed by a string that decodes to the rest. */
  lemma DecodeEncodeStep(b: seq<Byte>, t: string)
    requires |b| >= 3 && Decode(t) == Some(b[3..])
    ensures Decode(Quad(b[0], b[1], b[2]) + t) == Some(b)
  {
    DecodeQuad(b[0], b[1], b[2], t);
    assert b == [b[0], b[1], b[2]] + b[3..];
  }

  /** A full group that decodes is the encoding of its octets. */
  lemma EncodeDecodeGroup(c0: char, c1: char, c2: char, c3: char)
    requires DecodeGroup(c0, c1, c2, c3).Some?
    ensures var o := DecodeGroup(c0, c1, c2, c3).value; Quad(o[0], o[1], o[2]) == [c0, c1, c2, c3]
  {
    SextetsOfOctets(ValueOf(c0).value, ValueOf(c1).value, ValueOf(c2).value, ValueOf(c3).value);
    CharOfValueOf(c0);
    CharOfValueOf(c1);
    CharOfValueOf(c2);
    CharOfValueOf(c3);
  }

  /** A last group that decodes is the encoding of its octets. */
  lemma EncodeDecodeLast(c0: char, c1: char, c2: char, c3: char)
    requires DecodeLast(c0, c1, c2, c3).Some?
    ensures Encode(DecodeLast(c0, c1, c2, c3).value) == [c0, c1, c2, c3]
  {
    var a, b, c := ValueOf(c0), ValueOf(c1), ValueOf(c2);
    if c2 == Pad && c3 == Pad {
      CharOfValueOf(c0);
      CharOfValueOf(c1);
      SextetsOfOctets(a.value, b.value, 0, 0);
      var o := Octets(a.value, b.value, 0, 0);
      assert o[0] % 4 * 16 == b.value;
    } else if c3 == Pad {
      CharOfValueOf(c0);
      CharOfValueOf(c1);
      CharOfValueOf(c2);
      SextetsOfOctets(a.value, b.value, c.value, 0);
      var o := Octets(a.value, b.value, c.value, 0);
      assert o[1] % 16 * 4 == c.value;
    } else {
      var o := DecodeGroup(c0, c1, c2, c3).value;
      EncodeDecodeGroup(c0, c1, c2, c3);
      assert o[3..] == [];
      assert Encode(o) == Quad(o[0], o[1], o[2]) + Encode([]);
    }
  }

  /** Octets are encoded three at a time from the front. */
  lemma EncodeGroupAppend(o: seq<Byte>, rest: seq<Byte>)
    requires |o| == 3
    ensures Encode(o + rest) == Quad(o[0], o[1], o[2]) + Encode(rest)
  {
    var b := o + rest;
    assert b[0] == o[0] && b[1] == o[1] && b[2] == o[2];
    assert b[3..] == rest;
  }

  /** The step of `EncodeDecode` for a string of more than one group: a full
      first group followed by the encoding of the rest. */
  lemma EncodeDecodeStep(s: string, o: seq<Byte>, rest: seq<Byte>)
    requires |s| > 4 && DecodeGroup(s[0], s[1], s[2], s[3]) == Some(o)
    requires Encode(rest) == s[4..]
    ensures Encode(o + rest) == s
  {
    EncodeGroupAppend(o, rest);
    EncodeDecodeGroup(s[0], s[1], s[2], s[3]);
    assert s == [s[0], s[1], s[2], s[3]] + s[4..];
  }

  /** Conversely, every string that decodes is the encoding of what it decodes
      to: `Decode` is exactly the inverse of `Encode`. */
  lemma {:induction false} EncodeDecode(s: string)
    requires Decode(s).Some?
    ensures Encode(Decode(s).value) == s
    decreases |s|
  {
    if |s| == 4 {
      EncodeDecodeLast(s[0], s[1], s[2], s[3]);
      assert s == [s[0], s[1], s[2], s[3]];
    } else if |s| > 4 {
      var o := DecodeGroup(s[0], s[1], s[2], s[3]).value;
      var rest := Decode(s[4..]).value;
      EncodeDecode(s[4..]);
      EncodeDecodeStep(s, o, rest);
    }
  }
}
