/**
  The base 64 encoding of section 4 of RFC 4648, as Buffer.toString('base64')
  writes it: every three bytes become four characters of the alphabet
  A-Z a-z 0-9 + /, and a final group of one or two bytes is padded with '='.
 */
module Base64 {

  import opened Wrappers
  import opened Bytes

  predicate IsSextet(v: int) {
    0 <= v < 64
  }

  /** The character of the base 64 alphabet (Table 1 of RFC 4648) for a 6-bit value. */
  function SextetChar(v: int): (c: char)
    requires IsSextet(v)
    ensures c != '='
  {
    if v < 26 then ('A' as int + v) as char
    else if v < 52 then ('a' as int + (v - 26)) as char
    else if v < 62 then ('0' as int + (v - 52)) as char
    else if v == 62 then '+'
    else '/'
  }

  /** The 6-bit value of an alphabet character; None for any other character, '=' included. */
  function CharSextet(c: char): (r: Option<int>)
    ensures r.Some? ==> IsSextet(r.value)
  {
    if 'A' <= c <= 'Z' then Some(c as int - 'A' as int)
    else if 'a' <= c <= 'z' then Some(c as int - 'a' as int + 26)
    else if '0' <= c <= '9' then Some(c as int - '0' as int + 52)
    else if c == '+' then Some(62)
    else if c == '/' then Some(63)
    else None
  }

  lemma CharSextetOfSextetChar(v: int)
    requires IsSextet(v)
    ensures CharSextet(SextetChar(v)) == Some(v)
  {
  }

  lemma SextetCharOfCharSextet(c: char)
    requires CharSextet(c).Some?
    ensures SextetChar(CharSextet(c).value) == c
  {
  }

  /** The four characters of three bytes: their 24 bits cut into four sextets, high bits first. */
  function EncodeGroup(b0: Byte, b1: Byte, b2: Byte): (s: string)
    ensures |s| == 4 && forall i :: 0 <= i < 4 ==> s[i] != '='
  {
    [SextetChar(b0 / 4), SextetChar((b0 % 4) * 16 + b1 / 16),
     SextetChar((b1 % 16) * 4 + b2 / 64), SextetChar(b2 % 64)]
  }

  /** Buffer.toString('base64'): the padded base 64 text of bs. */
  function Encode(bs: seq<Byte>): (s: string)
    ensures |s| == 4 * ((|bs| + 2) / 3)
    decreases |bs|
  {
    if |bs| >= 3 then
      EncodeGroup(bs[0], bs[1], bs[2]) + Encode(bs[3..])
    else if |bs| == 2 then
      [SextetChar(bs[0] / 4), SextetChar((bs[0] % 4) * 16 + bs[1] / 16),
       SextetChar((bs[1] % 16) * 4), '=']
    else if |bs| == 1 then
      [SextetChar(bs[0] / 4), SextetChar((bs[0] % 4) * 16), '=', '=']
    else
      []
  }

  /**
    The bytes of one group of four characters. Only the last group (last = true)
    may end in padding, and the bits the padding leaves over must be zero.
   */
  function DecodeGroup(s: string, last: bool): (r: Option<seq<Byte>>)
    requires |s| == 4
    ensures r.Some? ==> 1 <= |r.value| <= 3 && (!last ==> |r.value| == 3)
  {
    var a, b := CharSextet(s[0]), CharSextet(s[1]);
    if a.None? || b.None? then None
    else if last && s[2] == '=' && s[3] == '=' then
      if b.value % 16 == 0 then Some([a.value * 4 + b.value / 16]) else None
    else
      var c := CharSextet(s[2]);
      if c.None? then None
      else if last && s[3] == '=' then
        if c.value % 4 == 0
        then Some([a.value * 4 + b.value / 16, (b.value % 16) * 16 + c.value / 4])
        else None
      else
        var d := CharSextet(s[3]);
        if d.None? then None
        else Some([a.value * 4 + b.value / 16, (b.value % 16) * 16 + c.value / 4, (c.value % 4) * 64 + d.value])
  }

  /** The bytes whose encoding is s; None for text that the encoder never writes. */
  function Decode(s: string): Option<seq<Byte>>
    decreases |s|
  {
    if s == [] then Some([])
    else if |s| < 4 then None
    else
      match DecodeGroup(s[..4], |s| == 4)
      case None => None
      case Some(g) =>
        match Decode(s[4..])
        case None => None
        case Some(rest) => Some(g + rest)
  }

  /** The characters of a full group decode back to its three bytes, whether or not the group is the last. */
  lemma DecodeFullGroup(b0: Byte, b1: Byte, b2: Byte, last: bool)
    ensures DecodeGroup(EncodeGroup(b0, b1, b2), last) == Some([b0, b1, b2])
  {
    var a, b, c, d := b0 / 4, (b0 % 4) * 16 + b1 / 16, (b1 % 16) * 4 + b2 / 64, b2 % 64;
    CharSextetOfSextetChar(a);
    CharSextetOfSextetChar(b);
    CharSextetOfSextetChar(c);
    CharSextetOfSextetChar(d);
    assert b / 16 == b0 % 4 && b % 16 == b1 / 16;
    assert c / 4 == b1 % 16 && c % 4 == b2 / 64;
  }

  lemma DecodeEncodeTwo(b0: Byte, b1: Byte)
    ensures Decode(Encode([b0, b1])) == Some([b0, b1])
  {
    var s := Encode([b0, b1]);
    var a, b, c := b0 / 4, (b0 % 4) * 16 + b1 / 16, (b1 % 16) * 4;
    CharSextetOfSextetChar(a);
    CharSextetOfSextetChar(b);
    CharSextetOfSextetChar(c);
    assert b / 16 == b0 % 4 && b % 16 == b1 / 16;
    assert c / 4 == b1 % 16 && c % 4 == 0;
    assert s[2] != '=' && s[3] == '=';
    assert DecodeGroup(s, true) == Some([b0, b1]);
    assert s[..4] == s && s[4..] == [];
    assert Decode(s[4..]) == Some([]);
    assert [b0, b1] + [] == [b0, b1];
  }

  lemma DecodeEncodeOne(b0: Byte)
    ensures Decode(Encode([b0])) == Some([b0])
  {
    var s := Encode([b0]);
    var a, b := b0 / 4, (b0 % 4) * 16;
    CharSextetOfSextetChar(a);
    CharSextetOfSextetChar(b);
    assert b / 16 == b0 % 4 && b % 16 == 0;
    assert DecodeGroup(s, true) == Some([b0]);
    assert s[..4] == s && s[4..] == [];
    assert Decode(s[4..]) == Some([]);
    assert [b0] + [] == [b0];
  }

  /** One full group in front of a text that decodes adds its three bytes in front. */
  lemma DecodeGroupThenRest(b0: Byte, b1: Byte, b2: Byte, rest: seq<Byte>)
    requires Decode(Encode(rest)) == Some(rest)
    ensures Decode(EncodeGroup(b0, b1, b2) + Encode(rest)) == Some([b0, b1, b2] + rest)
  {
    var e, t := EncodeGroup(b0, b1, b2), Encode(rest);
    var s := e + t;
    DecodeFullGroup(b0, b1, b2, |t| == 0);
    assert s[..4] == e && s[4..] == t;
  }

  /** Decoding the base 64 text of any bytes gives those bytes back. */
  lemma {:induction false} DecodeEncode(bs: seq<Byte>)
    ensures Decode(Encode(bs)) == Some(bs)
    decreases |bs|
  {
    if |bs| >= 3 {
      var rest := bs[3..];
      DecodeEncode(rest);
      DecodeGroupThenRest(bs[0], bs[1], bs[2], rest);
      assert Encode(bs) == EncodeGroup(bs[0], bs[1], bs[2]) + Encode(rest);
      assert [bs[0], bs[1], bs[2]] + rest == bs;
    } else if |bs| == 2 {
      assert bs == [bs[0], bs[1]];
      DecodeEncodeTwo(bs[0], bs[1]);
    } else if |bs| == 1 {
      assert bs == [bs[0]];
      DecodeEncodeOne(bs[0]);
    }
  }

  lemma EncodeDecodeGroup(s: string, last: bool)
    requires |s| == 4 && DecodeGroup(s, last).Some?
    ensures Encode(DecodeGroup(s, last).value) == s
  {
    var g := DecodeGroup(s, last).value;
    var a, b := CharSextet(s[0]).value, CharSextet(s[1]).value;
    SextetCharOfCharSextet(s[0]);
    SextetCharOfCharSextet(s[1]);
    if |g| == 1 {
      assert g[0] / 4 == a && (g[0] % 4) * 16 == b;
      assert Encode(g) == [s[0], s[1], '=', '='];
    } else {
      var c := CharSextet(s[2]).value;
      SextetCharOfCharSextet(s[2]);
      assert g[0] / 4 == a && (g[0] % 4) * 16 + g[1] / 16 == b;
      if |g| == 2 {
        assert (g[1] % 16) * 4 == c;
        assert Encode(g) == [s[0], s[1], s[2], '='];
      } else {
        var d := CharSextet(s[3]).value;
        SextetCharOfCharSextet(s[3]);
        assert (g[1] % 16) * 4 + g[2] / 64 == c && g[2] % 64 == d;
        assert Encode(g) == [s[0], s[1], s[2], s[3]] + Encode([]);
      }
    }
  }

  lemma EncodeConcatGroup(g: seq<Byte>, rest: seq<Byte>)
    requires |g| == 3
    ensures Encode(g + rest) == Encode(g) + Encode(rest)
  {
    var bs := g + rest;
    assert bs[0] == g[0] && bs[1] == g[1] && bs[2] == g[2];
    assert bs[3..] == rest;
    assert g[3..] == [];
  }

  /** The decoder accepts only text the encoder writes: whatever it decodes encodes back to the same text. */
  lemma {:induction false} EncodeDecode(s: string)
    requires Decode(s).Some?
    ensures Encode(Decode(s).value) == s
    decreases |s|
  {
    if s != [] {
      var g := DecodeGroup(s[..4], |s| == 4).value;
      EncodeDecodeGroup(s[..4], |s| == 4);
      if |s| == 4 {
        assert s[4..] == [];
        assert Decode(s).value == g + [];
        assert g + [] == g;
      } else {
        var rest := Decode(s[4..]).value;
        EncodeDecode(s[4..]);
        EncodeConcatGroup(g, rest);
        assert s[..4] + s[4..] == s;
      }
    }
  }
}
