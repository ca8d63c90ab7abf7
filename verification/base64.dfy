/** Base64 with the standard alphabet and padding (section 4 of RFC 4648),
    as `b64encode` writes it and a strict `b64decode` reads it. */
module Base64 {
  import opened Common

  /** The character for a 6-bit value: A-Z, a-z, 0-9, then '+' and '/'. */
  function CharOf(n: nat): (c: char)
    requires n < 64
  {
    if n < 26 then (('A' as int) + n) as char
    else if n < 52 then (('a' as int) + n - 26) as char
    else if n < 62 then (('0' as int) + n - 52) as char
    else if n == 62 then '+'
    else '/'
  }

  /** The 6-bit value of an alphabet character, or None for any other character. */
  function ValueOf(c: char): (r: Option<nat>)
    ensures r.Some? ==> r.value < 64 && CharOf(r.value) == c
  {
    if 'A' <= c <= 'Z' then Some((c as int) - ('A' as int))
    else if 'a' <= c <= 'z' then Some((c as int) - ('a' as int) + 26)
    else if '0' <= c <= '9' then Some((c as int) - ('0' as int) + 52)
    else if c == '+' then Some(62)
    else if c == '/' then Some(63)
    else None
  }

  lemma ValueOfCharOf(n: nat)
    requires n < 64
    ensures ValueOf(CharOf(n)) == Some(n)
  {
  }

  /** A character of the encoded text: an alphabet character or the pad '='. */
  predicate EncodedChar(c: char) { ValueOf(c).Some? || c == '=' }

  /** The four characters for three bytes. */
  function EncodeTriple(x: Byte, y: Byte, z: Byte): (r: string)
    ensures |r| == 4
  {
    [CharOf(x / 4), CharOf((x % 4) * 16 + y / 16), CharOf((y % 16) * 4 + z / 64), CharOf(z % 64)]
  }

  /** Encoding: each group of three bytes becomes four characters; a final
      group of one or two bytes is padded with '=' to four characters. */
  function Encode(b: seq<Byte>): (r: string)
    ensures |r| == 4 * ((|b| + 2) / 3)
    ensures forall i | 0 <= i < |r| :: EncodedChar(r[i])
    decreases |b|
  {
    if |b| == 0 then ""
    else if |b| == 1 then
      [CharOf(b[0] / 4), CharOf((b[0] % 4) * 16), '=', '=']
    else if |b| == 2 then
      [CharOf(b[0] / 4), CharOf((b[0] % 4) * 16 + b[1] / 16), CharOf((b[1] % 16) * 4), '=']
    else
      EncodeTriple(b[0], b[1], b[2]) + Encode(b[3..])
  }

  /** The three bytes four alphabet values carry. */
  function Bytes3(a: nat, b: nat, c: nat, d: nat): (r: seq<Byte>)
    requires a < 64 && b < 64 && c < 64 && d < 64
    ensures |r| == 3
  {
    [a * 4 + b / 16, (b % 16) * 16 + c / 4, (c % 4) * 64 + d]
  }

  /** Decodes one group of four characters; `last` allows the padded forms
      "xx==" and "xxx=". */
  function DecodeQuad(q: string, last: bool): (r: Option<seq<Byte>>)
    requires |q| == 4
    ensures r.Some? ==> 1 <= |r.value| <= 3
    ensures r.Some? && !last ==> |r.value| == 3
  {
    var v0, v1, v2, v3 := ValueOf(q[0]), ValueOf(q[1]), ValueOf(q[2]), ValueOf(q[3]);
    if v0.None? || v1.None? then None
    else if v2.Some? && v3.Some? then Some(Bytes3(v0.value, v1.value, v2.value, v3.value))
    else if last && v2.Some? && q[3] == '=' then Some(Bytes3(v0.value, v1.value, v2.value, 0)[..2])
    else if last && q[2] == '=' && q[3] == '=' then Some(Bytes3(v0.value, v1.value, 0, 0)[..1])
    else None
  }

  /** Strict decoding: the text is a whole number of four-character groups of
      alphabet characters, and only the last group may carry padding. Any
      other text is rejected. */
  function Decode(t: string): (r: Option<seq<Byte>>)
    decreases |t|
  {
    if |t| == 0 then Some([])
    else if |t| < 4 then None
    else if |t| == 4 then DecodeQuad(t, true)
    else match DecodeQuad(t[..4], false)
      case None => None
      case Some(head) =>
        match Decode(t[4..])
        case None => None
        case Some(tail) => Some(head + tail)
  }

  lemma TripleRoundTrip(x: Byte, y: Byte, z: Byte)
    ensures Bytes3(x / 4, (x % 4) * 16 + y / 16, (y % 16) * 4 + z / 64, z % 64) == [x, y, z]
  {
  }

  lemma PairRoundTrip(x: Byte, y: Byte)
    ensures Bytes3(x / 4, (x % 4) * 16 + y / 16, (y % 16) * 4, 0)[..2] == [x, y]
  {
    TripleRoundTrip(x, y, 0);
    assert (y % 16) * 4 + 0 / 64 == (y % 16) * 4;
  }

  lemma SingleRoundTrip(x: Byte)
    ensures Bytes3(x / 4, (x % 4) * 16, 0, 0)[..1] == [x]
  {
    TripleRoundTrip(x, 0, 0);
    assert (x % 4) * 16 + 0 / 16 == (x % 4) * 16;
  }

  /** A single byte: two characters and two pads. */
  lemma RoundTripOne(b: seq<Byte>)
    requires |b| == 1
    ensures Decode(Encode(b)) == Some(b)
  {
    var x := b[0];
    var t := Encode(b);
    assert t == [CharOf(x / 4), CharOf((x % 4) * 16), '=', '='];
    ValueOfCharOf(x / 4);
    ValueOfCharOf((x % 4) * 16);
    SingleRoundTrip(x);
    assert DecodeQuad(t, true) == Some(Bytes3(x / 4, (x % 4) * 16, 0, 0)[..1]);
    assert b == [x];
  }

  /** The last group for two bytes decodes back to them. */
  lemma PairDecodes(x: Byte, y: Byte)
    ensures DecodeQuad([CharOf(x / 4), CharOf((x % 4) * 16 + y / 16), CharOf((y % 16) * 4), '='], true)
      == Some([x, y])
  {
    var q := [CharOf(x / 4), CharOf((x % 4) * 16 + y / 16), CharOf((y % 16) * 4), '='];
    ValueOfCharOf(x / 4);
    ValueOfCharOf((x % 4) * 16 + y / 16);
    ValueOfCharOf((y % 16) * 4);
    PairRoundTrip(x, y);
    assert ValueOf(q[3]).None?;
  }

  /** Two bytes: three characters and one pad. */
  lemma RoundTripTwo(b: seq<Byte>)
    requires |b| == 2
    ensures Decode(Encode(b)) == Some(b)
  {
    var x, y := b[0], b[1];
    var t := Encode(b);
    assert t == [CharOf(x / 4), CharOf((x % 4) * 16 + y / 16), CharOf((y % 16) * 4), '='];
    PairDecodes(x, y);
    assert Decode(t) == DecodeQuad(t, true);
    assert b == [x, y];
  }

  /** A full group of three bytes decodes back, padded position or not. */
  lemma TripleDecodes(x: Byte, y: Byte, z: Byte, last: bool)
    ensures DecodeQuad(EncodeTriple(x, y, z), last) == Some([x, y, z])
  {
    var q := EncodeTriple(x, y, z);
    ValueOfCharOf(x / 4);
    ValueOfCharOf((x % 4) * 16 + y / 16);
    ValueOfCharOf((y % 16) * 4 + z / 64);
    ValueOfCharOf(z % 64);
    TripleRoundTrip(x, y, z);
    assert ValueOf(q[0]) == Some(x / 4);
    assert ValueOf(q[1]) == Some((x % 4) * 16 + y / 16);
    assert ValueOf(q[2]) == Some((y % 16) * 4 + z / 64);
    assert ValueOf(q[3]) == Some(z % 64);
  }

  /** Decoding the encoding of any bytes gives those bytes back. */
  lemma {:induction false} RoundTrip(b: seq<Byte>)
    ensures Decode(Encode(b)) == Some(b)
    decreases |b|
  {
    if |b| == 1 {
      RoundTripOne(b);
    } else if |b| == 2 {
      RoundTripTwo(b);
    } else if |b| >= 3 {
      var t := Encode(b);
      var q := EncodeTriple(b[0], b[1], b[2]);
      assert b[..3] == [b[0], b[1], b[2]];
      TripleDecodes(b[0], b[1], b[2], false);
      TripleDecodes(b[0], b[1], b[2], true);
      RoundTrip(b[3..]);
      assert t[..4] == q && t[4..] == Encode(b[3..]);
      assert b == b[..3] + b[3..];
      if |b| == 3 {
        assert t == q && b[..3] == b;
        assert Decode(t) == DecodeQuad(q, true);
      } else {
        assert |t| > 4;
        assert Decode(t) == Some(b[..3] + b[3..]);
      }
    }
  }

  /** A group the decoder accepts holds only alphabet characters and pads. */
  lemma QuadChars(q: string, last: bool)
    requires |q| == 4 && DecodeQuad(q, last).Some?
    ensures forall i | 0 <= i < 4 :: EncodedChar(q[i])
  {
  }

  /** Whatever the decoder accepts has the length of an encoding: four
      characters per started three bytes of the result. */
  lemma {:induction false} DecodedLength(t: string)
    requires Decode(t).Some?
    ensures |t| == 4 * ((|Decode(t).value| + 2) / 3)
    decreases |t|
  {
    if |t| > 4 {
      var head := DecodeQuad(t[..4], false).value;
      DecodedLength(t[4..]);
      var tail := Decode(t[4..]).value;
      assert Decode(t).value == head + tail;
      assert |head| == 3;
      assert |t| == 4 + 4 * ((|tail| + 2) / 3);
    }
  }

  /** Whatever the decoder accepts consists of alphabet characters and pads. */
  lemma {:induction false} DecodedChars(t: string)
    requires Decode(t).Some?
    ensures forall i | 0 <= i < |t| :: EncodedChar(t[i])
    decreases |t|
  {
    if |t| == 4 {
      QuadChars(t, true);
    } else if |t| > 4 {
      QuadChars(t[..4], false);
      DecodedChars(t[4..]);
      forall i | 0 <= i < |t| ensures EncodedChar(t[i]) {
        if i < 4 {
          assert t[i] == t[..4][i];
        } else {
          assert t[i] == t[4..][i - 4];
        }
      }
    }
  }

  lemma EncodedCharIsAscii(c: char)
    requires EncodedChar(c)
    ensures c as int < 128
  {
  }

  /** Text the decoder accepts is ASCII. */
  lemma DecodedTextIsAscii(t: string)
    ensures Decode(t).Some? ==> Ascii(t)
  {
    if Decode(t).Some? {
      DecodedChars(t);
      forall i | 0 <= i < |t| ensures t[i] as int < 128 {
        EncodedCharIsAscii(t[i]);
      }
    }
  }

  /** Encoded text is ASCII. */
  lemma EncodeIsAscii(b: seq<Byte>)
    ensures Ascii(Encode(b))
  {
    var t := Encode(b);
    forall i | 0 <= i < |t| ensures t[i] as int < 128 {
      EncodedCharIsAscii(t[i]);
    }
  }

  /** Like `b64decode`, the decoder does not insist that the unused bits
      before a pad are zero, so decoding is not injective: "QR==" and the
      canonical "QQ==" both decode to the single byte 65. */
  lemma NonCanonicalAccepted()
    ensures Decode("QR==") == Some([65])
    ensures Encode([65]) == "QQ==" != "QR=="
  {
    var q := "QR==";
    assert q[0] == 'Q' && q[1] == 'R' && q[2] == '=' && q[3] == '=';
    assert ValueOf('Q') == Some(16) && ValueOf('R') == Some(17) && ValueOf('=').None?;
    assert Bytes3(16, 17, 0, 0) == [65, 16, 0];
    assert Bytes3(16, 17, 0, 0)[..1] == [65];
    assert DecodeQuad(q, true) == Some([65]);
    assert Decode(q) == DecodeQuad(q, true);
    assert CharOf(16) == 'Q';
  }

  /** Encoded text never contains the Eel markers '!' and '@'. */
  lemma NoMarkers(b: seq<Byte>)
    ensures '!' !in Encode(b) && '@' !in Encode(b)
  {
    var t := Encode(b);
    assert forall i | 0 <= i < |t| :: t[i] != '!' && t[i] != '@' by {
      forall i | 0 <= i < |t| ensures t[i] != '!' && t[i] != '@' {
        assert EncodedChar(t[i]);
      }
    }
  }
}
