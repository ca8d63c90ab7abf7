/** UTF-8 (section 3 of RFC 3629): `str.encode()` and a strict
    `bytes.decode()` on Unicode scalar values. */
module Utf8 {
  import opened Common

  /** A continuation byte, 10xxxxxx. */
  predicate Cont(b: Byte) { 0x80 <= b < 0xC0 }

  /** The one to four bytes of a scalar value. */
  function EncodeChar(c: char): (r: seq<Byte>)
    ensures 1 <= |r| <= 4
  {
    var n := c as int;
    if n < 0x80 then [n]
    else if n < 0x800 then [0xC0 + n / 64, 0x80 + n % 64]
    else if n < 0x10000 then [0xE0 + n / 4096, 0x80 + (n / 64) % 64, 0x80 + n % 64]
    else [0xF0 + n / 262144, 0x80 + (n / 4096) % 64, 0x80 + (n / 64) % 64, 0x80 + n % 64]
  }

  /** `s.encode()`: the characters' byte sequences, concatenated. */
  function Encode(s: string): seq<Byte>
  {
    if |s| == 0 then [] else EncodeChar(s[0]) + Encode(s[1..])
  }

  /** The scalar value whose well-formed sequence starts `b`, and that
      sequence's length; None when `b` does not start with one. A sequence
      is rejected when it is truncated, has a bad continuation byte, is
      overlong, encodes a surrogate, or lies above U+10FFFF. */
  function DecodeFirst(b: seq<Byte>): (r: Option<(char, nat)>)
    requires |b| > 0
    ensures r.Some? ==> 1 <= r.value.1 <= |b|
  {
    var b0: int := b[0];
    if b0 < 0x80 then Some((b0 as char, 1))
    else if 0xC0 <= b0 < 0xE0 then
      if |b| < 2 || !Cont(b[1]) then None
      else
        var n := (b0 - 0xC0) * 64 + (b[1] as int - 0x80);
        if n < 0x80 then None else Some((n as char, 2))
    else if 0xE0 <= b0 < 0xF0 then
      if |b| < 3 || !Cont(b[1]) || !Cont(b[2]) then None
      else
        var n := (b0 - 0xE0) * 4096 + (b[1] as int - 0x80) * 64 + (b[2] as int - 0x80);
        if n < 0x800 || 0xD800 <= n < 0xE000 then None else Some((n as char, 3))
    else if 0xF0 <= b0 < 0xF8 then
      if |b| < 4 || !Cont(b[1]) || !Cont(b[2]) || !Cont(b[3]) then None
      else
        var n := (b0 - 0xF0) * 262144 + (b[1] as int - 0x80) * 4096 + (b[2] as int - 0x80) * 64 + (b[3] as int - 0x80);
        if n < 0x10000 || n >= 0x110000 then None else Some((n as char, 4))
    else None
  }

  /** `b.decode()`: the text the bytes encode, or None where Python raises
      UnicodeDecodeError. */
  function Decode(b: seq<Byte>): Option<string>
    decreases |b|
  {
    if |b| == 0 then Some("")
    else match DecodeFirst(b)
      case None => None
      case Some((c, k)) =>
        match Decode(b[k..])
        case None => None
        case Some(rest) => Some([c] + rest)
  }

  lemma Split64(n: nat)
    ensures n == (n / 64) * 64 + n % 64
  {
  }

  lemma Split4096(n: nat)
    ensures n == (n / 4096) * 4096 + ((n / 64) % 64) * 64 + n % 64
  {
    Split64(n);
    Split64(n / 64);
    assert n / 64 / 64 == n / 4096;
  }

  lemma Split262144(n: nat)
    ensures n == (n / 262144) * 262144 + ((n / 4096) % 64) * 4096 + ((n / 64) % 64) * 64 + n % 64
  {
    Split4096(n);
    Split64(n / 4096);
    assert n / 4096 / 64 == n / 262144;
  }

  lemma DecodeEncodedChar2(c: char, rest: seq<Byte>)
    requires 0x80 <= c as int < 0x800
    ensures DecodeFirst(EncodeChar(c) + rest) == Some((c, 2))
  {
    var n := c as int;
    var b := EncodeChar(c) + rest;
    assert b[0] == 0xC0 + n / 64 && b[1] == 0x80 + n % 64;
    Split64(n);
  }

  lemma DecodeEncodedChar3(c: char, rest: seq<Byte>)
    requires 0x800 <= c as int < 0x10000
    ensures DecodeFirst(EncodeChar(c) + rest) == Some((c, 3))
  {
    var n := c as int;
    var b := EncodeChar(c) + rest;
    assert b[0] == 0xE0 + n / 4096 && b[1] == 0x80 + (n / 64) % 64 && b[2] == 0x80 + n % 64;
    Split4096(n);
  }

  lemma DecodeEncodedChar4(c: char, rest: seq<Byte>)
    requires 0x10000 <= c as int
    ensures DecodeFirst(EncodeChar(c) + rest) == Some((c, 4))
  {
    var n := c as int;
    var b := EncodeChar(c) + rest;
    assert b[0] == 0xF0 + n / 262144 && b[1] == 0x80 + (n / 4096) % 64;
    assert b[2] == 0x80 + (n / 64) % 64 && b[3] == 0x80 + n % 64;
    Split262144(n);
  }

  /** The first character's bytes decode back to that character, whatever follows. */
  lemma DecodeEncodedChar(c: char, rest: seq<Byte>)
    ensures DecodeFirst(EncodeChar(c) + rest) == Some((c, |EncodeChar(c)|))
  {
    var n := c as int;
    if n < 0x80 {
    } else if n < 0x800 {
      DecodeEncodedChar2(c, rest);
    } else if n < 0x10000 {
      DecodeEncodedChar3(c, rest);
    } else {
      DecodeEncodedChar4(c, rest);
    }
  }

  /** Decoding the encoding of any text gives that text back. */
  lemma {:induction false} RoundTrip(s: string)
    ensures Decode(Encode(s)) == Some(s)
    decreases |s|
  {
    if |s| > 0 {
      var head := EncodeChar(s[0]);
      var b := Encode(s);
      DecodeEncodedChar(s[0], Encode(s[1..]));
      RoundTrip(s[1..]);
      assert b[|head|..] == Encode(s[1..]);
      assert s == [s[0]] + s[1..];
    }
  }

  lemma DivMod64(q: nat, r: nat)
    requires r < 64
    ensures (q * 64 + r) / 64 == q && (q * 64 + r) % 64 == r
  {
  }

  lemma Encode2(x: int, y: int)
    requires 0 <= x < 32 && 0 <= y < 64 && 0x80 <= x * 64 + y
    ensures EncodeChar((x * 64 + y) as char) == [0xC0 + x, 0x80 + y]
  {
    DivMod64(x, y);
  }

  lemma Encode3(x: int, y: int, z: int)
    requires 0 <= x < 16 && 0 <= y < 64 && 0 <= z < 64
    requires var n := (x * 64 + y) * 64 + z; 0x800 <= n && !(0xD800 <= n < 0xE000)
    ensures EncodeChar(((x * 64 + y) * 64 + z) as char) == [0xE0 + x, 0x80 + y, 0x80 + z]
  {
    var n := (x * 64 + y) * 64 + z;
    DivMod64(x * 64 + y, z);
    DivMod64(x, y);
    assert n / 4096 == n / 64 / 64;
  }

  lemma Encode4(w: int, x: int, y: int, z: int)
    requires 0 <= w < 8 && 0 <= x < 64 && 0 <= y < 64 && 0 <= z < 64
    requires var n := ((w * 64 + x) * 64 + y) * 64 + z; 0x10000 <= n < 0x110000
    ensures EncodeChar((((w * 64 + x) * 64 + y) * 64 + z) as char) == [0xF0 + w, 0x80 + x, 0x80 + y, 0x80 + z]
  {
    var n := ((w * 64 + x) * 64 + y) * 64 + z;
    DivMod64((w * 64 + x) * 64 + y, z);
    DivMod64(w * 64 + x, y);
    DivMod64(w, x);
    assert n / 4096 == n / 64 / 64;
    assert n / 262144 == n / 64 / 64 / 64;
  }

  /** The bytes a well-formed sequence was decoded from are exactly the
      encoding of the decoded character: the decoder accepts no overlong or
      otherwise non-canonical form. */
  lemma EncodeDecodedChar(b: seq<Byte>)
    requires |b| > 0 && DecodeFirst(b).Some?
    ensures EncodeChar(DecodeFirst(b).value.0) == b[..DecodeFirst(b).value.1]
  {
    var k := DecodeFirst(b).value.1;
    var b0: int := b[0];
    if b0 < 0x80 {
    } else if b0 < 0xE0 {
      Encode2(b0 - 0xC0, b[1] - 0x80);
    } else if b0 < 0xF0 {
      Encode3(b0 - 0xE0, b[1] - 0x80, b[2] - 0x80);
    } else {
      Encode4(b0 - 0xF0, b[1] - 0x80, b[2] - 0x80, b[3] - 0x80);
    }
  }

  /** Whatever the strict decoder accepts re-encodes to the same bytes, so
      encoding and decoding are inverse in both directions. */
  lemma {:induction false} DecodeIsInverse(b: seq<Byte>)
    requires Decode(b).Some?
    ensures Encode(Decode(b).value) == b
    decreases |b|
  {
    if |b| > 0 {
      var first := DecodeFirst(b).value;
      var c, k := first.0, first.1;
      var tail := b[k..];
      assert Decode(tail).Some?;
      var rest := Decode(tail).value;
      assert Decode(b) == Some([c] + rest);
      var s := [c] + rest;
      EncodeDecodedChar(b);
      DecodeIsInverse(tail);
      assert s[0] == c && s[1..] == rest;
      assert Encode(s) == EncodeChar(c) + Encode(rest);
      assert b == b[..k] + tail;
    }
  }
}
