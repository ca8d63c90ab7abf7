/** The Eel codec (type_def.py): the per-kind payload codecs, the
    representation encoding `prefix!payload`, and the decoders for the
    representation form (marker '!') and the literal form (marker '@'). */
module Codec {
  import opened Common
  import opened Exceptions
  import opened Misc
  import opened Values
  import Base64
  import Utf8

  /** What a decoder yields: a value, `None` where the kind's decoder is the
      abstract stub that returns nothing (List, Dictionary, Boolean), or the
      exception it raises. */
  type Decoded = Result<Option<Value>>

  /** Number's `eel_from_repr`: integer text first, then strict float text,
      otherwise the internal type error. */
  function NumberFromText(t: string): (r: Result<Value>)
    ensures IntText(t) ==> IsInt(t) && r == Ok(Num(Int(ParseInt(t).value)))
    ensures !IntText(t) && FloatText(t) ==> r == Ok(Num(Float(t)))
    ensures !FloatText(t) ==> r == Err(SysTypeError(None))
  {
    IsIntMatchesGrammar(t);
    ClassesPartition(t);
    if IsInt(t) then Ok(Num(Int(ParseInt(t).value)))
    else if IsFloatStrict(t) then Ok(Num(Float(t)))
    else Err(SysTypeError(None))
  }

  /** String's `eel_from_repr`: base64, then UTF-8. Text with a non-ASCII
      character makes `b64decode` raise ValueError, which the `except
      binascii.Error` clause does not catch, so it escapes; other bad base64
      is the internal type error; bytes that are not UTF-8 escape as
      Python's UnicodeDecodeError. */
  function StringFromRepr(t: string): (r: Result<Value>)
    ensures !Ascii(t) ==> r == Err(Native("ValueError"))
    ensures Ascii(t) && Base64.Decode(t).None? ==> r == Err(SysTypeError(None))
    ensures r.Ok? ==> r.value.Str? && Base64.Decode(t) == Some(Utf8.Encode(r.value.s))
    ensures r.Err? && Base64.Decode(t).Some? ==> r.error == Native("UnicodeDecodeError")
    ensures Base64.Decode(t).Some? && Utf8.Decode(Base64.Decode(t).value).Some? ==>
      r == Ok(Str(Utf8.Decode(Base64.Decode(t).value).value))
  {
    if !Ascii(t) then
      Base64.DecodedTextIsAscii(t);
      Err(Native("ValueError"))
    else match Base64.Decode(t)
    case None => Err(SysTypeError(None))
    case Some(bytes) =>
      match Utf8.Decode(bytes)
      case None => Err(Native("UnicodeDecodeError"))
      case Some(s) =>
        Utf8.DecodeIsInverse(bytes);
        Ok(Str(s))
  }

  /** `eel_from_repr` of the kind registered under a prefix. */
  function FromRepr(k: Kind, payload: string): (r: Decoded)
    ensures r.Ok? && r.value.Some? ==> KindOf(r.value.value) == k
    ensures r.Ok? && r.value.None? <==> k in {ListKind, DictKind, BoolKind}
    ensures r.Err? ==> r.error.SystemException? || r.error.Native?
  {
    match k
    case NumberKind =>
      (match NumberFromText(payload) case Ok(v) => Ok(Some(v)) case Err(e) => Err(e))
    case StringKind =>
      (match StringFromRepr(payload) case Ok(v) => Ok(Some(v)) case Err(e) => Err(e))
    case _ => Ok(None)
  }

  /** `eel_from_literal`: String takes the payload verbatim; every other kind
      falls back to its `eel_from_repr`. */
  function FromLiteral(k: Kind, payload: string): (r: Decoded)
    ensures k == StringKind ==> r == Ok(Some(Str(payload)))
    ensures r.Ok? && r.value.Some? ==> KindOf(r.value.value) == k
    ensures r.Err? ==> r.error.SystemException? || r.error.Native?
  {
    if k == StringKind then Ok(Some(Str(payload))) else FromRepr(k, payload)
  }

  /** Number literals decode exactly as Number representations do. */
  lemma NumberLiteralIsRepr(payload: string)
    ensures FromLiteral(NumberKind, payload) == FromRepr(NumberKind, payload)
  {
  }

  /** Values the representation encoding is defined for in this model. */
  predicate Encodable(v: Value) { IsIntNumber(v) || v.Str? }

  /** `eel_to_repr`: decimal text of an integer, base64 of a String's UTF-8.
      Neither contains a marker character. */
  function ToRepr(v: Value): (r: string)
    requires Encodable(v)
    ensures '!' !in r && '@' !in r
  {
    match v
    case Num(n) =>
      IntTextHasNoMarkers(n.i);
      IntToText(n.i)
    case Str(s) =>
      Base64.NoMarkers(Utf8.Encode(s));
      Base64.Encode(Utf8.Encode(s))
  }

  lemma IntTextHasNoMarkers(i: int)
    ensures '!' !in IntToText(i) && '@' !in IntToText(i)
  {
    var t := IntToText(i);
    var u := Unsigned(t);
    assert forall j | 0 <= j < |u| :: u[j] != '!' && u[j] != '@';
    if |u| < |t| {
      assert t == [t[0]] + u;
    }
  }

  /** The two encoded forms and their marker characters. */
  datatype Form = Repr | Literal

  function Marker(f: Form): char
  {
    match f
    case Repr => '!'
    case Literal => '@'
  }

  predicate IsMarker(c: char) { c == '!' || c == '@' }

  function FormOf(c: char): Form
    requires IsMarker(c)
  {
    if c == '@' then Literal else Repr
  }

  /** `eel_encode_repr`: the kind's prefix, the representation marker, the payload. */
  function EncodeRepr(v: Value): (r: string)
    requires Encodable(v)
    ensures FirstMarker(r) == Some(3) && r[3] == '!'
    ensures r[..3] == Prefix(KindOf(v)) && r[4..] == ToRepr(v)
  {
    var r := Prefix(KindOf(v)) + "!" + ToRepr(v);
    FirstMarkerOfPrefixed(Prefix(KindOf(v)), '!', ToRepr(v));
    r
  }

  /** The message `decode_repr` and `decode_literal` put in NotAnEelRepr. */
  function NotValidMessage(raw: string, f: Form): string
  {
    match f
    case Repr => raw + " is not a valid Eel Representation"
    case Literal => raw + " is not a valid Eel Literal"
  }

  /** `decode_repr` (form Repr) and `decode_literal` (form Literal): split at
      the first occurrence of the form's marker; the text before it must be a
      non-empty registered prefix, and the text after it is the payload. */
  function DecodeMarked(raw: string, f: Form): (r: Decoded)
    ensures Marker(f) !in raw ==> r == Err(NotAnEelRepr(NotValidMessage(raw, f)))
  {
    match Find(raw, Marker(f))
    case None => Err(NotAnEelRepr(NotValidMessage(raw, f)))
    case Some(k) =>
      var prefix := raw[..k];
      if prefix == "" then Err(NotAnEelRepr(NotValidMessage(raw, f)))
      else if prefix !in TypePrefix then
        Err(TypeError(prefix + " is not a valid Eel Type or user defined type"))
      else if f == Literal then FromLiteral(TypePrefix[prefix], raw[k + 1..])
      else FromRepr(TypePrefix[prefix], raw[k + 1..])
  }

  function DecodeRepr(raw: string): Decoded { DecodeMarked(raw, Repr) }

  function DecodeLiteral(raw: string): Decoded { DecodeMarked(raw, Literal) }

  /** `decode_literal_or_repr`: with both markers present the one found first
      chooses the decoder; with only '@' the literal decoder; otherwise the
      representation decoder. */
  function DecodeLiteralOrRepr(raw: string): Decoded
  {
    if '@' in raw && '!' in raw then
      if Find(raw, '@').value < Find(raw, '!').value then DecodeLiteral(raw) else DecodeRepr(raw)
    else if '@' in raw then DecodeLiteral(raw)
    else DecodeRepr(raw)
  }

  /** Reference scan: the position of the first marker character of either kind. */
  function FirstMarker(raw: string): (r: Option<nat>)
    ensures r.Some? ==> r.value < |raw| && IsMarker(raw[r.value])
    ensures r.Some? ==> forall j | 0 <= j < r.value :: !IsMarker(raw[j])
    ensures r.None? ==> forall j | 0 <= j < |raw| :: !IsMarker(raw[j])
  {
    if |raw| == 0 then None
    else if IsMarker(raw[0]) then Some(0)
    else match FirstMarker(raw[1..])
      case None => None
      case Some(k) => Some(k + 1)
  }

  lemma FirstMarkerOfPrefixed(p: string, m: char, rest: string)
    requires IsMarker(m)
    requires forall j | 0 <= j < |p| :: !IsMarker(p[j])
    ensures FirstMarker(p + [m] + rest) == Some(|p|)
  {
    var r := FirstMarker(p + [m] + rest);
    var t := p + [m] + rest;
    assert t[|p|] == m;
    assert forall j | 0 <= j < |p| :: t[j] == p[j];
  }

  /** Where the first marker of either kind is, there is the first marker of its own kind. */
  lemma FindAtFirstMarker(raw: string)
    requires FirstMarker(raw).Some?
    ensures Find(raw, raw[FirstMarker(raw).value]) == Some(FirstMarker(raw).value)
  {
    var k := FirstMarker(raw).value;
    var m := raw[k];
    var r := Find(raw, m);
    assert r.Some? && IsMarker(raw[r.value]);
    assert r.value >= k;
    assert r.value <= k;
  }

  /** The first marker in the text, whichever kind it is, picks the decoder;
      text without any marker is not a representation. */
  lemma FirstMarkerChoosesDecoder(raw: string)
    ensures FirstMarker(raw).None? ==>
      DecodeLiteralOrRepr(raw) == Err(NotAnEelRepr(NotValidMessage(raw, Repr)))
    ensures FirstMarker(raw).Some? ==>
      DecodeLiteralOrRepr(raw) == DecodeMarked(raw, FormOf(raw[FirstMarker(raw).value]))
  {
    match FirstMarker(raw)
    case None =>
      assert '@' !in raw && '!' !in raw by {
        forall j | 0 <= j < |raw| ensures raw[j] != '@' && raw[j] != '!' {
          assert !IsMarker(raw[j]);
        }
      }
    case Some(k) =>
      FindAtFirstMarker(raw);
      if raw[k] == '@' {
        if '!' in raw {
          var b := Find(raw, '!').value;
          assert IsMarker(raw[b]) && b != k;
          assert b > k;
        }
      } else {
        if '@' in raw {
          var a := Find(raw, '@').value;
          assert IsMarker(raw[a]) && a != k;
          assert a > k;
        }
      }
  }

  /** The decoder's outcome, stated on the first marker alone: the prefix is
      the text before it and the payload everything after it.
      NotAnEelRepr exactly when there is no marker or the prefix is empty;
      TypeError exactly when the prefix is non-empty and unregistered;
      otherwise the chosen form's decoder for the registered kind. */
  lemma DecodeSplitsAtFirstMarker(raw: string)
    ensures var r := DecodeLiteralOrRepr(raw);
      (r.Err? && r.error.NotAnEelRepr?) <==> FirstMarker(raw).None? || FirstMarker(raw) == Some(0)
    ensures var r := DecodeLiteralOrRepr(raw);
      (r.Err? && r.error.TypeError?) <==>
        FirstMarker(raw).Some? && FirstMarker(raw).value > 0 && raw[..FirstMarker(raw).value] !in TypePrefix
    ensures FirstMarker(raw).Some? && raw[..FirstMarker(raw).value] in TypePrefix ==>
      var k := FirstMarker(raw).value;
      var kind := TypePrefix[raw[..k]];
      DecodeLiteralOrRepr(raw) ==
        (if raw[k] == '@' then FromLiteral(kind, raw[k + 1..]) else FromRepr(kind, raw[k + 1..]))
  {
    FirstMarkerChoosesDecoder(raw);
    match FirstMarker(raw)
    case None =>
    case Some(k) =>
      FindAtFirstMarker(raw);
      var f := FormOf(raw[k]);
      assert Marker(f) == raw[k];
      MarkedOutcome(raw, f, k);
  }

  /** One form's decoder, once its marker has been found at `k`. */
  lemma MarkedOutcome(raw: string, f: Form, k: nat)
    requires Find(raw, Marker(f)) == Some(k)
    ensures var r := DecodeMarked(raw, f);
      (r.Err? && r.error.NotAnEelRepr?) <==> k == 0
    ensures var r := DecodeMarked(raw, f);
      (r.Err? && r.error.TypeError?) <==> k > 0 && raw[..k] !in TypePrefix
    ensures raw[..k] in TypePrefix ==>
      DecodeMarked(raw, f) ==
        (if f == Literal then FromLiteral(TypePrefix[raw[..k]], raw[k + 1..])
         else FromRepr(TypePrefix[raw[..k]], raw[k + 1..]))
  {
    RegistryIsPrefixInverse();
  }

  /** Decoding the representation encoding of a value gives the value back,
      through `decode_literal_or_repr` as through `decode_repr`. */
  lemma RoundTrip(v: Value)
    requires Encodable(v)
    ensures DecodeLiteralOrRepr(EncodeRepr(v)) == Ok(Some(v))
    ensures DecodeRepr(EncodeRepr(v)) == Ok(Some(v))
  {
    var t := EncodeRepr(v);
    RegistryIsPrefixInverse();
    DecodeSplitsAtFirstMarker(t);
    FirstMarkerChoosesDecoder(t);
    match v
    case Num(n) =>
      IntTextRoundTrip(n.i);
    case Str(s) =>
      Utf8.RoundTrip(s);
      Base64.RoundTrip(Utf8.Encode(s));
      Base64.EncodeIsAscii(Utf8.Encode(s));
  }

  /** No prefix contains a marker character. */
  lemma PrefixHasNoMarker(k: Kind)
    ensures forall j | 0 <= j < |Prefix(k)| :: !IsMarker(Prefix(k)[j])
  {
  }

  /** Text split around a marker that does not occur before it. */
  lemma FindAfterPrefix(p: string, m: char, payload: string)
    requires IsMarker(m)
    requires forall j | 0 <= j < |p| :: !IsMarker(p[j])
    ensures var raw := p + [m] + payload;
      Find(raw, m) == Some(|p|) && raw[..|p|] == p && raw[|p| + 1..] == payload
  {
    var raw := p + [m] + payload;
    assert raw[|p|] == m;
    assert m in raw;
    assert forall j | 0 <= j < |p| :: raw[j] == p[j] && !IsMarker(raw[j]);
    assert raw[..|p|] == p && raw[|p| + 1..] == payload;
  }

  /** A registered prefix followed by the form's own marker: the form's
      decoder runs on everything after the marker. */
  lemma DecodeMarkedPrefixed(k: Kind, f: Form, payload: string)
    ensures DecodeMarked(Prefix(k) + [Marker(f)] + payload, f) ==
      (if f == Literal then FromLiteral(k, payload) else FromRepr(k, payload))
  {
    PrefixHasNoMarker(k);
    FindAfterPrefix(Prefix(k), Marker(f), payload);
    RegistryIsPrefixInverse();
    assert Prefix(k) != "" && TypePrefix[Prefix(k)] == k;
  }

  /** A registered prefix followed by a marker: that marker chooses the
      decoder, and everything after it, later markers included, is the payload. */
  lemma DecodePrefixed(k: Kind, m: char, payload: string)
    requires IsMarker(m)
    ensures DecodeLiteralOrRepr(Prefix(k) + [m] + payload) ==
      (if m == '@' then FromLiteral(k, payload) else FromRepr(k, payload))
  {
    var p := Prefix(k);
    var raw := p + [m] + payload;
    PrefixHasNoMarker(k);
    FirstMarkerOfPrefixed(p, m, payload);
    FirstMarkerChoosesDecoder(raw);
    assert raw[|p|] == m;
    DecodeMarkedPrefixed(k, FormOf(m), payload);
  }

  /** A String literal is its text verbatim, later markers included: the
      literal form is not the representation form. */
  lemma StringLiteralVerbatim(t: string)
    ensures DecodeLiteralOrRepr("str@" + t) == Ok(Some(Str(t)))
  {
    var p := Prefix(StringKind);
    assert p == "str";
    assert "str@" + t == p + ['@'] + t;
    DecodePrefixed(StringKind, '@', t);
    assert FromLiteral(StringKind, t) == Ok(Some(Str(t)));
  }
}
