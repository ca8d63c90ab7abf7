/** The per-kind conversions of Number and String (type_def.py), and the
    truthiness `eel_to_bool` gives them. */
module Conversions {
  import opened Common
  import opened Exceptions
  import opened Misc
  import opened Values
  import opened Codec

  /** The truth of a value: a Number is true when non-zero, a String when
      non-empty, a Boolean is its own payload. */
  predicate Truthy(v: Value)
    requires Scalar(v)
  {
    match v
    case Num(n) => n.i != 0
    case Str(s) => |s| > 0
    case Bol(b) => b
  }

  /** Kinds whose conversions exist in the source: Number and String. */
  predicate Convertible(v: Value) { v.Num? || v.Str? }

  /** `eel_to_bool`: a Boolean holding the value's truth. */
  function ToBool(v: Value): (r: Value)
    requires IsIntNumber(v) || v.Str?
    ensures r.Bol?
    ensures v.Num? ==> (r.b <==> v.n.i != 0)
    ensures v.Str? ==> (r.b <==> v.s != "")
  {
    Bol(Truthy(v))
  }

  /** `eel_to_string`: a String keeps its text; an integer becomes the decimal
      text that denotes it. */
  function ToStringValue(v: Value): (r: Value)
    requires IsIntNumber(v) || v.Str?
    ensures r.Str?
    ensures v.Str? ==> r == v
    ensures v.Num? ==> r.s == IntToText(v.n.i)
    ensures v.Num? ==> CanonicalIntText(r.s) && ParseInt(r.s) == Some(v.n.i)
  {
    match v
    case Num(n) =>
      IntTextRoundTrip(n.i);
      Str(IntToText(n.i))
    case Str(s) => Str(s)
  }

  /** `eel_to_number`: a Number keeps its payload; a String's text goes
      through Number decoding, so only numeric text converts. */
  function ToNumber(v: Value): (r: Result<Value>)
    requires Convertible(v)
    ensures v.Num? ==> r == Ok(v)
    ensures v.Str? && IntText(v.s) ==> r.Ok? && IsIntNumber(r.value) && Some(r.value.n.i) == ParseInt(v.s)
    ensures v.Str? && !FloatText(v.s) ==> r == Err(SysTypeError(None))
  {
    match v
    case Num(n) => Ok(Num(n))
    case Str(s) => NumberFromText(s)
  }

  /** The message of a refused conversion. */
  function CannotConvert(from: Kind, to: Kind): string
  {
    "Cannot convert type " + KindName(from) + " to " + KindName(to)
  }

  /** `eel_to_list` of a Number: refused. */
  function ToList(v: Value): (r: Result<Value>)
    requires v.Num?
    ensures r == Err(InvalidOperation(CannotConvert(NumberKind, ListKind)))
  {
    Err(InvalidOperation(CannotConvert(KindOf(v), ListKind)))
  }

  /** `eel_to_dict`: refused for both Number and String, naming the source kind. */
  function ToDict(v: Value): (r: Result<Value>)
    requires Convertible(v)
    ensures r.Err? && r.error.InvalidOperation?
    ensures v.Num? ==> r.error.message == "Cannot convert type Number to Dictionary"
    ensures v.Str? ==> r.error.message == "Cannot convert type String to Dictionary"
  {
    Err(InvalidOperation(CannotConvert(KindOf(v), DictKind)))
  }

  /** An integer survives the trip Number -> String -> Number. */
  lemma NumberStringNumber(i: int)
    ensures ToNumber(ToStringValue(Num(Int(i)))) == Ok(Num(Int(i)))
  {
    IntTextRoundTrip(i);
  }

  /** Converting a String to a Number is exactly decoding its text as a
      Number representation. */
  lemma StringToNumberIsNumberDecoding(s: string)
    ensures var d := DecodeRepr("num!" + s);
      match ToNumber(Str(s))
      case Ok(v) => d == Ok(Some(v))
      case Err(e) => d == Err(e)
  {
    DecodeMarkedPrefixed(NumberKind, Repr, s);
    assert "num!" + s == Prefix(NumberKind) + [Marker(Repr)] + s;
  }

  /** Integer text in the form `str(int)` writes it survives the trip
      String -> Number -> String. */
  lemma StringNumberString(s: string)
    requires CanonicalIntText(s)
    ensures var n := ToNumber(Str(s)); n.Ok? && ToStringValue(n.value) == Str(s)
  {
    IsIntMatchesGrammar(s);
    CanonicalIntTextRoundTrip(s);
  }
}
