/** Numeric-literal classification (misc.py) together with the decimal text
    of integers that `str(int)` produces. Python's `int()` and `float()` are
    modelled on ASCII text: an optional sign, digits, and for floats a
    decimal point, an exponent or one of the words inf, infinity and nan. */
module Misc {
  import opened Common

  predicate IsDigit(c: char) { '0' <= c <= '9' }

  predicate AllDigits(s: string) { forall i | 0 <= i < |s| :: IsDigit(s[i]) }

  predicate IsSign(c: char) { c == '+' || c == '-' }

  /** The text after an optional leading sign. */
  function Unsigned(s: string): (u: string)
    ensures |u| <= |s|
  {
    if |s| > 0 && IsSign(s[0]) then s[1..] else s
  }

  /** Reference grammar of an integer literal: an optional sign and then one
      or more digits. */
  predicate IntText(s: string)
  {
    var d := Unsigned(s);
    |d| > 0 && AllDigits(d)
  }

  function DigitValue(c: char): (v: nat)
    requires IsDigit(c)
    ensures v < 10
  {
    (c as int) - ('0' as int)
  }

  function DigitChar(v: nat): (c: char)
    requires v < 10
    ensures IsDigit(c) && DigitValue(c) == v
  {
    (('0' as int) + v) as char
  }

  /** Value of a run of digits, most significant first, or None when a
      character is not a digit. */
  function ParseDigits(d: string): Option<nat>
    decreases |d|
  {
    if |d| == 0 then Some(0)
    else match ParseDigits(d[..|d| - 1])
      case None => None
      case Some(v) =>
        if IsDigit(d[|d| - 1]) then Some(v * 10 + DigitValue(d[|d| - 1])) else None
  }

  /** Python's `int(s)`: the integer the text denotes, or None where `int`
      raises ValueError. */
  function ParseInt(s: string): Option<int>
  {
    var d := Unsigned(s);
    if |d| == 0 then None
    else match ParseDigits(d)
      case None => None
      case Some(v) =>
        var i: int := if s[0] == '-' then -(v as int) else v;
        Some(i)
  }

  /** `is_int`: whether integer parsing of the text succeeds. It is total: it
      answers for every string and raises nothing. */
  predicate IsInt(s: string)
  {
    ParseInt(s).Some?
  }

  /** A run of characters parses as digits exactly when every character is a digit. */
  lemma {:induction false} ParseDigitsAcceptsDigits(d: string)
    ensures ParseDigits(d).Some? <==> AllDigits(d)
    decreases |d|
  {
    if |d| > 0 {
      var init := d[..|d| - 1];
      ParseDigitsAcceptsDigits(init);
      if AllDigits(d) {
        assert AllDigits(init) by {
          forall i | 0 <= i < |init| ensures IsDigit(init[i]) { assert init[i] == d[i]; }
        }
      } else if AllDigits(init) {
        assert !IsDigit(d[|d| - 1]) by {
          forall i | 0 <= i < |d| - 1 ensures IsDigit(d[i]) { assert d[i] == init[i]; }
        }
      }
    }
  }

  /** `is_int` accepts exactly the integer-literal grammar. */
  lemma IsIntMatchesGrammar(s: string)
    ensures IsInt(s) <==> IntText(s)
  {
    ParseDigitsAcceptsDigits(Unsigned(s));
  }

  /** Digits in the form `str` writes them: at least one, and no leading
      zero unless the text is "0" itself. */
  predicate CanonicalDigits(d: string)
  {
    |d| > 0 && AllDigits(d) && (|d| > 1 ==> d[0] != '0')
  }

  /** Integer text in the form `str(int)` writes it: no '+', no "-0", and
      canonical digits. */
  predicate CanonicalIntText(s: string)
  {
    IntText(s) && s[0] != '+' && s != "-0" && CanonicalDigits(Unsigned(s))
  }

  /** Decimal text of a natural number, without leading zeros. */
  function NatToText(n: nat): (r: string)
    ensures CanonicalDigits(r)
    ensures r[0] == '0' <==> n == 0
    ensures n == 0 ==> r == "0"
    decreases n
  {
    if n < 10 then [DigitChar(n)]
    else NatToText(n / 10) + [DigitChar(n % 10)]
  }

  /** `str(i)` for an integer: a minus sign for negatives, then the digits. */
  function IntToText(i: int): (r: string)
    ensures CanonicalIntText(r)
    ensures (r[0] == '-') <==> i < 0
  {
    if i < 0 then "-" + NatToText(-i) else NatToText(i)
  }

  lemma {:induction false} NatTextRoundTrip(n: nat)
    ensures ParseDigits(NatToText(n)) == Some(n)
    decreases n
  {
    var t := NatToText(n);
    if n < 10 {
      assert t[..0] == "";
    } else {
      NatTextRoundTrip(n / 10);
      assert t[..|t| - 1] == NatToText(n / 10);
    }
  }

  /** `int(str(i)) == i`: the decimal text of an integer parses back to it. */
  lemma IntTextRoundTrip(i: int)
    ensures ParseInt(IntToText(i)) == Some(i)
  {
    var t := IntToText(i);
    if i < 0 {
      NatTextRoundTrip(-i);
      assert Unsigned(t) == NatToText(-i);
    } else {
      NatTextRoundTrip(i);
      assert Unsigned(t) == NatToText(i);
    }
  }

  /** `str(int(d)) == d` on canonical digits: the decimal text of the value
      canonical digits denote is those digits. */
  lemma {:induction false} CanonicalDigitsRoundTrip(d: string)
    requires CanonicalDigits(d)
    ensures ParseDigits(d).Some? && NatToText(ParseDigits(d).value) == d
    decreases |d|
  {
    ParseDigitsAcceptsDigits(d);
    var last := d[|d| - 1];
    var dv := DigitValue(last);
    if |d| == 1 {
      assert d[..0] == "";
      assert ParseDigits(d) == Some(dv);
      assert NatToText(dv) == [DigitChar(dv)] == [last];
    } else {
      var init := d[..|d| - 1];
      assert init[0] == d[0];
      assert AllDigits(init) by {
        forall i | 0 <= i < |init| ensures IsDigit(init[i]) { assert init[i] == d[i]; }
      }
      CanonicalDigitsRoundTrip(init);
      var p := ParseDigits(init).value;
      assert NatToText(p) == init && init[0] != '0';
      var v := p * 10 + dv;
      assert ParseDigits(d) == Some(v);
      assert v / 10 == p && v % 10 == dv;
      assert NatToText(v) == NatToText(p) + [DigitChar(dv)];
      assert DigitChar(dv) == last;
      assert d == init + [last];
    }
  }

  /** `str(int(s)) == s` on canonical integer text. */
  lemma CanonicalIntTextRoundTrip(s: string)
    requires CanonicalIntText(s)
    ensures ParseInt(s).Some? && IntToText(ParseInt(s).value) == s
  {
    var u := Unsigned(s);
    CanonicalDigitsRoundTrip(u);
    var p := ParseDigits(u).value;
    if s[0] == '-' {
      assert s == "-" + u && s != "-0";
      assert u != "0" && NatToText(p) == u;
      assert ParseInt(s).value == -(p as int);
      assert s == "-" + u;
    } else {
      assert u == s;
      assert ParseInt(s) == Some(p);
    }
  }

  /** Python's `str.lower` on one ASCII character. */
  function Lower(c: char): char
  {
    if 'A' <= c <= 'Z' then ((c as int) + 32) as char else c
  }

  /** The text equals the lower-case word `w` when case is ignored. */
  predicate SameIgnoringCase(s: string, w: string)
  {
    |s| == |w| && forall i | 0 <= i < |s| :: Lower(s[i]) == w[i]
  }

  /** The words `float()` accepts for infinities and not-a-number. */
  predicate SpecialFloatWord(u: string)
  {
    SameIgnoringCase(u, "inf") || SameIgnoringCase(u, "infinity") || SameIgnoringCase(u, "nan")
  }

  /** Digits with at most one decimal point and at least one digit. */
  predicate MantissaText(m: string)
  {
    match Find(m, '.')
    case None => |m| > 0 && AllDigits(m)
    case Some(k) => |m| > 1 && AllDigits(m[..k]) && AllDigits(m[k + 1..])
  }

  predicate IsExponentMark(c: char) { c == 'e' || c == 'E' }

  /** An unsigned decimal float: a mantissa, optionally followed by an
      exponent mark and a signed integer. */
  predicate DecimalFloatText(u: string)
  {
    MantissaText(u)
    || exists k | 0 <= k < |u| && IsExponentMark(u[k]) :: MantissaText(u[..k]) && IntText(u[k + 1..])
  }

  /** Whether Python's `float(s)` succeeds, on the ASCII grammar above. */
  predicate FloatText(s: string)
  {
    var u := Unsigned(s);
    SpecialFloatWord(u) || DecimalFloatText(u)
  }

  /** `is_float_strict`: the text parses as a float but not as an integer.
      Total, like `is_int`. */
  predicate IsFloatStrict(s: string)
  {
    FloatText(s) && !IsInt(s)
  }

  /** The float grammar contains the integer grammar, which is why the strict
      test has to exclude integers for the two classes to be disjoint. */
  lemma IntTextIsFloatText(s: string)
    requires IntText(s)
    ensures FloatText(s)
    ensures !IsFloatStrict(s)
  {
    var u := Unsigned(s);
    assert forall i | 0 <= i < |u| :: u[i] != '.';
    assert MantissaText(u);
    IsIntMatchesGrammar(s);
  }

  /** Every text falls in exactly one class: integer, strict float, or
      neither; and the strict float test fails whenever float parsing fails. */
  lemma ClassesPartition(s: string)
    ensures !(IsInt(s) && IsFloatStrict(s))
    ensures !FloatText(s) ==> !IsFloatStrict(s) && !IsInt(s)
    ensures IsInt(s) || IsFloatStrict(s) || !FloatText(s)
  {
    IsIntMatchesGrammar(s);
    if IntText(s) {
      IntTextIsFloatText(s);
    }
  }
}
