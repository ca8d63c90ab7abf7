/** The `arith` command (stdlib/arith.py): an operator symbol is rewritten
    to its word once through a lookup table, and the word selects one of
    seven arithmetic methods of the left operand. The methods themselves are
    not modelled: a successful dispatch yields the call it would make. */
module Arith {
  import opened Common
  import opened Exceptions
  import opened Values
  import opened CliInterface
  import Codec

  /** The seven arithmetic methods (`eel_arith_add` … `eel_arith_floordiv`). */
  datatype ArithOp = Plus | Minus | Times | DivideBy | Modulo | Exponent | FloorDiv

  /** `OPERATOR_LOOKUP`: symbols to words, comparisons included. */
  const OperatorLookup: map<string, string> := map[
    "==" := "eq", "!=" := "ne", ">" := "gt", "<" := "lt", ">=" := "ge", "<=" := "le",
    "+" := "plus", "-" := "minus", "*" := "times", "/" := "divideby",
    "%" := "modulo", "**" := "exponent", "//" := "floordiv"]

  /** The six comparison symbols the table also holds. */
  const ComparisonSymbols: set<string> := {"==", "!=", ">", "<", ">=", "<="}

  /** The operator text after the lookup: a symbol becomes its word, any
      other text is kept as it is. */
  function Normalise(op: string): string
  {
    if op in OperatorLookup then OperatorLookup[op] else op
  }

  /** The word the `match` accepts for each method. */
  function WordOf(op: ArithOp): string
  {
    match op
    case Plus => "plus"
    case Minus => "minus"
    case Times => "times"
    case DivideBy => "divideby"
    case Modulo => "modulo"
    case Exponent => "exponent"
    case FloorDiv => "floordiv"
  }

  /** The symbol the table maps to that word. */
  function SymbolOf(op: ArithOp): string
  {
    match op
    case Plus => "+"
    case Minus => "-"
    case Times => "*"
    case DivideBy => "/"
    case Modulo => "%"
    case Exponent => "**"
    case FloorDiv => "//"
  }

  /** The error an operator outside the seven words raises. */
  function NotAnOperator(word: string): Exc
  {
    InvalidOperation(word + " is not a valid operator")
  }

  /** The seven words, as a set. */
  const ArithWords: set<string> := {"plus", "minus", "times", "divideby", "modulo", "exponent", "floordiv"}

  lemma WordsAreArithWords(a: ArithOp)
    ensures WordOf(a) in ArithWords
  {
  }

  /** Normalise, then match the word against the seven methods. */
  function Dispatch(op: string): (r: Result<ArithOp>)
    ensures r.Ok? <==> Normalise(op) in ArithWords
    ensures r.Ok? ==> WordOf(r.value) == Normalise(op)
    ensures r.Err? ==> r.error == NotAnOperator(Normalise(op))
  {
    var w := Normalise(op);
    if w == "plus" then Ok(Plus)
    else if w == "minus" then Ok(Minus)
    else if w == "times" then Ok(Times)
    else if w == "divideby" then Ok(DivideBy)
    else if w == "modulo" then Ok(Modulo)
    else if w == "exponent" then Ok(Exponent)
    else if w == "floordiv" then Ok(FloorDiv)
    else Err(NotAnOperator(w))
  }

  /** The rewrite happens once: its result is never itself a symbol, and
      text outside the table is untouched. */
  lemma NormaliseOnce(op: string)
    ensures Normalise(op) !in OperatorLookup
    ensures Normalise(Normalise(op)) == Normalise(op)
    ensures op !in OperatorLookup ==> Normalise(op) == op
  {
    if op in OperatorLookup {
      assert forall k | k in OperatorLookup :: OperatorLookup[k] !in OperatorLookup;
    }
  }

  /** The symbol and the word of each method dispatch to it, and nothing
      else does. */
  lemma DispatchAcceptsSymbolAndWord(op: string, a: ArithOp)
    ensures Dispatch(op) == Ok(a) <==> op == WordOf(a) || op == SymbolOf(a)
  {
    if Dispatch(op) == Ok(a) && op in OperatorLookup {
      assert OperatorLookup[op] == WordOf(a);
    }
  }

  /** Every comparison symbol is in the table, normalises to a word no case
      handles, and is refused with an InvalidOperation naming that word. */
  lemma ComparisonsRejected(op: string)
    requires op in ComparisonSymbols
    ensures op in OperatorLookup
    ensures Dispatch(op) == Err(NotAnOperator(OperatorLookup[op]))
  {
  }

  lemma SymbolExamples()
    ensures Dispatch("+") == Ok(Plus) && Dispatch("plus") == Ok(Plus)
    ensures Dispatch("//") == Ok(FloorDiv) && Dispatch("floordiv") == Ok(FloorDiv)
  {
    DispatchAcceptsSymbolAndWord("+", Plus);
    DispatchAcceptsSymbolAndWord("plus", Plus);
    DispatchAcceptsSymbolAndWord("//", FloorDiv);
    DispatchAcceptsSymbolAndWord("floordiv", FloorDiv);
  }

  lemma EqualityRejected()
    ensures Dispatch("==") == Err(InvalidOperation("eq is not a valid operator"))
  {
    ComparisonsRejected("==");
    assert OperatorLookup["=="] == "eq";
    assert "eq" + " is not a valid operator" == "eq is not a valid operator";
  }

  lemma CaretRejected()
    ensures Dispatch("^") == Err(InvalidOperation("^ is not a valid operator"))
  {
    assert "^" !in OperatorLookup && "^" !in ArithWords;
    assert "^" + " is not a valid operator" == "^ is not a valid operator";
  }

  /** The method call a successful `arith` makes: the method, the receiver
      and its argument. */
  datatype Call = Call(op: ArithOp, left: Value, right: Value)

  /** `arith(left, operator, right)` on arguments the runner has already
      checked: the operator's text is dispatched, and the operands are
      passed on unchanged. */
  function ArithCommand(left: Value, operator: Value, right: Value): (r: Result<Call>)
    requires operator.Str?
    ensures r.Ok? <==> Normalise(operator.s) in ArithWords
    ensures r.Ok? ==> (r.value.left == left && r.value.right == right
      && (operator.s == WordOf(r.value.op) || operator.s == SymbolOf(r.value.op)))
    ensures r.Err? ==> r.error == NotAnOperator(Normalise(operator.s))
  {
    match Dispatch(operator.s)
    case Ok(a) =>
      DispatchAcceptsSymbolAndWord(operator.s, a);
      Ok(Call(a, left, right))
    case Err(e) => Err(e)
  }

  /** The declared parameter types: an arithmetic-capable left operand, a
      String operator, any value on the right; pipe-in enabled. */
  const ArithSignature: Signature := [[ArithmeticCapable], [Exactly(StringKind)], [AnyValue]]

  /** `@basic_interface("arith")`. */
  function Register(registry: map<string, Interface>): (r: map<string, Interface>)
    ensures "arith" in r && r["arith"] == Interface(ArithSignature, true)
    ensures forall n | n in registry && n != "arith" :: n in r && r[n] == registry[n]
  {
    BasicInterface(registry, "arith", ArithSignature, true)
  }

  /** Values accepted by the `arith` signature have the kinds its body
      relies on. */
  lemma ArithArgsFit(vs: seq<Option<Value>>)
    requires |vs| == 3
    requires forall j | 0 <= j < 3 :: AcceptedBy(ArithSignature[j], vs[j])
    ensures vs[0].Some? && ArithmeticKind(KindOf(vs[0].value))
    ensures vs[1].Some? && vs[1].value.Str? && vs[2].Some?
  {
    var sig := ArithSignature;
    assert AcceptedBy(sig[0], vs[0]) && AcceptedBy(sig[1], vs[1]) && AcceptedBy(sig[2], vs[2]);
    assert Accepts(sig[0][0], vs[0]) && Accepts(sig[1][0], vs[1]) && Accepts(sig[2][0], vs[2]);
  }

  /** The whole `arith` command line: the runner converts and checks the
      arguments, then the body runs on them. Fewer than three arguments
      reach the body short and raise the host TypeError. */
  function RunArith(args: seq<string>, stdin: string): (r: Result<Call>)
    ensures r.Ok? ==> (|args| == 3
      && Conv(args, true, stdin, 0) == Ok(Some(r.value.left))
      && Conv(args, true, stdin, 2) == Ok(Some(r.value.right))
      && ArithmeticKind(KindOf(r.value.left)))
    ensures Run("arith", ArithSignature, true, args, stdin).Err? ==>
      r == Err(Run("arith", ArithSignature, true, args, stdin).error)
    ensures var o := Run("arith", ArithSignature, true, args, stdin);
      o.Ok? && |o.value| < 3 ==> r == Err(Native("TypeError"))
    ensures var o := Run("arith", ArithSignature, true, args, stdin);
      o.Ok? && |o.value| == 3 ==>
        o.value[0].Some? && o.value[1].Some? && o.value[1].value.Str? && o.value[2].Some?
    ensures var o := Run("arith", ArithSignature, true, args, stdin);
      o.Ok? && |o.value| == 3 ==>
        r == ArithCommand(o.value[0].value, o.value[1].value, o.value[2].value)
  {
    match Run("arith", ArithSignature, true, args, stdin)
    case Err(e) => Err(e)
    case Ok(vs) =>
      if |vs| < 3 then Err(Native("TypeError"))
      else
        RunAccepted("arith", ArithSignature, true, args, stdin, vs);
        ArithArgsFit(vs);
        RunConverted("arith", ArithSignature, true, args, stdin, vs, 0);
        RunConverted("arith", ArithSignature, true, args, stdin, vs, 2);
        ArithCommand(vs[0].value, vs[1].value, vs[2].value)
  }

  lemma SignatureShape()
    ensures WellFormed(ArithSignature) && |ArithSignature| == 3
  {
  }

  /** Three arguments that each convert without touching stdin and are
      each accepted run to completion. */
  lemma RunThree(name: string, sig: Signature, args: seq<string>, stdin: string,
                 v0: Option<Value>, v1: Option<Value>, v2: Option<Value>)
    requires WellFormed(sig) && |sig| >= 3 && |args| == 3
    requires ConvertArg(args[0], true, stdin) == Converted(Ok(v0), stdin)
    requires ConvertArg(args[1], true, stdin) == Converted(Ok(v1), stdin)
    requires ConvertArg(args[2], true, stdin) == Converted(Ok(v2), stdin)
    requires AcceptedBy(sig[0], v0) && AcceptedBy(sig[1], v1) && AcceptedBy(sig[2], v2)
    ensures Run(name, sig, true, args, stdin) == Ok([v0, v1, v2])
  {
    RunFromStep(name, sig, true, args, 0, [], stdin, v0, stdin);
    RunFromStep(name, sig, true, args, 1, [v0], stdin, v1, stdin);
    RunFromStep(name, sig, true, args, 2, [v0, v1], stdin, v2, stdin);
    assert [] + [v0] == [v0] && [v0] + [v1] == [v0, v1] && [v0, v1] + [v2] == [v0, v1, v2];
    assert RunFrom(name, sig, true, args, 3, [v0, v1, v2], stdin) == Ok([v0, v1, v2]);
  }

  /** The arguments of `arith <x> str@<op> <y>`, with integers x and y in
      their encoded form, all convert and are accepted. */
  lemma ArithArguments(args: seq<string>, x: int, t: string, y: int, stdin: string)
    requires args == [Codec.EncodeRepr(Num(Int(x))), "str@" + t, Codec.EncodeRepr(Num(Int(y)))]
    ensures Run("arith", ArithSignature, true, args, stdin)
      == Ok([Some(Num(Int(x))), Some(Str(t)), Some(Num(Int(y)))])
  {
    var sig := ArithSignature;
    var v0, v1, v2 := Some(Num(Int(x))), Some(Str(t)), Some(Num(Int(y)));
    EncodedArgumentConverts(Num(Int(x)), true, stdin);
    StringLiteralArgument(t, true, stdin);
    EncodedArgumentConverts(Num(Int(y)), true, stdin);
    assert args[0] == Codec.EncodeRepr(Num(Int(x))) && args[1] == "str@" + t
      && args[2] == Codec.EncodeRepr(Num(Int(y)));
    assert ConvertArg(args[0], true, stdin) == Converted(Ok(v0), stdin);
    assert ConvertArg(args[1], true, stdin) == Converted(Ok(v1), stdin);
    assert ConvertArg(args[2], true, stdin) == Converted(Ok(v2), stdin);
    assert Accepts(sig[0][0], v0) && Accepts(sig[1][0], v1) && Accepts(sig[2][0], v2);
    SignatureShape();
    RunThree("arith", sig, args, stdin, v0, v1, v2);
  }

  /** End to end: `arith <x> str@<symbol> <y>` with encoded integers calls the
      symbol's method on x with argument y; `arith num!3 str@+ num!4`, for
      one, calls `eel_arith_add` on 3 with 4. */
  lemma ArithEndToEnd(x: int, a: ArithOp, y: int, stdin: string)
    ensures RunArith([Codec.EncodeRepr(Num(Int(x))), "str@" + SymbolOf(a), Codec.EncodeRepr(Num(Int(y)))], stdin)
      == Ok(Call(a, Num(Int(x)), Num(Int(y))))
  {
    var args := [Codec.EncodeRepr(Num(Int(x))), "str@" + SymbolOf(a), Codec.EncodeRepr(Num(Int(y)))];
    ArithArguments(args, x, SymbolOf(a), y, stdin);
    DispatchAcceptsSymbolAndWord(SymbolOf(a), a);
  }
}
