/** The older `arithmetic` command (stdlib.py), called directly with three
    values and checking their kinds itself before dispatching exactly as
    `arith` does. Its own registry, `BASIC_INTERFACE`, is a separate table
    that stores the command under its name. */
module Stdlib {
  import opened Common
  import opened Exceptions
  import opened Values
  import Arith

  /** The name the decorator gives the function (`arithmetic.__name__`). */
  const CommandName: string := "arith"

  /** This file's own copy of the operator table. */
  const OperatorLookup: map<string, string> := map[
    "==" := "eq", "!=" := "ne", ">" := "gt", "<" := "lt", ">=" := "ge", "<=" := "le",
    "+" := "plus", "-" := "minus", "*" := "times", "/" := "divideby",
    "%" := "modulo", "**" := "exponent", "//" := "floordiv"]

  /** The two tables are the same, so normalisation agrees. */
  lemma TablesAgree()
    ensures OperatorLookup == Arith.OperatorLookup
  {
  }

  /** A stand-in for the arithmetic capability's name in guard messages:
      `EelTypeArithmetic.NAME` is never assigned, so the text the guards
      meant is unknown. */
  const ArithmeticName: string := "EelTypeArithmetic"

  /** The guards as written: the left and right messages read
      `EelTypeArithmetic.NAME`, which is only annotated and never assigned,
      so building either message raises the host AttributeError; the
      operator message names the left operand's kind, not the operator's. */
  function ArithmeticAsWritten(left: Value, operator: Value, right: Value): (r: Result<Arith.Call>)
    ensures !ArithmeticKind(KindOf(left)) ==> r == Err(Native("AttributeError"))
    ensures ArithmeticKind(KindOf(left)) && !operator.Str? ==> r == Err(GuardError("String", left))
    ensures ArithmeticKind(KindOf(left)) && operator.Str? && !ArithmeticKind(KindOf(right)) ==>
      r == Err(Native("AttributeError"))
    ensures ArithmeticKind(KindOf(left)) && operator.Str? && ArithmeticKind(KindOf(right)) ==>
      r == Arith.ArithCommand(left, operator, right)
  {
    if !ArithmeticKind(KindOf(left)) then Err(Native("AttributeError"))
    else if !operator.Str? then Err(GuardError(KindName(StringKind), left))
    else if !ArithmeticKind(KindOf(right)) then Err(Native("AttributeError"))
    else Arith.ArithCommand(left, operator, right)
  }

  /** The TypeError a guard raises for operand `v` of the expected class. */
  function GuardError(expected: string, v: Value): Exc
  {
    TypeError(CommandName + ": " + expected + " operand expected, got " + KindName(KindOf(v)))
  }

  /** The guards as evidently intended: each raises the Eel TypeError and
      names the kind of the operand it rejects. */
  function Arithmetic(left: Value, operator: Value, right: Value): (r: Result<Arith.Call>)
    ensures r.Err? && r.error.TypeError? <==>
      !ArithmeticKind(KindOf(left)) || !operator.Str? || !ArithmeticKind(KindOf(right))
    ensures !ArithmeticKind(KindOf(left)) ==> r == Err(GuardError(ArithmeticName, left))
    ensures ArithmeticKind(KindOf(left)) && !operator.Str? ==> r == Err(GuardError("String", operator))
    ensures ArithmeticKind(KindOf(left)) && operator.Str? && !ArithmeticKind(KindOf(right)) ==>
      r == Err(GuardError(ArithmeticName, right))
    ensures r.Ok? ==> r.value.left == left && r.value.right == right
  {
    if !ArithmeticKind(KindOf(left)) then Err(GuardError(ArithmeticName, left))
    else if !operator.Str? then Err(GuardError(KindName(StringKind), operator))
    else if !ArithmeticKind(KindOf(right)) then Err(GuardError(ArithmeticName, right))
    else Arith.ArithCommand(left, operator, right)
  }

  /** Once the guards pass, the older command dispatches exactly as `arith`
      does; its only difference is the stricter right operand, which `arith`
      accepts from any kind. */
  lemma AgreesWithArith(left: Value, operator: Value, right: Value)
    requires operator.Str?
    ensures ArithmeticKind(KindOf(left)) && ArithmeticKind(KindOf(right)) ==>
      Arithmetic(left, operator, right) == Arith.ArithCommand(left, operator, right)
    ensures ArithmeticKind(KindOf(left)) && !ArithmeticKind(KindOf(right)) ==>
      Arithmetic(left, operator, right).Err? && Arith.ArithCommand(left, operator, right).Ok?
        == (Arith.Normalise(operator.s) in Arith.ArithWords)
  {
  }

  /** Unknown operators and the comparison symbols raise InvalidOperation,
      as in `arith`. */
  lemma UnknownOperatorsRejected(left: Value, op: string, right: Value)
    requires ArithmeticKind(KindOf(left)) && ArithmeticKind(KindOf(right))
    requires Arith.Normalise(op) !in Arith.ArithWords
    ensures Arithmetic(left, Str(op), right) == Err(Arith.NotAnOperator(Arith.Normalise(op)))
  {
  }

  /** A String left operand: the code as written raises AttributeError while
      building its message, where a TypeError was meant. */
  lemma LeftGuardEscapes()
    ensures ArithmeticAsWritten(Str("a"), Str("+"), Num(Int(1))) == Err(Native("AttributeError"))
    ensures Arithmetic(Str("a"), Str("+"), Num(Int(1))) == Err(GuardError(ArithmeticName, Str("a")))
  {
  }

  /** A List operator after a Number: the code as written reports the left
      operand's kind ("got Number") instead of the operator's ("got List"). */
  lemma OperatorGuardNamesLeft()
    ensures ArithmeticAsWritten(Num(Int(1)), Lst([]), Num(Int(2))) == Err(GuardError("String", Num(Int(1))))
    ensures Arithmetic(Num(Int(1)), Lst([]), Num(Int(2))) == Err(GuardError("String", Lst([])))
    ensures GuardError("String", Num(Int(1))) != GuardError("String", Lst([]))
  {
    var a := GuardError("String", Num(Int(1)));
    var b := GuardError("String", Lst([]));
    assert |a.message| != |b.message|;
  }

  /** Only Numbers and Strings can be built in the code (List, Dictionary
      and Boolean leave abstract methods unimplemented), so an operator that
      fails its guard is a Number, after a left operand that passed its guard
      and is therefore a Number too: on those, naming the left operand's
      kind gives the same message as naming the operator's. */
  lemma OperatorGuardLatent(left: Value, operator: Value, right: Value)
    requires ArithmeticKind(KindOf(left)) && operator.Num?
    ensures ArithmeticAsWritten(left, operator, right) == Arithmetic(left, operator, right)
    ensures Arithmetic(left, operator, right) == Err(GuardError("String", operator))
  {
  }

  /** The entry `BASIC_INTERFACE` stores: the command itself. */
  datatype Command = ArithmeticCommand

  /** `basic_interface(name)` of stdlib.py: stores the function under its
      name and keeps every other entry. */
  function Register(registry: map<string, Command>, name: string, c: Command): (r: map<string, Command>)
    ensures name in r && r[name] == c
    ensures r.Keys == registry.Keys + {name}
    ensures forall n | n in registry && n != name :: r[n] == registry[n]
  {
    registry[name := c]
  }

  /** The table as this file leaves it: `arithmetic` under "arith" only. */
  const BasicInterface: map<string, Command> := Register(map[], CommandName, ArithmeticCommand)

  lemma BasicInterfaceHoldsArith()
    ensures BasicInterface.Keys == {"arith"} && BasicInterface["arith"] == ArithmeticCommand
  {
  }
}
