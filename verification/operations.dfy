/** The generic operators of Eel values (type_def.py): payload comparison,
    the ordering of Comparable values with its chained `>=` and `<=`, and
    the value-returning `and` and `or`. */
module Operations {
  import opened Exceptions
  import opened Values
  import opened Conversions

  /** `eel_op_comp`: equality of the two payloads. */
  function Comp(a: Value, b: Value): bool
    requires Scalar(a) && Scalar(b)
  {
    match (a, b)
    case (Num(x), Num(y)) => x.i == y.i
    case (Str(s), Str(t)) => s == t
    case (Bol(p), Bol(q)) => p == q
    case _ => false
  }

  /** On the payloads the model compares, payload equality is value equality. */
  lemma CompIsValueEquality(a: Value, b: Value)
    requires Scalar(a) && Scalar(b)
    ensures Comp(a, b) <==> a == b
  {
  }

  /** Right operands an ordering of an integer can be asked about in the model:
      anything but a float Number or a Boolean. */
  predicate OrderOperand(b: Value) { !b.Bol? && !(b.Num? && b.n.Float?) }

  /** `eel_op_greater`: defined between Numbers; any other right operand
      makes the host comparison raise its TypeError. */
  function Greater(a: Value, b: Value): (r: Result<bool>)
    requires IsIntNumber(a) && OrderOperand(b)
    ensures r.Ok? <==> b.Num?
    ensures r.Ok? ==> (r.value <==> a.n.i > b.n.i)
    ensures r.Err? ==> r.error == Native("TypeError")
  {
    if b.Num? then Ok(a.n.i > b.n.i) else Err(Native("TypeError"))
  }

  /** `eel_op_less`, likewise. */
  function Less(a: Value, b: Value): (r: Result<bool>)
    requires IsIntNumber(a) && OrderOperand(b)
    ensures r.Ok? <==> b.Num?
    ensures r.Ok? ==> (r.value <==> a.n.i < b.n.i)
    ensures r.Err? ==> r.error == Native("TypeError")
  {
    if b.Num? then Ok(a.n.i < b.n.i) else Err(Native("TypeError"))
  }

  /** `eel_op_greater_or_eq`: the strict comparison, and only when that is
      false, payload equality. */
  function GreaterOrEq(a: Value, b: Value): (r: Result<bool>)
    requires IsIntNumber(a) && OrderOperand(b)
    ensures r.Ok? <==> b.Num?
    ensures r.Ok? ==> (r.value <==> a.n.i >= b.n.i)
    ensures r.Err? ==> r == Greater(a, b)
  {
    match Greater(a, b)
    case Err(e) => Err(e)
    case Ok(g) => if g then Ok(g) else Ok(Comp(a, b))
  }

  /** `eel_op_less_or_eq`: the strict comparison, then payload equality. */
  function LessOrEq(a: Value, b: Value): (r: Result<bool>)
    requires IsIntNumber(a) && OrderOperand(b)
    ensures r.Ok? <==> b.Num?
    ensures r.Ok? ==> (r.value <==> a.n.i <= b.n.i)
    ensures r.Err? ==> r == Less(a, b)
  {
    match Less(a, b)
    case Err(e) => Err(e)
    case Ok(l) => if l then Ok(l) else Ok(Comp(a, b))
  }

  /** Between integer Numbers the two strict orderings mirror each other and
      never hold together. */
  lemma GreaterLessMirror(a: Value, b: Value)
    requires IsIntNumber(a) && IsIntNumber(b)
    ensures Greater(a, b) == Less(b, a)
    ensures Greater(a, b) == Ok(true) ==> Less(a, b) == Ok(false)
    ensures Less(a, b) == Ok(true) ==> Greater(a, b) == Ok(false)
  {
  }

  /** The two-step definitions are `greater OR comp` and `less OR comp`, with
      the strict comparison's exception propagating. */
  lemma OrEqIsStrictOrComp(a: Value, b: Value)
    requires IsIntNumber(a) && IsIntNumber(b)
    ensures GreaterOrEq(a, b) == Ok(Greater(a, b).value || Comp(a, b))
    ensures LessOrEq(a, b) == Ok(Less(a, b).value || Comp(a, b))
    ensures GreaterOrEq(a, b) == LessOrEq(b, a)
  {
  }

  /** Equal Numbers satisfy `>=` through the equality step; a larger left
      Number through the strict step. */
  lemma OrEqBranches()
    ensures Greater(Num(Int(3)), Num(Int(3))) == Ok(false) && Comp(Num(Int(3)), Num(Int(3)))
    ensures GreaterOrEq(Num(Int(3)), Num(Int(3))) == Ok(true)
    ensures Greater(Num(Int(5)), Num(Int(3))) == Ok(true)
    ensures GreaterOrEq(Num(Int(5)), Num(Int(3))) == Ok(true)
  {
  }

  /** `eel_op_and`: the right operand when the left is true, else the left. */
  function And(a: Value, b: Value): (r: Value)
    requires Scalar(a)
    ensures r == a || r == b
    ensures Truthy(a) ==> r == b
    ensures !Truthy(a) ==> r == a
  {
    if Truthy(a) then b else a
  }

  /** `eel_op_or`: the left operand when it is true, else the right. */
  function Or(a: Value, b: Value): (r: Value)
    requires Scalar(a)
    ensures r == a || r == b
    ensures Truthy(a) ==> r == a
    ensures !Truthy(a) ==> r == b
  {
    if Truthy(a) then a else b
  }

  /** Short-circuit value semantics: the operand returned has the truth the
      boolean connective would give, and no truth value is invented. */
  lemma AndOrTruth(a: Value, b: Value)
    requires Scalar(a) && Scalar(b)
    ensures Scalar(And(a, b)) && (Truthy(And(a, b)) <==> Truthy(a) && Truthy(b))
    ensures Scalar(Or(a, b)) && (Truthy(Or(a, b)) <==> Truthy(a) || Truthy(b))
    ensures !a.Bol? && !b.Bol? ==> !And(a, b).Bol? && !Or(a, b).Bol?
  {
  }
}
