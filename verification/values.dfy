/** The Eel value model (type_def.py): five kinds of value, each registered
    under a three-letter prefix and a display name. */
module Values {
  import opened Common

  /** The registered kinds, one per `@eel_type` class. */
  datatype Kind = NumberKind | StringKind | ListKind | DictKind | BoolKind

  /** A Number's payload: an integer, or a float kept as the literal text it
      was decoded from (float arithmetic and formatting are not modelled). */
  datatype Number = Int(i: int) | Float(literal: string)

  /** An Eel value: its kind and its payload. */
  datatype Value =
    | Num(n: Number)
    | Str(s: string)
    | Lst(items: seq<Value>)
    | Dic(entries: seq<(Value, Value)>)
    | Bol(b: bool)

  function KindOf(v: Value): Kind
  {
    match v
    case Num(_) => NumberKind
    case Str(_) => StringKind
    case Lst(_) => ListKind
    case Dic(_) => DictKind
    case Bol(_) => BoolKind
  }

  /** The `PREFIX` each kind is registered under. */
  function Prefix(k: Kind): string
  {
    match k
    case NumberKind => "num"
    case StringKind => "str"
    case ListKind => "lst"
    case DictKind => "dic"
    case BoolKind => "bol"
  }

  /** The `NAME` each kind is registered with. */
  function KindName(k: Kind): string
  {
    match k
    case NumberKind => "Number"
    case StringKind => "String"
    case ListKind => "List"
    case DictKind => "Dictionary"
    case BoolKind => "Boolean"
  }

  /** `TYPE_PREFIX`: the prefix registry as the five registrations leave it. */
  const TypePrefix: map<string, Kind> :=
    map["num" := NumberKind, "str" := StringKind, "lst" := ListKind, "dic" := DictKind, "bol" := BoolKind]

  /** The registry maps every kind's prefix to that kind and holds nothing
      else, so prefixes are unique across kinds. */
  lemma RegistryIsPrefixInverse()
    ensures forall k: Kind :: Prefix(k) in TypePrefix && TypePrefix[Prefix(k)] == k
    ensures forall p | p in TypePrefix :: Prefix(TypePrefix[p]) == p
    ensures forall k1: Kind, k2: Kind :: Prefix(k1) == Prefix(k2) ==> k1 == k2
  {
    forall k1: Kind, k2: Kind | Prefix(k1) == Prefix(k2) ensures k1 == k2 {
      assert TypePrefix[Prefix(k1)] == k1;
    }
  }

  /** Kinds mixing in `EelTypeArithmetic`: only Number. */
  predicate ArithmeticKind(k: Kind) { k == NumberKind }

  /** Kinds mixing in `EelTypeComparable`: only Number. */
  predicate ComparableKind(k: Kind) { k == NumberKind }

  /** Kinds mixing in `EelTypeSequence`: List and Dictionary. */
  predicate SequenceKind(k: Kind) { k == ListKind || k == DictKind }

  /** An integer Number. */
  predicate IsIntNumber(v: Value) { v.Num? && v.n.Int? }

  /** A value whose payload the model can test for truth and compare: an
      integer Number, a String or a Boolean. */
  predicate Scalar(v: Value) { IsIntNumber(v) || v.Str? || v.Bol? }
}
