/** The argument converter and type-checked invoker (cli_interface.py):
    the pipe-in sentinel, the String fallback, positional kind checking
    with its error message, and command registration. Standard input is a
    parameter: the first argument that reads it receives all of it, and the
    stream is empty afterwards. */
module CliInterface {
  import opened Common
  import opened Exceptions
  import opened Misc
  import opened Values
  import opened Codec

  /** `PIPE_IN_HOLDER`. */
  const PipeInHolder: string := "@"

  /** The text an argument is decoded from, what is left of standard input
      after it, and whether it read standard input. */
  datatype Rewritten = Rewritten(text: string, stdinLeft: string, readStdin: bool)

  predicate StartsWithDoubleHolder(raw: string) { |raw| >= 2 && raw[..2] == "@@" }

  /** The sentinel rules of `convert_arg`, applied before decoding and only
      when pipe-in is enabled: "@" alone is replaced by all of standard
      input; text starting "@@" loses its first character. */
  function RewriteArg(raw: string, pipeIn: bool, stdin: string): (r: Rewritten)
    ensures r.readStdin <==> pipeIn && raw == PipeInHolder
    ensures r.readStdin ==> r.text == stdin && r.stdinLeft == ""
    ensures !r.readStdin ==> r.stdinLeft == stdin
    ensures !pipeIn ==> r.text == raw
    ensures pipeIn && StartsWithDoubleHolder(raw) ==> r.text == raw[1..]
    ensures pipeIn && raw != PipeInHolder && !StartsWithDoubleHolder(raw) ==> r.text == raw
  {
    if pipeIn && raw == PipeInHolder then Rewritten(stdin, "", true)
    else if pipeIn && StartsWithDoubleHolder(raw) then Rewritten(raw[1..], stdin, false)
    else Rewritten(raw, stdin, false)
  }

  /** Doubling the sentinel escapes it: "@" put in front of any text that
      starts with "@" is removed again, and standard input is left alone. */
  lemma DoubledHolderEscapes(t: string, stdin: string)
    requires |t| > 0 && t[0] == '@'
    ensures RewriteArg("@" + t, true, stdin) == Rewritten(t, stdin, false)
  {
    var raw := "@" + t;
    assert raw[..2] == "@@";
    assert raw[1..] == t;
  }

  /** The outcome of converting one argument, and the standard input left. */
  datatype Converted = Converted(result: Decoded, stdinLeft: string)

  /** `convert_arg`: rewrite, decode, and fall back to a bare String holding
      the rewritten text when (and only when) decoding says the text is not
      a representation. */
  function ConvertArg(raw: string, pipeIn: bool, stdin: string): (r: Converted)
    ensures r.stdinLeft == RewriteArg(raw, pipeIn, stdin).stdinLeft
    ensures var w := RewriteArg(raw, pipeIn, stdin);
      var d := DecodeLiteralOrRepr(w.text);
      d.Err? && d.error.NotAnEelRepr? ==> r.result == Ok(Some(Str(w.text)))
    ensures var w := RewriteArg(raw, pipeIn, stdin);
      var d := DecodeLiteralOrRepr(w.text);
      !(d.Err? && d.error.NotAnEelRepr?) ==> r.result == d
    ensures r.result.Err? ==> !r.result.error.NotAnEelRepr?
  {
    var w := RewriteArg(raw, pipeIn, stdin);
    var d := DecodeLiteralOrRepr(w.text);
    var result := if d.Err? && d.error.NotAnEelRepr? then Ok(Some(Str(w.text))) else d;
    Converted(result, w.stdinLeft)
  }

  /** When the fallback applies, stated on the text alone: exactly when the
      rewritten text has no marker, or has one at its very start. */
  lemma FallbackIffNoPrefix(raw: string, pipeIn: bool, stdin: string)
    ensures var t := RewriteArg(raw, pipeIn, stdin).text;
      (FirstMarker(t).None? || FirstMarker(t) == Some(0)) ==>
        ConvertArg(raw, pipeIn, stdin).result == Ok(Some(Str(t)))
    ensures var t := RewriteArg(raw, pipeIn, stdin).text;
      FirstMarker(t).Some? && FirstMarker(t).value > 0 ==>
        ConvertArg(raw, pipeIn, stdin).result == DecodeLiteralOrRepr(t)
  {
    DecodeSplitsAtFirstMarker(RewriteArg(raw, pipeIn, stdin).text);
  }

  /** An argument that is the representation encoding of a value converts to
      that value, with or without pipe-in, leaving standard input unread. */
  lemma EncodedArgumentConverts(v: Value, pipeIn: bool, stdin: string)
    requires Encodable(v)
    ensures ConvertArg(EncodeRepr(v), pipeIn, stdin) == Converted(Ok(Some(v)), stdin)
  {
    var t := EncodeRepr(v);
    assert t[0] == Prefix(KindOf(v))[0] by { assert t[..3] == Prefix(KindOf(v)); }
    assert RewriteArg(t, pipeIn, stdin) == Rewritten(t, stdin, false) by {
      assert t != PipeInHolder && !StartsWithDoubleHolder(t);
    }
    RoundTrip(v);
  }

  /** A String literal argument converts to its text verbatim, leaving
      standard input unread. */
  lemma StringLiteralArgument(t: string, pipeIn: bool, stdin: string)
    ensures ConvertArg("str@" + t, pipeIn, stdin) == Converted(Ok(Some(Str(t))), stdin)
  {
    var raw := "str@" + t;
    assert raw[0] == 's';
    assert RewriteArg(raw, pipeIn, stdin) == Rewritten(raw, stdin, false) by {
      assert raw != PipeInHolder && !StartsWithDoubleHolder(raw);
    }
    StringLiteralVerbatim(t);
  }

  lemma ConvertExamples()
    ensures ConvertArg("hello", true, "in") == Converted(Ok(Some(Str("hello"))), "in")
    ensures ConvertArg("@@x", true, "in") == Converted(Ok(Some(Str("@x"))), "in")
    ensures ConvertArg("!x", true, "in") == Converted(Ok(Some(Str("!x"))), "in")
    ensures ConvertArg("@", true, "hello") == Converted(Ok(Some(Str("hello"))), "")
    ensures ConvertArg("@", false, "hello") == Converted(Ok(Some(Str("@"))), "hello")
  {
    FallbackIffNoPrefix("hello", true, "in");
    FallbackIffNoPrefix("@@x", true, "in");
    FallbackIffNoPrefix("!x", true, "in");
    FallbackIffNoPrefix("@", true, "hello");
    FallbackIffNoPrefix("@", false, "hello");
    assert "@@x"[..2] == "@@" && "@@x"[1..] == "@x";
  }

  /** A declared parameter type: one kind, the base class (any value), one of
      the capability mixins, or None (for an optional parameter). */
  datatype Decl = Exactly(kind: Kind) | AnyValue | ArithmeticCapable | ComparableCapable | SequenceCapable | NoneType

  /** The name the error message uses: a class's `NAME` when it has one
      (the base class's is empty), its class name otherwise. */
  function DeclName(d: Decl): string
  {
    match d
    case Exactly(k) => KindName(k)
    case AnyValue => ""
    case ArithmeticCapable => "EelTypeArithmetic"
    case ComparableCapable => "EelTypeComparable"
    case SequenceCapable => "EelTypeSequence"
    case NoneType => "NoneType"
  }

  /** `issubclass(type(v), d)` for a converted argument (`None` when the
      kind's decoder returned nothing). */
  predicate Accepts(d: Decl, v: Option<Value>)
  {
    match v
    case None => d.NoneType?
    case Some(x) =>
      match d
      case Exactly(k) => KindOf(x) == k
      case AnyValue => true
      case ArithmeticCapable => ArithmeticKind(KindOf(x))
      case ComparableCapable => ComparableKind(KindOf(x))
      case SequenceCapable => SequenceKind(KindOf(x))
      case NoneType => false
  }

  /** Membership in the union a parameter declares. */
  predicate AcceptedBy(ds: seq<Decl>, v: Option<Value>)
  {
    exists j | 0 <= j < |ds| :: Accepts(ds[j], v)
  }

  /** The name of the kind received. */
  function GotName(v: Option<Value>): string
  {
    match v
    case None => "NoneType"
    case Some(x) => KindName(KindOf(x))
  }

  function DeclNames(ds: seq<Decl>): (r: seq<string>)
    ensures |r| == |ds|
    ensures forall j | 0 <= j < |ds| :: r[j] == DeclName(ds[j])
  {
    seq(|ds|, j requires 0 <= j < |ds| => DeclName(ds[j]))
  }

  /** `format_list_types`: the names joined by ", ", with " or " before the
      last one. */
  function FormatListTypes(names: seq<string>): string
    requires |names| > 0
  {
    if |names| > 1 then Join(names[..|names| - 1], ", ") + " or " + names[|names| - 1]
    else names[0]
  }

  /** Reference reading of the same format, first name first. */
  function ListInWords(names: seq<string>): string
    requires |names| > 0
    decreases |names|
  {
    if |names| == 1 then names[0]
    else if |names| == 2 then names[0] + " or " + names[1]
    else names[0] + ", " + ListInWords(names[1..])
  }

  lemma {:induction false} JoinFront(parts: seq<string>, sep: string)
    requires |parts| >= 2
    ensures Join(parts, sep) == parts[0] + sep + Join(parts[1..], sep)
    decreases |parts|
  {
    if |parts| > 2 {
      var init := parts[..|parts| - 1];
      JoinFront(init, sep);
      assert init[1..] == parts[1..][..|parts[1..]| - 1];
      assert init[0] == parts[0];
    } else {
      assert parts[..1] == [parts[0]];
      assert parts[1..] == [parts[1]];
    }
  }

  /** `format_list_types` agrees with the reference reading on every
      non-empty list. */
  lemma {:induction false} FormatMatchesWords(names: seq<string>)
    requires |names| > 0
    ensures FormatListTypes(names) == ListInWords(names)
    decreases |names|
  {
    var n := |names|;
    if n == 2 {
      assert names[..1] == [names[0]];
    } else if n > 2 {
      var rest := names[1..];
      FormatMatchesWords(rest);
      JoinFront(names[..n - 1], ", ");
      assert names[..n - 1][1..] == rest[..|rest| - 1];
      assert names[..n - 1][0] == names[0];
      assert rest[|rest| - 1] == names[n - 1];
    }
  }

  lemma FormatExamples()
    ensures FormatListTypes(["Number"]) == "Number"
    ensures FormatListTypes(["A", "B", "C"]) == "A, B or C"
  {
    FormatMatchesWords(["A", "B", "C"]);
  }

  /** Per positional parameter, the union of types it declares. */
  type Signature = seq<seq<Decl>>

  /** Every annotation names at least one type. */
  predicate WellFormed(sig: Signature) { forall i | 0 <= i < |sig| :: |sig[i]| > 0 }

  /** The TypeError a rejected argument raises. */
  function ArgTypeError(name: string, i: nat, ds: seq<Decl>, v: Option<Value>): Exc
    requires |ds| > 0
  {
    TypeError(name + " on arg#" + NatToText(i) + ": expected " + FormatListTypes(DeclNames(ds)) + ", got " + GotName(v))
  }

  /** The `runner` loop from argument `i` on, with the arguments accepted so
      far and the standard input left. Looking up parameter `i` comes first
      (an argument beyond the declared parameters raises IndexError), then
      conversion, then the kind check. */
  function RunFrom(name: string, sig: Signature, pipeIn: bool, args: seq<string>,
                   i: nat, acc: seq<Option<Value>>, stdin: string): Result<seq<Option<Value>>>
    requires WellFormed(sig) && i <= |args|
    decreases |args| - i
  {
    if i == |args| then Ok(acc)
    else if i >= |sig| then Err(Native("IndexError"))
    else
      var c := ConvertArg(args[i], pipeIn, stdin);
      match c.result
      case Err(e) => Err(e)
      case Ok(v) =>
        if !AcceptedBy(sig[i], v) then Err(ArgTypeError(name, i, sig[i], v))
        else RunFrom(name, sig, pipeIn, args, i + 1, acc + [v], c.stdinLeft)
  }

  /** The runner of a registered command: the arguments the command body is
      called with, or the exception raised before the body runs. */
  function Run(name: string, sig: Signature, pipeIn: bool, args: seq<string>, stdin: string): Result<seq<Option<Value>>>
    requires WellFormed(sig)
  {
    RunFrom(name, sig, pipeIn, args, 0, [], stdin)
  }

  /** Whether an argument before position `i` read standard input. */
  predicate ReadBefore(args: seq<string>, pipeIn: bool, i: nat)
  {
    exists j | 0 <= j < i && j < |args| :: pipeIn && args[j] == PipeInHolder
  }

  /** Standard input as argument `i` sees it: whole until an earlier "@" read it. */
  function StdinAt(args: seq<string>, pipeIn: bool, stdin: string, i: nat): string
  {
    if ReadBefore(args, pipeIn, i) then "" else stdin
  }

  /** Argument `i` converted on the standard input it sees. */
  function Conv(args: seq<string>, pipeIn: bool, stdin: string, i: nat): Decoded
    requires i < |args|
  {
    ConvertArg(args[i], pipeIn, StdinAt(args, pipeIn, stdin, i)).result
  }

  /** Arguments before `i` all converted and all accepted. */
  predicate AcceptedUpTo(sig: Signature, pipeIn: bool, args: seq<string>, stdin: string, i: nat)
    requires i <= |args|
  {
    i <= |sig| &&
    forall j | 0 <= j < i :: Conv(args, pipeIn, stdin, j).Ok? && AcceptedBy(sig[j], Conv(args, pipeIn, stdin, j).value)
  }

  /** The exception argument `i` raises, when it is the first one rejected. */
  function FailureAt(name: string, sig: Signature, pipeIn: bool, args: seq<string>, stdin: string, i: nat): Exc
    requires WellFormed(sig) && i < |args|
  {
    if i >= |sig| then Native("IndexError")
    else match Conv(args, pipeIn, stdin, i)
      case Err(e) => e
      case Ok(v) => ArgTypeError(name, i, sig[i], v)
  }

  lemma StdinStep(args: seq<string>, pipeIn: bool, stdin: string, i: nat)
    requires i < |args|
    ensures ConvertArg(args[i], pipeIn, StdinAt(args, pipeIn, stdin, i)).stdinLeft == StdinAt(args, pipeIn, stdin, i + 1)
  {
    if pipeIn && args[i] == PipeInHolder {
      assert ReadBefore(args, pipeIn, i + 1);
    } else if !ReadBefore(args, pipeIn, i) {
      assert !ReadBefore(args, pipeIn, i + 1) by {
        forall j | 0 <= j < i + 1 && j < |args| ensures !(pipeIn && args[j] == PipeInHolder) {
          if j < i {
            assert !(pipeIn && args[j] == PipeInHolder);
          }
        }
      }
    } else {
      var j :| 0 <= j < i && j < |args| && pipeIn && args[j] == PipeInHolder;
      assert ReadBefore(args, pipeIn, i + 1);
    }
  }

  /** One more argument accepted extends the accepted prefix by one. */
  lemma AcceptedStep(sig: Signature, pipeIn: bool, args: seq<string>, stdin: string, i: nat)
    requires i < |args|
    ensures AcceptedUpTo(sig, pipeIn, args, stdin, i + 1) <==>
      AcceptedUpTo(sig, pipeIn, args, stdin, i) && i < |sig|
      && Conv(args, pipeIn, stdin, i).Ok? && AcceptedBy(sig[i], Conv(args, pipeIn, stdin, i).value)
  {
  }

  /** A rejected prefix stays rejected when it grows. */
  lemma RejectedStaysRejected(sig: Signature, pipeIn: bool, args: seq<string>, stdin: string, i: nat, k: nat)
    requires i <= k <= |args|
    requires !AcceptedUpTo(sig, pipeIn, args, stdin, i)
    ensures !AcceptedUpTo(sig, pipeIn, args, stdin, k)
  {
  }

  /** The loop from `i` on: it succeeds exactly when every remaining argument
      converts and is accepted, and then it has passed each converted value;
      otherwise it raises the exception of the first rejected argument. */
  lemma {:induction false} RunFromOutcome(name: string, sig: Signature, pipeIn: bool, args: seq<string>,
                                          i: nat, acc: seq<Option<Value>>, stdin: string)
    requires WellFormed(sig) && i <= |args| && |acc| == i
    requires AcceptedUpTo(sig, pipeIn, args, stdin, i)
    requires forall j | 0 <= j < i :: Conv(args, pipeIn, stdin, j) == Ok(acc[j])
    ensures var r := RunFrom(name, sig, pipeIn, args, i, acc, StdinAt(args, pipeIn, stdin, i));
      r.Ok? <==> AcceptedUpTo(sig, pipeIn, args, stdin, |args|)
    ensures var r := RunFrom(name, sig, pipeIn, args, i, acc, StdinAt(args, pipeIn, stdin, i));
      r.Ok? ==> |r.value| == |args| && forall j | 0 <= j < |args| :: Conv(args, pipeIn, stdin, j) == Ok(r.value[j])
    ensures var r := RunFrom(name, sig, pipeIn, args, i, acc, StdinAt(args, pipeIn, stdin, i));
      r.Err? ==> exists k | i <= k < |args| ::
        AcceptedUpTo(sig, pipeIn, args, stdin, k) && !AcceptedUpTo(sig, pipeIn, args, stdin, k + 1)
        && r.error == FailureAt(name, sig, pipeIn, args, stdin, k)
    decreases |args| - i
  {
    if i < |args| {
      var st := StdinAt(args, pipeIn, stdin, i);
      var r := RunFrom(name, sig, pipeIn, args, i, acc, st);
      AcceptedStep(sig, pipeIn, args, stdin, i);
      if !AcceptedUpTo(sig, pipeIn, args, stdin, i + 1) {
        RejectedStaysRejected(sig, pipeIn, args, stdin, i + 1, |args|);
        assert r.Err? && r.error == FailureAt(name, sig, pipeIn, args, stdin, i);
      } else {
        var c := ConvertArg(args[i], pipeIn, st);
        var v := c.result.value;
        assert c.result == Conv(args, pipeIn, stdin, i);
        StdinStep(args, pipeIn, stdin, i);
        var acc' := acc + [v];
        assert r == RunFrom(name, sig, pipeIn, args, i + 1, acc', StdinAt(args, pipeIn, stdin, i + 1));
        assert forall j | 0 <= j < i + 1 :: Conv(args, pipeIn, stdin, j) == Ok(acc'[j]);
        RunFromOutcome(name, sig, pipeIn, args, i + 1, acc', stdin);
      }
    }
  }

  /** The command body runs only when every supplied argument, in order, has
      been converted and accepted by its parameter's declared types; it then
      receives exactly the converted values. Otherwise the runner raises the
      exception of the first rejected argument. */
  lemma RunOutcome(name: string, sig: Signature, pipeIn: bool, args: seq<string>, stdin: string)
    requires WellFormed(sig)
    ensures Run(name, sig, pipeIn, args, stdin).Ok? <==> AcceptedUpTo(sig, pipeIn, args, stdin, |args|)
    ensures var r := Run(name, sig, pipeIn, args, stdin);
      r.Ok? ==> |r.value| == |args| && forall j | 0 <= j < |args| :: Conv(args, pipeIn, stdin, j) == Ok(r.value[j])
    ensures var r := Run(name, sig, pipeIn, args, stdin);
      r.Err? ==> exists k | 0 <= k < |args| ::
        AcceptedUpTo(sig, pipeIn, args, stdin, k) && !AcceptedUpTo(sig, pipeIn, args, stdin, k + 1)
        && r.error == FailureAt(name, sig, pipeIn, args, stdin, k)
  {
    assert !ReadBefore(args, pipeIn, 0);
    RunFromOutcome(name, sig, pipeIn, args, 0, [], stdin);
  }

  /** A successful run accepted every argument by its parameter's types. */
  lemma RunAccepted(name: string, sig: Signature, pipeIn: bool, args: seq<string>, stdin: string,
                    vs: seq<Option<Value>>)
    requires WellFormed(sig) && Run(name, sig, pipeIn, args, stdin) == Ok(vs)
    ensures |vs| == |args| <= |sig|
    ensures forall j | 0 <= j < |args| :: AcceptedBy(sig[j], vs[j])
  {
    RunOutcome(name, sig, pipeIn, args, stdin);
    forall j | 0 <= j < |args| ensures AcceptedBy(sig[j], vs[j]) {
      assert Conv(args, pipeIn, stdin, j) == Ok(vs[j]);
    }
  }

  /** A successful run passes argument `j` as converted. */
  lemma RunConverted(name: string, sig: Signature, pipeIn: bool, args: seq<string>, stdin: string,
                     vs: seq<Option<Value>>, j: nat)
    requires WellFormed(sig) && Run(name, sig, pipeIn, args, stdin) == Ok(vs)
    requires j < |args|
    ensures j < |vs| && Conv(args, pipeIn, stdin, j) == Ok(vs[j])
  {
    RunOutcome(name, sig, pipeIn, args, stdin);
  }

  /** Once an argument is rejected nothing after it is looked at: appending
      arguments (a later "@" among them) leaves the outcome unchanged. */
  lemma {:induction false} RunFromStopsAtRejection(name: string, sig: Signature, pipeIn: bool, args: seq<string>,
                                                   more: seq<string>, i: nat, acc: seq<Option<Value>>, stdin: string)
    requires WellFormed(sig) && i <= |args|
    requires RunFrom(name, sig, pipeIn, args, i, acc, stdin).Err?
    ensures RunFrom(name, sig, pipeIn, args + more, i, acc, stdin) == RunFrom(name, sig, pipeIn, args, i, acc, stdin)
    decreases |args| - i
  {
    var all := args + more;
    assert all[i] == args[i];
    if i < |sig| {
      var c := ConvertArg(args[i], pipeIn, stdin);
      if c.result.Ok? && AcceptedBy(sig[i], c.result.value) {
        RunFromStopsAtRejection(name, sig, pipeIn, args, more, i + 1, acc + [c.result.value], c.stdinLeft);
      }
    }
  }

  lemma RunStopsAtRejection(name: string, sig: Signature, pipeIn: bool, args: seq<string>, more: seq<string>, stdin: string)
    requires WellFormed(sig)
    requires Run(name, sig, pipeIn, args, stdin).Err?
    ensures Run(name, sig, pipeIn, args + more, stdin) == Run(name, sig, pipeIn, args, stdin)
  {
    RunFromStopsAtRejection(name, sig, pipeIn, args, more, 0, [], stdin);
  }

  lemma HelloIsRejectedAsNumber()
    ensures ConvertArg("hello", true, "") == Converted(Ok(Some(Str("hello"))), "")
    ensures !AcceptedBy([Exactly(NumberKind)], Some(Str("hello")))
  {
    FallbackIffNoPrefix("hello", true, "");
    assert !Accepts(Exactly(NumberKind), Some(Str("hello")));
  }

  lemma NumberMismatchMessage()
    ensures ArgTypeError("cmd", 0, [Exactly(NumberKind)], Some(Str("hello")))
      == TypeError("cmd on arg#0: expected Number, got String")
  {
    var v := Some(Str("hello"));
    SingleDeclMessage("cmd", 0, NumberKind, v);
    var i, k, g := NatToText(0), KindName(NumberKind), GotName(v);
    assert i == "0" && k == "Number" && g == "String";
    MessageText("cmd", i, k, g);
  }

  lemma MessageText(name: string, i: string, k: string, g: string)
    requires name == "cmd" && i == "0" && k == "Number" && g == "String"
    ensures name + " on arg#" + i + ": expected " + k + ", got " + g
      == "cmd on arg#0: expected Number, got String"
  {
  }

  /** The message for a parameter declared with a single kind. */
  lemma SingleDeclMessage(name: string, i: nat, k: Kind, v: Option<Value>)
    ensures ArgTypeError(name, i, [Exactly(k)], v)
      == TypeError(name + " on arg#" + NatToText(i) + ": expected " + KindName(k) + ", got " + GotName(v))
  {
    var ds := [Exactly(k)];
    assert DeclNames(ds) == [KindName(k)];
    assert FormatListTypes(DeclNames(ds)) == KindName(k);
  }

  /** One accepted argument moves the runner on to the next. */
  lemma RunFromStep(name: string, sig: Signature, pipeIn: bool, args: seq<string>, i: nat,
                    acc: seq<Option<Value>>, stdin: string, v: Option<Value>, left: string)
    requires WellFormed(sig) && i < |args| && i < |sig|
    requires ConvertArg(args[i], pipeIn, stdin) == Converted(Ok(v), left)
    requires AcceptedBy(sig[i], v)
    ensures RunFrom(name, sig, pipeIn, args, i, acc, stdin) == RunFrom(name, sig, pipeIn, args, i + 1, acc + [v], left)
  {
  }

  /** A command declared (Number, String) given arguments that decode to a
      String and a Number is rejected on argument 0. */
  lemma MismatchExample()
    ensures Run("cmd", [[Exactly(NumberKind)], [Exactly(StringKind)]], true, ["hello", "num!3"], "")
      == Err(TypeError("cmd on arg#0: expected Number, got String"))
  {
    var sig := [[Exactly(NumberKind)], [Exactly(StringKind)]];
    HelloIsRejectedAsNumber();
    NumberMismatchMessage();
    assert ["hello", "num!3"][0] == "hello" && sig[0] == [Exactly(NumberKind)];
  }

  /** A registered command: its declared signature and whether pipe-in is on. */
  datatype Interface = Interface(signature: Signature, pipeIn: bool)

  /** `basic_interface(name, pipe_in)`: stores the command's runner under its
      name in `BASIC_INTERFACES`, replacing any earlier one of that name and
      keeping every other entry. */
  function BasicInterface(registry: map<string, Interface>, name: string, sig: Signature, pipeIn: bool)
    : (r: map<string, Interface>)
    ensures name in r && r[name] == Interface(sig, pipeIn)
    ensures r.Keys == registry.Keys + {name}
    ensures forall n | n in registry && n != name :: r[n] == registry[n]
  {
    registry[name := Interface(sig, pipeIn)]
  }
}
