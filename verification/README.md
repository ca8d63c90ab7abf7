# eel_core in Dafny

A model of the core of eel_core, a small command-line value system. Its parts:

- **Values and their text encoding.** Values are Numbers, Strings, Lists, Dictionaries and Booleans. A value is encoded as `prefix!payload` (representation) or `prefix@payload` (literal).
- **Argument conversion.** The converter turns command-line arguments into values. It handles the `@` stdin sentinel and the String fallback.
- **Type-checked invocation.** The runner checks each argument against the command's declared parameter types. It raises a formatted TypeError for the first argument that does not fit.
- **The `arith` operator dispatcher**, in its current form and in the older guarded form.
- **The Eel exception taxonomy.**

Everything is written as pure functions over `string` (`seq<char>`) and closed datatypes:

| module | file | models |
|---|---|---|
| `Common` | common.dfy | `Option`, bytes, first-occurrence search (`str.index`), `", ".join` |
| `Exceptions` | exceptions.dfy | the exception classes of exceptions.py, their `name` and message |
| `Misc` | misc.py → misc.dfy | `is_int`, `is_float_strict`, and decimal text of integers (`str(int)`) |
| `Base64`, `Utf8` | base64.dfy, utf8.dfy | the standard library codecs String payloads rely on: base64 with padding (section 4 of RFC 4648) and UTF-8 (section 3 of RFC 3629) |
| `Values` | values.dfy | the five kinds, their prefixes (`TYPE_PREFIX`), names and capability mixins |
| `Codec` | codec.dfy | `eel_from_repr`/`eel_from_literal`/`eel_to_repr`, `eel_encode_repr`, `decode_repr`, `decode_literal`, `decode_literal_or_repr` |
| `Conversions` | conversions.dfy | `eel_to_bool`/`to_string`/`to_number`/`to_list`/`to_dict` |
| `Operations` | operations.dfy | `eel_op_comp`, `greater`/`less` and their `_or_eq` chains, `and`/`or` |
| `CliInterface` | cli.dfy | `convert_arg`, `format_list_types`, the `runner` loop, `BASIC_INTERFACES` |
| `Arith` | arith.dfy | stdlib/arith.py: `OPERATOR_LOOKUP` and the `arith` dispatcher, end to end through the runner |
| `Stdlib` | stdlib_legacy.dfy | stdlib.py: the older guarded `arithmetic` and its own `BASIC_INTERFACE` |

Decoders return `Result<Option<Value>>`:

- `Err` holds an Eel exception, or `Native(class)` for a host-language exception the code lets escape (UnicodeDecodeError and ValueError from String decoding, IndexError from surplus arguments, AttributeError, the TypeError of `int > str`, and the TypeError of calling a command with fewer arguments than it needs).
- `Ok(None)` stands for the abstract `eel_from_repr` stub of List, Dictionary and Boolean, which returns nothing.

Standard input is a parameter. The first `@` argument receives all of it, and later `@` arguments see an empty stream.

Per-command parameter types are an explicit `Signature` rather than `inspect` reflection. Each entry is a list of `Decl`: a kind, the base class, a capability mixin, or `NoneType`.

Notes on the code:

- `decode_literal_or_repr` splits at the first marker of the chosen form, so a literal may contain `!`.
- No `eel_arith_*` method computes a result: each passes three arguments to a one-argument wrapper. The model therefore stops at the dispatched call. `Arith.ArithEndToEnd` proves that `arith <x> str@<symbol> <y>` calls the symbol's method on x with y; `arith num!3 str@+ num!4` is its instance `Call(Plus, 3, 4)`.
- `Stdlib.Arithmetic` names the missing arithmetic class "EelTypeArithmetic" in its messages. The code never assigns `EelTypeArithmetic.NAME`, so the intended text cannot be known; the name is a stand-in, and what the corrected guards fix is the exception kind and the operand named.
- `eel_op_not` negates the raw payload and cannot be called through its two-argument wrapper, so it is left out.
- The operator guard of stdlib.py:39-41 names `type(left)` rather than the operator's type. Only Numbers and Strings can be built in the code, so a rejected operator is a Number after a Number left operand, and the message comes out right (`Stdlib.OperatorGuardLatent`). The model can build a List, which shows the difference (`Stdlib.OperatorGuardNamesLeft`); `Stdlib.Arithmetic` names the operator.

## Model

| member | source | states |
|---|---|---|
| Exceptions.Message | exceptions.py:16-26 | a system exception without a message carries "Unknown error has occurred"; every other exception carries its own message |
| Exceptions.SysTypeError | exceptions.py:28-30 | SysTypeError is a system exception named "InternalError<TypeError>", a name no user-facing TypeError has |
| Exceptions.SystemIffInternalName | exceptions.py:16-44 | an exception is a system exception exactly when its name starts with "InternalError" |
| Exceptions.NameDeterminesKind | exceptions.py:16-44 | two exceptions with the same name are of the same class (InvalidOperationError, NotAnEelRepr, TypeError, system), and system ones carry the same inner name |
| Exceptions.SystemNameInjective | exceptions.py:16-22 | "InternalError" and "InternalError<n>" determine whether a name was given and which |
| Misc.IsIntMatchesGrammar | misc.py:1-6 | `is_int` holds exactly for an optional sign followed by one or more ASCII digits |
| Misc.ParseDigitsAcceptsDigits | misc.py:1-6 | digit parsing succeeds exactly on all-digit text (the empty text included, which `IsInt` then rejects for want of a digit) |
| Misc.ClassesPartition | misc.py:8-13 | `is_int` and `is_float_strict` never both hold; both are false on text float parsing rejects; every float text is one or the other |
| Misc.IntTextIsFloatText | misc.py:8-11 | integer text is also float text, and `is_float_strict` rejects it (integer before float) |
| Misc.NatToText | type_def.py:211-212 | decimal text of a natural is non-empty digits with no leading zero; it starts with '0' exactly for 0, which is "0" |
| Misc.CanonicalDigitsRoundTrip | type_def.py:211-212 | any non-empty digit text without a leading zero is the decimal text of the number it denotes |
| Misc.IntToText | type_def.py:211-212 | decimal text of an integer is canonical integer text (no '+', no "-0", no leading zero), with a minus sign exactly for negatives |
| Misc.CanonicalIntTextRoundTrip | type_def.py:211-212 | any canonical integer text parses, and `str` of the parsed integer gives the text back |
| Misc.NatTextRoundTrip | type_def.py:211-212 | parsing the decimal text of a natural gives it back |
| Misc.IntTextRoundTrip | type_def.py:203-212 | parsing the decimal text of an integer gives it back |
| Base64.ValueOf | type_def.py:233-238 | the alphabet lookup inverts the alphabet |
| Base64.ValueOfCharOf | type_def.py:244-245 | every 6-bit value's character looks up to that value |
| Base64.Encode | type_def.py:244-245 | the encoding has 4 characters per started 3 bytes, all from the alphabet or '=' |
| Base64.TripleRoundTrip | type_def.py:233-245 | 3 bytes split into four 6-bit values reassemble to the same bytes |
| Base64.TripleDecodes | type_def.py:233-245 | the four characters of three bytes decode back to those bytes, in the last group or not |
| Base64.RoundTrip | type_def.py:233-245 | decoding the base64 encoding of any byte string gives it back |
| Base64.DecodedLength | type_def.py:235 | text the decoder accepts has four characters per started three bytes of its result |
| Base64.DecodedChars | type_def.py:235 | text the decoder accepts consists of alphabet characters and pads |
| Base64.DecodedTextIsAscii | type_def.py:235 | text the decoder accepts is ASCII |
| Base64.EncodeIsAscii | type_def.py:245 | encoded text is ASCII |
| Base64.NonCanonicalAccepted | type_def.py:235 | nonzero bits before a pad are accepted, as `b64decode` accepts them: "QR==" and the canonical "QQ==" both decode to byte 65 |
| Base64.NoMarkers | type_def.py:59-60 | base64 text contains neither '!' nor '@' |
| Utf8.EncodeChar | type_def.py:245 | a scalar value encodes to 1-4 bytes |
| Utf8.DecodeFirst | type_def.py:235 | decoding one scalar value consumes between 1 and the available bytes |
| Utf8.DecodeEncodedChar | type_def.py:235-245 | the decoder reads back exactly one encoded scalar value, whatever follows it |
| Utf8.RoundTrip | type_def.py:235-245 | decoding the UTF-8 of any string gives it back |
| Utf8.EncodeDecodedChar | type_def.py:235 | the bytes the decoder accepts for one scalar value are exactly its encoding |
| Utf8.DecodeIsInverse | type_def.py:235 | any byte string the decoder accepts is the UTF-8 of its result, so accepted text has a single encoding |
| Values.RegistryIsPrefixInverse | type_def.py:16-24 | every kind is registered under its prefix, every registered prefix is its kind's, and prefixes are distinct |
| Codec.NumberFromText | type_def.py:201-209 | integer text becomes an integer Number with the parsed value; other float text becomes a float; anything else raises SysTypeError |
| Codec.StringFromRepr | type_def.py:232-238 | a non-ASCII payload raises the host ValueError, which `except BinError` does not catch; other invalid base64 raises SysTypeError; a decoded String is one whose UTF-8 is the base64 payload; bytes that are not UTF-8 raise UnicodeDecodeError; base64 of UTF-8 decodes to the String of that text |
| Codec.FromRepr | type_def.py:48-50 | a decoded value has the kind asked for; List, Dictionary and Boolean decode to nothing; failures are system or host exceptions |
| Codec.FromLiteral | type_def.py:52-54 | a String literal is its payload verbatim; other kinds decode as representations |
| Codec.NumberLiteralIsRepr | type_def.py:52-54 | Number literal decoding is Number representation decoding |
| Codec.ToRepr | type_def.py:211-212 | the payload of an integer or String contains neither marker |
| Codec.IntTextHasNoMarkers | type_def.py:211-212 | decimal text contains neither marker |
| Codec.EncodeRepr | type_def.py:59-60 | the encoding is the kind's prefix, then '!' as its first marker, then the payload |
| Codec.DecodeMarked | type_def.py:292-323 | text without the form's marker raises NotAnEelRepr with that form's message |
| Codec.FirstMarker | type_def.py:326-337 | reference scan: the position of the first '!' or '@', with no marker before it |
| Codec.FindAtFirstMarker | type_def.py:326-331 | the first marker of either kind is the first occurrence of its own kind |
| Codec.FirstMarkerChoosesDecoder | type_def.py:326-337 | the first marker in the text chooses the literal or the representation decoder; text without markers is not a representation |
| Codec.DecodeSplitsAtFirstMarker | type_def.py:292-337 | NotAnEelRepr exactly when there is no marker or the prefix is empty; TypeError exactly for a non-empty unregistered prefix; otherwise the registered kind decodes the text after the first marker |
| Codec.RoundTrip | type_def.py:59-60 | `decode_literal_or_repr` and `decode_repr` of the encoding of an integer Number or String give the value back |
| Codec.MarkedOutcome | type_def.py:292-323 | once the form's marker is found: NotAnEelRepr exactly for an empty prefix, TypeError exactly for an unregistered one, otherwise the registered kind's decoder on the text after the marker |
| Codec.DecodeMarkedPrefixed | type_def.py:292-323 | a registered prefix, the form's marker and any payload decode with that kind's literal or representation decoder, whatever the payload holds |
| Codec.DecodePrefixed | type_def.py:326-337 | after a registered prefix, the marker that follows it chooses the decoder, even when the payload holds the other marker |
| Codec.StringLiteralVerbatim | type_def.py:240-242 | "str@" followed by any text decodes to the String holding that text verbatim, markers included |
| Conversions.ToBool | type_def.py:226-227 | a Number is true iff non-zero, a String iff non-empty |
| Conversions.ToStringValue | type_def.py:214-215 | a String converts to itself; an integer to its decimal text, which is canonical and parses back to it |
| Conversions.ToNumber | type_def.py:217-218 | a Number converts to itself; integer text converts to the integer it denotes; non-numeric text raises SysTypeError |
| Conversions.ToList | type_def.py:220-221 | Number to List raises InvalidOperation "Cannot convert type Number to List" |
| Conversions.ToDict | type_def.py:223-257 | Number and String to Dictionary raise InvalidOperation naming the source kind |
| Conversions.NumberStringNumber | type_def.py:214-251 | an integer survives Number → String → Number |
| Conversions.StringToNumberIsNumberDecoding | type_def.py:250-251 | String to Number is exactly decoding "num!" followed by the text |
| Conversions.StringNumberString | type_def.py:214-251 | any canonical integer text (defined by its syntax) survives String → Number → String |
| Operations.CompIsValueEquality | type_def.py:80-82 | payload comparison of scalars is value equality |
| Operations.Greater | type_def.py:160-162 | defined between Numbers as `>`; another right operand raises the host TypeError |
| Operations.Less | type_def.py:164-166 | defined between Numbers as `<`; another right operand raises the host TypeError |
| Operations.GreaterLessMirror | type_def.py:160-166 | between integer Numbers `greater(a, b)` is `less(b, a)`, and the two strict orderings never both hold |
| Operations.GreaterOrEq | type_def.py:168-174 | succeeds exactly when `greater` does, and then means `>=`; `greater`'s exception propagates |
| Operations.LessOrEq | type_def.py:176-182 | succeeds exactly when `less` does, and then means `<=`; `less`'s exception propagates |
| Operations.OrEqIsStrictOrComp | type_def.py:168-182 | `greater_or_eq` is `greater OR comp`, `less_or_eq` is `less OR comp`, and each is the other with operands swapped |
| Operations.OrEqBranches | type_def.py:168-174 | 3 >= 3 through the equality step, 5 >= 3 through the strict step |
| Operations.And | type_def.py:84-89 | returns the right operand when the left is true, and the left operand otherwise |
| Operations.Or | type_def.py:91-96 | returns the left operand when it is true, and the right operand otherwise |
| Operations.AndOrTruth | type_def.py:84-96 | the operand returned has the truth of the boolean connective, and no Boolean is invented from non-Booleans |
| CliInterface.RewriteArg | cli_interface.py:17-22 | with pipe-in, "@" is replaced by all of stdin and consumes it; "@@…" loses its first character without reading stdin; otherwise, and without pipe-in, the text is kept |
| CliInterface.DoubledHolderEscapes | cli_interface.py:21-22 | prefixing "@" to text that starts with "@" is undone by the rewrite |
| CliInterface.ConvertArg | cli_interface.py:17-28 | NotAnEelRepr from decoding the rewritten text turns into a String of that text; every other decode result, value or exception, is the result; stdin is left as the rewrite leaves it |
| CliInterface.FallbackIffNoPrefix | cli_interface.py:24-28 | the String fallback happens when the text has no marker or starts with one; otherwise the decoder's result stands |
| CliInterface.EncodedArgumentConverts | cli_interface.py:17-28 | an encoded integer or String argument converts to that value and leaves stdin unread |
| CliInterface.StringLiteralArgument | cli_interface.py:17-28 | an argument "str@" followed by any text converts to the String holding that text, leaving stdin unread |
| CliInterface.ConvertExamples | cli_interface.py:17-28 | "hello" → "hello", "@@x" → "@x", "!x" → "!x", "@" → stdin |
| CliInterface.FormatMatchesWords | cli_interface.py:49-55 | `format_list_types` is the names separated by ", " with " or " before the last one |
| CliInterface.FormatExamples | cli_interface.py:49-55 | ["Number"] → "Number"; [A, B, C] → "A, B or C" |
| CliInterface.RunOutcome | cli_interface.py:64-80 | the runner calls the command iff every argument in order converts and is accepted by its declared types, on exactly the converted values; otherwise the first rejected argument's exception (IndexError past the signature, its decode error, or the formatted TypeError) is raised |
| CliInterface.RunAccepted | cli_interface.py:64-80 | when the body runs it gets one value per argument, no more arguments than declared parameters, and each value is of a declared type of its parameter |
| CliInterface.RunConverted | cli_interface.py:64-80 | each value the body gets is the conversion of the argument at its position |
| CliInterface.RunStopsAtRejection | cli_interface.py:64-78 | after a rejected argument nothing later is converted: extra arguments do not change the outcome |
| CliInterface.MismatchExample | cli_interface.py:71-76 | declared (Number, String) given "hello" raises "cmd on arg#0: expected Number, got String" |
| CliInterface.BasicInterface | cli_interface.py:82 | registering stores the command under its name and keeps every other entry |
| Arith.Dispatch | stdlib/arith.py:25-53 | the operator is accepted iff its normalised word is one of the seven, which then names the chosen method; otherwise InvalidOperation "w is not a valid operator" |
| Arith.NormaliseOnce | stdlib/arith.py:6-28 | a symbol is rewritten to its word once; the result is never a symbol; other text passes unchanged |
| Arith.DispatchAcceptsSymbolAndWord | stdlib/arith.py:6-50 | an operation is selected by its symbol and by its word, and by nothing else |
| Arith.ComparisonsRejected | stdlib/arith.py:6-12 | each comparison symbol normalises to its word and raises InvalidOperation naming it |
| Arith.SymbolExamples | stdlib/arith.py:13-50 | "+" and "plus" select Plus; "//" and "floordiv" select FloorDiv |
| Arith.EqualityRejected | stdlib/arith.py:52-53 | "==" raises "eq is not a valid operator" |
| Arith.CaretRejected | stdlib/arith.py:52-53 | "^" raises "^ is not a valid operator" |
| Arith.ArithCommand | stdlib/arith.py:24-53 | the call goes ahead iff the operator normalises to an arithmetic word, selects the operation named by the operator's symbol or word, and passes both operands unchanged |
| Arith.Register | stdlib/arith.py:23-24 | "arith" is registered with left arithmetic-capable, operator String, right any value, pipe-in on |
| Arith.RunArith | stdlib/arith.py:23-53 | when the runner succeeds with three values the command dispatches on them; with fewer the call raises the host TypeError; runner errors propagate; a result always comes from the converted left and right operands |
| Arith.ArithArgsFit | stdlib/arith.py:23-24 | values accepted by the arith signature are an arithmetic-capable left, a String operator and a present right operand |
| Arith.ArithArguments | stdlib/arith.py:23-24 | encoded integers around a "str@" operator all convert and are accepted, in order |
| Arith.ArithEndToEnd | stdlib/arith.py:23-53 | `arith <x> str@<symbol> <y>` with encoded integers calls the symbol's operation on x and y; `arith num!3 str@+ num!4` is the instance calling addition on 3 and 4 |
| Stdlib.TablesAgree | stdlib.py:17-31 | the older operator table equals the current one |
| Stdlib.ArithmeticAsWritten | stdlib.py:34-76 | as written: a non-arithmetic left or right raises AttributeError; a non-String operator raises TypeError naming the left operand's kind |
| Stdlib.Arithmetic | stdlib.py:34-76 | corrected: a TypeError is raised exactly when left, operator or right has the wrong kind, checked in that order, naming the rejected operand's kind |
| Stdlib.AgreesWithArith | stdlib.py:43-76 | with arithmetic operands it dispatches exactly as `arith`; a non-arithmetic right operand is refused where `arith` would accept it |
| Stdlib.UnknownOperatorsRejected | stdlib.py:75-76 | operators outside the seven words raise InvalidOperation naming the word |
| Stdlib.LeftGuardEscapes | stdlib.py:35-37 | a String left operand: AttributeError as written, TypeError corrected |
| Stdlib.OperatorGuardNamesLeft | stdlib.py:39-41 | on a List operator, which the model can build and the code cannot, the message says "got Number" as written and "got List" corrected |
| Stdlib.OperatorGuardLatent | stdlib.py:35-41 | on the operands the code can build (a Number left operand and a Number operator), naming the left operand's kind gives the same TypeError as naming the operator's |
| Stdlib.Register | stdlib.py:7-15 | the older registry stores the function under its name and keeps every other entry |
| Stdlib.BasicInterfaceHoldsArith | stdlib.py:5-33 | the older table holds only "arith", separate from `BASIC_INTERFACES` |

## Left out

- Host-language I/O: process entry, argv, stdout and exit codes (cli_runner.py), file and stdin reads (stdlib/from_file.py). These are outside the value core.
- stdlib/to_num.py: a thin wrapper over `eel_to_number`, which `Conversions.ToNumber` covers.
- The `inspect` reflection (`get_types`, `get_arg_names_by_kind`): replaced by an explicit `Signature` per command. Keyword arguments are not modelled.
- `read_to_eof` is imported from misc.py, which does not define it, so importing cli_interface.py (and stdlib/arith.py, which imports it) raises ImportError as written. The CliInterface and Arith members model the code as if that import resolved. `CliInterface.RewriteArg` takes standard input as a parameter and assumes a read returns all of what is left.
- Call arity: a `Signature` lists the accepted kinds of each positional parameter, not which parameters are required or have defaults. `CliInterface.Run` succeeding means the runner reaches `func(*converted_args)`; too few arguments then raise the host TypeError in that call, which `Arith.RunArith` models for `arith`.
- `eel_op_not`: it cannot be called through its two-argument wrapper, and it negates the raw payload rather than `eel_to_bool`.
- The results of arithmetic. Every `eel_arith_*` passes three arguments to a wrapper that takes one, and the same-kind guard is inverted (type_def.py:107-140). `Arith.ArithCommand` and `Stdlib.Arithmetic` therefore stop at the method call they would make.
- `eel_to_file`, `from_file` and `to_file` in type_def.py: plain text passthrough for file I/O.
- The `eel_operation` check that `other` is an Eel value: every operand in the model is one, so its SysTypeError cannot occur.
- List, Dictionary and Boolean behaviour: these classes declare nothing, and their decoders return nothing (`Ok(None)`). Boolean is constructed in the model so that comparison and truthiness can be stated. In the code `EelTypeBool` is abstract, so every member that builds one raises the host TypeError: the comparisons, `eel_to_bool` (type_def.py:226-227, 259-260), and therefore `eel_op_and` and `eel_op_or`, which call `eel_to_bool` first (type_def.py:84-96). `Conversions.ToBool`, `Operations.And`, `Operations.Or` and the orderings state what the code would compute if `EelTypeBool` were concrete.
- `str(float)` and float arithmetic. A float Number is kept as its literal text (`Float(literal)`).
- Operations.Greater: requires an integer left operand and a right operand that is not a float or Boolean. Float ordering and Python's `int`/`bool` mixing are not modelled.
- Operations.Less: same restriction as `Greater`.
- Operations.GreaterOrEq: same restriction as `Greater`; its Boolean result is the payload the code would wrap in the abstract `EelTypeBool`.
- Operations.LessOrEq: same restriction as `Greater`.
- Operations.CompIsValueEquality: `Comp` requires integer Numbers, Strings or Booleans. Cross-kind equality such as `1 == True` and float equality are not modelled.
- Operations.And: requires an integer Number, String or Boolean left operand, because float truthiness is not modelled. In the code `eel_op_and` raises the host TypeError on every input, since `eel_to_bool` builds the abstract `EelTypeBool`; the contract states the result it would compute if `EelTypeBool` were concrete.
- Operations.Or: same restriction and the same host TypeError as `And`: the contract states the result `eel_op_or` would compute if `EelTypeBool` were concrete.
- Conversions.ToBool: integer Numbers and Strings only; float truthiness is not modelled. In the code `eel_to_bool` raises the host TypeError on every input, because it builds the abstract `EelTypeBool`; the contract states the truth value it would wrap.
- Conversions.ToStringValue: integer Numbers and Strings only, because `str(float)` is not modelled.
- Conversions.ToNumber: float text becomes the opaque `Float(literal)`, and its value is not stated.
- Conversions.ToList: Numbers only. `String.eel_to_list` is not modelled, because it builds a list of raw characters rather than values.
- Codec.RoundTrip: integer Numbers and Strings only, because float formatting and the abstract List, Dictionary and Boolean `eel_to_repr` are not modelled.
- Codec.StringFromRepr: the base64 decoder is strict. On ASCII text, Python's `b64decode` discards characters outside the alphabet and ignores what follows a complete padded group (`YQ==YQ==` decodes to `a`). It also skips a '=' in a position where no pad can occur (the first or second character of a group), so `QUJD====` decodes to `ABC` and `====` to the empty string. The model rejects all of these with SysTypeError. Non-ASCII text raises ValueError in both.
- Codec.NumberFromText: integer text longer than 4300 digits becomes an exact `Int`. CPython 3.10.7 and later refuses `int()` on such text, so `is_int` is false and the text becomes a float (infinity for 4301 ones).
- Codec.RoundTrip: covers integers of any size, though `str()` raises ValueError beyond 4300 digits in CPython 3.10.7 and later. Strings holding lone surrogates (which Python builds from undecodable argv bytes) cannot be expressed, because a Dafny `char` is a Unicode scalar value; `str.encode()` raises UnicodeEncodeError on them.
- Codec.ToRepr: same two gaps as `Codec.RoundTrip`: no 4300-digit limit, no lone surrogates.
- Utf8.RoundTrip: Unicode scalar values only; lone surrogates are not modelled.
- Misc.IntTextRoundTrip: no 4300-digit limit on `int()` and `str()`.
- Conversions.NumberStringNumber: no 4300-digit limit on `int()` and `str()`.
- Conversions.StringNumberString: no 4300-digit limit on `int()` and `str()`.
- Misc.IsIntMatchesGrammar: ASCII sign and digits only. Python's `int()` also accepts surrounding whitespace, underscores and non-ASCII digits. No digit limit: CPython 3.10.7 and later refuses `int()` on more than 4300 digits, so `is_int` is false on such text.
- Misc.ClassesPartition: `float()` is modelled as ASCII decimal and exponent forms plus case-insensitive inf, infinity and nan. Whitespace and underscores are not modelled.
- Exceptions: messages of host exceptions (`Native`) are not modelled, only their class.

## Findings

| source | as written | input that shows it | evidently intended | confidence | as-written member | corrected member |
|---|---|---|---|---|---|---|
| stdlib.py:35-37, 43-45 | the left and right guard messages read `EelTypeArithmetic.NAME`, which is only annotated (type_def.py:105), so building the message raises AttributeError | `arithmetic(String "a", String "+", Number 1)` | the Eel TypeError the guard constructs | high; not executed | Stdlib.ArithmeticAsWritten (Stdlib.LeftGuardEscapes) | Stdlib.Arithmetic |
