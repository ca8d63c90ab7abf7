/** The exception hierarchy of the Eel core (exceptions.py) and the result
    type every fallible operation of the model returns. */
module Exceptions {
  import opened Common

  /** An exception raised on a path the model covers. The first four
      constructors are the Eel exceptions; `Native` stands for an exception of
      the host language that the source lets escape uncaught (it has no Eel
      name and carries only its class name). */
  datatype Exc =
    | SystemException(sysName: Option<string>, sysMessage: Option<string>)
    | InvalidOperation(message: string)
    | NotAnEelRepr(message: string)
    | TypeError(message: string)
    | Native(className: string)
  {
    /** Part of the Eel hierarchy, so it has a `name` and a message. */
    predicate IsEel() { !Native? }

    /** A system (internal) exception rather than a user-facing one. */
    predicate IsSystem() { SystemException? }
  }

  /** The result of a fallible operation: its value, or the exception it raises. */
  datatype Result<+T> = Ok(value: T) | Err(error: Exc)

  /** Message a system exception carries when none is supplied. */
  const UnknownErrorMessage: string := "Unknown error has occurred"

  /** The `name` of a system exception: "InternalError", with the optional
      inner name added in angle brackets. */
  function SystemName(inner: Option<string>): string
  {
    match inner
    case None => "InternalError"
    case Some(n) => "InternalError" + "<" + n + ">"
  }

  /** The `name` attribute every Eel exception carries. */
  function Name(e: Exc): string
    requires e.IsEel()
  {
    match e
    case SystemException(n, _) => SystemName(n)
    case InvalidOperation(_) => "InvalidOperationError"
    case NotAnEelRepr(_) => "NotAnEelRepr"
    case TypeError(_) => "TypeError"
  }

  /** The message every Eel exception carries. */
  function Message(e: Exc): (m: string)
    requires e.IsEel()
    ensures e.SystemException? && e.sysMessage.None? ==> m == UnknownErrorMessage
    ensures e.SystemException? && e.sysMessage.Some? ==> m == e.sysMessage.value
    ensures !e.SystemException? ==> m == e.message
  {
    match e
    case SystemException(_, m) => if m.Some? then m.value else UnknownErrorMessage
    case InvalidOperation(m) => m
    case NotAnEelRepr(m) => m
    case TypeError(m) => m
  }

  /** `EelExcSysTypeError`: the internal type error raised when a payload does
      not decode. It is a system exception and its name differs from the
      user-facing TypeError's. */
  function SysTypeError(message: Option<string>): (e: Exc)
    ensures e.IsEel() && e.IsSystem()
    ensures Name(e) == "InternalError<TypeError>"
    ensures forall m :: Name(e) != Name(TypeError(m))
    ensures Message(e) == (if message.Some? then message.value else UnknownErrorMessage)
  {
    SystemException(Some("TypeError"), message)
  }

  /** Every system exception's name begins with "InternalError", and no other
      Eel exception's name does. */
  lemma SystemIffInternalName(e: Exc)
    requires e.IsEel()
    ensures e.IsSystem() <==> "InternalError" <= Name(e)
  {
    var n := Name(e);
    match e
    case SystemException(_, _) =>
    case InvalidOperation(_) => assert n[2] != "InternalError"[2];
    case NotAnEelRepr(_) => assert n[0] != "InternalError"[0];
    case TypeError(_) => assert n[0] != "InternalError"[0];
  }

  /** Names tell exceptions apart: two Eel exceptions with the same name are
      of the same kind, and system exceptions with the same name have the same
      inner name. */
  lemma {:induction false} NameDeterminesKind(e1: Exc, e2: Exc)
    requires e1.IsEel() && e2.IsEel()
    requires Name(e1) == Name(e2)
    ensures e1.SystemException? <==> e2.SystemException?
    ensures e1.InvalidOperation? <==> e2.InvalidOperation?
    ensures e1.NotAnEelRepr? <==> e2.NotAnEelRepr?
    ensures e1.TypeError? <==> e2.TypeError?
    ensures e1.SystemException? ==> e1.sysName == e2.sysName
  {
    SystemIffInternalName(e1);
    SystemIffInternalName(e2);
    if e1.SystemException? {
      SystemNameInjective(e1.sysName, e2.sysName);
    }
  }

  /** Different inner names give different system-exception names. */
  lemma SystemNameInjective(a: Option<string>, b: Option<string>)
    requires SystemName(a) == SystemName(b)
    ensures a == b
  {
    var s := SystemName(a);
    match a
    case None =>
      assert |s| == 13;
    case Some(x) =>
      assert |s| > 13;
      var y := b.value;
      assert x == s[14..|s| - 1];
      assert y == s[14..|s| - 1];
  }
}
