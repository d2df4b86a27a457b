/** The invocation record one intercepted call works on, and the two narrowed views
    (BeforeInvocation, AfterInvocation) that interceptors receive. Both views write
    through to the one record. */
module Invocations {
  import opened Wrappers
  import opened Values
  import opened Attributes
  import opened Reflection

  /** The mutable part of an invocation: its arguments and its return slot. */
  datatype CallState = CallState(args: seq<Obj>, returnValue: Obj)

  /** What `Proceed` does with the current arguments: the target method completes,
      with a value (`Some`) or as a void method (`None`), or it throws. In both cases
      `byRef` holds, by position, the values of the method's ref and out parameters that
      Castle copies back into the arguments array (empty when it copies nothing). */
  datatype ProceedOutcome =
    | Completed(returned: Option<Obj>, byRef: map<nat, Obj>)
    | Threw(ex: Exception, byRef: map<nat, Obj>)

  /** The arguments array after Castle copies the ref and out values back: each written
      position holds its new value, every other position keeps its argument. */
  function WriteBack(args: seq<Obj>, byRef: map<nat, Obj>): (r: seq<Obj>)
    ensures |r| == |args|
    ensures forall i :: 0 <= i < |args| && i in byRef ==> r[i] == byRef[i]
    ensures forall i :: 0 <= i < |args| && i !in byRef ==> r[i] == args[i]
  {
    seq(|args|, i requires 0 <= i < |args| => if i in byRef then byRef[i] else args[i])
  }

  /** A call with no ref or out parameter in range leaves the arguments as they were. */
  lemma WriteBackOutsideKeeps(args: seq<Obj>, byRef: map<nat, Obj>)
    requires forall i :: i in byRef ==> i >= |args|
    ensures WriteBack(args, byRef) == args
  {
  }

  /** Reading or writing an argument outside the arguments array. */
  const IndexOutOfRange := NewException(IndexOutOfRangeExceptionType, "Index was outside the bounds of the array.")

  /** `GetArgumentValue(index)` on the arguments `args`. */
  function ArgumentAt(args: seq<Obj>, index: int): (r: Result<Obj, Exception>)
    ensures r.Ok? <==> 0 <= index < |args|
  {
    if 0 <= index < |args| then Ok(args[index]) else Err(IndexOutOfRange)
  }

  /** `SetArgumentValue(index, value)` on the state `st`. */
  function WithArgument(st: CallState, index: int, value: Obj): (r: Result<CallState, Exception>)
    ensures r.Ok? <==> 0 <= index < |st.args|
    ensures r.Ok? ==> |r.value.args| == |st.args| && r.value.returnValue == st.returnValue
  {
    if 0 <= index < |st.args| then Ok(CallState(st.args[index := value], st.returnValue))
    else Err(IndexOutOfRange)
  }

  /** Writing an argument and reading it back gives the value written; every other
      index reads as before, and the return slot is untouched. */
  lemma WriteThenReadArgument(st: CallState, index: int, value: Obj, j: int)
    requires 0 <= index < |st.args|
    ensures ArgumentAt(WithArgument(st, index, value).value.args, j) ==
            if j == index then Ok(value) else ArgumentAt(st.args, j)
  {
  }

  /** The state after `Proceed` with outcome `o`: the ref and out values are copied back
      into the arguments, which keep their number; a returned value lands in the return
      slot, and a void completion or a throw leaves the return slot alone. */
  function StateAfterProceed(st: CallState, o: ProceedOutcome): (r: CallState)
    ensures |r.args| == |st.args|
    ensures forall i :: 0 <= i < |st.args| ==> r.args[i] == if i in o.byRef then o.byRef[i] else st.args[i]
    ensures r.returnValue == (if o.Completed? && o.returned.Some? then o.returned.value else st.returnValue)
  {
    var args := WriteBack(st.args, o.byRef);
    match o
    case Completed(Some(v), _) => CallState(args, v)
    case _ => CallState(args, st.returnValue)
  }

  /** Castle's IInvocation as the dispatcher uses it: the method identities it offers
      (Method, MethodInvocationTarget, GetConcreteMethod(), GetConcreteMethodInvocationTarget(),
      each possibly null), the method's name, whether an InvocationTarget exists, what the
      real method does with given arguments, and the mutable arguments and return slot. */
  class Invocation {
    const identities: seq<Option<MethodInfo>>
    const methodName: string
    const hasTarget: bool
    const target: seq<Obj> -> ProceedOutcome
    var args: seq<Obj>
    var returnValue: Obj

    constructor(identities: seq<Option<MethodInfo>>, methodName: string, hasTarget: bool,
                target: seq<Obj> -> ProceedOutcome, args: seq<Obj>)
      ensures this.identities == identities && this.methodName == methodName
      ensures this.hasTarget == hasTarget && this.target == target
      ensures State() == CallState(args, Null)
    {
      this.identities := identities;
      this.methodName := methodName;
      this.hasTarget := hasTarget;
      this.target := target;
      this.args := args;
      this.returnValue := Null;
    }

    function State(): CallState
      reads this
    {
      CallState(args, returnValue)
    }

    method GetArgumentValue(index: int) returns (r: Result<Obj, Exception>)
      ensures r == ArgumentAt(args, index)
    {
      if 0 <= index < |args| {
        r := Ok(args[index]);
      } else {
        r := Err(IndexOutOfRange);
      }
    }

    method SetArgumentValue(index: int, value: Obj) returns (r: Outcome<Exception>)
      modifies this
      ensures var w := WithArgument(old(State()), index, value);
        if w.Ok? then r.Pass? && State() == w.value else r == Fail(w.error) && State() == old(State())
    {
      if 0 <= index < |args| {
        args := args[index := value];
        r := Pass;
      } else {
        r := Fail(IndexOutOfRange);
      }
    }

    method SetReturnValue(value: Obj)
      modifies this
      ensures State() == CallState(old(args), value)
    {
      returnValue := value;
    }

    /** Runs the real method on the current arguments. */
    method Proceed() returns (r: Outcome<Exception>)
      modifies this
      ensures var o := target(old(args));
        State() == StateAfterProceed(old(State()), o) && (r == if o.Threw? then Fail(o.ex) else Pass)
    {
      var o := target(args);
      args := WriteBack(args, o.byRef);
      match o
      case Completed(Some(v), _) => returnValue := v; r := Pass;
      case Completed(None, _) => r := Pass;
      case Threw(ex, _) => r := Fail(ex);
    }
  }

  /** The view before-interceptors receive. One view is shared by the whole before-chain;
      its attributes and logger are fixed at construction, and argument and return-value
      writes go straight to the invocation. */
  class BeforeInvocation {
    const invocation: Invocation
    const customAttributes: seq<Attribute>
    const logger: Option<Log4netLog>
    var canInvokeTargetMethod: bool

    constructor(invocation: Invocation, customAttributes: seq<Attribute>, logger: Option<Log4netLog>)
      ensures this.invocation == invocation
      ensures this.customAttributes == customAttributes && this.logger == logger
      ensures canInvokeTargetMethod
    {
      this.invocation := invocation;
      this.customAttributes := customAttributes;
      this.logger := logger;
      this.canInvokeTargetMethod := true;
    }

    function Arguments(): seq<Obj>
      reads invocation
    {
      invocation.args
    }

    method GetArgumentValue(index: int) returns (r: Result<Obj, Exception>)
      ensures r == ArgumentAt(invocation.args, index)
    {
      r := invocation.GetArgumentValue(index);
    }

    method SetCanInvokeTargetMethod(value: bool)
      modifies this
      ensures canInvokeTargetMethod == value
    {
      canInvokeTargetMethod := value;
    }

    method SetArgumentValue(index: int, value: Obj) returns (r: Outcome<Exception>)
      modifies invocation
      ensures var w := WithArgument(old(invocation.State()), index, value);
        if w.Ok? then r.Pass? && invocation.State() == w.value
        else r == Fail(w.error) && invocation.State() == old(invocation.State())
    {
      r := invocation.SetArgumentValue(index, value);
    }

    method SetReturnValue(value: Obj)
      modifies invocation
      ensures invocation.State() == CallState(old(invocation.args), value)
    {
      invocation.SetReturnValue(value);
    }
  }

  /** The view after-interceptors receive: the return slot can be read and written,
      the arguments only read. */
  class AfterInvocation {
    const invocation: Invocation
    const customAttributes: seq<Attribute>
    const logger: Option<Log4netLog>

    constructor(invocation: Invocation, customAttributes: seq<Attribute>, logger: Option<Log4netLog>)
      ensures this.invocation == invocation
      ensures this.customAttributes == customAttributes && this.logger == logger
    {
      this.invocation := invocation;
      this.customAttributes := customAttributes;
      this.logger := logger;
    }

    function Arguments(): seq<Obj>
      reads invocation
    {
      invocation.args
    }

    function ReturnValue(): Obj
      reads invocation
    {
      invocation.returnValue
    }

    method SetReturnValue(value: Obj)
      modifies invocation
      ensures invocation.State() == CallState(old(invocation.args), value)
      ensures ReturnValue() == value
    {
      invocation.SetReturnValue(value);
    }

    method GetArgumentValue(index: int) returns (r: Result<Obj, Exception>)
      ensures r == ArgumentAt(invocation.args, index)
    {
      r := invocation.GetArgumentValue(index);
    }
  }
}
