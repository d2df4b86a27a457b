/** The enums and the declarative attributes the core reads, as plain data with the
    defaults their C# constructors and property initialisers give them. */
module Attributes {
  import opened Wrappers
  import opened Values

  /** EnumFunctionalVersion: ALLVERSION = 0 (the default), DEBUG = 1, RELEASE = 2. */
  datatype FunctionalVersion = AllVersion | DebugVersion | ReleaseVersion

  /** EnumExceptionStrategy: ignore = 0, throwAgain = 1; `Undefined` is any other
      value a cast can put into the enum (it takes the `default:` branch). */
  datatype ExceptionStrategy = Ignore | ThrowAgain | Undefined(code: int)

  /** EnumLoggingMoment: beforeProceed = 0, afterProceed = 1. */
  datatype LoggingMoment = BeforeProceed | AfterProceed

  /** EnumElapsedTimeNoteMode: only its member `log` is referred to. */
  datatype NoteMode = LogMode | OtherNoteMode(code: int)

  /** An attribute instance attached to a type or method. `UserMarker` is
      `CustomAttribute` or a class derived from it; `OtherAttribute` is anything else. */
  datatype Attribute =
    | BindInterceptor(interceptorType: Option<InterceptorType>, serialNo: byte,
                      constructArgs: Option<seq<Obj>>)
    | HandleException(exType: Option<string>, strategy: ExceptionStrategy, needLog: bool,
                      returnValue: Obj, extraMsg: Option<string>, handleVersion: FunctionalVersion)
    | WriteLog(moment: LoggingMoment, content: Option<string>, logVersion: FunctionalVersion)
    | NoteElapsedTime(noteMode: NoteMode, noteVersion: FunctionalVersion)
    | UserMarker(markerType: string, payload: nat)
    | OtherAttribute(attrType: string, payload: nat)

  /** `[BindInterceptor(t)]` and `[BindInterceptor(t, args...)]`: `SerialNo` defaults to
      `byte.MaxValue`, the lowest precedence; the one-argument form leaves the
      constructor arguments null. */
  function NewBindInterceptor(t: Option<InterceptorType>, args: Option<seq<Obj>>): (a: Attribute)
    ensures a.BindInterceptor? && a.interceptorType == t && a.constructArgs == args
    ensures a.serialNo == MaxByte
  {
    BindInterceptor(t, MaxByte, args)
  }

  /** `[HandleException(exType, strategy)]`: `NeedLog` defaults to true, `ReturnValue` and
      `ExtraMsg` to null, `HandleVersion` to ALLVERSION. */
  function NewHandleException(exType: Option<string>, strategy: ExceptionStrategy): (a: Attribute)
    ensures a.HandleException? && a.exType == exType && a.strategy == strategy
    ensures a.needLog && a.returnValue == Null && a.extraMsg == None
    ensures a.handleVersion == AllVersion
  {
    HandleException(exType, strategy, true, Null, None, AllVersion)
  }

  /** `[WriteLog(moment, content)]`: `LogVersion` defaults to ALLVERSION. */
  function NewWriteLog(moment: LoggingMoment, content: Option<string>): (a: Attribute)
    ensures a.WriteLog? && a.moment == moment && a.content == content
    ensures a.logVersion == AllVersion
  {
    WriteLog(moment, content, AllVersion)
  }

  /** `[NoteElapsedTime(mode)]`: `NoteVersion` defaults to ALLVERSION. */
  function NewNoteElapsedTime(mode: NoteMode): (a: Attribute)
    ensures a.NoteElapsedTime? && a.noteMode == mode
    ensures a.noteVersion == AllVersion
  {
    NoteElapsedTime(mode, AllVersion)
  }
}
