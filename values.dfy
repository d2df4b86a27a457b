/** Runtime values the core handles without looking inside them: object references,
    exceptions, interceptor types and instances, and the log4net logger handle. */
module Values {
  import opened Wrappers

  /** A C# `byte`. */
  newtype byte = x: int | 0 <= x < 0x100

  /** `byte.MaxValue`. */
  const MaxByte: byte := 255

  /** An object reference: `null`, or an object of some runtime type. */
  datatype Obj = Null | Ref(typeName: string, id: nat)

  /** A thrown exception: its exact runtime type, its message and its `Data`
      dictionary (`None` when `Data` is null). Values placed in `Data` are strings here. */
  datatype Exception = Exception(exType: string, message: string, data: Option<map<string, string>>)

  const ArgumentExceptionType := "System.ArgumentException"
  const ArgumentNullExceptionType := "System.ArgumentNullException"
  const NullReferenceExceptionType := "System.NullReferenceException"
  const IndexOutOfRangeExceptionType := "System.IndexOutOfRangeException"
  const MissingMethodExceptionType := "System.MissingMethodException"
  const NotImplementedExceptionType := "System.NotImplementedException"

  /** A freshly constructed exception; its `Data` dictionary starts empty. */
  function NewException(exType: string, message: string): Exception {
    Exception(exType, message, Some(map[]))
  }

  /** `char.IsWhiteSpace`: the Unicode space separators, line and paragraph separators,
      and the control characters U+0009 to U+000D and U+0085. */
  predicate IsWhiteSpace(c: char) {
    || ('\U{0009}' <= c <= '\U{000D}')
    || c == '\U{0020}' || c == '\U{0085}' || c == '\U{00A0}' || c == '\U{1680}'
    || ('\U{2000}' <= c <= '\U{200A}')
    || c == '\U{2028}' || c == '\U{2029}' || c == '\U{202F}' || c == '\U{205F}' || c == '\U{3000}'
  }

  /** `string.IsNullOrWhiteSpace`. */
  predicate IsNullOrWhiteSpace(s: Option<string>) {
    s.None? || forall i :: 0 <= i < |s.value| ==> IsWhiteSpace(s.value[i])
  }

  /** What an interceptor class implements: nothing of this framework (`NotCustom`),
      or `ICustomInterceptor` and possibly `IBeforeInterceptor` and `IAfterInterceptor`. */
  datatype InterceptorKind = NotCustom | Custom(isBefore: bool, isAfter: bool)

  /** The two interceptor capabilities the dispatcher asks for. */
  datatype Capability = BeforeCapability | AfterCapability

  /** A `Type` named as an interceptor type; `hash` is its `GetHashCode()`. */
  datatype InterceptorType = InterceptorType(name: string, hash: bv32, kind: InterceptorKind)

  /** An `ICustomInterceptor` instance: its concrete type and which allocation it is. */
  datatype Interceptor = Interceptor(concreteType: InterceptorType, instance: nat)

  predicate HasCapability(i: Interceptor, cap: Capability) {
    match i.concreteType.kind
    case NotCustom => false
    case Custom(b, a) => if cap == BeforeCapability then b else a
  }

  /** The levels of the logging switch. */
  datatype LogLevel = DebugLevel | InfoLevel | WarnLevel | ErrorLevel | FatalLevel

  /** A log4net `ILog` handle together with its `Is*Enabled` answers. */
  datatype Log4netLog = Log4netLog(id: nat, debugEnabled: bool, infoEnabled: bool,
                                   warnEnabled: bool, errorEnabled: bool, fatalEnabled: bool)
}
