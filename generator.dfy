/** DynamicProxyGenerator's logger state: a single generator instance whose logger is
    set once and afterwards replaced only on request. The Castle proxy-creation
    methods of the class are not part of this model. */
module Generator {
  import opened Wrappers
  import opened Values

  /** The two fields the setter updates: the installed logger (the Logger_log4net
      wrapper is identified with the log4net handle it wraps) and whether one was set. */
  datatype LoggerState = LoggerState(logger: Option<Log4netLog>, hasLoggerSet: bool)

  /** The state of a newly constructed generator. */
  const InitialLoggerState := LoggerState(None, false)

  /** The ArgumentNullException thrown for a null logger (message paraphrased). */
  const NullLogException := NewException(ArgumentNullExceptionType, "logger must not be null")

  /** SetLog4netAsILogger on values: the outcome and the new state. */
  function SetLoggerStep(s: LoggerState, log: Option<Log4netLog>, isResetLogger: bool)
    : (r: (Outcome<Exception>, LoggerState))
    ensures r.0.Fail? <==> log.None?
    ensures log.None? ==> r.0 == Fail(NullLogException) && r.1 == s
    ensures log.Some? ==> r.1.hasLoggerSet
    ensures log.Some? && (isResetLogger || !s.hasLoggerSet) ==> r.1.logger == log
    ensures s.hasLoggerSet && !isResetLogger ==> r.1 == s
  {
    if log.None? then (Fail(NullLogException), s)
    else if s.hasLoggerSet && !isResetLogger then (Pass, s)
    else (Pass, LoggerState(log, true))
  }

  /** One call of the setter. */
  datatype SetCall = SetCall(log: Option<Log4netLog>, isResetLogger: bool)

  /** The state after a series of setter calls, in order. */
  function SetAll(s: LoggerState, calls: seq<SetCall>): LoggerState
    decreases |calls|
  {
    if calls == [] then s
    else SetAll(SetLoggerStep(s, calls[0].log, calls[0].isResetLogger).1, calls[1..])
  }

  /** No call both resets and passes a logger (a null one is rejected anyway). */
  predicate NoEffectiveReset(calls: seq<SetCall>) {
    forall i :: 0 <= i < |calls| ==> !(calls[i].isResetLogger && calls[i].log.Some?)
  }

  /** The logger of the first call that passes one. */
  function FirstLogger(calls: seq<SetCall>): (r: Option<Log4netLog>)
    decreases |calls|
  {
    if calls == [] then None
    else if calls[0].log.Some? then calls[0].log
    else FirstLogger(calls[1..])
  }

  /** Without resets the first logger ever set stays installed: a generator that had
      one keeps it, and one that had none ends up with the first logger passed. */
  lemma {:induction false} FirstSetWins(s: LoggerState, calls: seq<SetCall>)
    requires NoEffectiveReset(calls)
    ensures SetAll(s, calls).hasLoggerSet == (s.hasLoggerSet || FirstLogger(calls).Some?)
    ensures SetAll(s, calls).logger ==
      if s.hasLoggerSet || FirstLogger(calls).None? then s.logger else FirstLogger(calls)
    decreases |calls|
  {
    if calls != [] {
      var rest := calls[1..];
      assert NoEffectiveReset(rest) by {
        forall i | 0 <= i < |rest| ensures !(rest[i].isResetLogger && rest[i].log.Some?) {
          assert rest[i] == calls[i + 1];
        }
      }
      assert !(calls[0].isResetLogger && calls[0].log.Some?);
      FirstSetWins(SetLoggerStep(s, calls[0].log, calls[0].isResetLogger).1, rest);
    }
  }

  /** A reset with a logger installs it whatever came before, and later calls without
      reset keep it. */
  lemma {:induction false} ResetThenKeep(s: LoggerState, log: Log4netLog, calls: seq<SetCall>)
    requires NoEffectiveReset(calls)
    ensures SetAll(s, [SetCall(Some(log), true)] + calls) == LoggerState(Some(log), true)
  {
    var s1 := SetLoggerStep(s, Some(log), true).1;
    assert s1 == LoggerState(Some(log), true);
    assert ([SetCall(Some(log), true)] + calls)[1..] == calls;
    FirstSetWins(s1, calls);
  }

  /** The generator object. */
  class DynamicProxyGenerator {
    var logger: Option<Log4netLog>
    var hasLoggerSet: bool

    function State(): LoggerState
      reads this
    {
      LoggerState(logger, hasLoggerSet)
    }

    /** A new generator has no logger set. */
    constructor ()
      ensures State() == InitialLoggerState
    {
      logger := None;
      hasLoggerSet := false;
    }

    /** SetLog4netAsILogger: a null logger throws and changes nothing; otherwise the
        logger is installed unless one is already set and no reset was asked for. */
    method SetLog4netAsILogger(log: Option<Log4netLog>, isResetLogger: bool) returns (outcome: Outcome<Exception>)
      modifies this
      ensures (outcome, State()) == SetLoggerStep(old(State()), log, isResetLogger)
    {
      if log.None? {
        return Fail(NullLogException);
      }
      if hasLoggerSet && !isResetLogger {
        return Pass;
      }
      logger := log;
      hasLoggerSet := true;
      outcome := Pass;
    }
  }

  /** The static field holding the one generator, created by its initializer. */
  class GeneratorSingleton {
    const instance: DynamicProxyGenerator

    constructor ()
      ensures fresh(instance) && instance.State() == InitialLoggerState
    {
      instance := new DynamicProxyGenerator();
    }

    /** GetSingleGenerator: every call returns the same object. */
    method GetSingleGenerator() returns (g: DynamicProxyGenerator)
      ensures g == instance
    {
      g := instance;
    }
  }
}
