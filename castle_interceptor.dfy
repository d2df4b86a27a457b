/** CastleInterceptor: the Castle `IInterceptor` every proxy is created with. It holds the
    registry built by the factory and the logger, and dispatches each intercepted call.
    Its private helpers build lists step by step and run the chains in loops; each method
    here is proved to compute what the matching function of module Dispatch describes. */
module Interception {
  import opened Wrappers
  import opened Values
  import opened Attributes
  import opened Reflection
  import opened Entity
  import opened Seqs
  import opened Invocations
  import opened Dispatch

  lemma PresentStep(ids: seq<Option<MethodInfo>>, i: nat)
    requires i < |ids|
    ensures Present(ids[i..]) == (if ids[i].Some? then [ids[i].value] else []) + Present(ids[i + 1..])
  {
    assert ids[i..][0] == ids[i];
    assert ids[i..][1..] == ids[i + 1..];
  }

  lemma InterceptorsOnStep(reg: map<MethodInfo, seq<Info>>, ms: seq<MethodInfo>, i: nat)
    requires i < |ms|
    ensures InterceptorsOn(reg, ms[i..]) == (if ms[i] in reg then reg[ms[i]] else []) + InterceptorsOn(reg, ms[i + 1..])
  {
    assert ms[i..][0] == ms[i];
    assert ms[i..][1..] == ms[i + 1..];
  }

  lemma InterceptorsOnLoopStep(infos: seq<Info>, reg: map<MethodInfo, seq<Info>>, ms: seq<MethodInfo>, i: nat)
    requires i < |ms|
    ensures infos + InterceptorsOn(reg, ms[i..]) ==
      (if ms[i] in reg && |reg[ms[i]]| > 0 then infos + reg[ms[i]] else infos) + InterceptorsOn(reg, ms[i + 1..])
  {
    InterceptorsOnStep(reg, ms, i);
    var rest := InterceptorsOn(reg, ms[i + 1..]);
    if ms[i] in reg {
      assert infos + (reg[ms[i]] + rest) == infos + reg[ms[i]] + rest;
    } else {
      assert [] + rest == rest;
    }
  }

  lemma AttrsOntoStep(acc: seq<Attribute>, ms: seq<MethodInfo>, i: nat)
    requires i < |ms|
    ensures AttrsOnto(acc, ms[i..]) == AttrsOnto(DistinctOnto(acc, ms[i].attrs), ms[i + 1..])
  {
    assert ms[i..][0] == ms[i];
    assert ms[i..][1..] == ms[i + 1..];
  }

  lemma CapableStep(s: seq<Info>, cap: Capability, i: nat)
    requires i < |s|
    ensures Capable(s[i..], cap) == (if HasCapability(s[i].interceptor, cap) then [s[i]] else []) + Capable(s[i + 1..], cap)
  {
    assert s[i..][0] == s[i];
    assert s[i..][1..] == s[i + 1..];
  }

  lemma CapableInterceptorsStep(s: seq<Info>, cap: Capability, i: nat)
    requires i < |s|
    ensures Interceptors(Capable(s[i..], cap)) ==
      (if HasCapability(s[i].interceptor, cap) then [s[i].interceptor] else []) + Interceptors(Capable(s[i + 1..], cap))
  {
    CapableStep(s, cap, i);
    var head := if HasCapability(s[i].interceptor, cap) then [s[i]] else [];
    InterceptorsAppend(head, Capable(s[i + 1..], cap));
  }

  lemma KeepCapableStep(chain: seq<Interceptor>, s: seq<Info>, cap: Capability, i: nat)
    requires i < |s|
    ensures chain + Interceptors(Capable(s[i..], cap)) ==
      (if HasCapability(s[i].interceptor, cap) then chain + [s[i].interceptor] else chain) + Interceptors(Capable(s[i + 1..], cap))
  {
    CapableInterceptorsStep(s, cap, i);
  }

  lemma InterceptorsAppend(s: seq<Info>, t: seq<Info>)
    ensures Interceptors(s + t) == Interceptors(s) + Interceptors(t)
    decreases |s|
  {
    if s != [] {
      assert (s + t)[0] == s[0] && (s + t)[1..] == s[1..] + t;
      InterceptorsAppend(s[1..], t);
      assert Interceptors(s + t) == [s[0].interceptor] + Interceptors(s[1..] + t);
    } else {
      assert s + t == t;
    }
  }

  lemma BeforeOpsStep(ops: seq<BeforeOp>, k: nat, vs: ViewState)
    requires k < |ops|
    ensures ApplyBeforeOps(ops[k..], vs) ==
      var op := ops[k];
      if op.SetCanInvoke? then ApplyBeforeOps(ops[k + 1..], ViewState(vs.st, op.flag))
      else if op.SetArgument? then
        (var w := WithArgument(vs.st, op.index, op.argument);
         if w.Err? then Applied(vs, Some(w.error)) else ApplyBeforeOps(ops[k + 1..], ViewState(w.value, vs.canInvoke)))
      else if op.SetReturn? then ApplyBeforeOps(ops[k + 1..], ViewState(CallState(vs.st.args, op.value), vs.canInvoke))
      else Applied(vs, Some(op.ex))
  {
    assert ops[k..][0] == ops[k];
    assert ops[k..][1..] == ops[k + 1..];
  }

  lemma AfterOpsStep(ops: seq<AfterOp>, k: nat, st: CallState)
    requires k < |ops|
    ensures ApplyAfterOps(ops[k..], st) ==
      if ops[k].AssignReturn? then ApplyAfterOps(ops[k + 1..], CallState(st.args, ops[k].value))
      else Applied(st, Some(ops[k].ex))
  {
    assert ops[k..][0] == ops[k];
    assert ops[k..][1..] == ops[k + 1..];
  }

  lemma RunBeforeFromUnfold(chain: seq<Interceptor>, i: nat, b: Behaviour, attrs: seq<Attribute>, logger: Option<Log4netLog>,
                            vs: ViewState, should: bool, flags: seq<bool>, events: seq<Event>)
    requires i < |chain|
    ensures var step := BeforeTurn(chain[i], b, attrs, logger, vs);
      RunBeforeFrom(chain[i..], b, attrs, logger, vs, should, flags, events) ==
        if step.escaped.Some? then BeforeRun(step.state, should, flags, events + [BeforeCalled(chain[i])], step.escaped)
        else RunBeforeFrom(chain[i + 1..], b, attrs, logger, step.state, should && step.state.canInvoke,
                           flags + [step.state.canInvoke], events + [BeforeCalled(chain[i])])
  {
    assert chain[i..][0] == chain[i];
    assert chain[i..][1..] == chain[i + 1..];
  }

  lemma RunAfterFromUnfold(chain: seq<Interceptor>, i: nat, b: Behaviour, attrs: seq<Attribute>, logger: Option<Log4netLog>,
                           st: CallState, events: seq<Event>)
    requires i < |chain|
    ensures var step := AfterTurn(chain[i], b, attrs, logger, st);
      RunAfterFrom(chain[i..], b, attrs, logger, st, events) ==
        if step.escaped.Some? then AfterRun(step.state, events + [AfterCalled(chain[i])], step.escaped)
        else RunAfterFrom(chain[i + 1..], b, attrs, logger, step.state, events + [AfterCalled(chain[i])])
  {
    assert chain[i..][0] == chain[i];
    assert chain[i..][1..] == chain[i + 1..];
  }

  lemma ProcessMatchesStep(ms: seq<Attribute>, i: nat, ex: Exception, cfg: BuildConfig, logger: Option<Log4netLog>,
                           methodName: string, ret: Obj, events: seq<Event>)
    requires i < |ms| && forall j :: 0 <= j < |ms| ==> ms[j].HandleException?
    ensures ProcessMatches(ms[i..], ex, cfg, logger, methodName, ret, events) ==
      var p := ms[i];
      if !HandlingActive(p.handleVersion, cfg) then Handled(ret, events, Some(ex))
      else
        var events' := events + PolicyLog(p, ex, cfg, logger, methodName);
        var ret' := Override(p, ret);
        if p.strategy.Ignore? then ProcessMatches(ms[i + 1..], ex, cfg, logger, methodName, ret', events')
        else Handled(ret', events', Some(Annotate(ex, ExtraMessage(p))))
  {
    assert ms[i..][0] == ms[i];
    assert ms[i..][1..] == ms[i + 1..];
  }

  class CastleInterceptor {
    /** `m_customInterceptorsOnMethods`, possibly null. */
    const registry: Option<map<MethodInfo, seq<Info>>>
    /** `m_logger`; the generator only ever installs a log4net wrapper, so it is the log4net
        handle `GetSettedLogger` passes to the views as well. */
    const logger: Option<Log4netLog>
    /** The build the assembly was compiled in. */
    const cfg: BuildConfig
    /** Whether `m_stopwatch` has been allocated; it is created on the first timed call. */
    var hasStopwatch: bool

    constructor(registry: Option<map<MethodInfo, seq<Info>>>, logger: Option<Log4netLog>, cfg: BuildConfig)
      ensures this.registry == registry && this.logger == logger && this.cfg == cfg
      ensures !hasStopwatch
    {
      this.registry := registry;
      this.logger := logger;
      this.cfg := cfg;
      this.hasStopwatch := false;
    }

    /** The first loop of GetInvocationMethods: the identities that are not null, in order. */
    static method PresentMethods(ids: seq<Option<MethodInfo>>) returns (present: seq<MethodInfo>)
      ensures present == Present(ids)
    {
      present := [];
      var i := 0;
      while i < |ids|
        invariant 0 <= i <= |ids|
        invariant present + Present(ids[i..]) == Present(ids)
      {
        PresentStep(ids, i);
        if ids[i].Some? {
          present := present + [ids[i].value];
        }
        i := i + 1;
      }
      assert ids[i..] == [];
    }

    /** The second loop of GetInvocationMethods: each method kept at its first occurrence. */
    static method DistinctMethods(present: seq<MethodInfo>) returns (ms: seq<MethodInfo>)
      ensures ms == Distinct(present)
    {
      ms := [];
      var i := 0;
      while i < |present|
        invariant 0 <= i <= |present|
        invariant DistinctOnto(ms, present[i..]) == Distinct(present)
      {
        DistinctOntoStep(ms, present, i);
        if present[i] !in ms {
          ms := ms + [present[i]];
        }
        i := i + 1;
      }
      assert present[i..] == [];
    }

    /** GetInvocationMethods: the four identities, nulls removed, then de-duplicated. */
    method GetInvocationMethods(inv: Invocation) returns (ms: seq<MethodInfo>)
      ensures ms == InvocationMethods(inv.identities)
      ensures NoDuplicates(ms) && forall m :: m in ms <==> Some(m) in inv.identities
    {
      var present := PresentMethods(inv.identities);
      ms := DistinctMethods(present);
      InvocationMethodsSpec(inv.identities);
    }

    /** GetAttributesBindedOnTargetMethod: each method's attributes in turn, an attribute
        added only if no equal one is present yet. */
    method GetAttributesBindedOnTargetMethod(inv: Invocation) returns (total: seq<Attribute>)
      ensures total == SiteAttributes(Site(inv.identities, inv.methodName, inv.hasTarget, inv.target))
      ensures NoDuplicates(total)
    {
      var ms := GetInvocationMethods(inv);
      total := [];
      var i := 0;
      while i < |ms|
        invariant 0 <= i <= |ms|
        invariant AttrsOnto(total, ms[i..]) == AttributesOnTarget(ms)
      {
        AttrsOntoStep(total, ms, i);
        var attrs := ms[i].attrs;
        var j := 0;
        while j < |attrs|
          invariant 0 <= j <= |attrs|
          invariant AttrsOnto(DistinctOnto(total, attrs[j..]), ms[i + 1..]) == AttributesOnTarget(ms)
        {
          DistinctOntoStep(total, attrs, j);
          if attrs[j] !in total {
            total := total + [attrs[j]];
          }
          j := j + 1;
        }
        assert attrs[j..] == [];
        i := i + 1;
      }
      assert ms[i..] == [];
      AttributesOnTargetSpec(ms);
    }

    /** GetInterceptorsOnTargetMethod: the registry lists of the invocation methods,
        concatenated. Only called once the registry is known to be non-null. */
    method GetInterceptorsOnTargetMethod(inv: Invocation) returns (infos: seq<Info>)
      requires registry.Some?
      ensures infos == InterceptorsOn(registry.value, InvocationMethods(inv.identities))
    {
      var reg := registry.value;
      var ms := GetInvocationMethods(inv);
      infos := [];
      var i := 0;
      while i < |ms|
        invariant 0 <= i <= |ms|
        invariant infos + InterceptorsOn(reg, ms[i..]) == InterceptorsOn(reg, ms)
      {
        InterceptorsOnLoopStep(infos, reg, ms, i);
        if ms[i] in reg && |reg[ms[i]]| > 0 {
          infos := infos + reg[ms[i]];
        }
        i := i + 1;
      }
      assert ms[i..] == [];
    }

    /** GetDesignatedInterceptors: empty for a null or empty registry; otherwise the
        target's entries in serial-number order, keeping the interceptors of the capability. */
    method GetDesignatedInterceptors(inv: Invocation, cap: Capability) returns (chain: seq<Interceptor>)
      ensures chain == Chain(registry, inv.identities, cap)
    {
      chain := [];
      if registry.None? || |registry.value| <= 0 {
        return;
      }
      var infos := GetInterceptorsOnTargetMethod(inv);
      chain := KeepCapable(SortBySerial(infos), cap);
    }

    /** The `ForEach` over the sorted entries: the interceptors that implement the
        requested interface, in order. */
    static method KeepCapable(sorted: seq<Info>, cap: Capability) returns (chain: seq<Interceptor>)
      ensures chain == Interceptors(Capable(sorted, cap))
    {
      chain := [];
      var i := 0;
      while i < |sorted|
        invariant 0 <= i <= |sorted|
        invariant chain + Interceptors(Capable(sorted[i..], cap)) == Interceptors(Capable(sorted, cap))
      {
        KeepCapableStep(chain, sorted, cap, i);
        if HasCapability(sorted[i].interceptor, cap) {
          chain := chain + [sorted[i].interceptor];
        }
        i := i + 1;
      }
      assert sorted[i..] == [];
    }

    /** One before-interceptor's `Intercept` on the shared view: its writes, in order,
        until one throws. */
    static method RunBeforeOps(view: BeforeInvocation, ops: seq<BeforeOp>) returns (escaped: Option<Exception>)
      modifies view, view.invocation
      ensures var r := ApplyBeforeOps(ops, ViewState(old(view.invocation.State()), old(view.canInvokeTargetMethod)));
        view.invocation.State() == r.state.st && view.canInvokeTargetMethod == r.state.canInvoke && escaped == r.escaped
    {
      var inv := view.invocation;
      ghost var start := ViewState(inv.State(), view.canInvokeTargetMethod);
      var k := 0;
      while k < |ops|
        invariant 0 <= k <= |ops|
        invariant view.invocation == inv
        invariant ApplyBeforeOps(ops[k..], ViewState(inv.State(), view.canInvokeTargetMethod)) == ApplyBeforeOps(ops, start)
      {
        BeforeOpsStep(ops, k, ViewState(inv.State(), view.canInvokeTargetMethod));
        match ops[k] {
          case SetCanInvoke(b) =>
            view.SetCanInvokeTargetMethod(b);
          case SetArgument(index, v) =>
            var o := view.SetArgumentValue(index, v);
            if o.Fail? {
              return Some(o.error);
            }
          case SetReturn(v) =>
            view.SetReturnValue(v);
          case RaiseBefore(e) =>
            return Some(e);
        }
        k := k + 1;
      }
      assert ops[k..] == [];
      escaped := None;
    }

    /** `beforeInterceptor.Intercept(beforeInvocation)`: what the interceptor sees is read
        from the shared view at the start of its turn. */
    static method BeforeInterceptorTurn(view: BeforeInvocation, itc: Interceptor, b: Behaviour) returns (escaped: Option<Exception>)
      modifies view, view.invocation
      ensures var step := BeforeTurn(itc, b, view.customAttributes, view.logger,
                                     ViewState(old(view.invocation.State()), old(view.canInvokeTargetMethod)));
        view.invocation.State() == step.state.st && view.canInvokeTargetMethod == step.state.canInvoke &&
        escaped == step.escaped
    {
      var ops := b.before(itc, BeforeSnapshot(view.invocation.args, view.canInvokeTargetMethod, view.customAttributes, view.logger));
      escaped := RunBeforeOps(view, ops);
    }

    /** The loop of InvokeBeforeInterceptMethods over a non-empty chain, on the view it
        created. */
    static method RunBeforeChain(view: BeforeInvocation, chain: seq<Interceptor>, b: Behaviour)
      returns (should: bool, events: seq<Event>, escaped: Option<Exception>)
      modifies view, view.invocation
      ensures var r := RunBeforeFrom(chain, b, view.customAttributes, view.logger,
                                     ViewState(old(view.invocation.State()), old(view.canInvokeTargetMethod)), true, [], []);
        view.invocation.State() == r.vs.st && should == r.should && events == r.events && escaped == r.escaped
    {
      should := true;
      events := [];
      escaped := None;
      var inv := view.invocation;
      ghost var flags: seq<bool> := [];
      ghost var start := ViewState(inv.State(), view.canInvokeTargetMethod);
      var i := 0;
      while i < |chain|
        invariant 0 <= i <= |chain|
        invariant view.invocation == inv
        invariant escaped.None?
        invariant RunBeforeFrom(chain[i..], b, view.customAttributes, view.logger, ViewState(inv.State(), view.canInvokeTargetMethod),
                                should, flags, events) == RunBeforeFrom(chain, b, view.customAttributes, view.logger, start, true, [], [])
      {
        var itc := chain[i];
        RunBeforeFromUnfold(chain, i, b, view.customAttributes, view.logger, ViewState(inv.State(), view.canInvokeTargetMethod),
                            should, flags, events);
        escaped := BeforeInterceptorTurn(view, itc, b);
        events := events + [BeforeCalled(itc)];
        if escaped.Some? {
          return;
        }
        if !view.canInvokeTargetMethod {
          should := false;
        }
        flags := flags + [view.canInvokeTargetMethod];
        i := i + 1;
      }
      assert chain[i..] == [];
    }

    /** InvokeBeforeInterceptMethods: one shared view for the whole chain, created only if
        the chain is not empty; the decision turns false after any interceptor that left the
        view's flag false, and an exception thrown by an interceptor ends the chain. */
    method InvokeBeforeInterceptMethods(inv: Invocation, customAttrs: seq<Attribute>, b: Behaviour)
      returns (should: bool, events: seq<Event>, escaped: Option<Exception>)
      modifies inv
      ensures var r := RunBefore(Chain(registry, inv.identities, BeforeCapability), b, customAttrs, logger, old(inv.State()));
        inv.State() == r.vs.st && should == r.should && events == r.events && escaped == r.escaped
    {
      should := true;
      events := [];
      escaped := None;
      var chain := GetDesignatedInterceptors(inv, BeforeCapability);
      if |chain| > 0 {
        var view := new BeforeInvocation(inv, customAttrs, logger);
        should, events, escaped := RunBeforeChain(view, chain, b);
      }
    }

    /** One after-interceptor's `Intercept` on the after-view. */
    static method RunAfterOps(view: AfterInvocation, ops: seq<AfterOp>) returns (escaped: Option<Exception>)
      modifies view.invocation
      ensures var r := ApplyAfterOps(ops, old(view.invocation.State()));
        view.invocation.State() == r.state && escaped == r.escaped
    {
      var inv := view.invocation;
      ghost var start := inv.State();
      var k := 0;
      while k < |ops|
        invariant 0 <= k <= |ops|
        invariant ApplyAfterOps(ops[k..], inv.State()) == ApplyAfterOps(ops, start)
      {
        AfterOpsStep(ops, k, inv.State());
        match ops[k] {
          case AssignReturn(v) =>
            view.SetReturnValue(v);
          case RaiseAfter(e) =>
            return Some(e);
        }
        k := k + 1;
      }
      assert ops[k..] == [];
      escaped := None;
    }

    /** `afterInterceptor.Intercept(afterInvocation)`. */
    static method AfterInterceptorTurn(view: AfterInvocation, itc: Interceptor, b: Behaviour) returns (escaped: Option<Exception>)
      modifies view.invocation
      ensures var step := AfterTurn(itc, b, view.customAttributes, view.logger, old(view.invocation.State()));
        view.invocation.State() == step.state && escaped == step.escaped
    {
      var ops := b.after(itc, AfterSnapshot(view.invocation.args, view.invocation.returnValue, view.customAttributes, view.logger));
      escaped := RunAfterOps(view, ops);
    }

    /** InvokeAfterInterceptMethods: every after-interceptor in order on one after-view,
        until one throws. */
    method InvokeAfterInterceptMethods(inv: Invocation, customAttrs: seq<Attribute>, b: Behaviour)
      returns (events: seq<Event>, escaped: Option<Exception>)
      modifies inv
      ensures var r := RunAfter(Chain(registry, inv.identities, AfterCapability), b, customAttrs, logger, old(inv.State()));
        inv.State() == r.st && events == r.events && escaped == r.escaped
    {
      events := [];
      escaped := None;
      var chain := GetDesignatedInterceptors(inv, AfterCapability);
      ghost var st0 := inv.State();
      if |chain| > 0 {
        var view := new AfterInvocation(inv, customAttrs, logger);
        var i := 0;
        while i < |chain|
          invariant 0 <= i <= |chain|
          invariant view.invocation == inv && view.customAttributes == customAttrs && view.logger == logger
          invariant escaped.None?
          invariant RunAfterFrom(chain[i..], b, customAttrs, logger, inv.State(), events) == RunAfter(chain, b, customAttrs, logger, st0)
        {
          var itc := chain[i];
          RunAfterFromUnfold(chain, i, b, customAttrs, logger, inv.State(), events);
          escaped := AfterInterceptorTurn(view, itc, b);
          events := events + [AfterCalled(itc)];
          if escaped.Some? {
            return;
          }
          i := i + 1;
        }
        assert chain[i..] == [];
      }
    }

    /** InvokeProxiedMethodOnCatchEx: `Proceed`, and on an exception the policies for its
        exact type, in order, each first checked for the current build. */
    method InvokeProxiedMethodOnCatchEx(inv: Invocation, handlers: seq<Attribute>)
      returns (events: seq<Event>, escaped: Option<Exception>)
      modifies inv
      ensures var c := CallWithPolicies(handlers, inv.methodName, inv.target, old(inv.State()), cfg, logger);
        inv.State() == c.st && events == c.events && escaped == c.escaped
    {
      events := [Proceeded(inv.args)];
      escaped := None;
      var o := inv.Proceed();
      if o.Pass? {
        return;
      }
      var ex := o.error;
      var ms := MatchingPolicies(handlers, ex);
      if |ms| <= 0 {
        escaped := Some(ex);
        return;
      }
      ghost var ret0 := inv.returnValue;
      ghost var st1 := inv.State();
      var handled: seq<Event> := [];
      var i := 0;
      while i < |ms|
        invariant 0 <= i <= |ms|
        invariant inv.args == st1.args
        invariant ProcessMatches(ms[i..], ex, cfg, logger, inv.methodName, inv.returnValue, handled) ==
                  ProcessMatches(ms, ex, cfg, logger, inv.methodName, ret0, [])
      {
        ProcessMatchesStep(ms, i, ex, cfg, logger, inv.methodName, inv.returnValue, handled);
        var p := ms[i];
        var needHandle := false;
        if p.handleVersion == AllVersion {
          needHandle := true;
        } else if cfg.debug {
          if p.handleVersion == DebugVersion {
            needHandle := true;
          }
        } else {
          if p.handleVersion == ReleaseVersion {
            needHandle := true;
          }
        }
        if !needHandle {
          events := events + handled;
          escaped := Some(ex);
          return;
        }
        var extraMsg := ExtraMessage(p);
        if p.needLog {
          handled := handled + Logging(logger, ErrorLevel, ExceptionReport(inv.methodName, extraMsg, ex));
        } else {
          assert handled + PolicyLog(p, ex, cfg, logger, inv.methodName) == handled;
        }
        if p.returnValue.Ref? {
          inv.SetReturnValue(p.returnValue);
        }
        if !p.strategy.Ignore? {
          events := events + handled;
          escaped := Some(Annotate(ex, extraMsg));
          return;
        }
        i := i + 1;
      }
      assert ms[i..] == [];
      events := events + handled;
    }

    /** InvokeTargetMethod: the exact-type filters, the beforeProceed entries, the call
        (timed when a NoteElapsedTime attribute is present), the timing entry, then the
        afterProceed entries. */
    method InvokeTargetMethod(inv: Invocation, attrs: seq<Attribute>) returns (events: seq<Event>, escaped: Option<Exception>)
      modifies inv, this
      ensures var c := TargetCall(attrs, inv.methodName, inv.target, old(inv.State()), cfg, logger);
        inv.State() == c.st && events == c.events && escaped == c.escaped
      ensures hasStopwatch == (old(hasStopwatch) || |OfExactType(attrs, NoteElapsedTimeKind)| > 0)
    {
      var handlers := OfExactType(attrs, HandleExceptionKind);
      var logs := OfExactType(attrs, WriteLogKind);
      var notes := OfExactType(attrs, NoteElapsedTimeKind);
      events := WriteLogEvents(BeforeProceed, logs, cfg, logger);
      var callEvents;
      if |notes| > 0 {
        hasStopwatch := true;
        callEvents, escaped := InvokeProxiedMethodOnCatchEx(inv, handlers);
        events := events + callEvents;
        if escaped.Some? {
          return;
        }
        events := events + TimingEvents(notes[0], cfg, logger, inv.methodName);
      } else {
        callEvents, escaped := InvokeProxiedMethodOnCatchEx(inv, handlers);
        events := events + callEvents;
        if escaped.Some? {
          return;
        }
      }
      events := events + WriteLogEvents(AfterProceed, logs, cfg, logger);
    }

    /** Intercept: attributes, custom attributes and logger; the before-chain; then, if it
        decided to proceed, the real call when there is a target, and the after-chain. An
        exception from any stage ends the call. */
    method Intercept(inv: Invocation, b: Behaviour) returns (events: seq<Event>, escaped: Option<Exception>)
      modifies inv, this
      ensures var r := InterceptSpec(registry, logger, cfg, Site(inv.identities, inv.methodName, inv.hasTarget, inv.target),
                                     b, old(inv.State()));
        inv.State() == r.st && events == r.events && escaped == r.escaped
      ensures var attrs := SiteAttributes(Site(inv.identities, inv.methodName, inv.hasTarget, inv.target));
        var before := RunBefore(Chain(registry, inv.identities, BeforeCapability), b, CustomAttrs(attrs), logger, old(inv.State()));
        hasStopwatch == (old(hasStopwatch) || (before.escaped.None? && before.should && inv.hasTarget &&
                                               |OfExactType(attrs, NoteElapsedTimeKind)| > 0))
    {
      var attrs := GetAttributesBindedOnTargetMethod(inv);
      var custom := CustomAttrs(attrs);
      var should;
      should, events, escaped := InvokeBeforeInterceptMethods(inv, custom, b);
      if escaped.Some? || !should {
        return;
      }
      if inv.hasTarget {
        var callEvents;
        callEvents, escaped := InvokeTargetMethod(inv, attrs);
        events := events + callEvents;
        if escaped.Some? {
          return;
        }
      }
      var afterEvents;
      afterEvents, escaped := InvokeAfterInterceptMethods(inv, custom, b);
      events := events + afterEvents;
    }
  }
}
