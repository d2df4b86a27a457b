/** DynamicProxyFactory: the loops that fill the interceptor registry in place, and the
    public entry points that check their generic arguments, build the registry for
    the proxied types in order and choose the proxy target. Each method is proved
    equal to the corresponding function of module Catalog or of this module. */
module Factory {
  import opened Wrappers
  import opened Values
  import opened Attributes
  import opened Reflection
  import opened Entity
  import opened Seqs
  import opened Catalog
  import opened Generator

  /** The `Dictionary<MethodInfo, List<EntityInterceptorInfo>>` passed by `ref`: which
      list each method maps to, and the contents of every list object. */
  class InterceptorRegistry {
    var dic: map<MethodInfo, nat>
    var lists: seq<seq<Info>>

    function Current(): Arena
      reads this
    {
      Arena(dic, lists)
    }

    predicate Valid()
      reads this
    {
      WellFormed(Current())
    }

    /** `new Dictionary<...>()`. */
    constructor ()
      ensures Current() == EmptyArena && Valid()
    {
      dic := map[];
      lists := [];
    }
  }

  // ---------------------------------------------------------------------------
  // Instantiating and collecting interceptors

  /** CreateInterceptorInstance: the activator call, and on a missing constructor with
      arguments the report built by a loop over the argument types. */
  method CreateInterceptorInstance(t: InterceptorType, args: Option<seq<Obj>>, activate: Activation)
    returns (r: Result<Option<Interceptor>, Exception>)
    ensures r == InterceptorInstance(t, args, activate)
  {
    var actual := if args.Some? && |args.value| > 0 then args.value else [];
    match activate(t, actual) {
      case Created(n) =>
        r := Ok(if t.kind.Custom? then Some(Interceptor(t, n)) else None);
      case CreatedNull =>
        r := Ok(None);
      case ConstructorFailed(ex) =>
        r := Err(ex);
      case MissingConstructor(ex) =>
        if args.Some? && |args.value| > 0 {
          var list := args.value;
          var builder := "";
          var i := 0;
          while i < |list|
            invariant 0 <= i <= |list|
            invariant ArgTypeList(list[..i]) == Some(builder)
          {
            if list[i].Null? {
              ArgTypeListSpec(list);
              return Err(NewException(NullReferenceExceptionType, ""));
            }
            assert list[..i + 1][..i] == list[..i];
            builder := builder + list[i].typeName + ";";
            i := i + 1;
          }
          assert list[..i] == list;
          r := Err(NewException(MissingMethodExceptionType, ex.message + MissingCtorHint + builder));
        } else {
          r := Err(ex);
        }
    }
  }

  /** The collecting loop shared by the type-level and method-level steps: instantiate
      each binding and add it unless an `Equals` entry is already in the list. */
  method CollectBindingsOf(attrs: seq<Attribute>, activate: Activation) returns (r: Result<seq<Info>, Exception>)
    ensures r == CollectBindings(attrs, activate, [])
  {
    var list: seq<Info> := [];
    var j := 0;
    while j < |attrs|
      invariant 0 <= j <= |attrs|
      invariant CollectBindings(attrs[j..], activate, list) == CollectBindings(attrs, activate, [])
    {
      assert attrs[j..][0] == attrs[j] && attrs[j..][1..] == attrs[j + 1..];
      var a := attrs[j];
      if a.BindInterceptor? && a.interceptorType.Some? {
        var itc := CreateInterceptorInstance(a.interceptorType.value, a.constructArgs, activate);
        if itc.Err? {
          return Err(itc.error);
        }
        if itc.value.Some? {
          var x := NewEntityInterceptorInfo(a.serialNo, itc.value.value);
          if !HasSame(list, x) {
            list := list + [x];
          }
        }
      }
      j := j + 1;
    }
    assert attrs[j..] == [];
    r := Ok(list);
  }

  /** GetCustomInterceptorsOnTypeSelf: a null type has no bindings; a type without a
      BindInterceptor attribute skips the loop. */
  method GetCustomInterceptorsOnTypeSelf(t: Option<TypeInfo>, activate: Activation) returns (r: Result<seq<Info>, Exception>)
    ensures r == TypeLevelBindings(t, activate)
  {
    if t.None? {
      return Ok([]);
    }
    if HasBinding(t.value.attrs) {
      r := CollectBindingsOf(t.value.attrs, activate);
    } else {
      CollectWithoutBindings(t.value.attrs, activate, []);
      r := Ok([]);
    }
  }

  /** GetMethodsInType: the eligible methods, in the order reflection reports them. */
  method GetMethodsInType(t: TypeInfo) returns (ms: seq<MethodInfo>)
    ensures ms == MethodsInType(t)
  {
    ms := [];
    var i := 0;
    while i < |t.methods|
      invariant 0 <= i <= |t.methods|
      invariant ms + FilterEligible(t, t.methods[i..]) == FilterEligible(t, t.methods)
    {
      FilterEligibleLoopStep(ms, t, i);
      if Eligible(t, t.methods[i]) {
        ms := ms + [t.methods[i]];
      }
      i := i + 1;
    }
    assert t.methods[i..] == [];
    assert ms + [] == ms;
  }

  lemma FilterEligibleLoopStep(ms: seq<MethodInfo>, t: TypeInfo, i: nat)
    requires i < |t.methods|
    ensures ms + FilterEligible(t, t.methods[i..]) ==
      (if Eligible(t, t.methods[i]) then ms + [t.methods[i]] else ms) + FilterEligible(t, t.methods[i + 1..])
  {
    assert t.methods[i..][0] == t.methods[i] && t.methods[i..][1..] == t.methods[i + 1..];
    var rest := FilterEligible(t, t.methods[i + 1..]);
    if Eligible(t, t.methods[i]) {
      assert ms + ([t.methods[i]] + rest) == ms + [t.methods[i]] + rest;
    } else {
      assert [] + rest == rest;
    }
  }

  // ---------------------------------------------------------------------------
  // Filling the registry

  /** GetCustomInterceptorsDicByMethods: every method declaring a BindInterceptor gets a
      new list added with `Dictionary.Add`; a failure leaves the methods before it added. */
  method GetCustomInterceptorsDicByMethods(ms: seq<MethodInfo>, activate: Activation, reg: InterceptorRegistry)
    returns (outcome: Outcome<Exception>)
    requires reg.Valid()
    modifies reg
    ensures reg.Valid()
    ensures Built(outcome, reg.Current()) == AddMethodLevel(ms, activate, old(reg.Current()))
  {
    if |ms| <= 0 {
      return Pass;
    }
    var i := 0;
    while i < |ms|
      invariant 0 <= i <= |ms|
      invariant reg.Valid()
      invariant AddMethodLevel(ms[i..], activate, reg.Current()) == AddMethodLevel(ms, activate, old(reg.Current()))
    {
      var m := ms[i];
      assert ms[i..][0] == m && ms[i..][1..] == ms[i + 1..];
      if HasBinding(m.attrs) {
        var own := CollectBindingsOf(m.attrs, activate);
        if own.Err? {
          return Fail(own.error);
        }
        if m in reg.dic {
          return Fail(DuplicateKeyException);
        }
        reg.dic := reg.dic[m := |reg.lists|];
        reg.lists := reg.lists + [own.value];
      }
      i := i + 1;
    }
    assert ms[i..] == [];
    outcome := Pass;
  }

  /** The merge loop of GetCustomInterceptorsInType: append the type-level list to the
      list of each method already present, map every other method to it. */
  method MergeTypeLevelInto(ms: seq<MethodInfo>, ts: nat, reg: InterceptorRegistry)
    requires reg.Valid() && ts < |reg.lists|
    modifies reg
    ensures reg.Valid()
    ensures reg.Current() == MergeTypeLevel(ms, ts, old(reg.Current()))
  {
    var i := 0;
    while i < |ms|
      invariant 0 <= i <= |ms|
      invariant reg.Valid() && ts < |reg.lists|
      invariant MergeTypeLevel(ms[i..], ts, reg.Current()) == MergeTypeLevel(ms, ts, old(reg.Current()))
    {
      var m := ms[i];
      assert ms[i..][0] == m && ms[i..][1..] == ms[i + 1..];
      if m in reg.dic {
        reg.lists := reg.lists[reg.dic[m] := reg.lists[reg.dic[m]] + reg.lists[ts]];
      } else {
        reg.dic := reg.dic[m := ts];
      }
      i := i + 1;
    }
    assert ms[i..] == [];
  }

  /** GetCustomInterceptorsInType: the type-level bindings, the methods, their own
      bindings, then the merge. */
  method GetCustomInterceptorsInType(t: Option<TypeInfo>, activate: Activation, reg: InterceptorRegistry)
    returns (outcome: Outcome<Exception>)
    requires reg.Valid()
    modifies reg
    ensures reg.Valid()
    ensures Built(outcome, reg.Current()) == InTypeSpec(t, activate, old(reg.Current()))
  {
    var typeSelf := GetCustomInterceptorsOnTypeSelf(t, activate);
    if typeSelf.Err? {
      return Fail(typeSelf.error);
    }
    if t.None? {
      return Fail(NewException(NullReferenceExceptionType, ""));
    }
    var ms := GetMethodsInType(t.value);
    var ts := |reg.lists|;
    reg.lists := reg.lists + [typeSelf.value];
    outcome := GetCustomInterceptorsDicByMethods(ms, activate, reg);
    if outcome.Fail? {
      return;
    }
    MergeTypeLevelInto(ms, ts, reg);
  }

  /** The loop over `additionalInterfacesToProxy`, one GetCustomInterceptorsInType call
      per element, stopping at the first that throws. */
  method AddInterfaces(types: seq<Option<TypeInfo>>, activate: Activation, reg: InterceptorRegistry)
    returns (outcome: Outcome<Exception>)
    requires reg.Valid()
    modifies reg
    ensures reg.Valid()
    ensures Built(outcome, reg.Current()) == BuildAll(types, activate, old(reg.Current()))
  {
    var i := 0;
    while i < |types|
      invariant 0 <= i <= |types|
      invariant reg.Valid()
      invariant BuildAll(types[i..], activate, reg.Current()) == BuildAll(types, activate, old(reg.Current()))
    {
      assert types[i..][0] == types[i] && types[i..][1..] == types[i + 1..];
      outcome := GetCustomInterceptorsInType(types[i], activate, reg);
      if outcome.Fail? {
        return;
      }
      i := i + 1;
    }
    assert types[i..] == [];
    outcome := Pass;
  }

  // ---------------------------------------------------------------------------
  // The public entry points

  /** The `additionalInterfacesToProxy` argument: absent from the overload, a null
      array, or an array of (possibly null) types. */
  datatype InterfacesArg = NoInterfacesArg | NullInterfaces | InterfaceArray(types: seq<Option<TypeInfo>>)

  /** What the factory hands to the generator: the filled registry and the target
      object, `None` on the paths that create a proxy without a target. */
  datatype ProxyRequest = ProxyRequest(registry: Arena, target: Option<Obj>)

  /** The ArgumentException for a generic argument of the wrong sort (message paraphrased). */
  const NotAClassException := NewException(ArgumentExceptionType, "the generic argument TClass must be a class")
  const NotAnInterfaceException := NewException(ArgumentExceptionType, "the generic argument TInterface must be an interface")

  /** A fresh registry built for `first` and then, if the overload has one, for every
      element of the additional-interfaces array; reading the length of a null array
      throws. */
  function RegistryFor(first: seq<Option<TypeInfo>>, extra: InterfacesArg, activate: Activation): Result<Arena, Exception> {
    var b := BuildAll(first, activate, EmptyArena);
    if b.outcome.Fail? then Err(b.outcome.error)
    else match extra
      case NoInterfacesArg => Ok(b.arena)
      case NullInterfaces => Err(NewException(NullReferenceExceptionType, ""))
      case InterfaceArray(xs) =>
        var c := BuildAll(xs, activate, b.arena);
        if c.outcome.Fail? then Err(c.outcome.error) else Ok(c.arena)
  }

  /** `target = target == null ? <new instance> : target` on the with-target paths;
      `newTarget` is what constructing the instance yields. */
  function TargetFor(withTargetObj: bool, target: Obj, newTarget: Result<Obj, Exception>): Result<Option<Obj>, Exception> {
    if !withTargetObj then Ok(None)
    else if target.Ref? then Ok(Some(target))
    else if newTarget.Err? then Err(newTarget.error)
    else Ok(Some(newTarget.value))
  }

  /** The four CreateClassProxy overloads: check TClass, build its registry, then the
      additional interfaces', then pick the target. */
  function ClassProxySpec(tclass: TypeInfo, extra: InterfacesArg, withTargetObj: bool, target: Obj,
                          newTarget: Result<Obj, Exception>, activate: Activation): Result<ProxyRequest, Exception>
  {
    if !tclass.isClass then Err(NotAClassException)
    else match RegistryFor([Some(tclass)], extra, activate)
      case Err(e) => Err(e)
      case Ok(a) =>
        match TargetFor(withTargetObj, target, newTarget)
        case Err(e) => Err(e)
        case Ok(t) => Ok(ProxyRequest(a, t))
  }

  /** The types of a CreateInterfaceProxy overload whose registry is built first:
      TInterface, then TClass when the overload has one. */
  function InterfaceFirst(tiface: TypeInfo, tclass: Option<TypeInfo>): seq<Option<TypeInfo>> {
    [Some(tiface)] + if tclass.Some? then [tclass] else []
  }

  /** The four CreateInterfaceProxy overloads; those with a TClass argument always
      proxy a target. */
  function InterfaceProxySpec(tiface: TypeInfo, tclass: Option<TypeInfo>, extra: InterfacesArg, target: Obj,
                              newTarget: Result<Obj, Exception>, activate: Activation): Result<ProxyRequest, Exception>
  {
    if !tiface.isInterface then Err(NotAnInterfaceException)
    else if tclass.Some? && !tclass.value.isClass then Err(NotAClassException)
    else match RegistryFor(InterfaceFirst(tiface, tclass), extra, activate)
      case Err(e) => Err(e)
      case Ok(a) =>
        match TargetFor(tclass.Some?, target, newTarget)
        case Err(e) => Err(e)
        case Ok(t) => Ok(ProxyRequest(a, t))
  }

  /** Picks the target as the with-target paths do. */
  method ChooseTarget(withTargetObj: bool, target: Obj, newTarget: Result<Obj, Exception>) returns (r: Result<Option<Obj>, Exception>)
    ensures r == TargetFor(withTargetObj, target, newTarget)
  {
    if !withTargetObj {
      return Ok(None);
    }
    if target.Null? {
      if newTarget.Err? {
        return Err(newTarget.error);
      }
      return Ok(Some(newTarget.value));
    }
    return Ok(Some(target));
  }

  /** Builds the registry for the additional-interfaces argument of an overload. */
  method AddInterfacesArg(extra: InterfacesArg, activate: Activation, reg: InterceptorRegistry)
    returns (outcome: Outcome<Exception>)
    requires reg.Valid()
    modifies reg
    ensures reg.Valid()
    ensures extra.NoInterfacesArg? ==> outcome == Pass && reg.Current() == old(reg.Current())
    ensures extra.NullInterfaces? ==> outcome == Fail(NewException(NullReferenceExceptionType, ""))
    ensures extra.InterfaceArray? ==> Built(outcome, reg.Current()) == BuildAll(extra.types, activate, old(reg.Current()))
  {
    match extra {
      case NoInterfacesArg =>
        outcome := Pass;
      case NullInterfaces =>
        outcome := Fail(NewException(NullReferenceExceptionType, ""));
      case InterfaceArray(xs) =>
        outcome := AddInterfaces(xs, activate, reg);
    }
  }

  /** CreateClassProxy (DynamicProxyFactory.cs lines 45, 74, 108 and 138). */
  method CreateClassProxy(tclass: TypeInfo, extra: InterfacesArg, withTargetObj: bool, target: Obj,
                          newTarget: Result<Obj, Exception>, activate: Activation)
    returns (r: Result<ProxyRequest, Exception>)
    ensures r == ClassProxySpec(tclass, extra, withTargetObj, target, newTarget, activate)
  {
    if !tclass.isClass {
      return Err(NotAClassException);
    }
    var reg := new InterceptorRegistry();
    var o := GetCustomInterceptorsInType(Some(tclass), activate, reg);
    if o.Fail? {
      return Err(o.error);
    }
    assert Built(o, reg.Current()) == BuildAll([Some(tclass)], activate, EmptyArena);
    o := AddInterfacesArg(extra, activate, reg);
    if o.Fail? {
      return Err(o.error);
    }
    var t := ChooseTarget(withTargetObj, target, newTarget);
    if t.Err? {
      return Err(t.error);
    }
    r := Ok(ProxyRequest(reg.Current(), t.value));
  }

  /** CreateInterfaceProxy (DynamicProxyFactory.cs lines 172, 191, 217 and 242);
      `tclass` is the TClass argument of the two-parameter overloads. */
  method CreateInterfaceProxy(tiface: TypeInfo, tclass: Option<TypeInfo>, extra: InterfacesArg, target: Obj,
                              newTarget: Result<Obj, Exception>, activate: Activation)
    returns (r: Result<ProxyRequest, Exception>)
    ensures r == InterfaceProxySpec(tiface, tclass, extra, target, newTarget, activate)
  {
    if !tiface.isInterface {
      return Err(NotAnInterfaceException);
    }
    if tclass.Some? && !tclass.value.isClass {
      return Err(NotAClassException);
    }
    var reg := new InterceptorRegistry();
    var o := AddInterfaces(InterfaceFirst(tiface, tclass), activate, reg);
    if o.Fail? {
      return Err(o.error);
    }
    o := AddInterfacesArg(extra, activate, reg);
    if o.Fail? {
      return Err(o.error);
    }
    var t := ChooseTarget(tclass.Some?, target, newTarget);
    if t.Err? {
      return Err(t.error);
    }
    r := Ok(ProxyRequest(reg.Current(), t.value));
  }

  // ---------------------------------------------------------------------------
  // Properties of the entry points

  /** With an additional-interfaces array, the registry is the one built for the
      first types followed by the array's elements, in array order. */
  lemma RegistryBuildOrder(first: seq<Option<TypeInfo>>, xs: seq<Option<TypeInfo>>, activate: Activation)
    ensures var b := BuildAll(first + xs, activate, EmptyArena);
      RegistryFor(first, InterfaceArray(xs), activate) == if b.outcome.Fail? then Err(b.outcome.error) else Ok(b.arena)
  {
    BuildAllSplits(first, xs, activate, EmptyArena);
  }

  /** What a CreateClassProxy call returns: TClass is a class; the registry is built
      for TClass and then each additional interface, in order; a target is proxied
      exactly on the with-target paths, and it is the caller's object unless that is
      null, when it is the newly constructed one. */
  lemma ClassProxyProperties(tclass: TypeInfo, extra: InterfacesArg, withTargetObj: bool, target: Obj,
                             newTarget: Result<Obj, Exception>, activate: Activation)
    ensures var r := ClassProxySpec(tclass, extra, withTargetObj, target, newTarget, activate);
      && (!tclass.isClass ==> r == Err(NotAClassException))
      && (r.Ok? ==> tclass.isClass && !extra.NullInterfaces?)
      && (r.Ok? ==> (r.value.target.Some? <==> withTargetObj))
      && (r.Ok? && withTargetObj && target.Ref? ==> r.value.target == Some(target))
      && (r.Ok? && withTargetObj && target.Null? ==> newTarget == Ok(r.value.target.value))
      && (r.Ok? ==> var types := [Some(tclass)] + (if extra.InterfaceArray? then extra.types else []);
                    var b := BuildAll(types, activate, EmptyArena);
                    b.outcome.Pass? && r.value.registry == b.arena)
  {
    if extra.InterfaceArray? {
      RegistryBuildOrder([Some(tclass)], extra.types, activate);
    } else {
      assert [Some(tclass)] + [] == [Some(tclass)];
    }
  }

  /** What a CreateInterfaceProxy call returns: the registry is built for TInterface,
      then TClass, then each additional interface; a target is proxied exactly when the
      overload has a TClass argument, and it is the caller's object unless that is null,
      when it is the newly constructed one. */
  lemma InterfaceProxyProperties(tiface: TypeInfo, tclass: Option<TypeInfo>, extra: InterfacesArg, target: Obj,
                                 newTarget: Result<Obj, Exception>, activate: Activation)
    ensures var r := InterfaceProxySpec(tiface, tclass, extra, target, newTarget, activate);
      && (!tiface.isInterface ==> r == Err(NotAnInterfaceException))
      && (tiface.isInterface && tclass.Some? && !tclass.value.isClass ==> r == Err(NotAClassException))
      && (r.Ok? ==> (r.value.target.Some? <==> tclass.Some?))
      && (r.Ok? ==> !extra.NullInterfaces?)
      && (r.Ok? && tclass.Some? && target.Ref? ==> r.value.target == Some(target))
      && (r.Ok? && tclass.Some? && target.Null? ==> newTarget == Ok(r.value.target.value))
      && (r.Ok? ==> var types := InterfaceFirst(tiface, tclass) + (if extra.InterfaceArray? then extra.types else []);
                    var b := BuildAll(types, activate, EmptyArena);
                    b.outcome.Pass? && r.value.registry == b.arena)
  {
    var first := InterfaceFirst(tiface, tclass);
    if extra.InterfaceArray? {
      RegistryBuildOrder(first, extra.types, activate);
    } else {
      assert first + [] == first;
    }
  }

  /** For a class proxied without additional interfaces, each eligible method of TClass
      maps to its own bindings followed by the class-level ones, and every other eligible
      method to the class-level bindings. */
  lemma ClassProxyRegistryContents(tclass: TypeInfo, withTargetObj: bool, target: Obj,
                                   newTarget: Result<Obj, Exception>, activate: Activation, m: MethodInfo)
    requires NoDuplicates(tclass.methods) && m in tclass.methods && Eligible(tclass, m)
    requires ClassProxySpec(tclass, NoInterfacesArg, withTargetObj, target, newTarget, activate).Ok?
    ensures TypeLevelBindings(Some(tclass), activate).Ok?
    ensures HasBinding(m.attrs) ==> MethodLevelBindings(m, activate).Ok?
    ensures var reg := ClassProxySpec(tclass, NoInterfacesArg, withTargetObj, target, newTarget, activate).value.registry;
      && WellFormed(reg) && m in Resolve(reg)
      && Resolve(reg)[m] == ExpectedBindings(m, TypeLevelBindings(Some(tclass), activate).value, activate)
  {
    var a := EmptyArena;
    var spec := InTypeSpec(Some(tclass), activate, a);
    assert BuildAll([Some(tclass)], activate, a) == spec;
    assert spec.outcome.Pass?;
    assert FreshKeys(MethodsInType(tclass), a.dic);
    if HasBinding(m.attrs) {
      InTypeOwnThenTypeLevel(tclass, activate, a, m);
    } else {
      InTypeFallsBackToTypeLevel(tclass, activate, a, m);
    }
  }

  // ---------------------------------------------------------------------------
  // SetLogger

  /** The logger passed to SetLogger: null, an object that is not a log4net `ILog`, or
      a log4net logger. */
  datatype LoggerArg = NullLogger | ForeignLogger | Log4netLogger(log: Log4netLog)

  const NullLoggerException := NewException(ArgumentNullExceptionType, "the logger passed to SetLogger must not be null")
  const NotILogException := NewException(ArgumentExceptionType, "only log4net.ILog loggers are supported")

  /** SetLogger on values: the two argument checks, then the generator's setter. */
  function SetLoggerSpec(s: LoggerState, logger: LoggerArg, isResetLogger: bool): (r: (Outcome<Exception>, LoggerState))
    ensures r.0.Fail? <==> !logger.Log4netLogger?
    ensures logger.NullLogger? ==> r.0.error.exType == ArgumentNullExceptionType && r.1 == s
    ensures logger.ForeignLogger? ==> r.0.error.exType == ArgumentExceptionType && r.1 == s
    ensures logger.Log4netLogger? ==> r.1.hasLoggerSet
    ensures logger.Log4netLogger? && (isResetLogger || !s.hasLoggerSet) ==> r.1.logger == Some(logger.log)
    ensures s.hasLoggerSet && !isResetLogger ==> r.1 == s
  {
    match logger
    case NullLogger => (Fail(NullLoggerException), s)
    case ForeignLogger => (Fail(NotILogException), s)
    case Log4netLogger(log) => SetLoggerStep(s, Some(log), isResetLogger)
  }

  /** SetLogger: rejects a null and a non-ILog logger, then sets the logger of the one
      generator. */
  method SetLogger(logger: LoggerArg, isResetLogger: bool, singleton: GeneratorSingleton)
    returns (outcome: Outcome<Exception>)
    modifies singleton.instance
    ensures (outcome, singleton.instance.State()) == SetLoggerSpec(old(singleton.instance.State()), logger, isResetLogger)
  {
    match logger {
      case NullLogger =>
        return Fail(NullLoggerException);
      case ForeignLogger =>
        return Fail(NotILogException);
      case Log4netLogger(log) =>
        var g := singleton.GetSingleGenerator();
        outcome := g.SetLog4netAsILogger(Some(log), isResetLogger);
    }
  }
}
