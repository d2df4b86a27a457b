/** The binding catalog and interceptor registry of DynamicProxyFactory, as functions on
    values. The factory's methods (module Factory) run the same steps in place and are
    proved equal to these functions; the lemmas here state what the registry contains. */
module Catalog {
  import opened Wrappers
  import opened Values
  import opened Attributes
  import opened Reflection
  import opened Entity
  import opened Seqs

  type Info = EntityInterceptorInfo

  // ---------------------------------------------------------------------------
  // CreateInterceptorInstance

  /** The fixed text placed between the original message and the argument type list. */
  const MissingCtorHint := " Check (1) that the type has a constructor and (2) that its constructor parameters are, in order: "

  /** The `{argument type};` list of the report, built left to right; `None` when some
      argument is null, because `GetType()` on it throws. */
  function ArgTypeList(args: seq<Obj>): Option<string>
    decreases |args|
  {
    if args == [] then Some("")
    else
      match ArgTypeList(args[..|args| - 1])
      case None => None
      case Some(prefix) =>
        var last := args[|args| - 1];
        if last.Null? then None else Some(prefix + last.typeName + ";")
  }

  /** The list is produced exactly when no argument is null, and then it holds one
      `;`-terminated entry per argument, in argument order. */
  lemma {:induction false} ArgTypeListSpec(args: seq<Obj>)
    ensures ArgTypeList(args).Some? <==> forall i :: 0 <= i < |args| ==> args[i].Ref?
    ensures |args| > 0 && ArgTypeList(args).Some? ==>
      ArgTypeList(args) == Some(ArgTypeList(args[..|args| - 1]).value + args[|args| - 1].typeName + ";")
    decreases |args|
  {
    if args != [] {
      var init := args[..|args| - 1];
      ArgTypeListSpec(init);
      assert forall i :: 0 <= i < |init| ==> init[i] == args[i];
    }
  }

  /** The exception thrown when no constructor matches non-empty arguments. */
  function MissingMethodReport(ex: Exception, args: seq<Obj>): Exception {
    match ArgTypeList(args)
    case None => NewException(NullReferenceExceptionType, "")
    case Some(list) => NewException(MissingMethodExceptionType, ex.message + MissingCtorHint + list)
  }

  /** Whether the attribute's argument array is non-null and non-empty. */
  predicate HasArgs(args: Option<seq<Obj>>) {
    args.Some? && |args.value| > 0
  }

  /** CreateInterceptorInstance: a new instance if it is an ICustomInterceptor, `None` when
      the activator returns null or an object of another class; a missing constructor
      is reported with the argument types when arguments were given and rethrown
      unchanged otherwise; any other failure propagates unchanged. */
  function InterceptorInstance(t: InterceptorType, args: Option<seq<Obj>>, activate: Activation)
    : (r: Result<Option<Interceptor>, Exception>)
    ensures r.Ok? && r.value.Some? ==> r.value.value.concreteType == t && t.kind.Custom?
    ensures t.kind.NotCustom? && r.Ok? ==> r.value.None?
    ensures HasArgs(args) && activate(t, args.value).MissingConstructor? && ArgTypeList(args.value).Some? ==>
      && r.Err? && r.error.exType == MissingMethodExceptionType
      && r.error.message == activate(t, args.value).ex.message + MissingCtorHint + ArgTypeList(args.value).value
    ensures !HasArgs(args) && activate(t, []).MissingConstructor? ==> r == Err(activate(t, []).ex)
    ensures r.Err? ==> !activate(t, if HasArgs(args) then args.value else []).Created?
    ensures var actual := if HasArgs(args) then args.value else [];
      var o := activate(t, actual);
      && (o.Created? && t.kind.Custom? ==> r == Ok(Some(Interceptor(t, o.instance))))
      && (o.CreatedNull? ==> r == Ok(None))
      && (o.ConstructorFailed? ==> r == Err(o.ex))
    ensures HasArgs(args) && activate(t, args.value).MissingConstructor? && ArgTypeList(args.value).None? ==>
      r.Err? && r.error.exType == NullReferenceExceptionType
  {
    var actual := if HasArgs(args) then args.value else [];
    match activate(t, actual)
    case Created(n) => Ok(if t.kind.Custom? then Some(Interceptor(t, n)) else None)
    case CreatedNull => Ok(None)
    case MissingConstructor(ex) => if HasArgs(args) then Err(MissingMethodReport(ex, args.value)) else Err(ex)
    case ConstructorFailed(ex) => Err(ex)
  }

  // ---------------------------------------------------------------------------
  // Collecting the bindings declared on one type or method

  /** One attribute in the collecting loop: skipped (`Ok(None)`) unless it is a
      BindInterceptor with a non-null interceptor type that instantiates to an
      ICustomInterceptor; construction failures propagate. */
  function BindingEntry(a: Attribute, activate: Activation): (r: Result<Option<Info>, Exception>)
    ensures r.Ok? && r.value.Some? ==>
      && a.BindInterceptor?
      && a.interceptorType == Some(r.value.value.interceptor.concreteType)
      && r.value.value.serialNo == a.serialNo
      && r.value.value.interceptor.concreteType.kind.Custom?
    ensures (!a.BindInterceptor? || a.interceptorType.None?) ==> r == Ok(None)
    ensures a.BindInterceptor? && a.interceptorType.Some? ==>
      var inst := InterceptorInstance(a.interceptorType.value, a.constructArgs, activate);
      && (r.Err? <==> inst.Err?)
      && (inst.Err? ==> r.error == inst.error)
      && (inst.Ok? && inst.value.Some? ==> r == Ok(Some(EntityInterceptorInfo(a.serialNo, inst.value.value))))
      && (inst.Ok? && inst.value.None? ==> r == Ok(None))
  {
    if !a.BindInterceptor? then Ok(None)
    else if a.interceptorType.None? then Ok(None)
    else
      match InterceptorInstance(a.interceptorType.value, a.constructArgs, activate)
      case Err(e) => Err(e)
      case Ok(None) => Ok(None)
      case Ok(Some(itc)) => Ok(Some(EntityInterceptorInfo(a.serialNo, itc)))
  }

  /** `list.Exists(item => item.Equals(x))`. */
  predicate HasSame(list: seq<Info>, x: Info) {
    exists i :: 0 <= i < |list| && Same(list[i], x)
  }

  /** No two entries are equal under EntityInterceptorInfo.Equals. */
  predicate NoSameTwice(list: seq<Info>) {
    forall i, j :: 0 <= i < j < |list| ==> Key(list[i]) != Key(list[j])
  }

  /** `if (!list.Exists(...)) list.Add(x)`. */
  function AddIfAbsent(list: seq<Info>, x: Info): (r: seq<Info>)
    ensures list <= r && |r| <= |list| + 1
    ensures HasSame(r, x)
    ensures NoSameTwice(list) ==> NoSameTwice(r)
    ensures |r| == |list| + 1 <==> !HasSame(list, x)
    ensures !HasSame(list, x) ==> r == list + [x]
    ensures HasSame(list, x) ==> r == list
  {
    if HasSame(list, x) then list
    else
      var r := list + [x];
      assert Same(r[|list|], x);
      r
  }

  /** The collecting loop over `attrs`, continuing from the list `acc`. */
  function CollectBindings(attrs: seq<Attribute>, activate: Activation, acc: seq<Info>)
    : Result<seq<Info>, Exception>
    decreases |attrs|
  {
    if attrs == [] then Ok(acc)
    else
      match BindingEntry(attrs[0], activate)
      case Err(e) => Err(e)
      case Ok(None) => CollectBindings(attrs[1..], activate, acc)
      case Ok(Some(x)) => CollectBindings(attrs[1..], activate, AddIfAbsent(acc, x))
  }

  /** The attribute at index `k` yields the entry `x`. */
  predicate Yields(attrs: seq<Attribute>, k: int, activate: Activation, x: Info) {
    0 <= k < |attrs| && BindingEntry(attrs[k], activate) == Ok(Some(x))
  }

  /** The attribute yields an entry equal to `x`. */
  predicate YieldsKeyOf(a: Attribute, activate: Activation, x: Info) {
    BindingEntry(a, activate).Ok? && BindingEntry(a, activate).value.Some? &&
    Key(BindingEntry(a, activate).value.value) == Key(x)
  }

  /** No attribute before index `k` yields an entry equal to `x`. */
  predicate FirstWithKey(attrs: seq<Attribute>, k: int, activate: Activation, x: Info)
    requires 0 <= k <= |attrs|
  {
    forall j :: 0 <= j < k ==> !YieldsKeyOf(attrs[j], activate, x)
  }

  /** Some attribute yields `x`, and none before it yields an entry equal to `x`. */
  predicate OccursFirst(attrs: seq<Attribute>, activate: Activation, x: Info) {
    exists k :: 0 <= k < |attrs| && Yields(attrs, k, activate, x) && FirstWithKey(attrs, k, activate, x)
  }

  /** A first occurrence in the tail is a first occurrence in the whole sequence when
      the head yields nothing with the same key. */
  lemma FirstOccurrenceShifts(attrs: seq<Attribute>, activate: Activation, x: Info)
    requires attrs != [] && OccursFirst(attrs[1..], activate, x)
    requires !YieldsKeyOf(attrs[0], activate, x)
    ensures OccursFirst(attrs, activate, x)
  {
    var rest := attrs[1..];
    var k :| 0 <= k < |rest| && Yields(rest, k, activate, x) && FirstWithKey(rest, k, activate, x);
    assert attrs[k + 1] == rest[k];
    forall j | 0 < j < k + 1 ensures !YieldsKeyOf(attrs[j], activate, x) {
      assert attrs[j] == rest[j - 1];
    }
    assert Yields(attrs, k + 1, activate, x) && FirstWithKey(attrs, k + 1, activate, x);
  }

  /** The list grows from `acc`, never holds two equal entries, and every entry it adds
      is the FIRST entry with its key that some attribute yields. */
  lemma {:induction false} CollectKeepsFirstOccurrence(attrs: seq<Attribute>, activate: Activation, acc: seq<Info>)
    requires NoSameTwice(acc)
    ensures CollectBindings(attrs, activate, acc).Ok? ==>
      var l := CollectBindings(attrs, activate, acc).value;
      && acc <= l
      && NoSameTwice(l)
      && forall i :: |acc| <= i < |l| ==>
           (forall j :: 0 <= j < |acc| ==> Key(acc[j]) != Key(l[i])) && OccursFirst(attrs, activate, l[i])
    decreases |attrs|
  {
    if attrs != [] && CollectBindings(attrs, activate, acc).Ok? {
      var rest := attrs[1..];
      var l := CollectBindings(attrs, activate, acc).value;
      var e := BindingEntry(attrs[0], activate);
      if e == Ok(None) {
        assert l == CollectBindings(rest, activate, acc).value;
        CollectKeepsFirstOccurrence(rest, activate, acc);
        forall i | |acc| <= i < |l|
          ensures (forall j :: 0 <= j < |acc| ==> Key(acc[j]) != Key(l[i])) && OccursFirst(attrs, activate, l[i])
        {
          FirstOccurrenceShifts(attrs, activate, l[i]);
        }
      } else if e.Ok? {
        var x := e.value.value;
        var acc' := AddIfAbsent(acc, x);
        assert l == CollectBindings(rest, activate, acc').value;
        CollectKeepsFirstOccurrence(rest, activate, acc');
        assert HasSame(acc', x);
        forall i | |acc| <= i < |l|
          ensures (forall j :: 0 <= j < |acc| ==> Key(acc[j]) != Key(l[i])) && OccursFirst(attrs, activate, l[i])
        {
          if i < |acc'| {
            assert |acc'| == |acc| + 1 && i == |acc| && l[i] == acc'[i] == x;
            assert !HasSame(acc, x);
            assert Yields(attrs, 0, activate, l[i]);
            assert FirstWithKey(attrs, 0, activate, l[i]);
          } else {
            assert forall j :: 0 <= j < |acc| ==> Key(acc[j]) != Key(l[i]) by {
              assert forall j :: 0 <= j < |acc| ==> acc[j] == acc'[j];
            }
            var w :| 0 <= w < |acc'| && Same(acc'[w], x);
            assert Key(x) != Key(l[i]);
            FirstOccurrenceShifts(attrs, activate, l[i]);
          }
        }
      }
    }
  }

  /** Every binding some attribute yields is represented in the list by an equal entry. */
  lemma {:induction false} CollectLosesNoBinding(attrs: seq<Attribute>, activate: Activation, acc: seq<Info>, k: int, x: Info)
    requires Yields(attrs, k, activate, x)
    requires CollectBindings(attrs, activate, acc).Ok?
    ensures HasSame(CollectBindings(attrs, activate, acc).value, x)
    decreases |attrs|
  {
    var rest := attrs[1..];
    var acc' := match BindingEntry(attrs[0], activate)
      case Ok(Some(y)) => AddIfAbsent(acc, y)
      case _ => acc;
    assert CollectBindings(attrs, activate, acc) == CollectBindings(rest, activate, acc');
    if k == 0 {
      CollectGrows(rest, activate, acc');
      var l := CollectBindings(attrs, activate, acc).value;
      var w :| 0 <= w < |acc'| && Same(acc'[w], x);
      assert l[w] == acc'[w];
    } else {
      assert attrs[k] == rest[k - 1];
      CollectLosesNoBinding(rest, activate, acc', k - 1, x);
    }
  }

  /** A successful run only appends to `acc`. */
  lemma {:induction false} CollectGrows(attrs: seq<Attribute>, activate: Activation, acc: seq<Info>)
    ensures CollectBindings(attrs, activate, acc).Ok? ==> acc <= CollectBindings(attrs, activate, acc).value
    decreases |attrs|
  {
    if attrs != [] {
      match BindingEntry(attrs[0], activate)
      case Err(_) =>
      case Ok(None) => CollectGrows(attrs[1..], activate, acc);
      case Ok(Some(x)) => CollectGrows(attrs[1..], activate, AddIfAbsent(acc, x));
    }
  }

  /** The loop fails exactly when some attribute's construction fails, and then with
      the exception of the first such attribute. */
  lemma {:induction false} CollectFailsOnFirstError(attrs: seq<Attribute>, activate: Activation, acc: seq<Info>)
    ensures CollectBindings(attrs, activate, acc).Err? <==>
      exists k :: 0 <= k < |attrs| && BindingEntry(attrs[k], activate).Err?
    ensures CollectBindings(attrs, activate, acc).Err? ==>
      exists k :: 0 <= k < |attrs| &&
        BindingEntry(attrs[k], activate) == Err(CollectBindings(attrs, activate, acc).error) &&
        forall j :: 0 <= j < k ==> BindingEntry(attrs[j], activate).Ok?
    decreases |attrs|
  {
    if attrs != [] {
      var rest := attrs[1..];
      assert forall k :: 0 < k < |attrs| ==> attrs[k] == rest[k - 1];
      match BindingEntry(attrs[0], activate)
      case Err(e) =>
      case Ok(None) =>
        CollectFailsOnFirstError(rest, activate, acc);
        if CollectBindings(attrs, activate, acc).Err? {
          var k :| 0 <= k < |rest| && BindingEntry(rest[k], activate) == Err(CollectBindings(attrs, activate, acc).error) &&
                   forall j :: 0 <= j < k ==> BindingEntry(rest[j], activate).Ok?;
          assert BindingEntry(attrs[k + 1], activate) == Err(CollectBindings(attrs, activate, acc).error);
        }
      case Ok(Some(x)) =>
        CollectFailsOnFirstError(rest, activate, AddIfAbsent(acc, x));
        if CollectBindings(attrs, activate, acc).Err? {
          var k :| 0 <= k < |rest| && BindingEntry(rest[k], activate) == Err(CollectBindings(attrs, activate, acc).error) &&
                   forall j :: 0 <= j < k ==> BindingEntry(rest[j], activate).Ok?;
          assert BindingEntry(attrs[k + 1], activate) == Err(CollectBindings(attrs, activate, acc).error);
        }
    }
  }

  /** `IsDefined(typeof(BindInterceptorAttribute), false)`. */
  predicate HasBinding(attrs: seq<Attribute>) {
    exists i :: 0 <= i < |attrs| && attrs[i].BindInterceptor?
  }

  /** Without any BindInterceptor attribute the loop adds nothing; this is why the
      `IsDefined` guard on a type changes nothing. */
  lemma {:induction false} CollectWithoutBindings(attrs: seq<Attribute>, activate: Activation, acc: seq<Info>)
    requires !HasBinding(attrs)
    ensures CollectBindings(attrs, activate, acc) == Ok(acc)
    decreases |attrs|
  {
    if attrs != [] {
      assert !attrs[0].BindInterceptor?;
      assert !HasBinding(attrs[1..]) by {
        forall i | 0 <= i < |attrs[1..]| ensures !attrs[1..][i].BindInterceptor? {
          assert attrs[1..][i] == attrs[i + 1];
        }
      }
      CollectWithoutBindings(attrs[1..], activate, acc);
    }
  }

  /** The de-duplicated bindings declared directly on a type (GetCustomInterceptorsOnTypeSelf);
      a null type has none. */
  function TypeLevelBindings(t: Option<TypeInfo>, activate: Activation): Result<seq<Info>, Exception> {
    if t.None? then Ok([]) else CollectBindings(t.value.attrs, activate, [])
  }

  /** The de-duplicated bindings declared on one method. */
  function MethodLevelBindings(m: MethodInfo, activate: Activation): Result<seq<Info>, Exception> {
    CollectBindings(m.attrs, activate, [])
  }

  // ---------------------------------------------------------------------------
  // GetMethodsInType

  /** A class contributes only its virtual methods, any other type all of them;
      methods declared by `object` never count. */
  predicate Eligible(t: TypeInfo, m: MethodInfo) {
    (!t.isClass || m.isVirtual) && !m.declaredOnObject
  }

  function FilterEligible(t: TypeInfo, ms: seq<MethodInfo>): (r: seq<MethodInfo>)
    ensures forall m :: m in r <==> m in ms && Eligible(t, m)
    ensures |r| <= |ms|
    ensures NoDuplicates(ms) ==> NoDuplicates(r)
    decreases |ms|
  {
    if ms == [] then []
    else
      var rest := FilterEligible(t, ms[1..]);
      assert forall m :: m in ms <==> m == ms[0] || m in ms[1..] by { assert ms == [ms[0]] + ms[1..]; }
      if Eligible(t, ms[0]) then [ms[0]] + rest else rest
  }

  /** GetMethodsInType: the eligible methods, in reflection's order. */
  function MethodsInType(t: TypeInfo): (r: seq<MethodInfo>)
    ensures forall m :: m in r <==> m in t.methods && Eligible(t, m)
    ensures NoDuplicates(t.methods) ==> NoDuplicates(r)
  {
    FilterEligible(t, t.methods)
  }

  // ---------------------------------------------------------------------------
  // The registry dictionary

  /** The dictionary and the list objects it refers to. `dic` maps a method to the
      index of its list in `lists`; two methods mapped to one index share one List
      object, as every method without its own bindings shares the type-level list. */
  datatype Arena = Arena(dic: map<MethodInfo, nat>, lists: seq<seq<Info>>)

  predicate WellFormed(a: Arena) {
    forall m :: m in a.dic ==> a.dic[m] < |a.lists|
  }

  /** The dictionary as the dispatcher sees it: each method's current list contents. */
  function Resolve(a: Arena): (r: map<MethodInfo, seq<Info>>)
    requires WellFormed(a)
    ensures r.Keys == a.dic.Keys
  {
    map m | m in a.dic :: a.lists[a.dic[m]]
  }

  /** A new, empty Dictionary. */
  const EmptyArena := Arena(map[], [])

  /** `Dictionary.Add` of a key already present. */
  const DuplicateKeyException := NewException(ArgumentExceptionType, "An item with the same key has already been added.")

  /** The state after a building step, and whether it threw. */
  datatype Built = Built(outcome: Outcome<Exception>, arena: Arena)

  /** GetCustomInterceptorsDicByMethods: every method that declares a BindInterceptor
      gets a new list of its own, added with `Dictionary.Add`. */
  function AddMethodLevel(ms: seq<MethodInfo>, activate: Activation, a: Arena): (r: Built)
    requires WellFormed(a)
    ensures WellFormed(r.arena) && a.lists <= r.arena.lists
    ensures forall k :: k in a.dic ==> k in r.arena.dic && r.arena.dic[k] == a.dic[k]
    ensures forall k :: k in r.arena.dic && k !in a.dic ==> r.arena.dic[k] >= |a.lists|
    decreases |ms|
  {
    if ms == [] then Built(Pass, a)
    else
      var m := ms[0];
      if !HasBinding(m.attrs) then AddMethodLevel(ms[1..], activate, a)
      else
        match MethodLevelBindings(m, activate)
        case Err(e) => Built(Fail(e), a)
        case Ok(own) =>
          if m in a.dic then Built(Fail(DuplicateKeyException), a)
          else AddMethodLevel(ms[1..], activate, Arena(a.dic[m := |a.lists|], a.lists + [own]))
  }

  /** One step of the merge loop, for method `m`. */
  function MergeStep(m: MethodInfo, ts: nat, a: Arena): (r: Arena)
    requires WellFormed(a) && ts < |a.lists|
    ensures WellFormed(r) && |r.lists| == |a.lists|
    ensures r.dic.Keys == a.dic.Keys + {m}
    ensures forall k :: k in a.dic ==> r.dic[k] == a.dic[k]
  {
    if m in a.dic then Arena(a.dic, a.lists[a.dic[m] := a.lists[a.dic[m]] + a.lists[ts]])
    else Arena(a.dic[m := ts], a.lists)
  }

  lemma MembersCons(ms: seq<MethodInfo>)
    requires ms != []
    ensures (set x | x in ms) == {ms[0]} + set x | x in ms[1..]
  {
    assert ms == [ms[0]] + ms[1..];
  }

  /** The merge loop: a method already in the dictionary gets the type-level bindings
      appended to its list (`AddRange`, line 288, with no de-duplication); any other
      method is mapped to the type-level list object itself (line 292). */
  function MergeTypeLevel(ms: seq<MethodInfo>, ts: nat, a: Arena): (r: Arena)
    requires WellFormed(a) && ts < |a.lists|
    ensures WellFormed(r) && |r.lists| == |a.lists|
    ensures r.dic.Keys == a.dic.Keys + set m | m in ms
    ensures forall k :: k in a.dic ==> r.dic[k] == a.dic[k]
    decreases |ms|
  {
    if ms == [] then a
    else
      var m := ms[0];
      var a' := MergeStep(m, ts, a);
      var r := MergeTypeLevel(ms[1..], ts, a');
      MembersCons(ms);
      r
  }

  /** GetCustomInterceptorsInType for one type: type-level list first, then the
      method-level lists, then the merge. A null type throws when its methods are read. */
  function InTypeSpec(t: Option<TypeInfo>, activate: Activation, a: Arena): (r: Built)
    requires WellFormed(a)
    ensures WellFormed(r.arena)
  {
    match TypeLevelBindings(t, activate)
    case Err(e) => Built(Fail(e), a)
    case Ok(typeLevel) =>
      if t.None? then Built(Fail(NewException(NullReferenceExceptionType, "")), a)
      else
        var ms := MethodsInType(t.value);
        var ts := |a.lists|;
        var b := AddMethodLevel(ms, activate, Arena(a.dic, a.lists + [typeLevel]));
        if b.outcome.Fail? then b
        else Built(Pass, MergeTypeLevel(ms, ts, b.arena))
  }

  /** Several calls on one dictionary, in order, stopping at the first that throws. */
  function BuildAll(types: seq<Option<TypeInfo>>, activate: Activation, a: Arena): (r: Built)
    requires WellFormed(a)
    ensures WellFormed(r.arena)
    decreases |types|
  {
    if types == [] then Built(Pass, a)
    else
      var b := InTypeSpec(types[0], activate, a);
      if b.outcome.Fail? then b else BuildAll(types[1..], activate, b.arena)
  }

  /** Building for `xs + ys` is building for `xs` and then, if that did not throw,
      for `ys` on the same dictionary. */
  lemma {:induction false} BuildAllSplits(xs: seq<Option<TypeInfo>>, ys: seq<Option<TypeInfo>>, activate: Activation, a: Arena)
    requires WellFormed(a)
    ensures var b := BuildAll(xs, activate, a);
      BuildAll(xs + ys, activate, a) == if b.outcome.Fail? then b else BuildAll(ys, activate, b.arena)
    decreases |xs|
  {
    if xs != [] {
      assert (xs + ys)[0] == xs[0];
      assert (xs + ys)[1..] == xs[1..] + ys;
      var b := InTypeSpec(xs[0], activate, a);
      if b.outcome.Pass? {
        BuildAllSplits(xs[1..], ys, activate, b.arena);
      }
    } else {
      assert xs + ys == ys;
    }
  }

  // ---------------------------------------------------------------------------
  // What the registry holds after one type

  /** No method of `ms` is a key of `dic` yet. */
  predicate FreshKeys(ms: seq<MethodInfo>, dic: map<MethodInfo, nat>) {
    forall i :: 0 <= i < |ms| ==> ms[i] !in dic
  }

  /** Every method of `ms` that declares a binding instantiates its interceptors. */
  predicate OwnBindingsSucceed(ms: seq<MethodInfo>, activate: Activation) {
    forall i :: 0 <= i < |ms| ==> HasBinding(ms[i].attrs) ==> MethodLevelBindings(ms[i], activate).Ok?
  }

  /** The first method and the rest of a non-empty sequence of distinct, fresh methods. */
  lemma SplitMethods(ms: seq<MethodInfo>, dic: map<MethodInfo, nat>)
    requires ms != [] && NoDuplicates(ms) && FreshKeys(ms, dic)
    ensures NoDuplicates(ms[1..]) && ms[0] !in ms[1..] && ms[0] !in dic && FreshKeys(ms[1..], dic)
  {
    var rest := ms[1..];
    forall i, j | 0 <= i < j < |rest| ensures rest[i] != rest[j] { assert rest[i] == ms[i + 1]; }
    forall i | 0 <= i < |rest| ensures rest[i] != ms[0] && rest[i] !in dic { assert rest[i] == ms[i + 1]; }
  }

  /** The method-level step on fresh, distinct methods throws exactly when some method's
      own bindings fail to instantiate. */
  lemma {:induction false} AddMethodLevelFailure(ms: seq<MethodInfo>, activate: Activation, a: Arena)
    requires WellFormed(a) && NoDuplicates(ms) && FreshKeys(ms, a.dic)
    ensures AddMethodLevel(ms, activate, a).outcome.Pass? <==> OwnBindingsSucceed(ms, activate)
    decreases |ms|
  {
    if ms != [] {
      var m := ms[0];
      var rest := ms[1..];
      SplitMethods(ms, a.dic);
      assert OwnBindingsSucceed(ms, activate) <==>
        ((HasBinding(m.attrs) ==> MethodLevelBindings(m, activate).Ok?) && OwnBindingsSucceed(rest, activate)) by {
        assert forall i :: 0 <= i < |rest| ==> rest[i] == ms[i + 1];
      }
      if !HasBinding(m.attrs) {
        AddMethodLevelFailure(rest, activate, a);
      } else if MethodLevelBindings(m, activate).Ok? {
        var a' := Arena(a.dic[m := |a.lists|], a.lists + [MethodLevelBindings(m, activate).value]);
        assert FreshKeys(rest, a'.dic) by {
          forall i | 0 <= i < |rest| ensures rest[i] !in a'.dic { assert rest[i] != m; }
        }
        AddMethodLevelFailure(rest, activate, a');
      }
    }
  }

  /** After a method-level step that did not throw, each method with bindings has a new
      list holding exactly its own bindings. */
  lemma {:induction false} AddMethodLevelOwnLists(ms: seq<MethodInfo>, activate: Activation, a: Arena, m: MethodInfo)
    requires WellFormed(a) && AddMethodLevel(ms, activate, a).outcome.Pass?
    requires m in ms && HasBinding(m.attrs)
    ensures var r := AddMethodLevel(ms, activate, a).arena;
      && MethodLevelBindings(m, activate).Ok?
      && m in r.dic && r.dic[m] >= |a.lists|
      && r.lists[r.dic[m]] == MethodLevelBindings(m, activate).value
    decreases |ms|
  {
    var m0 := ms[0];
    if !HasBinding(m0.attrs) {
      assert m in ms[1..] by { assert ms == [m0] + ms[1..]; }
      AddMethodLevelOwnLists(ms[1..], activate, a, m);
    } else {
      var own := MethodLevelBindings(m0, activate).value;
      var a' := Arena(a.dic[m0 := |a.lists|], a.lists + [own]);
      if m == m0 {
        var r := AddMethodLevel(ms[1..], activate, a').arena;
        assert r.dic[m] == |a.lists| && r.lists[|a.lists|] == a'.lists[|a.lists|];
      } else {
        assert m in ms[1..] by { assert ms == [m0] + ms[1..]; }
        AddMethodLevelOwnLists(ms[1..], activate, a', m);
      }
    }
  }

  /** The method-level step only adds methods that declare bindings. */
  lemma {:induction false} AddMethodLevelKeys(ms: seq<MethodInfo>, activate: Activation, a: Arena)
    requires WellFormed(a)
    ensures forall k :: k in AddMethodLevel(ms, activate, a).arena.dic ==> k in a.dic || (k in ms && HasBinding(k.attrs))
    decreases |ms|
  {
    if ms != [] {
      var m := ms[0];
      assert forall x :: x in ms[1..] ==> x in ms;
      if !HasBinding(m.attrs) {
        AddMethodLevelKeys(ms[1..], activate, a);
      } else if MethodLevelBindings(m, activate).Ok? && m !in a.dic {
        AddMethodLevelKeys(ms[1..], activate, Arena(a.dic[m := |a.lists|], a.lists + [MethodLevelBindings(m, activate).value]));
      }
    }
  }

  /** Every key of `r` that is not in `before` has a slot of its own. */
  predicate NewSlotsUnshared(before: map<MethodInfo, nat>, r: map<MethodInfo, nat>) {
    forall k1, k2 :: k1 in r && k2 in r && k1 != k2 && k1 !in before ==> r[k1] != r[k2]
  }

  /** The lists the method-level step creates belong to one method each. */
  lemma {:induction false} AddMethodLevelUnshared(ms: seq<MethodInfo>, activate: Activation, a: Arena)
    requires WellFormed(a)
    ensures NewSlotsUnshared(a.dic, AddMethodLevel(ms, activate, a).arena.dic)
    decreases |ms|
  {
    if ms != [] {
      var m := ms[0];
      if !HasBinding(m.attrs) {
        assert AddMethodLevel(ms, activate, a) == AddMethodLevel(ms[1..], activate, a);
        AddMethodLevelUnshared(ms[1..], activate, a);
      } else if MethodLevelBindings(m, activate).Ok? && m !in a.dic {
        var a' := Arena(a.dic[m := |a.lists|], a.lists + [MethodLevelBindings(m, activate).value]);
        AddMethodLevelUnshared(ms[1..], activate, a');
        var r := AddMethodLevel(ms[1..], activate, a').arena;
        assert AddMethodLevel(ms, activate, a).arena == r;
        forall k1, k2 | k1 in r.dic && k2 in r.dic && k1 != k2 && k1 !in a.dic
          ensures r.dic[k1] != r.dic[k2]
        {
          if k1 == m {
            assert r.dic[m] == |a.lists|;
            if k2 in a.dic { assert r.dic[k2] == a.dic[k2] < |a.lists|; }
            else { assert k2 !in a'.dic && r.dic[k2] >= |a'.lists|; }
          } else {
            assert k1 !in a'.dic;
          }
        }
      }
    }
  }

  /** The merge may run on `ms`: no method of `ms` already in the dictionary shares its
      list with another key or with the type-level slot. */
  predicate MergeReady(ms: seq<MethodInfo>, ts: nat, a: Arena) {
    forall m :: m in ms && m in a.dic ==> a.dic[m] != ts && forall k :: k in a.dic && k != m ==> a.dic[k] != a.dic[m]
  }

  /** One step of the merge keeps it ready for the rest of the methods. */
  lemma MergeStepReady(ms: seq<MethodInfo>, ts: nat, a: Arena)
    requires WellFormed(a) && ts < |a.lists| && ms != [] && NoDuplicates(ms) && MergeReady(ms, ts, a)
    ensures NoDuplicates(ms[1..]) && ms[0] !in ms[1..]
    ensures var m := ms[0];
      var a' := if m in a.dic then Arena(a.dic, a.lists[a.dic[m] := a.lists[a.dic[m]] + a.lists[ts]])
                else Arena(a.dic[m := ts], a.lists);
      MergeReady(ms[1..], ts, a')
  {
    var m0 := ms[0];
    var rest := ms[1..];
    forall i, j | 0 <= i < j < |rest| ensures rest[i] != rest[j] { assert rest[i] == ms[i + 1]; }
    forall i | 0 <= i < |rest| ensures rest[i] != m0 { assert rest[i] == ms[i + 1]; }
    var a' := if m0 in a.dic then Arena(a.dic, a.lists[a.dic[m0] := a.lists[a.dic[m0]] + a.lists[ts]])
              else Arena(a.dic[m0 := ts], a.lists);
    forall x | x in rest && x in a'.dic
      ensures a'.dic[x] != ts && forall k :: k in a'.dic && k != x ==> a'.dic[k] != a'.dic[x]
    {
      assert x in ms by { assert ms == [m0] + rest; }
      assert x != m0 && x in a.dic && a'.dic[x] == a.dic[x];
      forall k | k in a'.dic && k != x ensures a'.dic[k] != a'.dic[x] {
        if k == m0 && m0 !in a.dic {
        } else {
          assert k in a.dic && a'.dic[k] == a.dic[k];
        }
      }
    }
  }

  /** The merge never changes the type-level list. */
  lemma {:induction false} MergeKeepsTypeList(ms: seq<MethodInfo>, ts: nat, a: Arena)
    requires WellFormed(a) && ts < |a.lists| && NoDuplicates(ms) && MergeReady(ms, ts, a)
    ensures MergeTypeLevel(ms, ts, a).lists[ts] == a.lists[ts]
    decreases |ms|
  {
    if ms != [] {
      var m := ms[0];
      var a' := if m in a.dic then Arena(a.dic, a.lists[a.dic[m] := a.lists[a.dic[m]] + a.lists[ts]])
                else Arena(a.dic[m := ts], a.lists);
      MergeStepReady(ms, ts, a);
      MergeKeepsTypeList(ms[1..], ts, a');
    }
  }

  /** A method not yet in the dictionary is mapped to the type-level list itself. */
  lemma {:induction false} MergeAliasesTypeList(ms: seq<MethodInfo>, ts: nat, a: Arena, m: MethodInfo)
    requires WellFormed(a) && ts < |a.lists| && m in ms && m !in a.dic
    ensures MergeTypeLevel(ms, ts, a).dic[m] == ts
    decreases |ms|
  {
    var m0 := ms[0];
    var a' := if m0 in a.dic then Arena(a.dic, a.lists[a.dic[m0] := a.lists[a.dic[m0]] + a.lists[ts]])
              else Arena(a.dic[m0 := ts], a.lists);
    if m != m0 {
      assert m in ms[1..] by { assert ms == [m0] + ms[1..]; }
      MergeAliasesTypeList(ms[1..], ts, a', m);
    }
  }

  /** A key of the dictionary outside `ms` keeps its contents through the merge. */
  lemma {:induction false} MergeKeepsOthers(ms: seq<MethodInfo>, ts: nat, a: Arena, k: MethodInfo)
    requires WellFormed(a) && ts < |a.lists| && NoDuplicates(ms) && MergeReady(ms, ts, a)
    requires k in a.dic && k !in ms
    ensures MergeTypeLevel(ms, ts, a).lists[a.dic[k]] == a.lists[a.dic[k]]
    decreases |ms|
  {
    if ms != [] {
      var m := ms[0];
      var a' := if m in a.dic then Arena(a.dic, a.lists[a.dic[m] := a.lists[a.dic[m]] + a.lists[ts]])
                else Arena(a.dic[m := ts], a.lists);
      assert k !in ms[1..] by { assert forall x :: x in ms[1..] ==> x in ms; }
      MergeStepReady(ms, ts, a);
      MergeKeepsOthers(ms[1..], ts, a', k);
    }
  }

  /** A method of `ms` already in the dictionary ends up with its list followed by the
      type-level list (line 288: `AddRange` with no de-duplication). */
  lemma {:induction false} MergeAppendsTypeList(ms: seq<MethodInfo>, ts: nat, a: Arena, m: MethodInfo)
    requires WellFormed(a) && ts < |a.lists| && MergeReady(ms, ts, a) && NoDuplicates(ms)
    requires m in ms && m in a.dic
    ensures MergeTypeLevel(ms, ts, a).lists[a.dic[m]] == a.lists[a.dic[m]] + a.lists[ts]
    decreases |ms|
  {
    var m0 := ms[0];
    var rest := ms[1..];
    var a' := if m0 in a.dic then Arena(a.dic, a.lists[a.dic[m0] := a.lists[a.dic[m0]] + a.lists[ts]])
              else Arena(a.dic[m0 := ts], a.lists);
    MergeStepReady(ms, ts, a);
    if m == m0 {
      MergeKeepsOthers(rest, ts, a', m);
    } else {
      assert m in rest by { assert ms == [m0] + rest; }
      MergeAppendsTypeList(rest, ts, a', m);
    }
  }

  /** What one GetCustomInterceptorsInType call leaves in the dictionary for the
      method `m` of a type whose type-level bindings are `typeLevel`: its own bindings
      (if it declares any) followed by the type-level ones. */
  function ExpectedBindings(m: MethodInfo, typeLevel: seq<Info>, activate: Activation): seq<Info>
    requires HasBinding(m.attrs) ==> MethodLevelBindings(m, activate).Ok?
  {
    if HasBinding(m.attrs) then MethodLevelBindings(m, activate).value + typeLevel else typeLevel
  }

  /** One type on a dictionary none of whose keys are among its methods (a type seen for
      the first time) throws exactly when one of its bindings fails to instantiate. */
  lemma InTypeFailure(t: TypeInfo, activate: Activation, a: Arena)
    requires WellFormed(a) && NoDuplicates(t.methods) && FreshKeys(MethodsInType(t), a.dic)
    ensures InTypeSpec(Some(t), activate, a).outcome.Pass? <==>
      TypeLevelBindings(Some(t), activate).Ok? && OwnBindingsSucceed(MethodsInType(t), activate)
  {
    if TypeLevelBindings(Some(t), activate).Ok? {
      var a1 := Arena(a.dic, a.lists + [TypeLevelBindings(Some(t), activate).value]);
      AddMethodLevelFailure(MethodsInType(t), activate, a1);
    }
  }

  /** The dictionary of one GetCustomInterceptorsInType call after its method-level
      step, before the merge. */
  function MethodStage(t: TypeInfo, activate: Activation, a: Arena): (b: Arena)
    requires WellFormed(a) && TypeLevelBindings(Some(t), activate).Ok?
    ensures WellFormed(b) && |b.lists| > |a.lists|
  {
    AddMethodLevel(MethodsInType(t), activate, Arena(a.dic, a.lists + [TypeLevelBindings(Some(t), activate).value])).arena
  }

  /** The method-level step leaves the merge ready to run, with the type-level list in
      the slot after the old ones. */
  lemma MethodStageReady(t: TypeInfo, activate: Activation, a: Arena)
    requires WellFormed(a) && NoDuplicates(t.methods) && FreshKeys(MethodsInType(t), a.dic)
    requires InTypeSpec(Some(t), activate, a).outcome.Pass?
    ensures var b := MethodStage(t, activate, a);
      && MergeReady(MethodsInType(t), |a.lists|, b)
      && b.lists[|a.lists|] == TypeLevelBindings(Some(t), activate).value
      && InTypeSpec(Some(t), activate, a).arena == MergeTypeLevel(MethodsInType(t), |a.lists|, b)
  {
    var ms := MethodsInType(t);
    var a1 := Arena(a.dic, a.lists + [TypeLevelBindings(Some(t), activate).value]);
    var b := MethodStage(t, activate, a);
    AddMethodLevelUnshared(ms, activate, a1);
    forall m | m in ms && m in b.dic
      ensures b.dic[m] != |a.lists| && forall k :: k in b.dic && k != m ==> b.dic[k] != b.dic[m]
    {
      var i :| 0 <= i < |ms| && ms[i] == m;
      assert m !in a1.dic;
      assert NewSlotsUnshared(a1.dic, b.dic);
    }
  }

  /** After one type that did not throw, on a dictionary none of whose keys are among
      its methods, the keys are the old keys plus the type's eligible methods. */
  lemma InTypeKeys(t: TypeInfo, activate: Activation, a: Arena)
    requires WellFormed(a) && NoDuplicates(t.methods) && FreshKeys(MethodsInType(t), a.dic)
    requires InTypeSpec(Some(t), activate, a).outcome.Pass?
    ensures InTypeSpec(Some(t), activate, a).arena.dic.Keys == a.dic.Keys + (set m | m in t.methods && Eligible(t, m))
  {
    InTypeIsMerge(t, activate, a);
    MethodStageKeys(t, activate, a);
    KeysAfterMerge(MethodsInType(t), |a.lists|, a.dic, MethodStage(t, activate, a));
    MethodsInTypeSet(t);
  }

  /** The methods of the type as a set: its eligible methods. */
  lemma MethodsInTypeSet(t: TypeInfo)
    ensures (set m | m in MethodsInType(t)) == set m | m in t.methods && Eligible(t, m)
  {
  }

  /** A type that did not throw ends with the merge over its method-level stage. */
  lemma InTypeIsMerge(t: TypeInfo, activate: Activation, a: Arena)
    requires WellFormed(a) && InTypeSpec(Some(t), activate, a).outcome.Pass?
    ensures TypeLevelBindings(Some(t), activate).Ok?
    ensures InTypeSpec(Some(t), activate, a).arena == MergeTypeLevel(MethodsInType(t), |a.lists|, MethodStage(t, activate, a))
  {
  }

  /** The method-level stage keeps the old keys and adds only methods of the type. */
  lemma MethodStageKeys(t: TypeInfo, activate: Activation, a: Arena)
    requires WellFormed(a) && TypeLevelBindings(Some(t), activate).Ok?
    ensures forall k :: k in MethodStage(t, activate, a).dic ==> k in a.dic || k in MethodsInType(t)
    ensures forall k :: k in a.dic ==> k in MethodStage(t, activate, a).dic
  {
    AddMethodLevelKeys(MethodsInType(t), activate, Arena(a.dic, a.lists + [TypeLevelBindings(Some(t), activate).value]));
  }

  /** The merge over `ms` on an arena whose keys lie between `old` and `old` plus `ms`
      leaves exactly the keys of `old` and `ms`. */
  lemma KeysAfterMerge(ms: seq<MethodInfo>, ts: nat, before: map<MethodInfo, nat>, b: Arena)
    requires WellFormed(b) && ts < |b.lists|
    requires forall k :: k in b.dic ==> k in before || k in ms
    requires forall k :: k in before ==> k in b.dic
    ensures MergeTypeLevel(ms, ts, b).dic.Keys == before.Keys + set m | m in ms
  {
  }

  /** ... and every old key keeps what it held. */
  lemma InTypeKeepsOthers(t: TypeInfo, activate: Activation, a: Arena, k: MethodInfo)
    requires WellFormed(a) && NoDuplicates(t.methods) && FreshKeys(MethodsInType(t), a.dic)
    requires InTypeSpec(Some(t), activate, a).outcome.Pass?
    requires k in a.dic
    ensures var r := InTypeSpec(Some(t), activate, a).arena;
      k in r.dic && r.lists[r.dic[k]] == a.lists[a.dic[k]]
  {
    var ms := MethodsInType(t);
    var a1 := Arena(a.dic, a.lists + [TypeLevelBindings(Some(t), activate).value]);
    var b := MethodStage(t, activate, a);
    MethodStageReady(t, activate, a);
    assert k !in ms;
    MergeKeepsOthers(ms, |a.lists|, b, k);
    assert b.lists[a.dic[k]] == a1.lists[a.dic[k]] == a.lists[a.dic[k]];
  }

  /** ... each eligible method that declares bindings keeps a list of its own holding
      them, followed by the type-level ones: no de-duplication happens across the two
      levels ... */
  lemma InTypeOwnThenTypeLevel(t: TypeInfo, activate: Activation, a: Arena, m: MethodInfo)
    requires WellFormed(a) && NoDuplicates(t.methods) && FreshKeys(MethodsInType(t), a.dic)
    requires InTypeSpec(Some(t), activate, a).outcome.Pass?
    requires m in t.methods && Eligible(t, m) && HasBinding(m.attrs)
    ensures MethodLevelBindings(m, activate).Ok?
    ensures var r := InTypeSpec(Some(t), activate, a).arena;
      && m in r.dic && r.dic[m] > |a.lists|
      && r.lists[r.dic[m]] == MethodLevelBindings(m, activate).value + TypeLevelBindings(Some(t), activate).value
  {
    var ms := MethodsInType(t);
    var a1 := Arena(a.dic, a.lists + [TypeLevelBindings(Some(t), activate).value]);
    var b := MethodStage(t, activate, a);
    MethodStageReady(t, activate, a);
    assert m in ms;
    AddMethodLevelOwnLists(ms, activate, a1, m);
    MergeAppendsTypeList(ms, |a.lists|, b, m);
  }

  /** ... and every other eligible method holds exactly the type-level bindings. */
  lemma InTypeFallsBackToTypeLevel(t: TypeInfo, activate: Activation, a: Arena, m: MethodInfo)
    requires WellFormed(a) && NoDuplicates(t.methods) && FreshKeys(MethodsInType(t), a.dic)
    requires InTypeSpec(Some(t), activate, a).outcome.Pass?
    requires m in t.methods && Eligible(t, m) && !HasBinding(m.attrs)
    ensures var r := InTypeSpec(Some(t), activate, a).arena;
      m in r.dic && r.dic[m] == |a.lists| && r.lists[r.dic[m]] == TypeLevelBindings(Some(t), activate).value
  {
    var ms := MethodsInType(t);
    var a1 := Arena(a.dic, a.lists + [TypeLevelBindings(Some(t), activate).value]);
    var b := MethodStage(t, activate, a);
    MethodStageReady(t, activate, a);
    assert m in ms;
    AddMethodLevelKeys(ms, activate, a1);
    assert m !in b.dic;
    MergeAliasesTypeList(ms, |a.lists|, b, m);
    MergeKeepsTypeList(ms, |a.lists|, b);
  }

  /** Every eligible method without bindings of its own is mapped to one and the same
      list object, the type-level list of the type (line 292): a later `AddRange` on
      that list through one method is seen by all of them. */
  lemma InTypeSharesTypeList(t: TypeInfo, activate: Activation, a: Arena, m1: MethodInfo, m2: MethodInfo)
    requires WellFormed(a) && NoDuplicates(t.methods) && FreshKeys(MethodsInType(t), a.dic)
    requires InTypeSpec(Some(t), activate, a).outcome.Pass?
    requires m1 in t.methods && Eligible(t, m1) && !HasBinding(m1.attrs)
    requires m2 in t.methods && Eligible(t, m2) && !HasBinding(m2.attrs)
    ensures var r := InTypeSpec(Some(t), activate, a).arena;
      m1 in r.dic && m2 in r.dic && r.dic[m1] == r.dic[m2]
  {
    InTypeFallsBackToTypeLevel(t, activate, a, m1);
    InTypeFallsBackToTypeLevel(t, activate, a, m2);
  }

  // ---------------------------------------------------------------------------
  // The same type built twice on one dictionary

  /** `s` repeated `n` times. */
  function Repeat(s: seq<Info>, n: nat): (r: seq<Info>)
    ensures |r| == n * |s|
  {
    if n == 0 then [] else s + Repeat(s, n - 1)
  }

  /** A method-level step over methods none of which declares a binding changes nothing. */
  lemma {:induction false} AddMethodLevelWithoutBindings(ms: seq<MethodInfo>, activate: Activation, a: Arena)
    requires WellFormed(a)
    requires forall i :: 0 <= i < |ms| ==> !HasBinding(ms[i].attrs)
    ensures AddMethodLevel(ms, activate, a) == Built(Pass, a)
    decreases |ms|
  {
    if ms != [] {
      assert !HasBinding(ms[0].attrs);
      AddMethodLevelWithoutBindings(ms[1..], activate, a);
    }
  }

  /** A method-level step that reaches a method with bindings already in the dictionary
      throws the duplicate-key ArgumentException of `Dictionary.Add` (line 398) and leaves
      the dictionary as it was. */
  lemma {:induction false} AddMethodLevelHitsKey(ms: seq<MethodInfo>, activate: Activation, a: Arena, i: nat)
    requires WellFormed(a) && OwnBindingsSucceed(ms, activate)
    requires i < |ms| && HasBinding(ms[i].attrs)
    requires forall j :: 0 <= j < |ms| && HasBinding(ms[j].attrs) ==> ms[j] in a.dic
    ensures AddMethodLevel(ms, activate, a) == Built(Fail(DuplicateKeyException), a)
    decreases |ms|
  {
    if !HasBinding(ms[0].attrs) {
      var rest := ms[1..];
      assert forall j :: 0 <= j < |rest| ==> rest[j] == ms[j + 1];
      AddMethodLevelHitsKey(rest, activate, a, i - 1);
    } else {
      assert MethodLevelBindings(ms[0], activate).Ok?;
    }
  }

  /** Merging into methods that all share slot `s` appends the type-level list to that
      slot once per method, and changes neither the dictionary nor the type-level list. */
  lemma {:induction false} MergeIntoShared(ms: seq<MethodInfo>, ts: nat, s: nat, b: Arena)
    requires WellFormed(b) && ts < |b.lists| && s < |b.lists| && s != ts
    requires forall i :: 0 <= i < |ms| ==> ms[i] in b.dic && b.dic[ms[i]] == s
    ensures var r := MergeTypeLevel(ms, ts, b);
      && r.dic == b.dic
      && r.lists[ts] == b.lists[ts]
      && r.lists[s] == b.lists[s] + Repeat(b.lists[ts], |ms|)
    decreases |ms|
  {
    if ms != [] {
      var m := ms[0];
      assert m in b.dic && b.dic[m] == s;
      var b' := Arena(b.dic, b.lists[s := b.lists[s] + b.lists[ts]]);
      assert MergeStep(m, ts, b) == b';
      var rest := ms[1..];
      assert forall i :: 0 <= i < |rest| ==> rest[i] == ms[i + 1];
      MergeIntoShared(rest, ts, s, b');
    }
  }

  /** The type's eligible methods in reflection's order, as members of the type. */
  lemma MethodsInTypeMembers(t: TypeInfo)
    ensures forall i :: 0 <= i < |MethodsInType(t)| ==> MethodsInType(t)[i] in t.methods && Eligible(t, MethodsInType(t)[i])
  {
    forall i | 0 <= i < |MethodsInType(t)|
      ensures MethodsInType(t)[i] in t.methods && Eligible(t, MethodsInType(t)[i])
    {
      assert MethodsInType(t)[i] in MethodsInType(t);
    }
  }

  /** Building a list of two types is building the first and then, unless it threw,
      the second on the dictionary it left. */
  lemma BuildAllTwo(t1: Option<TypeInfo>, t2: Option<TypeInfo>, activate: Activation, a: Arena)
    requires WellFormed(a)
    ensures var b := InTypeSpec(t1, activate, a);
      BuildAll([t1, t2], activate, a) == if b.outcome.Fail? then b else InTypeSpec(t2, activate, b.arena)
  {
    var b := InTypeSpec(t1, activate, a);
    assert [t1, t2][1..] == [t2];
    assert BuildAll([t1, t2], activate, a) == if b.outcome.Fail? then b else BuildAll([t2], activate, b.arena);
    if b.outcome.Pass? {
      var c := InTypeSpec(t2, activate, b.arena);
      assert [t2][1..] == [];
      assert BuildAll([t2], activate, b.arena) == if c.outcome.Fail? then c else BuildAll([], activate, c.arena);
    }
  }

  /** A type without method-level bindings all of whose eligible methods already share
      one slot `s`: the call does not throw, keeps the dictionary, and appends the
      type-level list to `s` once per method. */
  lemma InTypeOnShared(t: TypeInfo, activate: Activation, a: Arena, s: nat)
    requires WellFormed(a) && s < |a.lists| && TypeLevelBindings(Some(t), activate).Ok?
    requires forall i :: 0 <= i < |MethodsInType(t)| ==> !HasBinding(MethodsInType(t)[i].attrs)
    requires forall i :: 0 <= i < |MethodsInType(t)| ==> MethodsInType(t)[i] in a.dic && a.dic[MethodsInType(t)[i]] == s
    ensures var r := InTypeSpec(Some(t), activate, a);
      && r.outcome.Pass? && r.arena.dic == a.dic
      && r.arena.lists[s] == a.lists[s] + Repeat(TypeLevelBindings(Some(t), activate).value, |MethodsInType(t)|)
  {
    var ms := MethodsInType(t);
    var typeLevel := TypeLevelBindings(Some(t), activate).value;
    var b := Arena(a.dic, a.lists + [typeLevel]);
    AddMethodLevelWithoutBindings(ms, activate, b);
    MergeIntoShared(ms, |a.lists|, s, b);
  }

  /** A type built a second time on the same dictionary (an interface listed twice among
      the additional interfaces) throws the duplicate-key ArgumentException as soon as one
      of its eligible methods declares bindings: that method is already a key. */
  lemma RebuildWithOwnBindingsThrows(t: TypeInfo, activate: Activation, a: Arena, i: nat)
    requires WellFormed(a) && NoDuplicates(t.methods) && FreshKeys(MethodsInType(t), a.dic)
    requires InTypeSpec(Some(t), activate, a).outcome.Pass?
    requires i < |MethodsInType(t)| && HasBinding(MethodsInType(t)[i].attrs)
    ensures BuildAll([Some(t), Some(t)], activate, a).outcome == Fail(DuplicateKeyException)
    ensures DuplicateKeyException.exType == ArgumentExceptionType
  {
    var ms := MethodsInType(t);
    var first := InTypeSpec(Some(t), activate, a).arena;
    InTypeIsMerge(t, activate, a);
    InTypeFailure(t, activate, a);
    MethodsInTypeMembers(t);
    forall j | 0 <= j < |ms| && HasBinding(ms[j].attrs) ensures ms[j] in first.dic {
      InTypeOwnThenTypeLevel(t, activate, a, ms[j]);
    }
    var typeLevel := TypeLevelBindings(Some(t), activate).value;
    AddMethodLevelHitsKey(ms, activate, Arena(first.dic, first.lists + [typeLevel]), i);
    BuildAllTwo(Some(t), Some(t), activate, a);
  }

  /** A type without method-level bindings built a second time on the same dictionary
      does not throw, but every eligible method already holds the shared type-level list
      (line 292), so the `AddRange` of line 288 runs on that one list once per method: the
      shared list ends up holding the type-level bindings 1 + (number of methods) times,
      and each interceptor on it then runs that many times. */
  lemma RebuildGrowsSharedList(t: TypeInfo, activate: Activation, a: Arena, m: MethodInfo)
    requires WellFormed(a) && NoDuplicates(t.methods) && FreshKeys(MethodsInType(t), a.dic)
    requires InTypeSpec(Some(t), activate, a).outcome.Pass?
    requires forall i :: 0 <= i < |MethodsInType(t)| ==> !HasBinding(MethodsInType(t)[i].attrs)
    requires m in t.methods && Eligible(t, m)
    ensures TypeLevelBindings(Some(t), activate).Ok?
    ensures var r := BuildAll([Some(t), Some(t)], activate, a);
      && r.outcome.Pass?
      && m in r.arena.dic && r.arena.dic[m] == |a.lists|
      && r.arena.lists[|a.lists|] == Repeat(TypeLevelBindings(Some(t), activate).value, 1 + |MethodsInType(t)|)
  {
    var ms := MethodsInType(t);
    var first := InTypeSpec(Some(t), activate, a).arena;
    InTypeIsMerge(t, activate, a);
    MethodsInTypeMembers(t);
    forall j | 0 <= j < |ms| ensures ms[j] in first.dic && first.dic[ms[j]] == |a.lists| {
      InTypeFallsBackToTypeLevel(t, activate, a, ms[j]);
    }
    InTypeFallsBackToTypeLevel(t, activate, a, m);
    InTypeOnShared(t, activate, first, |a.lists|);
    BuildAllTwo(Some(t), Some(t), activate, a);
  }
}
