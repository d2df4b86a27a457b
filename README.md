# AOPDynamicProxy interception engine in Dafny

AOPDynamicProxy is a C# library that adds aspect-oriented behaviour to classes and interfaces
through Castle DynamicProxy. Users mark methods and types with attributes:

- `BindInterceptor` binds a user interceptor class, with a serial number that orders interceptors;
- `HandleException` is an exception policy;
- `WriteLog` writes a log entry;
- `NoteElapsedTime` records how long the call took.

The library has two halves, and this project models both.

**Registry builder.** `DynamicProxyFactory` builds, for every proxied type, a registry. The registry
maps each eligible method to an ordered list of `EntityInterceptorInfo` (a serial number and an
interceptor instance). Eligible methods are:

- for a class, its virtual methods;
- for an interface, all of its methods;
- in both cases, never methods declared by `object`.

A method's list holds its own bindings, de-duplicated, followed by the type-level bindings. A
method without bindings of its own shares the one type-level list object. The public
`CreateClassProxy`, `CreateInterfaceProxy` and `SetLogger` entry points check their arguments and
build the registries in a fixed order.

**Dispatcher.** `CastleInterceptor.Intercept` runs once per intercepted call, in this order:

1. It collects the method's attributes.
2. It runs the before-interceptors on one shared `BeforeInvocation` view. Their proceed decision
   is sticky: once any interceptor leaves the flag false, it stays false.
3. If the call may proceed and there is a target, it runs the real method. Around the call it
   writes the WriteLog and timing entries. The call's exceptions pass through the HandleException
   policies, which match on the exact exception type.
4. It runs the after-interceptors on an `AfterInvocation` view.

The build variant (`DEBUG`, `RELEASE`) is an explicit parameter. It enters in two separate ways:

- the exception handler's `#if DEBUG … #else`;
- the `[Conditional]` logging helpers.

The effects of a call are recorded as an event trace of:

- interceptor calls;
- the real call;
- log entries, with their level.

Both halves are written twice. The state-changing shape of the source is a set of classes and
methods with loops:

- `Factory.InterceptorRegistry`;
- `Interception.CastleInterceptor`;
- `Invocations.Invocation`, `Invocations.BeforeInvocation` and `Invocations.AfterInvocation`;
- `Generator.DynamicProxyGenerator`.

Each method is proved equal to a specification function on values, in modules `Catalog`,
`Dispatch`, `Entity`, `Invocations` and `Generator`. What the source promises is proved as lemmas
about those functions.

The registry is an arena: `dic` maps a method to a slot, and `lists` holds the slots. Methods that
share the type-level `List` object share its slot. This keeps the aliasing of
`DynamicProxyFactory.cs:292`.

An interceptor bound at both method and type level runs twice. `DynamicProxyFactory.cs:288`
appends the type-level list to the method-level list without de-duplicating across the two
levels (`Catalog.InTypeOwnThenTypeLevel`).

Building the same type twice on one dictionary is observable, for example when an interface is
repeated among the additional interfaces. A method with own bindings is already a key, so
`Dictionary.Add` at `DynamicProxyFactory.cs:398` throws an ArgumentException
(`Catalog.RebuildWithOwnBindingsThrows`). A method without own bindings already maps to the shared
type-level list, and line 329 makes a fresh list on every build, so line 288 appends a fresh
copy of the type-level bindings to the shared list once per method
(`Catalog.RebuildGrowsSharedList`).

Modules:

- `Wrappers`: Option, Outcome, Result.
- `Seqs`: de-duplication.
- `Values`: objects, exceptions, interceptors, loggers.
- `Attributes`: attribute and enum data with their defaults.
- `Reflection`: methods, types and activation as data.
- `Entity`: `EntityInterceptorInfo`.
- `Invocations`: the invocation record and its two views.
- `Generator`: the generator's logger state.
- `Catalog`: the registry builder on values.
- `Factory`: the imperative registry builder and the public entry points.
- `Dispatch`: the dispatcher on values.
- `Interception`: the imperative `CastleInterceptor`.

## Model

| member | source | states |
|---|---|---|
| Attributes.NewBindInterceptor | AOPDynamicProxy/Attribute/BindInterceptorAttribute.cs:24-33 | a binding attribute carries the given interceptor type and constructor arguments and the default serial number 255 (`byte.MaxValue`) |
| Attributes.NewHandleException | AOPDynamicProxy/Attribute/HandleExceptionAttribute.cs:28-49 | a new exception policy logs by default, has a null return value, no extra message and applies to all versions |
| Attributes.NewWriteLog | AOPDynamicProxy/Attribute/WriteLogAttribute.cs:25-31 | a new WriteLog attribute applies to all versions by default |
| Attributes.NewNoteElapsedTime | AOPDynamicProxy/Attribute/NoteElapsedTimeAttribute.cs:22-27 | a new NoteElapsedTime attribute applies to all versions by default |
| Entity.NewEntityInterceptorInfo | AOPDynamicProxy/Entity/EntityInterceptorInfo.cs:13-27 | the entity holds exactly the serial number and interceptor it was built from, and its equality key is that serial number with the interceptor's concrete type |
| Entity.Equals | AOPDynamicProxy/Entity/EntityInterceptorInfo.cs:29-49 | true exactly when the other object is an EntityInterceptorInfo with the same serial number and the same concrete interceptor type |
| Entity.EqualsNullIsFalse | AOPDynamicProxy/Entity/EntityInterceptorInfo.cs:31-39 | comparing with null or with an object of another class gives false |
| Entity.SameIsEquivalence | AOPDynamicProxy/Entity/EntityInterceptorInfo.cs:40-48 | the equality is reflexive, symmetric and transitive |
| Entity.HashAgreesWithEquals | AOPDynamicProxy/Entity/EntityInterceptorInfo.cs:51-54 | equal entities have equal hash codes |
| Entity.InstancesOfOneTypeAreSame | AOPDynamicProxy/Entity/EntityInterceptorInfo.cs:40-47 | two distinct instances of one interceptor class at one serial number are equal, so de-duplication keeps only one of them |
| Seqs.DistinctOntoSpec | AOPDynamicProxy/Interceptor/CastleInterceptor.cs:275 | de-duplicating onto a duplicate-free list keeps that list as a prefix, has no duplicates and holds exactly the elements of both inputs |
| Seqs.DistinctSpec | AOPDynamicProxy/Interceptor/CastleInterceptor.cs:275 | `Distinct` has no duplicates, the same elements as its input and is no longer than it |
| Seqs.DistinctSnoc | AOPDynamicProxy/Interceptor/CastleInterceptor.cs:275 | order: one more input element is appended to the result exactly when it has not occurred before, so the result lists first occurrences in input order |
| Seqs.DistinctOntoAppend | AOPDynamicProxy/Interceptor/CastleInterceptor.cs:284-303 | de-duplicating a concatenation equals de-duplicating the first part and then the second part onto the result |
| Invocations.ArgumentAt | AOPDynamicProxy/Invocation/Implement/BeforeInvocation.cs:38-41 | an argument read succeeds exactly when the index is within the arguments array, otherwise IndexOutOfRange |
| Invocations.WithArgument | AOPDynamicProxy/Invocation/Implement/BeforeInvocation.cs:43-46 | an argument write succeeds exactly for an index in range and keeps the number of arguments and the return value |
| Invocations.WriteThenReadArgument | AOPDynamicProxy/Invocation/Implement/BeforeInvocation.cs:38-46 | after writing v at index i, reading i gives v and every other index reads as before |
| Invocations.StateAfterProceed | AOPDynamicProxy/Interceptor/CastleInterceptor.cs:165 | after the real call each ref or out position of the arguments holds the value copied back and every other argument is kept, in number too; a returned value lands in the return slot, and a void completion or a throw leaves it alone |
| Invocations.Invocation.constructor | AOPDynamicProxy/Interceptor/CastleInterceptor.cs:36 | a new invocation holds the given identities, target and arguments and a null return value |
| Invocations.Invocation.GetArgumentValue | AOPDynamicProxy/Invocation/Implement/BeforeInvocation.cs:38-41 | reads the argument as `ArgumentAt` does, including the out-of-range error |
| Invocations.Invocation.SetArgumentValue | AOPDynamicProxy/Invocation/Implement/BeforeInvocation.cs:43-46 | writes the argument as `WithArgument` does; on an out-of-range index it reports the error and the state is unchanged |
| Invocations.Invocation.SetReturnValue | AOPDynamicProxy/Invocation/Implement/BeforeInvocation.cs:48-51 | the return slot is the value, and the arguments are unchanged |
| Invocations.Invocation.Proceed | AOPDynamicProxy/Interceptor/CastleInterceptor.cs:165 | the state becomes `StateAfterProceed` of the target's outcome on the current arguments, and the call fails exactly when the target threw |
| Invocations.BeforeInvocation.constructor | AOPDynamicProxy/Invocation/Implement/BeforeInvocation.cs:30-36 | a new before-view may proceed and holds exactly the invocation, attributes and logger it was given |
| Invocations.BeforeInvocation.GetArgumentValue | AOPDynamicProxy/Invocation/Implement/BeforeInvocation.cs:38-41 | reads the shared invocation's argument |
| Invocations.BeforeInvocation.SetCanInvokeTargetMethod | AOPDynamicProxy/Invocation/Implement/BeforeInvocation.cs:19 | the proceed flag reads back as the value set |
| Invocations.BeforeInvocation.SetArgumentValue | AOPDynamicProxy/Invocation/Implement/BeforeInvocation.cs:43-46 | the write goes through to the shared invocation as `WithArgument` describes |
| Invocations.BeforeInvocation.SetReturnValue | AOPDynamicProxy/Invocation/Implement/BeforeInvocation.cs:48-51 | the value lands in the shared invocation's return slot, and the arguments are unchanged |
| Invocations.AfterInvocation.constructor | AOPDynamicProxy/Invocation/Implement/AfterInvocation.cs:27-32 | a new after-view holds exactly the invocation, attributes and logger it was given |
| Invocations.AfterInvocation.SetReturnValue | AOPDynamicProxy/Invocation/Implement/AfterInvocation.cs:16 | the value lands in the shared invocation, reads back through `ReturnValue`, and the arguments are unchanged |
| Invocations.AfterInvocation.GetArgumentValue | AOPDynamicProxy/Invocation/Implement/AfterInvocation.cs:34-37 | only reads the shared invocation's argument |
| Generator.SetLoggerStep | AOPDynamicProxy/DynamicProxyGenerator.cs:47-56 | a null logger fails with ArgumentNullException and leaves the state as it is; otherwise a logger is marked set, and the given one is installed when a reset is asked for or none was set; a set logger without reset is kept |
| Generator.FirstSetWins | AOPDynamicProxy/DynamicProxyGenerator.cs:52-55 | over any series of calls without an effective reset, the first logger ever installed stays installed |
| Generator.ResetThenKeep | AOPDynamicProxy/DynamicProxyGenerator.cs:52-55 | a reset with a logger installs it whatever came before, and later calls without reset keep it |
| Generator.DynamicProxyGenerator.constructor | AOPDynamicProxy/DynamicProxyGenerator.cs:27-31 | a new generator has no logger set |
| Generator.DynamicProxyGenerator.SetLog4netAsILogger | AOPDynamicProxy/DynamicProxyGenerator.cs:47-56 | the outcome and the new logger fields are those of `SetLoggerStep` from the old fields |
| Generator.GeneratorSingleton.constructor | AOPDynamicProxy/DynamicProxyGenerator.cs:14 | the static instance is a fresh generator with no logger set |
| Generator.GeneratorSingleton.GetSingleGenerator | AOPDynamicProxy/DynamicProxyGenerator.cs:37-40 | every call returns the one static instance |
| Catalog.ArgTypeListSpec | AOPDynamicProxy/DynamicProxyFactory.cs:419-422 | the argument-type list exists exactly when no constructor argument is null, and it lists each argument's type followed by `;`, in order |
| Catalog.InterceptorInstance | AOPDynamicProxy/DynamicProxyFactory.cs:403-427 | an instance is returned only for a custom interceptor class, and its concrete type is the requested one; a created custom instance is returned, a null activation or a non-interceptor type gives null, and a constructor's own exception propagates; a missing constructor with arguments becomes a MissingMethodException naming the argument types, or a NullReferenceException when an argument is null; without arguments the original exception is rethrown; any error means nothing was created |
| Catalog.BindingEntry | AOPDynamicProxy/DynamicProxyFactory.cs:337-348 | an entry comes only from a BindInterceptor attribute with a non-null type whose instance was created, and it carries that attribute's serial number; every other attribute is skipped; conversely such an attribute yields the entry of its instance, nothing when the instance is null, and the instance's error when creation fails |
| Catalog.AddIfAbsent | AOPDynamicProxy/DynamicProxyFactory.cs:350-351 | without an equal entry the list becomes the list followed by this very entry, and with one it is returned unchanged; its entries stay pairwise unequal |
| Catalog.CollectKeepsFirstOccurrence | AOPDynamicProxy/DynamicProxyFactory.cs:335-352 | the collected list extends the starting list, has no two equal entries, and every added entry is new and is the first binding with its key |
| Catalog.CollectLosesNoBinding | AOPDynamicProxy/DynamicProxyFactory.cs:335-352 | every binding the attributes yield has an equal entry in the collected list |
| Catalog.CollectGrows | AOPDynamicProxy/DynamicProxyFactory.cs:335-352 | a successful collection only appends to the starting list |
| Catalog.CollectFailsOnFirstError | AOPDynamicProxy/DynamicProxyFactory.cs:335-352 | collection fails exactly when some attribute's instantiation fails, and then with the first such error |
| Catalog.CollectWithoutBindings | AOPDynamicProxy/DynamicProxyFactory.cs:374-377 | attributes with no BindInterceptor among them add nothing |
| Catalog.FilterEligible | AOPDynamicProxy/DynamicProxyFactory.cs:298-320 | keeps exactly the methods that are eligible (virtual for a class, any for an interface, never declared on `object`) and keeps them duplicate-free |
| Catalog.MethodsInType | AOPDynamicProxy/DynamicProxyFactory.cs:298-320 | a method is listed exactly when it belongs to the type and is eligible, and no method is listed twice |
| Catalog.AddMethodLevel | AOPDynamicProxy/DynamicProxyFactory.cs:363-401 | existing keys keep their slots, new keys get new slots past the old ones, and slots are only appended |
| Catalog.MergeStep | AOPDynamicProxy/DynamicProxyFactory.cs:284-293 | after one method is merged, the keys are the old keys plus that method, existing keys keep their slots, and no slot is added |
| Catalog.MergeTypeLevel | AOPDynamicProxy/DynamicProxyFactory.cs:282-294 | after the merge, the keys are the old keys plus every method of the type, existing keys keep their slots, and no slot is added |
| Catalog.InTypeSpec | AOPDynamicProxy/DynamicProxyFactory.cs:275-296 | building a type's entries keeps the arena well formed |
| Catalog.BuildAll | AOPDynamicProxy/DynamicProxyFactory.cs:50-51 | building the registry for a list of types keeps the arena well formed |
| Catalog.BuildAllSplits | AOPDynamicProxy/DynamicProxyFactory.cs:81-85 | building for `xs + ys` is building for `xs` and then, unless that failed, for `ys` |
| Catalog.AddMethodLevelFailure | AOPDynamicProxy/DynamicProxyFactory.cs:380-397 | the method-level pass succeeds exactly when every method's own bindings can be collected |
| Catalog.AddMethodLevelOwnLists | AOPDynamicProxy/DynamicProxyFactory.cs:374-398 | a method with BindInterceptor attributes gets a new slot holding exactly its de-duplicated bindings, even when they are all skipped |
| Catalog.AddMethodLevelKeys | AOPDynamicProxy/DynamicProxyFactory.cs:374-377 | the only new keys are methods that carry BindInterceptor attributes |
| Catalog.AddMethodLevelUnshared | AOPDynamicProxy/DynamicProxyFactory.cs:398 | each new method-level slot belongs to exactly one method |
| Catalog.MergeKeepsTypeList | AOPDynamicProxy/DynamicProxyFactory.cs:282-294 | the type-level list itself is not changed by the merge |
| Catalog.MergeAliasesTypeList | AOPDynamicProxy/DynamicProxyFactory.cs:292 | a method not yet in the registry is mapped to the type-level list object itself |
| Catalog.MergeKeepsOthers | AOPDynamicProxy/DynamicProxyFactory.cs:282-294 | keys of methods of other types keep what they held |
| Catalog.MergeAppendsTypeList | AOPDynamicProxy/DynamicProxyFactory.cs:288 | a method already in the registry gets the type-level list appended after its own list, without de-duplication |
| Catalog.InTypeFailure | AOPDynamicProxy/DynamicProxyFactory.cs:275-296 | building a type succeeds exactly when its type-level bindings and every method's own bindings can be collected |
| Catalog.InTypeKeys | AOPDynamicProxy/DynamicProxyFactory.cs:275-296 | after building a type, the keys are the old keys plus exactly the type's eligible methods |
| Catalog.InTypeKeepsOthers | AOPDynamicProxy/DynamicProxyFactory.cs:275-296 | methods already registered for other types keep their interceptor lists |
| Catalog.InTypeOwnThenTypeLevel | AOPDynamicProxy/DynamicProxyFactory.cs:282-294 | a method with own bindings gets its own slot holding its method-level list followed by the type-level list, with no de-duplication across the two |
| Catalog.InTypeFallsBackToTypeLevel | AOPDynamicProxy/DynamicProxyFactory.cs:292 | an eligible method without own bindings resolves to the type-level slot, which holds exactly the type-level list |
| Catalog.InTypeSharesTypeList | AOPDynamicProxy/DynamicProxyFactory.cs:292 | all eligible methods without own bindings share one slot |
| Catalog.AddMethodLevelHitsKey | AOPDynamicProxy/DynamicProxyFactory.cs:363-401 | when a method with own bindings is already a key, the method-level pass fails with the duplicate-key ArgumentException and leaves the dictionary as it was |
| Catalog.MergeIntoShared | AOPDynamicProxy/DynamicProxyFactory.cs:282-294 | when every method already maps to one shared slot, the merge loop appends the type-level list to that slot once per method and changes nothing else |
| Catalog.InTypeOnShared | AOPDynamicProxy/DynamicProxyFactory.cs:275-296 | building a type whose methods have no own bindings and already share a slot succeeds, keeps the keys, and grows that slot by one copy of the type-level list per eligible method |
| Catalog.RebuildWithOwnBindingsThrows | AOPDynamicProxy/DynamicProxyFactory.cs:398 | building the same type twice, when one of its eligible methods has own bindings, fails with an ArgumentException |
| Catalog.RebuildGrowsSharedList | AOPDynamicProxy/DynamicProxyFactory.cs:288-292 | building the same type twice, without own bindings, succeeds, and the shared slot of its methods holds the type-level list 1 + (number of eligible methods) times |
| Factory.InterceptorRegistry.constructor | AOPDynamicProxy/DynamicProxyFactory.cs:50 | a new registry is empty |
| Factory.CreateInterceptorInstance | AOPDynamicProxy/DynamicProxyFactory.cs:403-427 | the result is `Catalog.InterceptorInstance`, whose success, null, propagated and translated cases are stated there |
| Factory.CollectBindingsOf | AOPDynamicProxy/DynamicProxyFactory.cs:335-352 | the loop's list is the de-duplicating collection of the attributes' bindings |
| Factory.GetCustomInterceptorsOnTypeSelf | AOPDynamicProxy/DynamicProxyFactory.cs:327-355 | the result is the type-level binding list, empty for a type without BindInterceptor |
| Factory.GetMethodsInType | AOPDynamicProxy/DynamicProxyFactory.cs:298-320 | the filter loop returns `Catalog.MethodsInType` |
| Factory.GetCustomInterceptorsDicByMethods | AOPDynamicProxy/DynamicProxyFactory.cs:363-401 | the registry's new state is `Catalog.AddMethodLevel` of the old one |
| Factory.MergeTypeLevelInto | AOPDynamicProxy/DynamicProxyFactory.cs:282-294 | the registry's new state is `Catalog.MergeTypeLevel` of the old one |
| Factory.GetCustomInterceptorsInType | AOPDynamicProxy/DynamicProxyFactory.cs:275-296 | the registry's new state and outcome are `Catalog.InTypeSpec` of the old state |
| Factory.AddInterfaces | AOPDynamicProxy/DynamicProxyFactory.cs:81-85 | the registry's new state is built for the types in array order, as `Catalog.BuildAll` says |
| Factory.ChooseTarget | AOPDynamicProxy/DynamicProxyFactory.cs:53-55 | the target is the caller's object when non-null, otherwise a new instance of the class |
| Factory.AddInterfacesArg | AOPDynamicProxy/DynamicProxyFactory.cs:80-85 | no array adds nothing, a null array is a NullReferenceException, and an array is built in order |
| Factory.CreateClassProxy | AOPDynamicProxy/DynamicProxyFactory.cs:45-162 | the outcome is `ClassProxySpec` of the request |
| Factory.CreateInterfaceProxy | AOPDynamicProxy/DynamicProxyFactory.cs:172-263 | the outcome is `InterfaceProxySpec` of the request |
| Factory.RegistryBuildOrder | AOPDynamicProxy/DynamicProxyFactory.cs:50-51 | the registry is built for the first type and then for each additional interface, in order |
| Factory.ClassProxyProperties | AOPDynamicProxy/DynamicProxyFactory.cs:45-162 | a non-class type argument is an ArgumentException; a class proxy has a target exactly on the with-target paths, the caller's object when non-null and else a new instance; its registry is built for the class and then the extra interfaces |
| Factory.InterfaceProxyProperties | AOPDynamicProxy/DynamicProxyFactory.cs:172-263 | a non-interface type argument throws, as does a TClass that is not a class; the proxy has a target exactly when a class is given, the caller's object when non-null and else a new instance; a null additional-interfaces array never succeeds; its registry is built for the interface first, then the class, then the extra interfaces |
| Factory.ClassProxyRegistryContents | AOPDynamicProxy/DynamicProxyFactory.cs:50-51 | in the registry of a class proxied without additional interfaces, every eligible method resolves to its own bindings followed by the class-level bindings |
| Factory.SetLoggerSpec | AOPDynamicProxy/DynamicProxyFactory.cs:24-32 | a null logger is an ArgumentNullException and a non-log4net logger an ArgumentException, both leaving the state unchanged; a log4net logger is set as the generator's setter does |
| Factory.SetLogger | AOPDynamicProxy/DynamicProxyFactory.cs:24-32 | the outcome and the generator's new state are `SetLoggerSpec` |
| Dispatch.GatesDiffer | AOPDynamicProxy/Interceptor/CastleInterceptor.cs:190-202 | the `#if DEBUG` gate and the `[Conditional]` gate disagree in a build with neither symbol and in a build with both |
| Dispatch.Logging | AOPDynamicProxy/Interceptor/CastleInterceptor.cs:378-410 | one entry at the given level is logged exactly when a logger is set, the level has a case and the logger enables that level; otherwise nothing |
| Dispatch.Present | AOPDynamicProxy/Interceptor/CastleInterceptor.cs:274 | a method is kept exactly when it is among the non-null identities |
| Dispatch.InvocationMethodsSpec | AOPDynamicProxy/Interceptor/CastleInterceptor.cs:267-277 | the invocation's methods are duplicate-free, are exactly its non-null identities and are no more than them |
| Dispatch.AttrsOntoIsDistinct | AOPDynamicProxy/Interceptor/CastleInterceptor.cs:284-303 | the nested collection loop equals de-duplicating the concatenation of all methods' attributes |
| Dispatch.AttributesOnTargetSpec | AOPDynamicProxy/Interceptor/CastleInterceptor.cs:284-303 | the target method's attributes are duplicate-free and are exactly those `GetCustomAttributes(true)` reports for one of its methods, inherited ones included |
| Dispatch.OfExactType | AOPDynamicProxy/Interceptor/CastleInterceptor.cs:418-424 | keeps exactly the attributes whose runtime type is the requested one |
| Dispatch.CustomAttrs | AOPDynamicProxy/Interceptor/CastleInterceptor.cs:432-438 | keeps exactly the attributes derived from CustomAttribute |
| Dispatch.InterceptorsOn | AOPDynamicProxy/Interceptor/CastleInterceptor.cs:310-331 | an entry is present exactly when it is in the registry list of one of the methods |
| Dispatch.InterceptorsOnAppend | AOPDynamicProxy/Interceptor/CastleInterceptor.cs:318-322 | the lists are concatenated in the order of the methods: one method contributes its registry list unchanged, and more methods contribute theirs one after another |
| Dispatch.SortBySerialSpec | AOPDynamicProxy/Interceptor/CastleInterceptor.cs:348 | the sort is ascending by serial number, a permutation, and keeps the order among equal serial numbers |
| Dispatch.Capable | AOPDynamicProxy/Interceptor/CastleInterceptor.cs:350-356 | keeps exactly the entries whose interceptor has the requested capability |
| Dispatch.DesignatedInfosSpec | AOPDynamicProxy/Interceptor/CastleInterceptor.cs:339-358 | the chain is sorted by serial number, holds exactly the capable entries registered for some non-null identity, and keeps registry order among equal serial numbers |
| Dispatch.EmptyRegistryGivesEmptyChain | AOPDynamicProxy/Interceptor/CastleInterceptor.cs:344-345 | a null or empty registry gives an empty chain |
| Dispatch.ApplyBeforeOps | AOPDynamicProxy/Invocation/Implement/BeforeInvocation.cs:38-51 | what a before-interceptor does through its view never changes the number of arguments |
| Dispatch.ApplyAfterOps | AOPDynamicProxy/Invocation/Implement/AfterInvocation.cs:12-16 | the after-view operations the model offers (set the return value, throw) never change the arguments |
| Dispatch.AfterTurn | AOPDynamicProxy/Interceptor/CastleInterceptor.cs:113-117 | one after-interceptor's turn, made of the modelled view operations, never changes the arguments |
| Dispatch.RunBeforeFromDecision | AOPDynamicProxy/Interceptor/CastleInterceptor.cs:91-98 | the proceed decision is true exactly when every interceptor left the flag true after its turn |
| Dispatch.RunBeforeFromLength | AOPDynamicProxy/Interceptor/CastleInterceptor.cs:91-98 | the before-chain's events are one call per interceptor, in order, up to where it stopped |
| Dispatch.RunBeforeFromComplete | AOPDynamicProxy/Interceptor/CastleInterceptor.cs:91-98 | when nothing escapes every before-interceptor runs, and an escape happens in some interceptor's turn |
| Dispatch.BeforeDecisionIsSticky | AOPDynamicProxy/Interceptor/CastleInterceptor.cs:84-101 | the decision is false once any interceptor left the flag false, even if a later one sets it back; every interceptor is called in order unless one throws; with no interceptors the decision is true and nothing changes |
| Dispatch.RunAfterFromKeepsArgs | AOPDynamicProxy/Interceptor/CastleInterceptor.cs:113-117 | the after-chain, made of the modelled view operations, never changes the arguments |
| Dispatch.RunAfterFromEvents | AOPDynamicProxy/Interceptor/CastleInterceptor.cs:113-117 | the after-chain's events are one call per interceptor, in order, up to where it stopped |
| Dispatch.RunAfterFromComplete | AOPDynamicProxy/Interceptor/CastleInterceptor.cs:113-117 | when nothing escapes, every after-interceptor runs |
| Dispatch.AfterChainSpec | AOPDynamicProxy/Interceptor/CastleInterceptor.cs:107-119 | the after-chain keeps the arguments, since the modelled after-view operations do not write them, and calls every after-interceptor in order unless one throws |
| Dispatch.MatchingPolicies | AOPDynamicProxy/Interceptor/CastleInterceptor.cs:169 | keeps exactly the policies whose exception type is the thrown exception's exact type, in order |
| Dispatch.ExtraMessage | AOPDynamicProxy/Interceptor/CastleInterceptor.cs:209-211 | an extra message exists exactly when the policy's text is not null or white space |
| Dispatch.Annotate | AOPDynamicProxy/Interceptor/CastleInterceptor.cs:239-249 | with no extra message the exception is unchanged; otherwise "ExtraMsg" is added to its data, and an existing "ExtraMsg" key makes Data.Add throw ArgumentException |
| Dispatch.ProcessMatchesOutcome | AOPDynamicProxy/Interceptor/CastleInterceptor.cs:179-256 | nothing escapes exactly when every match is active and `ignore`, and then the return value is the last non-null override; otherwise the first stopping match decides: an inactive one rethrows the exception, an active one rethrows it annotated |
| Dispatch.ProcessMatchesEvents | AOPDynamicProxy/Interceptor/CastleInterceptor.cs:213-226 | handling only appends Error-level reports of the exception |
| Dispatch.PolicyLog | AOPDynamicProxy/Interceptor/CastleInterceptor.cs:213-226 | a policy writes one Error report of the exception with its extra message exactly when `NeedLog` is set and the logger accepts Error, and nothing otherwise |
| Dispatch.FirstStop | AOPDynamicProxy/Interceptor/CastleInterceptor.cs:179-258 | the position of the first policy that is inactive or does not say `ignore`, every policy before it continuing; the number of policies when all continue |
| Dispatch.ReportsFront | AOPDynamicProxy/Interceptor/CastleInterceptor.cs:179-258 | a continuing policy writes its entry before those of the later policies; the policy the loop stops at writes its entry only when it is active in this build |
| Dispatch.ProcessMatchesReports | AOPDynamicProxy/Interceptor/CastleInterceptor.cs:179-258 | the loop appends exactly the entries of the policies it passes, in order, then that of the policy it stops at when active, and nothing else |
| Dispatch.PolicyLogsAppend | AOPDynamicProxy/Interceptor/CastleInterceptor.cs:179 | the entries of two runs of policies in sequence are the entries of the first followed by those of the second |
| Dispatch.ReachedPolicyLogs | AOPDynamicProxy/Interceptor/CastleInterceptor.cs:205-226 | every policy the loop reaches that is active and has `NeedLog` set, with a logger accepting Error, writes its report right after the entries of the policies before it |
| Dispatch.NoMatchingPolicyRethrows | AOPDynamicProxy/Interceptor/CastleInterceptor.cs:169-175 | with no matching policy the original exception escapes unchanged |
| Dispatch.ExactTypeMatchOnly | AOPDynamicProxy/Interceptor/CastleInterceptor.cs:169 | a policy for a different exception type is never consulted |
| Dispatch.WriteLogEntryGate | AOPDynamicProxy/Interceptor/CastleInterceptor.cs:445-474 | a WriteLog attribute logs at Info exactly when its version is active under the `[Conditional]` gate, and then as `Logging` says |
| Dispatch.WriteLogEntryShape | AOPDynamicProxy/Interceptor/CastleInterceptor.cs:445-458 | a WriteLog attribute produces at most one Info entry carrying its content |
| Dispatch.WriteLogEventsSpec | AOPDynamicProxy/Interceptor/CastleInterceptor.cs:445-458 | every entry written for a moment is the Info content entry of an active WriteLog attribute for that moment |
| Dispatch.WriteLogEventsAppend | AOPDynamicProxy/Interceptor/CastleInterceptor.cs:445-458 | the entries for two attribute lists in sequence are the entries for the first followed by those for the second |
| Dispatch.WriteLogEventsAt | AOPDynamicProxy/Interceptor/CastleInterceptor.cs:445-458 | each attribute for the moment writes its own entry right after the entries of the attributes before it; an active one with an Info-enabled logger is logged at exactly that position, so every active attribute is logged, in attribute order |
| Dispatch.TimingGate | AOPDynamicProxy/Interceptor/CastleInterceptor.cs:483-519 | a timing entry is written exactly when the attribute's version is active under the `[Conditional]` gate, its mode is `log` and `Logging` writes it |
| Dispatch.HandleCaughtSpec | AOPDynamicProxy/Interceptor/CastleInterceptor.cs:167-258 | a caught exception is suppressed exactly when some policy matches and all matches continue; the return value is then the last override; the entries are exactly the reports of the active `NeedLog` policies the loop reaches, in order |
| Dispatch.CallWithPoliciesSpec | AOPDynamicProxy/Interceptor/CastleInterceptor.cs:161-260 | the real call is the first event, on the current arguments, and the rest are log entries; the arguments afterwards are those `Proceed` leaves, with the ref and out values copied back, whatever the policies do, and a call with no ref or out position in range keeps them; a completed call ends as `StateAfterProceed`; with no matching policy a thrown exception escapes unchanged and the state is that after `Proceed` |
| Dispatch.TargetCallOrder | AOPDynamicProxy/Interceptor/CastleInterceptor.cs:125-154 | beforeProceed entries come first, then the real call; afterProceed entries come last when nothing escapes, and are not written when the call's exception escapes; when nothing escapes the trace is exactly the beforeProceed entries, the call, the timing entry of the first NoteElapsedTime attribute (none without one), then the afterProceed entries |
| Dispatch.CallStageSpec | AOPDynamicProxy/Interceptor/CastleInterceptor.cs:61-71 | the real call is recorded exactly when the invocation has a target; without one nothing happens |
| Dispatch.DeclinedCallRunsOnlyBeforeChain | AOPDynamicProxy/Interceptor/CastleInterceptor.cs:58-73 | when the before-chain declines, only the before-interceptors run, with no real call and no after-chain |
| Dispatch.BeforeEventsAreCalls | AOPDynamicProxy/Interceptor/CastleInterceptor.cs:91-98 | every event of the before-chain is a before-interceptor call |
| Dispatch.AfterEventsAreCalls | AOPDynamicProxy/Interceptor/CastleInterceptor.cs:113-117 | every event of the after-chain is an after-interceptor call |
| Dispatch.NoProceedUnlessAllowed | AOPDynamicProxy/Interceptor/CastleInterceptor.cs:58-73 | the real method runs only if the before-chain let nothing escape, decided to proceed and there is a target |
| Dispatch.ProceedSeesBeforeChainArguments | AOPDynamicProxy/Interceptor/CastleInterceptor.cs:58-63 | the real call receives the arguments as the before-chain left them |
| Dispatch.NoTargetStillRunsAfterChain | AOPDynamicProxy/Interceptor/CastleInterceptor.cs:59-72 | without a target, a proceeding call still runs the after-chain, on the state the before-chain left |
| Dispatch.EscapingCallSkipsAfterChain | AOPDynamicProxy/Interceptor/CastleInterceptor.cs:59-72 | an exception escaping the real call skips the after-interceptors |
| Dispatch.IgnoreWithReturnValueRecovers | AOPDynamicProxy/Interceptor/CastleInterceptor.cs:227-238 | an active `ignore` policy with a return value turns a thrown exception into a normal return of that value |
| Dispatch.DebugOnlyPolicyInactiveInRelease | AOPDynamicProxy/Interceptor/CastleInterceptor.cs:252-256 | a DEBUG-only policy in a build without DEBUG rethrows the original exception unchanged |
| Interception.CastleInterceptor.constructor | AOPDynamicProxy/Interceptor/CastleInterceptor.cs:26-30 | a new interceptor holds the given registry, logger and build, and no stopwatch |
| Interception.CastleInterceptor.PresentMethods | AOPDynamicProxy/Interceptor/CastleInterceptor.cs:274 | the loop removes exactly the null identities (`Dispatch.Present`) |
| Interception.CastleInterceptor.DistinctMethods | AOPDynamicProxy/Interceptor/CastleInterceptor.cs:275 | the loop returns `Seqs.Distinct` of its input |
| Interception.CastleInterceptor.GetInvocationMethods | AOPDynamicProxy/Interceptor/CastleInterceptor.cs:267-277 | the methods are duplicate-free and exactly the invocation's non-null identities |
| Interception.CastleInterceptor.GetAttributesBindedOnTargetMethod | AOPDynamicProxy/Interceptor/CastleInterceptor.cs:284-303 | the attributes are the duplicate-free collection over the invocation's methods |
| Interception.CastleInterceptor.GetInterceptorsOnTargetMethod | AOPDynamicProxy/Interceptor/CastleInterceptor.cs:310-331 | the entries are the registry lists of the invocation's methods, concatenated in order |
| Interception.CastleInterceptor.GetDesignatedInterceptors | AOPDynamicProxy/Interceptor/CastleInterceptor.cs:339-358 | the chain is `Dispatch.Chain`: registered entries, stably sorted by serial number, of the requested capability |
| Interception.CastleInterceptor.KeepCapable | AOPDynamicProxy/Interceptor/CastleInterceptor.cs:350-356 | the loop keeps the interceptors with the requested capability, in order |
| Interception.CastleInterceptor.RunBeforeOps | AOPDynamicProxy/Invocation/Implement/BeforeInvocation.cs:38-51 | the view's writes update the shared invocation and the flag as `Dispatch.ApplyBeforeOps` says |
| Interception.CastleInterceptor.BeforeInterceptorTurn | AOPDynamicProxy/Interceptor/CastleInterceptor.cs:93-97 | one interceptor's turn on the shared view has the effect `Dispatch.BeforeTurn` states |
| Interception.CastleInterceptor.RunBeforeChain | AOPDynamicProxy/Interceptor/CastleInterceptor.cs:91-98 | the loop gives the decision, events and state of `Dispatch.RunBeforeFrom` |
| Interception.CastleInterceptor.InvokeBeforeInterceptMethods | AOPDynamicProxy/Interceptor/CastleInterceptor.cs:84-101 | the decision and the invocation's new state are those of `Dispatch.RunBefore` on the before-chain |
| Interception.CastleInterceptor.RunAfterOps | AOPDynamicProxy/Invocation/Implement/AfterInvocation.cs:16 | the view's writes update the shared return slot as `Dispatch.ApplyAfterOps` says |
| Interception.CastleInterceptor.AfterInterceptorTurn | AOPDynamicProxy/Interceptor/CastleInterceptor.cs:115-116 | one after-interceptor's turn has the effect `Dispatch.AfterTurn` states |
| Interception.CastleInterceptor.InvokeAfterInterceptMethods | AOPDynamicProxy/Interceptor/CastleInterceptor.cs:107-119 | the events and the invocation's new state are those of `Dispatch.RunAfter` on the after-chain |
| Interception.CastleInterceptor.InvokeProxiedMethodOnCatchEx | AOPDynamicProxy/Interceptor/CastleInterceptor.cs:161-260 | the outcome, entries and invocation state are those of `Dispatch.CallWithPolicies` |
| Interception.CastleInterceptor.InvokeTargetMethod | AOPDynamicProxy/Interceptor/CastleInterceptor.cs:125-154 | the outcome, entries and state are those of `Dispatch.TargetCall`, and a stopwatch exists afterwards once a NoteElapsedTime attribute has been seen |
| Interception.CastleInterceptor.Intercept | AOPDynamicProxy/Interceptor/CastleInterceptor.cs:36-74 | the outcome, the event trace and the invocation's new state are those of `Dispatch.InterceptSpec`; the stopwatch flag is set exactly when the before-chain lets the call proceed to a real target carrying a NoteElapsedTime attribute |

## Left out

- The Castle DynamicProxy calls in the generator's `Create*Proxy*` methods (DynamicProxyGenerator.cs:71-389). They are thin wrappers over a library that is not part of this model. A proxy request is modelled as a result value holding the chosen target and the built registry.
- Logger_log4net.cs. It only delegates to log4net. A logger is a value with one enabled flag per level, and the wrapper is identified with the log4net handle it wraps.
- Reflection. Methods, types, attributes and interceptor classes are data carrying the flags the code tests (virtual, declared on `object`, class or interface). `Activator.CreateInstance` is a scripted activation outcome.
- Stopwatch values and elapsed milliseconds. Only the fact that a timing entry is written is modelled.
- Log and exception message text. Messages are paraphrased constants; only which entries occur, their level and their order are kept.
- Concurrency: the `m_stopwatch` field shared across calls, and interceptor instances shared between proxies. The model runs one call at a time.
- The interface-only files (ICustomInvocation, IBeforeInvocation, IBeforeInterceptor, IAfterInterceptor). They carry no behaviour and appear as capability tags on an interceptor.
- User interceptor bodies. They are outside the library, so each one is a script of view operations (set an argument, set the return value, set the proceed flag, throw).
- Attribute subclasses. Attribute kinds are closed. `GetDesignatedTypeAttrs` matches the exact kind, and `CompatibleAttrs` keeps everything derived from CustomAttribute.
- Enum values outside the declared members. An undefined exception strategy takes the code's default branch and rethrows.
- EnumLogLevel.cs and EnumElapsedTimeNoteMode.cs are not part of this model. Their values are modelled as the members the code switches on: Fatal has no case in `Logging`, and a note mode is `log` or any other code.
- `GenericArguments` on both views (BeforeInvocation.cs:13, AfterInvocation.cs:14). The views pass Castle's array through unchanged. An interceptor's behaviour is a parameter given per call, so it can already depend on the call's generic arguments.
- Which parameters are ref or out. The target's outcome lists the positions Castle copies back, so the model does not tie them to the method's signature.
- Writes into the after-view's Arguments array. `AfterInvocation.Arguments` (AfterInvocation.cs:12) is Castle's live array, so `Arguments[i] = v` writes through. The model gives after-interceptors no argument writes, and the lemmas saying the after-chain keeps the arguments hold only for that reason. On the before-view, `Arguments[i] = v` has the effect of its `SetArgumentValue(i, v)`, which the model offers.
- The shared `CustomAttributes` list. Both views receive the same mutable `List<CustomAttribute>` object (CastleInterceptor.cs:90,112), so an interceptor that adds to or clears it changes what later interceptors see. The model passes each view an immutable copy of the list.
- The constructor arguments of the proxy entry points. They are only forwarded to Castle and do not take part in the registry build.
- Creating a new target object. It is a `newTarget` parameter, since it is Castle's or the runtime's activation.
- Interception.CastleInterceptor.GetInterceptorsOnTargetMethod: requires a registry, because its only caller checks for a null registry first (CastleInterceptor.cs:344-345).
- Dispatch.ApplyBeforeOps: states only that the number of arguments is kept. Its full effect is stated by `Interception.CastleInterceptor.RunBeforeOps`.
