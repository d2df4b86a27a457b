/** What the core asks of .NET reflection, replaced by plain data: a method or type is
    an identity carrying the flags and attributes reflection would report, and
    `Activator.CreateInstance` is a scripted outcome. */
module Reflection {
  import opened Wrappers
  import opened Values
  import opened Attributes

  /** A `MethodInfo`. Two values are equal exactly when they denote the same declared
      method; `attrs` are the attributes `GetCustomAttributes(true)` reports for it,
      inherited CustomAttribute markers of an overridden base method included. The
      registry's `inherit: false` queries read only BindInterceptor, which is not
      inheritable, so the same field serves them as well. */
  datatype MethodInfo = MethodInfo(id: nat, name: string, isVirtual: bool,
                                   declaredOnObject: bool, attrs: seq<Attribute>)

  /** A `Type`: whether it is a class or an interface, the methods its `GetMethods`
      query reports (the binding-flag query for a class, the default one otherwise),
      and the attributes declared directly on it. */
  datatype TypeInfo = TypeInfo(name: string, isClass: bool, isInterface: bool,
                               methods: seq<MethodInfo>, attrs: seq<Attribute>)

  /** What `Activator.CreateInstance` does for one interceptor type and argument list:
      an instance, `null`, a `MissingMethodException` (no matching constructor), or any
      other exception. */
  datatype Activated =
    | Created(instance: nat)
    | CreatedNull
    | MissingConstructor(ex: Exception)
    | ConstructorFailed(ex: Exception)

  type Activation = (InterceptorType, seq<Obj>) -> Activated
}
