/** EntityInterceptorInfo: an interceptor instance paired with its call order
    (`SerialNo`). Both properties have private setters, so a value never changes after
    construction; it is modelled as an immutable datatype. */
module Entity {
  import opened Values

  datatype EntityInterceptorInfo = EntityInterceptorInfo(serialNo: byte, interceptor: Interceptor)

  /** The `object` handed to `Equals`: null, another EntityInterceptorInfo, or an
      object of an unrelated class. */
  datatype Boxed = NullObject | InfoObject(info: EntityInterceptorInfo) | ForeignObject(obj: Obj)

  /** The pair `Equals` compares: the call order and the interceptor's concrete type. */
  function Key(e: EntityInterceptorInfo): (byte, InterceptorType) {
    (e.serialNo, e.interceptor.concreteType)
  }

  /** The constructor stores exactly its two arguments. */
  function NewEntityInterceptorInfo(serialNo: byte, interceptor: Interceptor): (e: EntityInterceptorInfo)
    ensures e.serialNo == serialNo && e.interceptor == interceptor
    ensures Key(e) == (serialNo, interceptor.concreteType)
  {
    EntityInterceptorInfo(serialNo, interceptor)
  }

  /** `Equals(object)`: false for null and for a non-EntityInterceptorInfo; otherwise true
      exactly when `SerialNo` and the interceptor's runtime type agree. */
  function Equals(self: EntityInterceptorInfo, obj: Boxed): (r: bool)
    ensures r <==> obj.InfoObject? && Key(obj.info) == Key(self)
  {
    if obj.NullObject? then false
    else if !obj.InfoObject? then false
    else if obj.info.serialNo != self.serialNo then false
    else if obj.info.interceptor.concreteType != self.interceptor.concreteType then false
    else true
  }

  /** `Equals` between two EntityInterceptorInfo values. */
  predicate Same(a: EntityInterceptorInfo, b: EntityInterceptorInfo) {
    Equals(a, InfoObject(b))
  }

  /** `GetHashCode()`: `SerialNo ^ Interceptor.GetType().GetHashCode()`, the byte widened to
      a 32-bit int. */
  function GetHashCode(e: EntityInterceptorInfo): bv32 {
    (e.serialNo as bv32) ^ e.interceptor.concreteType.hash
  }

  lemma EqualsNullIsFalse(e: EntityInterceptorInfo, o: Obj)
    ensures !Equals(e, NullObject)
    ensures !Equals(e, ForeignObject(o))
  {
  }

  /** `Same` is an equivalence relation, which is what makes first-occurrence
      de-duplication with `Exists(item => item.Equals(x))` well defined. */
  lemma SameIsEquivalence()
    ensures forall a :: Same(a, a)
    ensures forall a, b :: Same(a, b) <==> Same(b, a)
    ensures forall a, b, c :: Same(a, b) && Same(b, c) ==> Same(a, c)
  {
  }

  /** Equal values have equal hash codes: the hash reads only the compared keys. */
  lemma HashAgreesWithEquals(a: EntityInterceptorInfo, b: EntityInterceptorInfo)
    requires Same(a, b)
    ensures GetHashCode(a) == GetHashCode(b)
  {
  }

  /** Two different instances of one interceptor class at one call order are duplicates,
      however differently they were constructed. */
  lemma InstancesOfOneTypeAreSame(t: InterceptorType, n: byte, i: nat, j: nat)
    ensures Same(EntityInterceptorInfo(n, Interceptor(t, i)), EntityInterceptorInfo(n, Interceptor(t, j)))
  {
  }
}
