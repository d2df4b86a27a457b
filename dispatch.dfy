/** What CastleInterceptor does on one intercepted call, as functions on values: which
    interceptors and attributes apply, the before-chain and its proceed decision, the
    call with its exception policies, log and timing entries, and the after-chain. The
    class in module Interception runs the same steps in place and is proved equal to
    these functions; the lemmas here state the orderings and gates of one call. */
module Dispatch {
  import opened Wrappers
  import opened Values
  import opened Attributes
  import opened Reflection
  import opened Entity
  import opened Seqs
  import opened Invocations

  type Info = EntityInterceptorInfo

  // ---------------------------------------------------------------------------
  // Build variant

  /** Which of the two compilation symbols DEBUG and RELEASE are defined. */
  datatype BuildConfig = BuildConfig(debug: bool, release: bool)

  /** The `#if DEBUG ... #else` gate of the exception handler: in any build without
      DEBUG the RELEASE policies are the active ones, whether or not RELEASE is defined. */
  predicate HandlingActive(v: FunctionalVersion, cfg: BuildConfig) {
    v == AllVersion || (if cfg.debug then v == DebugVersion else v == ReleaseVersion)
  }

  /** The `[Conditional("DEBUG")]` / `[Conditional("RELEASE")]` gate of the log and timing
      helpers: each version-specific helper exists only when its own symbol is defined. */
  predicate ConditionalActive(v: FunctionalVersion, cfg: BuildConfig) {
    v == AllVersion || (v == DebugVersion && cfg.debug) || (v == ReleaseVersion && cfg.release)
  }

  /** The two gates differ: a build defining neither symbol handles RELEASE exception
      policies but writes no RELEASE log; a build defining both writes both kinds of log
      but handles only DEBUG policies. */
  lemma GatesDiffer()
    ensures HandlingActive(ReleaseVersion, BuildConfig(false, false)) && !ConditionalActive(ReleaseVersion, BuildConfig(false, false))
    ensures ConditionalActive(ReleaseVersion, BuildConfig(true, true)) && !HandlingActive(ReleaseVersion, BuildConfig(true, true))
  {
  }

  // ---------------------------------------------------------------------------
  // Events

  /** What a log entry is about; the message text itself is not modelled. */
  datatype LogEntry =
    | Content(text: Option<string>)
    | ExceptionReport(methodName: string, extraMsg: Option<string>, ex: Exception)
    | ElapsedTime(methodName: string)

  /** The observable steps of one intercepted call. */
  datatype Event =
    | BeforeCalled(interceptor: Interceptor)
    | AfterCalled(interceptor: Interceptor)
    | Proceeded(args: seq<Obj>)
    | Logged(log: Log4netLog, level: LogLevel, entry: LogEntry)

  predicate LevelEnabled(log: Log4netLog, level: LogLevel) {
    match level
    case DebugLevel => log.debugEnabled
    case InfoLevel => log.infoEnabled
    case WarnLevel => log.warnEnabled
    case ErrorLevel => log.errorEnabled
    case FatalLevel => log.fatalEnabled
  }

  /** `Logging(level, content)`: nothing without a logger; otherwise one entry when the
      level is enabled. The switch has no Fatal case, so Fatal never logs. */
  function Logging(logger: Option<Log4netLog>, level: LogLevel, entry: LogEntry): (r: seq<Event>)
    ensures r == [] || (logger.Some? && r == [Logged(logger.value, level, entry)])
    ensures r != [] <==> logger.Some? && level != FatalLevel && LevelEnabled(logger.value, level)
  {
    if logger.None? then []
    else
      var log := logger.value;
      match level
      case DebugLevel => if log.debugEnabled then [Logged(log, level, entry)] else []
      case InfoLevel => if log.infoEnabled then [Logged(log, level, entry)] else []
      case WarnLevel => if log.warnEnabled then [Logged(log, level, entry)] else []
      case ErrorLevel => if log.errorEnabled then [Logged(log, level, entry)] else []
      case FatalLevel => []
  }

  // ---------------------------------------------------------------------------
  // Which methods, attributes and interceptors apply

  /** The identities with the null ones removed (`RemoveAll(item => item == null)`). */
  function Present(ids: seq<Option<MethodInfo>>): (r: seq<MethodInfo>)
    ensures forall m :: m in r <==> Some(m) in ids
    ensures |r| <= |ids|
    decreases |ids|
  {
    if ids == [] then []
    else
      var rest := Present(ids[1..]);
      assert forall x :: x in ids <==> x == ids[0] || x in ids[1..] by { assert ids == [ids[0]] + ids[1..]; }
      if ids[0].Some? then [ids[0].value] + rest else rest
  }

  /** GetInvocationMethods: the distinct non-null method identities, first occurrence first. */
  function InvocationMethods(ids: seq<Option<MethodInfo>>): seq<MethodInfo> {
    Distinct(Present(ids))
  }

  lemma InvocationMethodsSpec(ids: seq<Option<MethodInfo>>)
    ensures NoDuplicates(InvocationMethods(ids))
    ensures forall m :: m in InvocationMethods(ids) <==> Some(m) in ids
    ensures |InvocationMethods(ids)| <= |ids|
  {
    DistinctSpec(Present(ids));
  }

  /** The attributes of `ms`, concatenated in method order. */
  function AllAttrs(ms: seq<MethodInfo>): seq<Attribute>
    decreases |ms|
  {
    if ms == [] then [] else ms[0].attrs + AllAttrs(ms[1..])
  }

  /** The nested collecting loop of GetAttributesBindedOnTargetMethod, continuing from `acc`. */
  function AttrsOnto(acc: seq<Attribute>, ms: seq<MethodInfo>): seq<Attribute>
    decreases |ms|
  {
    if ms == [] then acc else AttrsOnto(DistinctOnto(acc, ms[0].attrs), ms[1..])
  }

  /** GetAttributesBindedOnTargetMethod. */
  function AttributesOnTarget(ms: seq<MethodInfo>): seq<Attribute> {
    AttrsOnto([], ms)
  }

  /** The nested loop de-duplicates the concatenation of all the methods' attributes. */
  lemma {:induction false} AttrsOntoIsDistinct(acc: seq<Attribute>, ms: seq<MethodInfo>)
    ensures AttrsOnto(acc, ms) == DistinctOnto(acc, AllAttrs(ms))
    decreases |ms|
  {
    if ms != [] {
      AttrsOntoIsDistinct(DistinctOnto(acc, ms[0].attrs), ms[1..]);
      DistinctOntoAppend(acc, ms[0].attrs, AllAttrs(ms[1..]));
    }
  }

  lemma {:induction false} AllAttrsMembers(ms: seq<MethodInfo>, a: Attribute)
    ensures a in AllAttrs(ms) <==> exists i :: 0 <= i < |ms| && a in ms[i].attrs
    decreases |ms|
  {
    if ms != [] {
      AllAttrsMembers(ms[1..], a);
      if a in AllAttrs(ms[1..]) {
        var i :| 0 <= i < |ms[1..]| && a in ms[1..][i].attrs;
        assert a in ms[i + 1].attrs;
      }
      if exists i :: 0 <= i < |ms| && a in ms[i].attrs {
        var i :| 0 <= i < |ms| && a in ms[i].attrs;
        if i > 0 { assert ms[1..][i - 1] == ms[i]; }
      }
    }
  }

  /** The target's attributes hold no two equal attributes, and an attribute is among them
      exactly when one of the methods carries it. */
  lemma AttributesOnTargetSpec(ms: seq<MethodInfo>)
    ensures NoDuplicates(AttributesOnTarget(ms))
    ensures forall a :: a in AttributesOnTarget(ms) <==> exists i :: 0 <= i < |ms| && a in ms[i].attrs
  {
    AttrsOntoIsDistinct([], ms);
    DistinctOntoSpec([], AllAttrs(ms));
    forall a ensures a in AllAttrs(ms) <==> exists i :: 0 <= i < |ms| && a in ms[i].attrs {
      AllAttrsMembers(ms, a);
    }
  }

  /** The framework attribute classes GetDesignatedTypeAttrs is asked for. */
  datatype AttrKind = HandleExceptionKind | WriteLogKind | NoteElapsedTimeKind

  predicate IsExactly(a: Attribute, k: AttrKind) {
    match k
    case HandleExceptionKind => a.HandleException?
    case WriteLogKind => a.WriteLog?
    case NoteElapsedTimeKind => a.NoteElapsedTime?
  }

  /** GetDesignatedTypeAttrs: the attributes whose runtime type is exactly `k`, in order. */
  function OfExactType(attrs: seq<Attribute>, k: AttrKind): (r: seq<Attribute>)
    ensures forall a :: a in r <==> a in attrs && IsExactly(a, k)
    ensures forall i :: 0 <= i < |r| ==> IsExactly(r[i], k)
    ensures |r| <= |attrs|
    decreases |attrs|
  {
    if attrs == [] then []
    else
      var rest := OfExactType(attrs[1..], k);
      assert forall x :: x in attrs <==> x == attrs[0] || x in attrs[1..] by { assert attrs == [attrs[0]] + attrs[1..]; }
      if IsExactly(attrs[0], k) then [attrs[0]] + rest else rest
  }

  /** GetDesignatedTypeCompatibleAttrs<CustomAttribute>: the `CustomAttribute` instances,
      including those of derived classes, in order. */
  function CustomAttrs(attrs: seq<Attribute>): (r: seq<Attribute>)
    ensures forall a :: a in r <==> a in attrs && a.UserMarker?
    ensures |r| <= |attrs|
    decreases |attrs|
  {
    if attrs == [] then []
    else
      var rest := CustomAttrs(attrs[1..]);
      assert forall x :: x in attrs <==> x == attrs[0] || x in attrs[1..] by { assert attrs == [attrs[0]] + attrs[1..]; }
      if attrs[0].UserMarker? then [attrs[0]] + rest else rest
  }

  /** The registry lists of `ms`, concatenated in order (GetInterceptorsOnTargetMethod). */
  function InterceptorsOn(reg: map<MethodInfo, seq<Info>>, ms: seq<MethodInfo>): (r: seq<Info>)
    ensures forall e :: e in r <==> exists i :: 0 <= i < |ms| && ms[i] in reg && e in reg[ms[i]]
    decreases |ms|
  {
    if ms == [] then []
    else
      var rest := InterceptorsOn(reg, ms[1..]);
      assert forall i :: 0 < i < |ms| ==> ms[i] == ms[1..][i - 1];
      (if ms[0] in reg then reg[ms[0]] else []) + rest
  }

  /** The lists of `ms + ns` are those of `ms` followed by those of `ns`: the lists are
      joined in method order, each in its own order. */
  lemma {:induction false} InterceptorsOnAppend(reg: map<MethodInfo, seq<Info>>, ms: seq<MethodInfo>, ns: seq<MethodInfo>)
    ensures InterceptorsOn(reg, ms + ns) == InterceptorsOn(reg, ms) + InterceptorsOn(reg, ns)
    ensures forall m :: m in reg ==> InterceptorsOn(reg, [m]) == reg[m]
    decreases |ms|
  {
    if ms == [] {
      assert ms + ns == ns;
    } else {
      assert (ms + ns)[0] == ms[0] && (ms + ns)[1..] == ms[1..] + ns;
      InterceptorsOnAppend(reg, ms[1..], ns);
    }
    forall m | m in reg ensures InterceptorsOn(reg, [m]) == reg[m] {
      assert [m][1..] == [];
    }
  }

  /** Inserts `x` before the first element whose serial number is not smaller. */
  function InsertBySerial(x: Info, s: seq<Info>): seq<Info>
    decreases |s|
  {
    if s == [] || x.serialNo <= s[0].serialNo then [x] + s
    else [s[0]] + InsertBySerial(x, s[1..])
  }

  /** `OrderBy(item => item.SerialNo)`: a stable sort by ascending serial number. */
  function SortBySerial(s: seq<Info>): seq<Info>
    decreases |s|
  {
    if s == [] then [] else InsertBySerial(s[0], SortBySerial(s[1..]))
  }

  predicate SortedBySerial(s: seq<Info>) {
    forall i, j :: 0 <= i < j < |s| ==> s[i].serialNo <= s[j].serialNo
  }

  /** The entries of `s` with serial number `k`, in order. */
  function WithSerial(s: seq<Info>, k: byte): (r: seq<Info>)
    ensures |r| <= |s|
    decreases |s|
  {
    if s == [] then [] else (if s[0].serialNo == k then [s[0]] else []) + WithSerial(s[1..], k)
  }

  lemma WithSerialCons(y: Info, s: seq<Info>, k: byte)
    ensures WithSerial([y] + s, k) == (if y.serialNo == k then [y] else []) + WithSerial(s, k)
  {
    assert ([y] + s)[1..] == s;
  }

  lemma SortedTail(s: seq<Info>)
    requires s != [] && SortedBySerial(s)
    ensures SortedBySerial(s[1..])
  {
    forall i, j | 0 <= i < j < |s[1..]| ensures s[1..][i].serialNo <= s[1..][j].serialNo {
      assert s[1..][i] == s[i + 1] && s[1..][j] == s[j + 1];
    }
  }

  lemma {:induction false} InsertBySerialPermutes(x: Info, s: seq<Info>)
    ensures multiset(InsertBySerial(x, s)) == multiset([x] + s)
    decreases |s|
  {
    if !(s == [] || x.serialNo <= s[0].serialNo) {
      InsertBySerialPermutes(x, s[1..]);
      assert s == [s[0]] + s[1..];
    }
  }

  predicate AllAtLeast(s: seq<Info>, b: byte) {
    forall i :: 0 <= i < |s| ==> b <= s[i].serialNo
  }

  lemma {:induction false} InsertBySerialBounded(x: Info, s: seq<Info>, b: byte)
    requires b <= x.serialNo && AllAtLeast(s, b)
    ensures AllAtLeast(InsertBySerial(x, s), b)
    decreases |s|
  {
    if !(s == [] || x.serialNo <= s[0].serialNo) {
      assert AllAtLeast(s[1..], b) by {
        forall i | 0 <= i < |s[1..]| ensures b <= s[1..][i].serialNo { assert s[1..][i] == s[i + 1]; }
      }
      InsertBySerialBounded(x, s[1..], b);
      var r := InsertBySerial(x, s);
      var t := InsertBySerial(x, s[1..]);
      forall i | 0 <= i < |r| ensures b <= r[i].serialNo {
        if i > 0 { assert r[i] == t[i - 1]; }
      }
    }
  }

  /** A head no larger than everything after it, followed by a sorted tail, is sorted. */
  lemma SortedCons(y: Info, t: seq<Info>)
    requires AllAtLeast(t, y.serialNo) && SortedBySerial(t)
    ensures SortedBySerial([y] + t)
  {
    var r := [y] + t;
    forall i, j | 0 <= i < j < |r| ensures r[i].serialNo <= r[j].serialNo {
      assert r[j] == t[j - 1];
      if i > 0 { assert r[i] == t[i - 1]; }
    }
  }

  lemma {:induction false} InsertBySerialSorted(x: Info, s: seq<Info>)
    requires SortedBySerial(s)
    ensures SortedBySerial(InsertBySerial(x, s))
    decreases |s|
  {
    if s == [] || x.serialNo <= s[0].serialNo {
      assert AllAtLeast(s, x.serialNo) by {
        forall i | 0 <= i < |s| ensures x.serialNo <= s[i].serialNo {
          if i > 0 { assert s[0].serialNo <= s[i].serialNo; }
        }
      }
      SortedCons(x, s);
    } else {
      SortedTail(s);
      InsertBySerialSorted(x, s[1..]);
      assert AllAtLeast(s[1..], s[0].serialNo) by {
        forall i | 0 <= i < |s[1..]| ensures s[0].serialNo <= s[1..][i].serialNo { assert s[1..][i] == s[i + 1]; }
      }
      InsertBySerialBounded(x, s[1..], s[0].serialNo);
      SortedCons(s[0], InsertBySerial(x, s[1..]));
    }
  }

  lemma {:induction false} InsertBySerialStable(x: Info, s: seq<Info>, k: byte)
    ensures WithSerial(InsertBySerial(x, s), k) == (if x.serialNo == k then [x] else []) + WithSerial(s, k)
    decreases |s|
  {
    if s == [] || x.serialNo <= s[0].serialNo {
      WithSerialCons(x, s, k);
    } else {
      var t := InsertBySerial(x, s[1..]);
      InsertBySerialStable(x, s[1..], k);
      WithSerialCons(s[0], t, k);
      WithSerialCons(s[0], s[1..], k);
      assert [s[0]] + s[1..] == s;
      if x.serialNo == k {
        assert s[0].serialNo != k;
      }
    }
  }

  /** OrderBy is a sort, a permutation, and stable: the entries of any one serial number
      keep their relative order. */
  lemma {:induction false} SortBySerialSpec(s: seq<Info>)
    ensures SortedBySerial(SortBySerial(s))
    ensures multiset(SortBySerial(s)) == multiset(s)
    ensures forall k :: WithSerial(SortBySerial(s), k) == WithSerial(s, k)
    decreases |s|
  {
    if s != [] {
      var t := SortBySerial(s[1..]);
      SortBySerialSpec(s[1..]);
      InsertBySerialSorted(s[0], t);
      InsertBySerialPermutes(s[0], t);
      assert s == [s[0]] + s[1..];
      forall k ensures WithSerial(SortBySerial(s), k) == WithSerial(s, k) {
        InsertBySerialStable(s[0], t, k);
        WithSerialCons(s[0], s[1..], k);
      }
    }
  }

  /** The entries whose interceptor offers the capability (`is IDesignatedInterceptor`), in order. */
  function Capable(s: seq<Info>, cap: Capability): (r: seq<Info>)
    ensures forall e :: e in r <==> e in s && HasCapability(e.interceptor, cap)
    ensures |r| <= |s|
    decreases |s|
  {
    if s == [] then []
    else
      var rest := Capable(s[1..], cap);
      assert forall x :: x in s <==> x == s[0] || x in s[1..] by { assert s == [s[0]] + s[1..]; }
      if HasCapability(s[0].interceptor, cap) then [s[0]] + rest else rest
  }

  /** The head of a sorted sequence has the least serial number. */
  lemma SortedHeadIsLeast(s: seq<Info>)
    requires s != [] && SortedBySerial(s)
    ensures forall x :: x in s[1..] ==> s[0].serialNo <= x.serialNo
  {
    forall x | x in s[1..] ensures s[0].serialNo <= x.serialNo {
      var q :| 0 <= q < |s[1..]| && s[1..][q] == x;
      assert s[1..][q] == s[q + 1];
    }
  }

  lemma {:induction false} CapableSorted(s: seq<Info>, cap: Capability)
    requires SortedBySerial(s)
    ensures SortedBySerial(Capable(s, cap))
    decreases |s|
  {
    if s != [] {
      SortedTail(s);
      CapableSorted(s[1..], cap);
      if HasCapability(s[0].interceptor, cap) {
        var rest := Capable(s[1..], cap);
        SortedHeadIsLeast(s);
        assert AllAtLeast(rest, s[0].serialNo) by {
          forall i | 0 <= i < |rest| ensures s[0].serialNo <= rest[i].serialNo { assert rest[i] in rest; }
        }
        SortedCons(s[0], rest);
      }
    }
  }

  lemma {:induction false} CapableCommutesWithSerial(s: seq<Info>, cap: Capability, k: byte)
    ensures WithSerial(Capable(s, cap), k) == Capable(WithSerial(s, k), cap)
    decreases |s|
  {
    if s != [] {
      CapableCommutesWithSerial(s[1..], cap, k);
      var rest := Capable(s[1..], cap);
      if HasCapability(s[0].interceptor, cap) {
        WithSerialCons(s[0], rest, k);
      }
      var w := WithSerial(s[1..], k);
      if s[0].serialNo == k {
        assert ([s[0]] + w)[0] == s[0] && ([s[0]] + w)[1..] == w;
      } else {
        assert [] + w == w;
      }
    }
  }

  /** GetDesignatedInterceptors: nothing for a null or empty registry; otherwise the
      entries of all invocation methods, stably sorted by serial number, that offer the
      capability. */
  function DesignatedInfos(reg: Option<map<MethodInfo, seq<Info>>>, ids: seq<Option<MethodInfo>>, cap: Capability): seq<Info> {
    if reg.None? || |reg.value| <= 0 then []
    else Capable(SortBySerial(InterceptorsOn(reg.value, InvocationMethods(ids))), cap)
  }

  /** The interceptors of the entries, in order. */
  function Interceptors(s: seq<Info>): (r: seq<Interceptor>)
    ensures |r| == |s|
    decreases |s|
  {
    if s == [] then [] else [s[0].interceptor] + Interceptors(s[1..])
  }

  /** The chain of interceptors with capability `cap` for the call. */
  function Chain(reg: Option<map<MethodInfo, seq<Info>>>, ids: seq<Option<MethodInfo>>, cap: Capability): seq<Interceptor> {
    Interceptors(DesignatedInfos(reg, ids, cap))
  }

  /** The chain is ordered by serial number, holds every registered entry of a distinct
      non-null method identity that offers the capability and nothing else, and entries
      with equal serial numbers keep their registry order. */
  lemma DesignatedInfosSpec(reg: map<MethodInfo, seq<Info>>, ids: seq<Option<MethodInfo>>, cap: Capability)
    requires |reg| > 0
    ensures var r := DesignatedInfos(Some(reg), ids, cap);
      && SortedBySerial(r)
      && (forall e :: e in r <==> (HasCapability(e.interceptor, cap) &&
            exists m :: Some(m) in ids && m in reg && e in reg[m]))
      && (forall k :: WithSerial(r, k) == Capable(WithSerial(InterceptorsOn(reg, InvocationMethods(ids)), k), cap))
  {
    var ms := InvocationMethods(ids);
    var all := InterceptorsOn(reg, ms);
    InvocationMethodsSpec(ids);
    SortBySerialSpec(all);
    CapableSorted(SortBySerial(all), cap);
    var r := DesignatedInfos(Some(reg), ids, cap);
    forall k ensures WithSerial(r, k) == Capable(WithSerial(all, k), cap) {
      CapableCommutesWithSerial(SortBySerial(all), cap, k);
    }
    forall e ensures e in r <==> HasCapability(e.interceptor, cap) && exists m :: Some(m) in ids && m in reg && e in reg[m] {
      assert e in SortBySerial(all) <==> e in all by {
        assert e in multiset(SortBySerial(all)) <==> e in multiset(all);
      }
      if e in all {
        var i :| 0 <= i < |ms| && ms[i] in reg && e in reg[ms[i]];
        assert Some(ms[i]) in ids;
      }
      if exists m :: Some(m) in ids && m in reg && e in reg[m] {
        var m :| Some(m) in ids && m in reg && e in reg[m];
        assert m in ms;
        var i :| 0 <= i < |ms| && ms[i] == m;
      }
    }
  }

  /** A null or empty registry gives an empty chain, whatever the invocation. */
  lemma EmptyRegistryGivesEmptyChain(reg: Option<map<MethodInfo, seq<Info>>>, ids: seq<Option<MethodInfo>>, cap: Capability)
    requires reg.None? || reg.value == map[]
    ensures Chain(reg, ids, cap) == []
  {
  }

  // ---------------------------------------------------------------------------
  // What user interceptors do

  /** What a before-interceptor sees: the arguments, the proceed flag, the custom
      attributes and the logger handle. */
  datatype BeforeSnapshot = BeforeSnapshot(args: seq<Obj>, canInvokeTargetMethod: bool,
                                           customAttributes: seq<Attribute>, logger: Option<Log4netLog>)

  /** What an after-interceptor sees: the arguments, the return value, the custom
      attributes and the logger handle. */
  datatype AfterSnapshot = AfterSnapshot(args: seq<Obj>, returnValue: Obj,
                                         customAttributes: seq<Attribute>, logger: Option<Log4netLog>)

  /** The writes a before-interceptor makes through its view, or the exception it throws. */
  datatype BeforeOp =
    | SetCanInvoke(flag: bool)
    | SetArgument(index: int, argument: Obj)
    | SetReturn(value: Obj)
    | RaiseBefore(ex: Exception)

  /** The writes an after-interceptor makes through its view, or the exception it throws. */
  datatype AfterOp = AssignReturn(value: Obj) | RaiseAfter(ex: Exception)

  /** The user-written `Intercept` bodies, as the operations each interceptor performs
      given what it sees when its turn comes. */
  datatype Behaviour = Behaviour(before: (Interceptor, BeforeSnapshot) -> seq<BeforeOp>,
                                 after: (Interceptor, AfterSnapshot) -> seq<AfterOp>)

  /** The invocation state together with the shared before-view's flag. */
  datatype ViewState = ViewState(st: CallState, canInvoke: bool)

  /** The state after some operations, and the exception that ended them early, if any. */
  datatype Applied<S> = Applied(state: S, escaped: Option<Exception>)

  function ApplyBeforeOps(ops: seq<BeforeOp>, vs: ViewState): (r: Applied<ViewState>)
    ensures |r.state.st.args| == |vs.st.args|
    decreases |ops|
  {
    if ops == [] then Applied(vs, None)
    else
      match ops[0]
      case SetCanInvoke(b) => ApplyBeforeOps(ops[1..], ViewState(vs.st, b))
      case SetArgument(i, v) =>
        (match WithArgument(vs.st, i, v)
         case Err(e) => Applied(vs, Some(e))
         case Ok(st') => ApplyBeforeOps(ops[1..], ViewState(st', vs.canInvoke)))
      case SetReturn(v) => ApplyBeforeOps(ops[1..], ViewState(CallState(vs.st.args, v), vs.canInvoke))
      case RaiseBefore(e) => Applied(vs, Some(e))
  }

  function ApplyAfterOps(ops: seq<AfterOp>, st: CallState): (r: Applied<CallState>)
    ensures r.state.args == st.args
    decreases |ops|
  {
    if ops == [] then Applied(st, None)
    else
      match ops[0]
      case AssignReturn(v) => ApplyAfterOps(ops[1..], CallState(st.args, v))
      case RaiseAfter(e) => Applied(st, Some(e))
  }

  // ---------------------------------------------------------------------------
  // The before- and after-chains

  /** The result of the before-chain: the state and flag, the proceed decision, the flag
      as each interceptor left it, the events, and an exception that escaped. */
  datatype BeforeRun = BeforeRun(vs: ViewState, should: bool, flags: seq<bool>, events: seq<Event>,
                                 escaped: Option<Exception>)

  /** One before-interceptor's turn: it sees the shared view as the previous ones left it. */
  function BeforeTurn(itc: Interceptor, b: Behaviour, attrs: seq<Attribute>, logger: Option<Log4netLog>,
                      vs: ViewState): Applied<ViewState>
  {
    ApplyBeforeOps(b.before(itc, BeforeSnapshot(vs.st.args, vs.canInvoke, attrs, logger)), vs)
  }

  /** The before-loop from some point on, with the loop's variables so far. */
  function RunBeforeFrom(chain: seq<Interceptor>, b: Behaviour, attrs: seq<Attribute>, logger: Option<Log4netLog>,
                         vs: ViewState, should: bool, flags: seq<bool>, events: seq<Event>): BeforeRun
    decreases |chain|
  {
    if chain == [] then BeforeRun(vs, should, flags, events, None)
    else
      var itc := chain[0];
      var step := BeforeTurn(itc, b, attrs, logger, vs);
      var events' := events + [BeforeCalled(itc)];
      if step.escaped.Some? then BeforeRun(step.state, should, flags, events', step.escaped)
      else
        RunBeforeFrom(chain[1..], b, attrs, logger, step.state,
                      should && step.state.canInvoke, flags + [step.state.canInvoke], events')
  }

  /** InvokeBeforeInterceptMethods: the shared view starts with the flag set, and the
      decision starts true. */
  function RunBefore(chain: seq<Interceptor>, b: Behaviour, attrs: seq<Attribute>, logger: Option<Log4netLog>,
                     st: CallState): BeforeRun
  {
    RunBeforeFrom(chain, b, attrs, logger, ViewState(st, true), true, [], [])
  }

  predicate AllTrue(flags: seq<bool>) {
    forall i :: 0 <= i < |flags| ==> flags[i]
  }

  /** One before-interceptor call per element of the chain, in order. */
  function BeforeCalls(chain: seq<Interceptor>): (r: seq<Event>)
    ensures |r| == |chain|
    decreases |chain|
  {
    if chain == [] then [] else [BeforeCalled(chain[0])] + BeforeCalls(chain[1..])
  }

  /** The `i`-th event is the call of the `i`-th interceptor. */
  lemma {:induction false} BeforeCallsAt(chain: seq<Interceptor>)
    ensures forall i :: 0 <= i < |chain| ==> BeforeCalls(chain)[i] == BeforeCalled(chain[i])
    decreases |chain|
  {
    if chain != [] {
      BeforeCallsAt(chain[1..]);
    }
  }

  /** One after-interceptor call per element of the chain, in order. */
  function AfterCalls(chain: seq<Interceptor>): (r: seq<Event>)
    ensures |r| == |chain|
    decreases |chain|
  {
    if chain == [] then [] else [AfterCalled(chain[0])] + AfterCalls(chain[1..])
  }

  /** The `i`-th event is the call of the `i`-th interceptor. */
  lemma {:induction false} AfterCallsAt(chain: seq<Interceptor>)
    ensures forall i :: 0 <= i < |chain| ==> AfterCalls(chain)[i] == AfterCalled(chain[i])
    decreases |chain|
  {
    if chain != [] {
      AfterCallsAt(chain[1..]);
    }
  }

  /** The decision stays the conjunction of the flags each interceptor left behind. */
  lemma {:induction false} RunBeforeFromDecision(chain: seq<Interceptor>, b: Behaviour, attrs: seq<Attribute>,
                                                 logger: Option<Log4netLog>, vs: ViewState, should: bool,
                                                 flags: seq<bool>, events: seq<Event>)
    requires should <==> AllTrue(flags)
    ensures RunBeforeFrom(chain, b, attrs, logger, vs, should, flags, events).should <==>
            AllTrue(RunBeforeFrom(chain, b, attrs, logger, vs, should, flags, events).flags)
    decreases |chain|
  {
    if chain != [] {
      var step := BeforeTurn(chain[0], b, attrs, logger, vs);
      if step.escaped.None? {
        var flags' := flags + [step.state.canInvoke];
        assert (should && step.state.canInvoke) <==> AllTrue(flags') by {
          assert forall i :: 0 <= i < |flags| ==> flags'[i] == flags[i];
          assert flags'[|flags|] == step.state.canInvoke;
        }
        RunBeforeFromDecision(chain[1..], b, attrs, logger, step.state, should && step.state.canInvoke, flags',
                              events + [BeforeCalled(chain[0])]);
      }
    }
  }

  lemma BeforeCallsPrefix(chain: seq<Interceptor>, n: nat)
    requires n < |chain|
    ensures BeforeCalls(chain[..n + 1]) == [BeforeCalled(chain[0])] + BeforeCalls(chain[1..][..n])
  {
    assert chain[..n + 1][1..] == chain[1..][..n];
  }

  /** The before-chain only appends to the events it is given, one per interceptor that ran. */
  lemma {:induction false} RunBeforeFromLength(chain: seq<Interceptor>, b: Behaviour, attrs: seq<Attribute>,
                                               logger: Option<Log4netLog>, vs: ViewState, should: bool,
                                               flags: seq<bool>, events: seq<Event>)
    ensures var r := RunBeforeFrom(chain, b, attrs, logger, vs, should, flags, events);
      && |events| <= |r.events| <= |events| + |chain|
      && r.events == events + BeforeCalls(chain[..|r.events| - |events|])
    decreases |chain|
  {
    if chain != [] {
      var step := BeforeTurn(chain[0], b, attrs, logger, vs);
      var events' := events + [BeforeCalled(chain[0])];
      if step.escaped.None? {
        var should' := should && step.state.canInvoke;
        var flags' := flags + [step.state.canInvoke];
        RunBeforeFromLength(chain[1..], b, attrs, logger, step.state, should', flags', events');
        var r := RunBeforeFrom(chain[1..], b, attrs, logger, step.state, should', flags', events');
        assert r == RunBeforeFrom(chain, b, attrs, logger, vs, should, flags, events);
        var n := |r.events| - |events'|;
        assert r.events == events' + BeforeCalls(chain[1..][..n]);
        BeforeCallsPrefix(chain, n);
        assert r.events == events + BeforeCalls(chain[..n + 1]);
      } else {
        assert RunBeforeFrom(chain, b, attrs, logger, vs, should, flags, events).events == events';
        BeforeCallsPrefix(chain, 0);
        assert BeforeCalls(chain[1..][..0]) == [];
        assert events' == events + BeforeCalls(chain[..1]);
      }
    }
  }

  /** Without an escaping exception every interceptor of the chain runs, each leaving one
      flag behind; an escaping exception comes from an interceptor that ran. */
  lemma {:induction false} RunBeforeFromComplete(chain: seq<Interceptor>, b: Behaviour, attrs: seq<Attribute>,
                                                 logger: Option<Log4netLog>, vs: ViewState, should: bool,
                                                 flags: seq<bool>, events: seq<Event>)
    ensures var r := RunBeforeFrom(chain, b, attrs, logger, vs, should, flags, events);
      && (r.escaped.None? ==> |r.flags| == |flags| + |chain| && |r.events| == |events| + |chain|)
      && (r.escaped.Some? ==> |events| < |r.events|)
    decreases |chain|
  {
    if chain != [] {
      var step := BeforeTurn(chain[0], b, attrs, logger, vs);
      if step.escaped.None? {
        RunBeforeFromComplete(chain[1..], b, attrs, logger, step.state, should && step.state.canInvoke,
                              flags + [step.state.canInvoke], events + [BeforeCalled(chain[0])]);
      }
    }
  }

  /** The proceed decision is false exactly when some before-interceptor left the flag false
      after its turn, even if a later one set it back; with no before-interceptors it is true. */
  lemma BeforeDecisionIsSticky(chain: seq<Interceptor>, b: Behaviour, attrs: seq<Attribute>,
                               logger: Option<Log4netLog>, st: CallState)
    ensures var r := RunBefore(chain, b, attrs, logger, st);
      && (r.should <==> forall i :: 0 <= i < |r.flags| ==> r.flags[i])
      && (r.escaped.None? ==> |r.flags| == |chain| && r.events == BeforeCalls(chain))
      && (r.escaped.Some? ==> 0 < |r.events| <= |chain| && r.events == BeforeCalls(chain[..|r.events|]))
      && (chain == [] ==> r.should && r.escaped.None? && r.vs.st == st && r.events == [])
  {
    RunBeforeFromDecision(chain, b, attrs, logger, ViewState(st, true), true, [], []);
    RunBeforeFromLength(chain, b, attrs, logger, ViewState(st, true), true, [], []);
    RunBeforeFromComplete(chain, b, attrs, logger, ViewState(st, true), true, [], []);
    assert chain[..|chain|] == chain;
  }

  datatype AfterRun = AfterRun(st: CallState, events: seq<Event>, escaped: Option<Exception>)

  /** One after-interceptor's turn. */
  function AfterTurn(itc: Interceptor, b: Behaviour, attrs: seq<Attribute>, logger: Option<Log4netLog>,
                     st: CallState): Applied<CallState>
    ensures AfterTurn(itc, b, attrs, logger, st).state.args == st.args
  {
    ApplyAfterOps(b.after(itc, AfterSnapshot(st.args, st.returnValue, attrs, logger)), st)
  }

  function RunAfterFrom(chain: seq<Interceptor>, b: Behaviour, attrs: seq<Attribute>, logger: Option<Log4netLog>,
                        st: CallState, events: seq<Event>): AfterRun
    decreases |chain|
  {
    if chain == [] then AfterRun(st, events, None)
    else
      var itc := chain[0];
      var step := AfterTurn(itc, b, attrs, logger, st);
      var events' := events + [AfterCalled(itc)];
      if step.escaped.Some? then AfterRun(step.state, events', step.escaped)
      else RunAfterFrom(chain[1..], b, attrs, logger, step.state, events')
  }

  /** InvokeAfterInterceptMethods. */
  function RunAfter(chain: seq<Interceptor>, b: Behaviour, attrs: seq<Attribute>, logger: Option<Log4netLog>,
                    st: CallState): AfterRun
  {
    RunAfterFrom(chain, b, attrs, logger, st, [])
  }

  /** The after-chain never changes the arguments. */
  lemma {:induction false} RunAfterFromKeepsArgs(chain: seq<Interceptor>, b: Behaviour, attrs: seq<Attribute>,
                                                 logger: Option<Log4netLog>, st: CallState, events: seq<Event>)
    ensures RunAfterFrom(chain, b, attrs, logger, st, events).st.args == st.args
    decreases |chain|
  {
    if chain != [] {
      var step := AfterTurn(chain[0], b, attrs, logger, st);
      if step.escaped.None? {
        RunAfterFromKeepsArgs(chain[1..], b, attrs, logger, step.state, events + [AfterCalled(chain[0])]);
      }
    }
  }

  lemma AfterCallsPrefix(chain: seq<Interceptor>, n: nat)
    requires n < |chain|
    ensures AfterCalls(chain[..n + 1]) == [AfterCalled(chain[0])] + AfterCalls(chain[1..][..n])
  {
    assert chain[..n + 1][1..] == chain[1..][..n];
  }

  /** The after-chain only appends to the events it is given, one per interceptor that ran;
      without an escaping exception all of them ran. */
  lemma {:induction false} RunAfterFromEvents(chain: seq<Interceptor>, b: Behaviour, attrs: seq<Attribute>,
                                              logger: Option<Log4netLog>, st: CallState, events: seq<Event>)
    ensures var r := RunAfterFrom(chain, b, attrs, logger, st, events);
      && |events| <= |r.events| <= |events| + |chain|
      && r.events == events + AfterCalls(chain[..|r.events| - |events|])
    decreases |chain|
  {
    if chain != [] {
      var step := AfterTurn(chain[0], b, attrs, logger, st);
      var events' := events + [AfterCalled(chain[0])];
      if step.escaped.None? {
        RunAfterFromEvents(chain[1..], b, attrs, logger, step.state, events');
        var r := RunAfterFrom(chain[1..], b, attrs, logger, step.state, events');
        assert r == RunAfterFrom(chain, b, attrs, logger, st, events);
        var n := |r.events| - |events'|;
        assert r.events == events' + AfterCalls(chain[1..][..n]);
        AfterCallsPrefix(chain, n);
        assert r.events == events + AfterCalls(chain[..n + 1]);
      } else {
        assert RunAfterFrom(chain, b, attrs, logger, st, events).events == events';
        AfterCallsPrefix(chain, 0);
        assert AfterCalls(chain[1..][..0]) == [];
        assert events' == events + AfterCalls(chain[..1]);
      }
    }
  }

  /** Without an escaping exception every after-interceptor ran; an escaping exception comes
      from an interceptor that ran. */
  lemma {:induction false} RunAfterFromComplete(chain: seq<Interceptor>, b: Behaviour, attrs: seq<Attribute>,
                                                logger: Option<Log4netLog>, st: CallState, events: seq<Event>)
    ensures var r := RunAfterFrom(chain, b, attrs, logger, st, events);
      && (r.escaped.Some? ==> |events| < |r.events|)
      && (r.escaped.None? ==> |r.events| == |events| + |chain|)
    decreases |chain|
  {
    if chain != [] {
      var step := AfterTurn(chain[0], b, attrs, logger, st);
      if step.escaped.None? {
        RunAfterFromComplete(chain[1..], b, attrs, logger, step.state, events + [AfterCalled(chain[0])]);
      }
    }
  }

  /** RunAfter: arguments untouched; the after-interceptors run in chain order, all of them
      unless one throws. */
  lemma AfterChainSpec(chain: seq<Interceptor>, b: Behaviour, attrs: seq<Attribute>,
                       logger: Option<Log4netLog>, st: CallState)
    ensures var r := RunAfter(chain, b, attrs, logger, st);
      && r.st.args == st.args
      && (r.escaped.None? ==> r.events == AfterCalls(chain))
      && (r.escaped.Some? ==> 0 < |r.events| <= |chain| && r.events == AfterCalls(chain[..|r.events|]))
  {
    RunAfterFromKeepsArgs(chain, b, attrs, logger, st, []);
    RunAfterFromEvents(chain, b, attrs, logger, st, []);
    RunAfterFromComplete(chain, b, attrs, logger, st, []);
    assert chain[..|chain|] == chain;
  }

  // ---------------------------------------------------------------------------
  // Exception policies (InvokeProxiedMethodOnCatchEx)

  /** `handleExAttrs.FindAll(item => item.ExType == ex.GetType())`: exact type equality;
      a policy without an exception type matches nothing. */
  function MatchingPolicies(handlers: seq<Attribute>, ex: Exception): (r: seq<Attribute>)
    ensures forall a :: a in r <==> a in handlers && a.HandleException? && a.exType == Some(ex.exType)
    ensures forall i :: 0 <= i < |r| ==> r[i].HandleException?
    decreases |handlers|
  {
    if handlers == [] then []
    else
      var rest := MatchingPolicies(handlers[1..], ex);
      assert forall x :: x in handlers <==> x == handlers[0] || x in handlers[1..] by {
        assert handlers == [handlers[0]] + handlers[1..];
      }
      var h := handlers[0];
      if h.HandleException? && h.exType == Some(ex.exType) then [h] + rest else rest
  }

  /** The policy's extra message, or none when it is null, empty or white space. */
  function ExtraMessage(p: Attribute): (r: Option<string>)
    requires p.HandleException?
    ensures r.Some? <==> !IsNullOrWhiteSpace(p.extraMsg)
    ensures r.Some? ==> r == p.extraMsg
  {
    if IsNullOrWhiteSpace(p.extraMsg) then None else p.extraMsg
  }

  const ExtraMsgKey := "ExtraMsg"

  /** `ex.Data.Add("ExtraMsg", extraMsg)` before the rethrow: nothing without an extra
      message or without a Data dictionary; `Add` of a key already present throws an
      ArgumentException, which then escapes instead of `ex`. */
  function Annotate(ex: Exception, extra: Option<string>): (r: Exception)
    ensures extra.None? || ex.data.None? ==> r == ex
    ensures extra.Some? && ex.data.Some? && ExtraMsgKey !in ex.data.value ==>
      r.exType == ex.exType && r.message == ex.message &&
      r.data == Some(ex.data.value[ExtraMsgKey := extra.value])
    ensures extra.Some? && ex.data.Some? && ExtraMsgKey in ex.data.value ==> r.exType == ArgumentExceptionType
  {
    if extra.None? || ex.data.None? then ex
    else if ExtraMsgKey in ex.data.value then
      NewException(ArgumentExceptionType, "An item with the same key has already been added.")
    else ex.(data := Some(ex.data.value[ExtraMsgKey := extra.value]))
  }

  /** The return value after an active policy handled the exception. */
  function Override(p: Attribute, ret: Obj): Obj
    requires p.HandleException?
  {
    if p.returnValue.Ref? then p.returnValue else ret
  }

  /** The Error entry an active policy writes, if it asks for one: one report of `ex`
      with the policy's extra message, exactly when `NeedLog` is set and the logger
      accepts Error. */
  function PolicyLog(p: Attribute, ex: Exception, cfg: BuildConfig, logger: Option<Log4netLog>, methodName: string): (r: seq<Event>)
    requires p.HandleException?
    ensures r != [] <==> p.needLog && logger.Some? && LevelEnabled(logger.value, ErrorLevel)
    ensures r == [] || r == [Logged(logger.value, ErrorLevel, ExceptionReport(methodName, ExtraMessage(p), ex))]
  {
    if p.needLog then Logging(logger, ErrorLevel, ExceptionReport(methodName, ExtraMessage(p), ex)) else []
  }

  datatype Handled = Handled(returnValue: Obj, events: seq<Event>, escaped: Option<Exception>)

  /** The `foreach` over the matching policies, from some point on. */
  function ProcessMatches(ms: seq<Attribute>, ex: Exception, cfg: BuildConfig, logger: Option<Log4netLog>,
                          methodName: string, ret: Obj, events: seq<Event>): Handled
    requires forall i :: 0 <= i < |ms| ==> ms[i].HandleException?
    decreases |ms|
  {
    if ms == [] then Handled(ret, events, None)
    else
      var p := ms[0];
      if !HandlingActive(p.handleVersion, cfg) then Handled(ret, events, Some(ex))
      else
        var events' := events + PolicyLog(p, ex, cfg, logger, methodName);
        var ret' := Override(p, ret);
        if p.strategy.Ignore? then ProcessMatches(ms[1..], ex, cfg, logger, methodName, ret', events')
        else Handled(ret', events', Some(Annotate(ex, ExtraMessage(p))))
  }

  /** The catch block: with no matching policy the exception propagates unchanged. */
  function HandleCaught(handlers: seq<Attribute>, ex: Exception, cfg: BuildConfig, logger: Option<Log4netLog>,
                        methodName: string, ret: Obj): Handled
  {
    var ms := MatchingPolicies(handlers, ex);
    if |ms| <= 0 then Handled(ret, [], Some(ex))
    else ProcessMatches(ms, ex, cfg, logger, methodName, ret, [])
  }

  /** The policy is active in this build and tells the handler to carry on. */
  predicate Continues(p: Attribute, cfg: BuildConfig)
    requires p.HandleException?
  {
    HandlingActive(p.handleVersion, cfg) && p.strategy.Ignore?
  }

  /** The return value the last overriding policy sets, read from the back. */
  function LastOverride(ms: seq<Attribute>, ret: Obj): Obj
    requires forall i :: 0 <= i < |ms| ==> ms[i].HandleException?
    decreases |ms|
  {
    if ms == [] then ret
    else
      var last := ms[|ms| - 1];
      if last.returnValue.Ref? then last.returnValue else LastOverride(ms[..|ms| - 1], ret)
  }

  lemma {:induction false} LastOverrideFront(ms: seq<Attribute>, ret: Obj)
    requires ms != [] && forall i :: 0 <= i < |ms| ==> ms[i].HandleException?
    ensures LastOverride(ms, ret) == LastOverride(ms[1..], Override(ms[0], ret))
    decreases |ms|
  {
    if |ms| > 1 {
      var init := ms[..|ms| - 1];
      assert init[1..] == ms[1..][..|ms[1..]| - 1];
      assert ms[1..][|ms[1..]| - 1] == ms[|ms| - 1];
      assert init[0] == ms[0];
      LastOverrideFront(init, ret);
    }
  }

  /** The handler suppresses the exception exactly when every matching policy is active
      and says `ignore`; the return value is then the last non-null override, or what it
      was. Otherwise the first policy that stops the loop decides: an inactive one rethrows
      the exception unchanged, an active one rethrows it annotated with its extra message. */
  lemma {:induction false} ProcessMatchesOutcome(ms: seq<Attribute>, ex: Exception, cfg: BuildConfig,
                                                 logger: Option<Log4netLog>, methodName: string, ret: Obj, events: seq<Event>)
    requires forall i :: 0 <= i < |ms| ==> ms[i].HandleException?
    ensures var r := ProcessMatches(ms, ex, cfg, logger, methodName, ret, events);
      && (r.escaped.None? <==> forall i :: 0 <= i < |ms| ==> Continues(ms[i], cfg))
      && (r.escaped.None? ==> r.returnValue == LastOverride(ms, ret))
      && (forall k :: 0 <= k < |ms| && !Continues(ms[k], cfg) && (forall j :: 0 <= j < k ==> Continues(ms[j], cfg)) ==>
            r.escaped == Some(if HandlingActive(ms[k].handleVersion, cfg) then Annotate(ex, ExtraMessage(ms[k])) else ex))
    decreases |ms|
  {
    if ms != [] {
      var p := ms[0];
      if HandlingActive(p.handleVersion, cfg) && p.strategy.Ignore? {
        var events' := events + PolicyLog(p, ex, cfg, logger, methodName);
        ProcessMatchesOutcome(ms[1..], ex, cfg, logger, methodName, Override(p, ret), events');
        LastOverrideFront(ms, ret);
        assert forall i :: 0 < i < |ms| ==> ms[i] == ms[1..][i - 1];
        forall k | 0 <= k < |ms| && !Continues(ms[k], cfg) && (forall j :: 0 <= j < k ==> Continues(ms[j], cfg))
          ensures ProcessMatches(ms, ex, cfg, logger, methodName, ret, events).escaped ==
                  Some(if HandlingActive(ms[k].handleVersion, cfg) then Annotate(ex, ExtraMessage(ms[k])) else ex)
        {
          assert k > 0;
          assert forall j :: 0 <= j < k - 1 ==> Continues(ms[1..][j], cfg) by {
            forall j | 0 <= j < k - 1 ensures Continues(ms[1..][j], cfg) { assert ms[1..][j] == ms[j + 1]; }
          }
          assert ms[1..][k - 1] == ms[k];
        }
      }
    }
  }

  /** The handler only appends to the events, and what it appends are error-level
      reports of the caught exception. */
  lemma {:induction false} ProcessMatchesEvents(ms: seq<Attribute>, ex: Exception, cfg: BuildConfig,
                                                logger: Option<Log4netLog>, methodName: string, ret: Obj, events: seq<Event>)
    requires forall i :: 0 <= i < |ms| ==> ms[i].HandleException?
    ensures var r := ProcessMatches(ms, ex, cfg, logger, methodName, ret, events);
      && events <= r.events
      && (forall i :: |events| <= i < |r.events| ==> r.events[i].Logged? && r.events[i].level == ErrorLevel &&
                                                      r.events[i].entry.ExceptionReport? && r.events[i].entry.ex == ex)
    decreases |ms|
  {
    if ms != [] {
      var p := ms[0];
      if HandlingActive(p.handleVersion, cfg) {
        var events' := events + PolicyLog(p, ex, cfg, logger, methodName);
        if p.strategy.Ignore? {
          ProcessMatchesEvents(ms[1..], ex, cfg, logger, methodName, Override(p, ret), events');
        }
      }
    }
  }

  /** The Error entries of the policies `ps`, one after the other. */
  function PolicyLogs(ps: seq<Attribute>, ex: Exception, cfg: BuildConfig, logger: Option<Log4netLog>,
                      methodName: string): seq<Event>
    requires forall i :: 0 <= i < |ps| ==> ps[i].HandleException?
    decreases |ps|
  {
    if ps == [] then [] else PolicyLog(ps[0], ex, cfg, logger, methodName) + PolicyLogs(ps[1..], ex, cfg, logger, methodName)
  }

  /** The position of the first policy that stops the loop (inactive, or not `ignore`),
      or the number of policies when all of them continue. */
  function FirstStop(ms: seq<Attribute>, cfg: BuildConfig): (k: nat)
    requires forall i :: 0 <= i < |ms| ==> ms[i].HandleException?
    ensures k <= |ms|
    ensures forall j :: 0 <= j < k ==> Continues(ms[j], cfg)
    ensures k < |ms| ==> !Continues(ms[k], cfg)
    decreases |ms|
  {
    if ms == [] || !Continues(ms[0], cfg) then 0
    else
      var k := 1 + FirstStop(ms[1..], cfg);
      assert forall j :: 0 < j < |ms| ==> ms[j] == ms[1..][j - 1];
      k
  }

  /** The Error entries the catch loop writes: those of every policy it passes, then that of
      the policy it stops at when that one is active. An inactive policy writes nothing. */
  function Reports(ms: seq<Attribute>, ex: Exception, cfg: BuildConfig, logger: Option<Log4netLog>,
                   methodName: string): seq<Event>
    requires forall i :: 0 <= i < |ms| ==> ms[i].HandleException?
  {
    var k := FirstStop(ms, cfg);
    PolicyLogs(ms[..k], ex, cfg, logger, methodName) +
    (if k < |ms| && HandlingActive(ms[k].handleVersion, cfg) then PolicyLog(ms[k], ex, cfg, logger, methodName) else [])
  }

  /** `Reports` read from the front: a policy that continues writes its entry before those
      of the rest; the policy the loop stops at writes its entry only when active. */
  lemma ReportsFront(ms: seq<Attribute>, ex: Exception, cfg: BuildConfig, logger: Option<Log4netLog>, methodName: string)
    requires ms != [] && forall i :: 0 <= i < |ms| ==> ms[i].HandleException?
    ensures Continues(ms[0], cfg) ==>
      Reports(ms, ex, cfg, logger, methodName) ==
      PolicyLog(ms[0], ex, cfg, logger, methodName) + Reports(ms[1..], ex, cfg, logger, methodName)
    ensures !Continues(ms[0], cfg) ==>
      Reports(ms, ex, cfg, logger, methodName) ==
      if HandlingActive(ms[0].handleVersion, cfg) then PolicyLog(ms[0], ex, cfg, logger, methodName) else []
  {
    var k := FirstStop(ms, cfg);
    var rest := ms[1..];
    if Continues(ms[0], cfg) {
      var k' := FirstStop(rest, cfg);
      assert k == 1 + k';
      var front := ms[..k];
      assert front[0] == ms[0] && front[1..] == rest[..k'];
      var logs := PolicyLogs(front, ex, cfg, logger, methodName);
      assert logs == PolicyLog(ms[0], ex, cfg, logger, methodName) + PolicyLogs(rest[..k'], ex, cfg, logger, methodName);
      assert k' < |rest| ==> rest[k'] == ms[k];
    } else {
      assert k == 0 && ms[..k] == [];
    }
  }

  /** The catch loop appends exactly `Reports`: the entries of the policies it reaches,
      in order, and only of the active ones. */
  lemma {:induction false} ProcessMatchesReports(ms: seq<Attribute>, ex: Exception, cfg: BuildConfig,
                                                 logger: Option<Log4netLog>, methodName: string, ret: Obj, events: seq<Event>)
    requires forall i :: 0 <= i < |ms| ==> ms[i].HandleException?
    ensures ProcessMatches(ms, ex, cfg, logger, methodName, ret, events).events ==
            events + Reports(ms, ex, cfg, logger, methodName)
    decreases |ms|
  {
    if ms != [] {
      var p := ms[0];
      ReportsFront(ms, ex, cfg, logger, methodName);
      if Continues(p, cfg) {
        var events' := events + PolicyLog(p, ex, cfg, logger, methodName);
        ProcessMatchesReports(ms[1..], ex, cfg, logger, methodName, Override(p, ret), events');
      }
    } else {
      assert FirstStop(ms, cfg) == 0;
    }
  }

  /** The entries of `xs + ys` are those of `xs` followed by those of `ys`. */
  lemma {:induction false} PolicyLogsAppend(xs: seq<Attribute>, ys: seq<Attribute>, ex: Exception, cfg: BuildConfig,
                                            logger: Option<Log4netLog>, methodName: string)
    requires forall i :: 0 <= i < |xs| ==> xs[i].HandleException?
    requires forall i :: 0 <= i < |ys| ==> ys[i].HandleException?
    ensures forall i :: 0 <= i < |xs + ys| ==> (xs + ys)[i].HandleException?
    ensures PolicyLogs(xs + ys, ex, cfg, logger, methodName) ==
            PolicyLogs(xs, ex, cfg, logger, methodName) + PolicyLogs(ys, ex, cfg, logger, methodName)
    decreases |xs|
  {
    assert forall i :: 0 <= i < |xs + ys| ==> (xs + ys)[i] == if i < |xs| then xs[i] else ys[i - |xs|];
    if xs == [] {
      assert xs + ys == ys;
    } else {
      assert (xs + ys)[1..] == xs[1..] + ys;
      PolicyLogsAppend(xs[1..], ys, ex, cfg, logger, methodName);
    }
  }

  /** Every policy the loop reaches and that is active, has `NeedLog` set and meets a logger
      accepting Error, writes its report, in its place after the entries of the policies
      before it. */
  lemma ReachedPolicyLogs(ms: seq<Attribute>, ex: Exception, cfg: BuildConfig,
                          logger: Option<Log4netLog>, methodName: string, ret: Obj, events: seq<Event>, j: nat)
    requires forall i :: 0 <= i < |ms| ==> ms[i].HandleException?
    requires j < |ms| && j <= FirstStop(ms, cfg) && HandlingActive(ms[j].handleVersion, cfg)
    requires ms[j].needLog && logger.Some? && LevelEnabled(logger.value, ErrorLevel)
    ensures var r := ProcessMatches(ms, ex, cfg, logger, methodName, ret, events);
      var p := |events| + |PolicyLogs(ms[..j], ex, cfg, logger, methodName)|;
      p < |r.events| && r.events[p] == Logged(logger.value, ErrorLevel, ExceptionReport(methodName, ExtraMessage(ms[j]), ex))
  {
    ProcessMatchesReports(ms, ex, cfg, logger, methodName, ret, events);
    var k := FirstStop(ms, cfg);
    var pre := PolicyLogs(ms[..j], ex, cfg, logger, methodName);
    var e := PolicyLog(ms[j], ex, cfg, logger, methodName);
    assert |e| == 1;
    if j < k {
      assert ms[..k] == ms[..j] + ms[j..k];
      PolicyLogsAppend(ms[..j], ms[j..k], ex, cfg, logger, methodName);
      assert ms[j..k][0] == ms[j];
    } else {
      assert pre + e <= Reports(ms, ex, cfg, logger, methodName);
    }
  }

  /** With no policy for the exception's exact type, it propagates unchanged, nothing is
      logged and the return value stays. */
  lemma NoMatchingPolicyRethrows(handlers: seq<Attribute>, ex: Exception, cfg: BuildConfig,
                                 logger: Option<Log4netLog>, methodName: string, ret: Obj)
    requires forall a :: a in handlers && a.HandleException? ==> a.exType != Some(ex.exType)
    ensures HandleCaught(handlers, ex, cfg, logger, methodName, ret) == Handled(ret, [], Some(ex))
  {
  }

  /** A policy whose type is a base class of the exception's type does not apply: only
      exact type equality matches. */
  lemma ExactTypeMatchOnly(p: Attribute, ex: Exception)
    requires p.HandleException? && p.exType.Some? && p.exType.value != ex.exType
    ensures MatchingPolicies([p], ex) == []
  {
  }

  // ---------------------------------------------------------------------------
  // Log and timing entries

  /** One WriteLog attribute at its moment: ALLVERSION always logs at Info; otherwise
      LoggingOnDebug and LoggingOnRelease each log only if compiled in and their version
      matches. */
  function WriteLogEntry(a: Attribute, cfg: BuildConfig, logger: Option<Log4netLog>): seq<Event>
    requires a.WriteLog?
  {
    if a.logVersion == AllVersion then Logging(logger, InfoLevel, Content(a.content))
    else
      (if cfg.debug && a.logVersion == DebugVersion then Logging(logger, InfoLevel, Content(a.content)) else []) +
      (if cfg.release && a.logVersion == ReleaseVersion then Logging(logger, InfoLevel, Content(a.content)) else [])
  }

  /** WriteLogsByWriteLogAttribute: the attributes for `moment`, in order. */
  function WriteLogEvents(moment: LoggingMoment, logs: seq<Attribute>, cfg: BuildConfig, logger: Option<Log4netLog>): seq<Event>
    requires forall i :: 0 <= i < |logs| ==> logs[i].WriteLog?
    decreases |logs|
  {
    if logs == [] then []
    else (if logs[0].moment == moment then WriteLogEntry(logs[0], cfg, logger) else []) +
         WriteLogEvents(moment, logs[1..], cfg, logger)
  }

  /** A WriteLog attribute writes its content at Info exactly when its version is active
      under the `[Conditional]` gate. */
  lemma WriteLogEntryGate(a: Attribute, cfg: BuildConfig, logger: Option<Log4netLog>)
    requires a.WriteLog?
    ensures WriteLogEntry(a, cfg, logger) ==
      if ConditionalActive(a.logVersion, cfg) then Logging(logger, InfoLevel, Content(a.content)) else []
  {
  }

  /** One WriteLog attribute yields at most one entry: its content at Info, and only when
      its version is active. */
  lemma WriteLogEntryShape(a: Attribute, cfg: BuildConfig, logger: Option<Log4netLog>)
    requires a.WriteLog?
    ensures WriteLogEntry(a, cfg, logger) == [] ||
      (logger.Some? && ConditionalActive(a.logVersion, cfg) &&
       WriteLogEntry(a, cfg, logger) == [Logged(logger.value, InfoLevel, Content(a.content))])
  {
    WriteLogEntryGate(a, cfg, logger);
  }

  /** The event is the Info entry of an active WriteLog attribute for `moment`. */
  predicate ContentLogOf(e: Event, moment: LoggingMoment, logs: seq<Attribute>, cfg: BuildConfig) {
    e.Logged? && e.level == InfoLevel && e.entry.Content? &&
    exists a :: a in logs && a.WriteLog? && a.moment == moment && ConditionalActive(a.logVersion, cfg) && e.entry.text == a.content
  }

  /** Every entry the WriteLog attributes produce is an Info entry carrying the content of
      an active attribute for the given moment. */
  lemma {:induction false} WriteLogEventsSpec(moment: LoggingMoment, logs: seq<Attribute>, cfg: BuildConfig, logger: Option<Log4netLog>)
    requires forall i :: 0 <= i < |logs| ==> logs[i].WriteLog?
    ensures forall e :: e in WriteLogEvents(moment, logs, cfg, logger) ==> ContentLogOf(e, moment, logs, cfg)
    decreases |logs|
  {
    if logs != [] {
      WriteLogEventsSpec(moment, logs[1..], cfg, logger);
      WriteLogEntryShape(logs[0], cfg, logger);
      var head := if logs[0].moment == moment then WriteLogEntry(logs[0], cfg, logger) else [];
      var rest := WriteLogEvents(moment, logs[1..], cfg, logger);
      assert WriteLogEvents(moment, logs, cfg, logger) == head + rest;
      assert logs[0] in logs;
      forall e | e in rest ensures ContentLogOf(e, moment, logs, cfg) {
        assert ContentLogOf(e, moment, logs[1..], cfg);
        var a :| a in logs[1..] && a.WriteLog? && a.moment == moment && ConditionalActive(a.logVersion, cfg) && e.entry.text == a.content;
        assert a in logs;
      }
    }
  }

  /** The entries for `xs + ys` are those for `xs` followed by those for `ys`. */
  lemma {:induction false} WriteLogEventsAppend(moment: LoggingMoment, xs: seq<Attribute>, ys: seq<Attribute>,
                                                cfg: BuildConfig, logger: Option<Log4netLog>)
    requires forall i :: 0 <= i < |xs| ==> xs[i].WriteLog?
    requires forall i :: 0 <= i < |ys| ==> ys[i].WriteLog?
    ensures forall i :: 0 <= i < |xs + ys| ==> (xs + ys)[i].WriteLog?
    ensures WriteLogEvents(moment, xs + ys, cfg, logger) ==
            WriteLogEvents(moment, xs, cfg, logger) + WriteLogEvents(moment, ys, cfg, logger)
    decreases |xs|
  {
    assert forall i :: 0 <= i < |xs + ys| ==> (xs + ys)[i] == if i < |xs| then xs[i] else ys[i - |xs|];
    if xs == [] {
      assert xs + ys == ys;
    } else {
      assert (xs + ys)[1..] == xs[1..] + ys;
      WriteLogEventsAppend(moment, xs[1..], ys, cfg, logger);
    }
  }

  /** Every attribute of `s` is a WriteLog attribute. */
  predicate AllWriteLog(s: seq<Attribute>) {
    forall k :: 0 <= k < |s| ==> s[k].WriteLog?
  }

  /** Every WriteLog attribute for `moment` writes its entry in its place: the entry of
      attribute `i` sits right after the entries of the attributes before it, so every
      active attribute is logged, in attribute order. */
  lemma WriteLogEventsAt(moment: LoggingMoment, logs: seq<Attribute>, cfg: BuildConfig,
                         logger: Option<Log4netLog>, i: nat)
    requires forall k :: 0 <= k < |logs| ==> logs[k].WriteLog?
    requires i < |logs| && logs[i].moment == moment
    ensures AllWriteLog(logs[..i]) && AllWriteLog(logs[i + 1..])
    ensures WriteLogEvents(moment, logs, cfg, logger) ==
      WriteLogEvents(moment, logs[..i], cfg, logger) + WriteLogEntry(logs[i], cfg, logger) +
      WriteLogEvents(moment, logs[i + 1..], cfg, logger)
    ensures ConditionalActive(logs[i].logVersion, cfg) && logger.Some? && LevelEnabled(logger.value, InfoLevel) ==>
      var p := |WriteLogEvents(moment, logs[..i], cfg, logger)|;
      p < |WriteLogEvents(moment, logs, cfg, logger)| &&
      WriteLogEvents(moment, logs, cfg, logger)[p] == Logged(logger.value, InfoLevel, Content(logs[i].content))
  {
    var pre := logs[..i];
    var tail := logs[i..];
    assert logs == pre + tail;
    assert forall k :: 0 <= k < |tail| ==> tail[k] == logs[i + k];
    WriteLogEventsAppend(moment, pre, tail, cfg, logger);
    assert tail[0] == logs[i] && tail[1..] == logs[i + 1..];
    WriteLogEntryGate(logs[i], cfg, logger);
  }

  /** NoteElapsedTime: an Info entry only in `log` mode. */
  function NoteEntry(note: Attribute, logger: Option<Log4netLog>, methodName: string): seq<Event>
    requires note.NoteElapsedTime?
  {
    if note.noteMode == LogMode then Logging(logger, InfoLevel, ElapsedTime(methodName)) else []
  }

  /** NoteElapsedTimeOnMethod with its `[Conditional]` helpers. */
  function TimingEvents(note: Attribute, cfg: BuildConfig, logger: Option<Log4netLog>, methodName: string): seq<Event>
    requires note.NoteElapsedTime?
  {
    if note.noteVersion == AllVersion then NoteEntry(note, logger, methodName)
    else
      (if cfg.debug && note.noteVersion == DebugVersion then NoteEntry(note, logger, methodName) else []) +
      (if cfg.release && note.noteVersion == ReleaseVersion then NoteEntry(note, logger, methodName) else [])
  }

  /** A timing entry is written exactly when the attribute's version is active under the
      `[Conditional]` gate, its mode is `log`, and the logger accepts Info. */
  lemma TimingGate(note: Attribute, cfg: BuildConfig, logger: Option<Log4netLog>, methodName: string)
    requires note.NoteElapsedTime?
    ensures TimingEvents(note, cfg, logger, methodName) ==
      if ConditionalActive(note.noteVersion, cfg) && note.noteMode == LogMode
      then Logging(logger, InfoLevel, ElapsedTime(methodName)) else []
  {
  }

  // ---------------------------------------------------------------------------
  // The real call and the whole interception

  datatype CallResult = CallResult(st: CallState, events: seq<Event>, escaped: Option<Exception>)

  /** InvokeProxiedMethodOnCatchEx: the real call, then the catch block if it threw. */
  function CallWithPolicies(handlers: seq<Attribute>, methodName: string, target: seq<Obj> -> ProceedOutcome,
                            st: CallState, cfg: BuildConfig, logger: Option<Log4netLog>): CallResult
  {
    var o := target(st.args);
    var st1 := StateAfterProceed(st, o);
    if o.Completed? then CallResult(st1, [Proceeded(st.args)], None)
    else
      var h := HandleCaught(handlers, o.ex, cfg, logger, methodName, st1.returnValue);
      CallResult(CallState(st1.args, h.returnValue), [Proceeded(st.args)] + h.events, h.escaped)
  }

  /** InvokeTargetMethod: beforeProceed entries, the call under the exception policies, the
      timing entry of the first NoteElapsedTime attribute, then the afterProceed entries;
      an exception escaping the call skips the last two. */
  function TargetCall(attrs: seq<Attribute>, methodName: string, target: seq<Obj> -> ProceedOutcome,
                      st: CallState, cfg: BuildConfig, logger: Option<Log4netLog>): CallResult
  {
    var handlers := OfExactType(attrs, HandleExceptionKind);
    var logs := OfExactType(attrs, WriteLogKind);
    var notes := OfExactType(attrs, NoteElapsedTimeKind);
    var pre := WriteLogEvents(BeforeProceed, logs, cfg, logger);
    var c := CallWithPolicies(handlers, methodName, target, st, cfg, logger);
    if c.escaped.Some? then CallResult(c.st, pre + c.events, c.escaped)
    else
      var timing := if |notes| > 0 then TimingEvents(notes[0], cfg, logger, methodName) else [];
      CallResult(c.st, pre + c.events + timing + WriteLogEvents(AfterProceed, logs, cfg, logger), None)
  }

  /** The invocation as the dispatcher sees it: its method identities, the method's name,
      whether it has an InvocationTarget, and what the real method does. */
  datatype Site = Site(identities: seq<Option<MethodInfo>>, methodName: string, hasTarget: bool,
                       target: seq<Obj> -> ProceedOutcome)

  /** The attributes of the target method as the dispatcher collects them. */
  function SiteAttributes(site: Site): seq<Attribute> {
    AttributesOnTarget(InvocationMethods(site.identities))
  }

  /** The real-call stage of Intercept: InvokeTargetMethod if there is a target,
      nothing otherwise. */
  function CallStage(attrs: seq<Attribute>, site: Site, st: CallState, cfg: BuildConfig,
                     logger: Option<Log4netLog>): CallResult
  {
    if site.hasTarget then TargetCall(attrs, site.methodName, site.target, st, cfg, logger)
    else CallResult(st, [], None)
  }

  /** Intercept once the two chains and the target method's attributes are known: the
      before-chain; an exception from it escapes, and a false decision ends the call;
      otherwise the call stage, and, unless an exception escaped it, the after-chain on the
      state it left. */
  function InterceptWith(bchain: seq<Interceptor>, achain: seq<Interceptor>, attrs: seq<Attribute>,
                         logger: Option<Log4netLog>, cfg: BuildConfig, site: Site, b: Behaviour, st: CallState): CallResult
  {
    var custom := CustomAttrs(attrs);
    var before := RunBefore(bchain, b, custom, logger, st);
    if before.escaped.Some? then CallResult(before.vs.st, before.events, before.escaped)
    else if !before.should then CallResult(before.vs.st, before.events, None)
    else
      var c := CallStage(attrs, site, before.vs.st, cfg, logger);
      if c.escaped.Some? then CallResult(c.st, before.events + c.events, c.escaped)
      else
        var after := RunAfter(achain, b, custom, logger, c.st);
        CallResult(after.st, before.events + c.events + after.events, after.escaped)
  }

  /** Intercept: the before- and after-chains come from the registry, the attributes from
      the invocation's method identities. */
  function InterceptSpec(reg: Option<map<MethodInfo, seq<Info>>>, logger: Option<Log4netLog>, cfg: BuildConfig,
                         site: Site, b: Behaviour, st: CallState): CallResult
  {
    InterceptWith(Chain(reg, site.identities, BeforeCapability), Chain(reg, site.identities, AfterCapability),
                  SiteAttributes(site), logger, cfg, site, b, st)
  }

  /** The catch block as a whole: the exception is suppressed exactly when some policy
      matches its exact type and all matching policies are active and say `ignore`, and the
      return value is then the last matching non-null override. */
  lemma HandleCaughtSpec(handlers: seq<Attribute>, ex: Exception, cfg: BuildConfig,
                         logger: Option<Log4netLog>, methodName: string, ret: Obj)
    ensures var ms := MatchingPolicies(handlers, ex);
      var h := HandleCaught(handlers, ex, cfg, logger, methodName, ret);
      && (h.escaped.None? <==> |ms| > 0 && forall i :: 0 <= i < |ms| ==> Continues(ms[i], cfg))
      && (h.escaped.None? ==> h.returnValue == LastOverride(ms, ret))
      && (forall i :: 0 <= i < |h.events| ==> h.events[i].Logged? && h.events[i].level == ErrorLevel)
      && h.events == Reports(ms, ex, cfg, logger, methodName)
  {
    var ms := MatchingPolicies(handlers, ex);
    if |ms| > 0 {
      ProcessMatchesOutcome(ms, ex, cfg, logger, methodName, ret, []);
      ProcessMatchesEvents(ms, ex, cfg, logger, methodName, ret, []);
      ProcessMatchesReports(ms, ex, cfg, logger, methodName, ret, []);
    }
  }

  /** InvokeProxiedMethodOnCatchEx: the real call runs once on the current arguments, and
      the arguments afterwards are those Proceed leaves (its ref and out values copied
      back), whatever the policies do, and the current ones when nothing is copied back
      into range; a normal return sets the return value as Proceed
      does and lets nothing escape; an exception with no policy for its exact type escapes
      unchanged. */
  lemma CallWithPoliciesSpec(handlers: seq<Attribute>, methodName: string, target: seq<Obj> -> ProceedOutcome,
                             st: CallState, cfg: BuildConfig, logger: Option<Log4netLog>)
    ensures var c := CallWithPolicies(handlers, methodName, target, st, cfg, logger);
      && |c.events| > 0 && c.events[0] == Proceeded(st.args)
      && (forall i :: 0 < i < |c.events| ==> c.events[i].Logged?)
      && c.st.args == StateAfterProceed(st, target(st.args)).args
      && ((forall i :: i in target(st.args).byRef ==> i >= |st.args|) ==> c.st.args == st.args)
      && (target(st.args).Completed? ==> c.st == StateAfterProceed(st, target(st.args)) && c.escaped.None?)
      && (target(st.args).Threw? && MatchingPolicies(handlers, target(st.args).ex) == [] ==>
            c.escaped == Some(target(st.args).ex) && c.st == StateAfterProceed(st, target(st.args)))
  {
    var o := target(st.args);
    if forall i :: i in o.byRef ==> i >= |st.args| {
      WriteBackOutsideKeeps(st.args, o.byRef);
    }
    if o.Threw? {
      HandleCaughtSpec(handlers, o.ex, cfg, logger, methodName, StateAfterProceed(st, o).returnValue);
    }
  }

  /** InvokeTargetMethod orders its effects: the beforeProceed entries, then the real call,
      then, only when nothing escaped the call, the timing entry and the afterProceed entries. */
  lemma TargetCallOrder(attrs: seq<Attribute>, methodName: string, target: seq<Obj> -> ProceedOutcome,
                        st: CallState, cfg: BuildConfig, logger: Option<Log4netLog>)
    ensures var logs := OfExactType(attrs, WriteLogKind);
      var pre := WriteLogEvents(BeforeProceed, logs, cfg, logger);
      var post := WriteLogEvents(AfterProceed, logs, cfg, logger);
      var c := TargetCall(attrs, methodName, target, st, cfg, logger);
      && pre <= c.events && |pre| < |c.events| && c.events[|pre|] == Proceeded(st.args)
      && (c.escaped.None? ==> |pre| + 1 + |post| <= |c.events| && c.events[|c.events| - |post|..] == post)
      && (c.escaped.Some? ==> c.events == pre + CallWithPolicies(OfExactType(attrs, HandleExceptionKind), methodName,
                                                                  target, st, cfg, logger).events)
    ensures var notes := OfExactType(attrs, NoteElapsedTimeKind);
      var call := CallWithPolicies(OfExactType(attrs, HandleExceptionKind), methodName, target, st, cfg, logger);
      var c := TargetCall(attrs, methodName, target, st, cfg, logger);
      c.escaped.None? ==>
        c.events == WriteLogEvents(BeforeProceed, OfExactType(attrs, WriteLogKind), cfg, logger) + call.events +
                    (if |notes| > 0 then TimingEvents(notes[0], cfg, logger, methodName) else []) +
                    WriteLogEvents(AfterProceed, OfExactType(attrs, WriteLogKind), cfg, logger)
  {
    CallWithPoliciesSpec(OfExactType(attrs, HandleExceptionKind), methodName, target, st, cfg, logger);
  }

  /** The call stage records the real call exactly when there is a target, and then on
      the arguments it is given. */
  lemma CallStageSpec(attrs: seq<Attribute>, site: Site, st: CallState, cfg: BuildConfig, logger: Option<Log4netLog>)
    ensures var c := CallStage(attrs, site, st, cfg, logger);
      && ((exists i :: 0 <= i < |c.events| && c.events[i].Proceeded?) <==> site.hasTarget)
      && (site.hasTarget ==> Proceeded(st.args) in c.events)
      && (!site.hasTarget ==> c == CallResult(st, [], None))
  {
    if site.hasTarget {
      TargetCallOrder(attrs, site.methodName, site.target, st, cfg, logger);
      var pre := WriteLogEvents(BeforeProceed, OfExactType(attrs, WriteLogKind), cfg, logger);
      assert CallStage(attrs, site, st, cfg, logger).events[|pre|].Proceeded?;
    }
  }

  /** A before-interceptor that left the proceed flag false keeps the real method and the
      after-interceptors from running: only before-interceptor calls are observed. */
  lemma DeclinedCallRunsOnlyBeforeChain(bchain: seq<Interceptor>, achain: seq<Interceptor>, attrs: seq<Attribute>,
                                        logger: Option<Log4netLog>, cfg: BuildConfig, site: Site, b: Behaviour, st: CallState)
    requires RunBefore(bchain, b, CustomAttrs(attrs), logger, st).escaped.None?
    requires !RunBefore(bchain, b, CustomAttrs(attrs), logger, st).should
    ensures InterceptWith(bchain, achain, attrs, logger, cfg, site, b, st).escaped.None?
    ensures InterceptWith(bchain, achain, attrs, logger, cfg, site, b, st).events == BeforeCalls(bchain)
  {
    BeforeDecisionIsSticky(bchain, b, CustomAttrs(attrs), logger, st);
  }

  /** Every event of the before-chain is a before-interceptor call. */
  lemma BeforeEventsAreCalls(chain: seq<Interceptor>, b: Behaviour, attrs: seq<Attribute>,
                             logger: Option<Log4netLog>, st: CallState)
    ensures var r := RunBefore(chain, b, attrs, logger, st);
      forall i :: 0 <= i < |r.events| ==> r.events[i].BeforeCalled?
  {
    var r := RunBefore(chain, b, attrs, logger, st);
    RunBeforeFromLength(chain, b, attrs, logger, ViewState(st, true), true, [], []);
    assert r.events == BeforeCalls(chain[..|r.events|]);
    BeforeCallsAt(chain[..|r.events|]);
  }

  /** Every event of the after-chain is an after-interceptor call. */
  lemma AfterEventsAreCalls(chain: seq<Interceptor>, b: Behaviour, attrs: seq<Attribute>,
                            logger: Option<Log4netLog>, st: CallState)
    ensures var r := RunAfter(chain, b, attrs, logger, st);
      forall i :: 0 <= i < |r.events| ==> r.events[i].AfterCalled?
  {
    var r := RunAfter(chain, b, attrs, logger, st);
    RunAfterFromEvents(chain, b, attrs, logger, st, []);
    assert r.events == AfterCalls(chain[..|r.events|]);
    AfterCallsAt(chain[..|r.events|]);
  }

  /** The real method runs only when the before-chain let nothing escape and decided to
      proceed, and the invocation has a target. */
  lemma NoProceedUnlessAllowed(bchain: seq<Interceptor>, achain: seq<Interceptor>, attrs: seq<Attribute>,
                               logger: Option<Log4netLog>, cfg: BuildConfig, site: Site, b: Behaviour, st: CallState)
    ensures var before := RunBefore(bchain, b, CustomAttrs(attrs), logger, st);
      var r := InterceptWith(bchain, achain, attrs, logger, cfg, site, b, st);
      (exists i :: 0 <= i < |r.events| && r.events[i].Proceeded?) ==>
        before.escaped.None? && before.should && site.hasTarget
  {
    var custom := CustomAttrs(attrs);
    var before := RunBefore(bchain, b, custom, logger, st);
    var r := InterceptWith(bchain, achain, attrs, logger, cfg, site, b, st);
    BeforeEventsAreCalls(bchain, b, custom, logger, st);
    if before.escaped.Some? || !before.should {
      assert r.events == before.events;
      assert forall i :: 0 <= i < |r.events| ==> !r.events[i].Proceeded?;
    } else if !site.hasTarget {
      var c := CallStage(attrs, site, before.vs.st, cfg, logger);
      assert c == CallResult(before.vs.st, [], None);
      var after := RunAfter(achain, b, custom, logger, c.st);
      AfterEventsAreCalls(achain, b, custom, logger, c.st);
      assert r.events == before.events + after.events;
      forall i | 0 <= i < |r.events| ensures !r.events[i].Proceeded? {
        if i < |before.events| {
          assert r.events[i] == before.events[i];
        } else {
          assert r.events[i] == after.events[i - |before.events|];
        }
      }
    }
  }

  /** When the before-chain lets nothing escape and decides to proceed, an invocation with a
      target makes the real call on the arguments the before-interceptors left. */
  lemma ProceedSeesBeforeChainArguments(bchain: seq<Interceptor>, achain: seq<Interceptor>, attrs: seq<Attribute>,
                                        logger: Option<Log4netLog>, cfg: BuildConfig, site: Site, b: Behaviour, st: CallState)
    ensures var before := RunBefore(bchain, b, CustomAttrs(attrs), logger, st);
      before.escaped.None? && before.should && site.hasTarget ==>
        Proceeded(before.vs.st.args) in InterceptWith(bchain, achain, attrs, logger, cfg, site, b, st).events
  {
    var before := RunBefore(bchain, b, CustomAttrs(attrs), logger, st);
    if before.escaped.None? && before.should && site.hasTarget {
      CallStageSpec(attrs, site, before.vs.st, cfg, logger);
    }
  }

  /** An invocation without a target still runs the after-interceptors, on the state the
      before-interceptors left. */
  lemma NoTargetStillRunsAfterChain(bchain: seq<Interceptor>, achain: seq<Interceptor>, attrs: seq<Attribute>,
                                    logger: Option<Log4netLog>, cfg: BuildConfig, site: Site, b: Behaviour, st: CallState)
    requires !site.hasTarget
    ensures var before := RunBefore(bchain, b, CustomAttrs(attrs), logger, st);
      var after := RunAfter(achain, b, CustomAttrs(attrs), logger, before.vs.st);
      before.escaped.None? && before.should ==>
        InterceptWith(bchain, achain, attrs, logger, cfg, site, b, st) ==
        CallResult(after.st, before.events + after.events, after.escaped)
  {
    var before := RunBefore(bchain, b, CustomAttrs(attrs), logger, st);
    assert before.events + [] == before.events;
  }

  /** An exception escaping the real call skips the after-interceptors. */
  lemma EscapingCallSkipsAfterChain(bchain: seq<Interceptor>, achain: seq<Interceptor>, attrs: seq<Attribute>,
                                    logger: Option<Log4netLog>, cfg: BuildConfig, site: Site, b: Behaviour, st: CallState)
    ensures var before := RunBefore(bchain, b, CustomAttrs(attrs), logger, st);
      var c := CallStage(attrs, site, before.vs.st, cfg, logger);
      before.escaped.None? && before.should && c.escaped.Some? ==>
        InterceptWith(bchain, achain, attrs, logger, cfg, site, b, st) == CallResult(c.st, before.events + c.events, c.escaped)
  {
  }

  /** An `ignore` policy with a return value turns a thrown exception into a normal return
      of that value, and the afterProceed entries are then written. */
  lemma IgnoreWithReturnValueRecovers(methodName: string, args: seq<Obj>, cfg: BuildConfig, logger: Option<Log4netLog>)
    ensures var ex := NewException("System.DivideByZeroException", "");
      var value := Ref("System.Int32", 42);
      var policy := HandleException(Some(ex.exType), Ignore, false, value, None, AllVersion);
      var c := TargetCall([policy], methodName, (xs: seq<Obj>) => Threw(ex, map[]), CallState(args, Null), cfg, logger);
      c.escaped.None? && c.st == CallState(args, value) && c.events == [Proceeded(args)]
  {
    var ex := NewException("System.DivideByZeroException", "");
    var value := Ref("System.Int32", 42);
    var policy := HandleException(Some(ex.exType), Ignore, false, value, None, AllVersion);
    assert MatchingPolicies([policy], ex) == [policy];
  }

  /** A policy limited to the DEBUG build does not apply in a build without DEBUG: the
      exception escapes unchanged. */
  lemma DebugOnlyPolicyInactiveInRelease(methodName: string, args: seq<Obj>, logger: Option<Log4netLog>)
    ensures var ex := NewException("System.DivideByZeroException", "");
      var policy := HandleException(Some(ex.exType), Ignore, true, Null, None, DebugVersion);
      var cfg := BuildConfig(false, true);
      var c := CallWithPolicies([policy], methodName, (xs: seq<Obj>) => Threw(ex, map[]), CallState(args, Null), cfg, logger);
      c.escaped == Some(ex) && c.events == [Proceeded(args)]
  {
    var ex := NewException("System.DivideByZeroException", "");
    var policy := HandleException(Some(ex.exType), Ignore, true, Null, None, DebugVersion);
    assert MatchingPolicies([policy], ex) == [policy];
  }
}
