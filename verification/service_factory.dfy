/** The `@service(slice, initialState)` class decorator and what it builds:
    the validated declaration, the classified prototype with the three service
    methods installed, the singleton accessor `get()` that registers the
    slice reducer, and the enhancer that captures the store. */
module ServiceFactory {
  import opened JsValues
  import opened Validators
  import opened Classification
  import opened Router
  import opened ServiceMethods

  /** A service class, given by its prototype's own keys in enumeration order. */
  datatype Declaration = Declaration(proto: seq<Entry>)

  /** The prototype's properties as a JavaScript object. */
  function PropsOf(proto: seq<Entry>): (props: map<string, JsValue>)
    ensures forall k :: k in props <==> HasKey(proto, k)
    decreases |proto|
  {
    if |proto| == 0 then map[]
    else
      var p := proto[..|proto| - 1];
      var e := proto[|proto| - 1];
      assert forall k :: HasKey(p, k) ==> HasKey(proto, k) by {
        forall k | HasKey(p, k) ensures HasKey(proto, k) {
          var i :| 0 <= i < |p| && p[i].key == k;
          assert proto[i].key == k;
        }
      }
      assert forall k :: HasKey(proto, k) ==> HasKey(p, k) || k == e.key by {
        forall k | HasKey(proto, k) ensures HasKey(p, k) || k == e.key {
          var i :| 0 <= i < |proto| && proto[i].key == k;
          if i < |p| { assert p[i].key == k; }
        }
      }
      assert HasKey(proto, e.key) by { assert proto[|proto| - 1].key == e.key; }
      PropsOf(p)[e.key := MemberValue(e.member)]
  }

  /** With unique keys, each key's property is its own member's value. */
  lemma {:induction false} PropsOfEntry(proto: seq<Entry>, i: int)
    requires DistinctKeys(proto) && 0 <= i < |proto|
    ensures PropsOf(proto)[proto[i].key] == MemberValue(proto[i].member)
    decreases |proto|
  {
    var n := |proto| - 1;
    if i < n {
      var p := proto[..n];
      assert p[i] == proto[i];
      assert DistinctKeys(p);
      assert proto[i].key != proto[n].key;
      PropsOfEntry(p, i);
    }
  }

  /** The decorated class: a function whose `prototype` holds the members. */
  function ClassValue(d: Declaration): JsValue {
    Func(map["prototype" := Obj(PropsOf(d.proto))])
  }

  /** `proto.state = …; proto.slice = …; proto.dispatch = …`, before the
      classification pass, which therefore visits them too. */
  function ServicePrototype(proto: seq<Entry>): (r: seq<Entry>)
    ensures |proto| <= |r| <= |proto| + 3
    ensures forall i :: 0 <= i < |proto| ==> r[i].key == proto[i].key
  {
    var withState := Install(proto, "state", Installed("state"));
    var withSlice := Install(withState, "slice", Installed("slice"));
    Install(withSlice, "dispatch", Installed("dispatch"))
  }

  /** A declared service: its slice key, initial state, public surface and
      private reducer table. */
  datatype Service = Service(slice: string, initialState: JsValue,
                             surface: map<string, PublicKind>, reducers: map<string, Handler>)

  /** `@service(slice, initialState)(clazz)`: the parameters are validated
      before the class, and any failure aborts the declaration. */
  function DeclareService(slice: JsValue, initialState: JsValue, d: Declaration): (r: Result<Service>)
    ensures r.Ok? <==>
              ValidateServiceDecoratorParams(slice, initialState).Pass? &&
              ValidateServiceDecoratorTarget(ClassValue(d)).Pass?
    ensures ValidateServiceDecoratorParams(slice, initialState).Fail? ==>
              r == Err(ValidateServiceDecoratorParams(slice, initialState).failure)
    ensures ValidateServiceDecoratorParams(slice, initialState).Pass? &&
            ValidateServiceDecoratorTarget(ClassValue(d)).Fail? ==>
              r == Err(ValidateServiceDecoratorTarget(ClassValue(d)).failure)
    ensures r.Ok? ==> slice.Str? && r.value.slice == slice.s && r.value.initialState == initialState
  {
    match ValidateServiceDecoratorParams(slice, initialState)
    case Fail(e) => Err(e)
    case Pass =>
      match ValidateServiceDecoratorTarget(ClassValue(d))
      case Fail(e) => Err(e)
      case Pass =>
        var c := Classify(ServicePrototype(d.proto));
        Ok(Service(slice.s, initialState, c.surface, c.reducers))
  }

  /** A string slice, a given initial state, and a class body that declares
      a `constructor` method and none of the reserved names: the declaration
      is accepted. */
  lemma DeclarationAcceptedWhen(slice: JsValue, initialState: JsValue, d: Declaration, c: int)
    requires slice.Str? && !initialState.Undefined?
    requires DistinctKeys(d.proto)
    requires 0 <= c < |d.proto| && d.proto[c].key == "constructor" && IsFunction(d.proto[c].member)
    requires forall j :: 0 <= j < |ReservedNames| ==> !HasKey(d.proto, ReservedNames[j])
    ensures DeclareService(slice, initialState, d).Ok?
  {
    var proto := Read(ClassValue(d), "prototype");
    assert proto == Obj(PropsOf(d.proto));
    PropsOfEntry(d.proto, c);
    assert IsClass(ClassValue(d));
    forall j | 0 <= j < |ReservedNames| ensures !Truthy(Read(proto, ReservedNames[j])) {
      assert ReservedNames[j] !in PropsOf(d.proto);
    }
  }

  /** A member the reserved-name check let through on a reserved key is not a
      function, so it routes nothing. */
  lemma {:induction false} ReservedEntriesAreInert(d: Declaration, i: int)
    requires DistinctKeys(d.proto) && 0 <= i < |d.proto|
    requires ValidateServiceDecoratorTarget(ClassValue(d)).Pass?
    requires d.proto[i].key in ReservedNames
    ensures RoleOf(d.proto[i]).KeepAsIs?
  {
    var j :| 0 <= j < |ReservedNames| && ReservedNames[j] == d.proto[i].key;
    assert Read(ClassValue(d), "prototype") == Obj(PropsOf(d.proto));
    PropsOfEntry(d.proto, i);
    assert !Truthy(MemberValue(d.proto[i].member));
  }

  /** One index of an installed prototype: keys stay in place, the installed
      key holds the new member, other entries are untouched, and a new key
      is appended. */
  lemma InstallAt(proto: seq<Entry>, key: string, m: Member, i: int)
    requires 0 <= i < |Install(proto, key, m)|
    ensures var r := Install(proto, key, m);
            && (i < |proto| ==> r[i].key == proto[i].key)
            && (i < |proto| && proto[i].key != key ==> r[i] == proto[i])
            && (r[i].key == key ==> r[i] == Entry(key, m))
            && (i >= |proto| ==> r[i] == Entry(key, m))
  {
  }

  /** Each index of the installed service prototype holds either the declared
      entry (for keys that are not reserved) or an installed service method. */
  lemma ServiceEntryAt(proto: seq<Entry>, i: int)
    requires 0 <= i < |ServicePrototype(proto)|
    ensures var sp := ServicePrototype(proto);
            && (i < |proto| ==> sp[i].key == proto[i].key)
            && (i < |proto| && proto[i].key !in ReservedNames ==> sp[i] == proto[i])
            && ((i >= |proto| || proto[i].key in ReservedNames) ==>
                  sp[i].key in ReservedNames && sp[i] == Entry(sp[i].key, Installed(sp[i].key)))
  {
    var p1 := Install(proto, "state", Installed("state"));
    var p2 := Install(p1, "slice", Installed("slice"));
    var sp := Install(p2, "dispatch", Installed("dispatch"));
    assert sp == ServicePrototype(proto);
    ReservedNamesAre();
    InstallAt(p2, "dispatch", Installed("dispatch"), i);
    if i < |p2| {
      InstallAt(p1, "slice", Installed("slice"), i);
      if i < |p1| {
        InstallAt(proto, "state", Installed("state"), i);
      }
    }
    if i < |proto| {
      var k := proto[i].key;
      if k == "dispatch" {
        assert sp[i] == Entry(k, Installed(k));
      } else if k == "slice" {
        assert sp[i] == p2[i] == Entry(k, Installed(k));
      } else if k == "state" {
        assert sp[i] == p2[i] == p1[i] == Entry(k, Installed(k));
      } else {
        assert sp[i] == p2[i] == p1[i] == proto[i];
      }
    } else if i < |p1| {
      assert sp[i] == p2[i] == p1[i] == Entry("state", Installed("state"));
    } else if i < |p2| {
      assert sp[i] == p2[i] == Entry("slice", Installed("slice"));
    } else {
      assert sp[i] == Entry("dispatch", Installed("dispatch"));
    }
  }

  /** The reserved names, spelled out. */
  lemma ReservedNamesAre()
    ensures forall k :: k in ReservedNames <==> k == "state" || k == "slice" || k == "dispatch"
  {
  }

  /** An installed service method is autobound: it routes nothing. */
  lemma InstalledIsAutobound(k: string)
    requires k in ReservedNames
    ensures RoleOf(Entry(k, Installed(k))) == Autobind
  {
  }

  /** Routing of the installed prototype is that of the declared one, and
      every routing entry is the declared entry itself. */
  lemma {:induction false} ServicePrototypeRouting(d: Declaration)
    requires DistinctKeys(d.proto)
    requires ValidateServiceDecoratorTarget(ClassValue(d)).Pass?
    ensures var sp := ServicePrototype(d.proto);
            forall i, t :: 0 <= i < |sp| ==> (RoutesType(sp[i], t) <==> i < |d.proto| && RoutesType(d.proto[i], t))
    ensures var sp := ServicePrototype(d.proto);
            forall i :: 0 <= i < |d.proto| && RoleOf(d.proto[i]).RouteReducer? ==> i < |sp| && sp[i] == d.proto[i]
  {
    var sp := ServicePrototype(d.proto);
    assert |sp| >= |d.proto|;
    forall i, t | 0 <= i < |sp|
      ensures RoutesType(sp[i], t) <==> i < |d.proto| && RoutesType(d.proto[i], t)
    {
      ServiceEntryAt(d.proto, i);
      if i < |d.proto| && d.proto[i].key in ReservedNames {
        ReservedEntriesAreInert(d, i);
        InstalledIsAutobound(sp[i].key);
      } else if i >= |d.proto| {
        InstalledIsAutobound(sp[i].key);
      }
    }
    forall i | 0 <= i < |d.proto| && RoleOf(d.proto[i]).RouteReducer?
      ensures i < |sp| && sp[i] == d.proto[i]
    {
      if d.proto[i].key in ReservedNames {
        ReservedEntriesAreInert(d, i);
      }
      ServiceEntryAt(d.proto, i);
    }
  }

  /** Installing the service methods keeps the keys unique. */
  lemma ServicePrototypeDistinct(proto: seq<Entry>)
    requires DistinctKeys(proto)
    ensures DistinctKeys(ServicePrototype(proto))
  {
    var p1 := Install(proto, "state", Installed("state"));
    var p2 := Install(p1, "slice", Installed("slice"));
    InstallKeepsKeysDistinct(proto, "state", Installed("state"));
    InstallKeepsKeysDistinct(p1, "slice", Installed("slice"));
    InstallKeepsKeysDistinct(p2, "dispatch", Installed("dispatch"));
  }

  /** The installed service prototype holds the service method `ReservedNames[j]`. */
  lemma ServiceMethodAt(proto: seq<Entry>, j: int)
    requires 0 <= j < |ReservedNames|
    ensures exists i :: 0 <= i < |ServicePrototype(proto)| &&
              ServicePrototype(proto)[i] == Entry(ReservedNames[j], Installed(ReservedNames[j]))
  {
    var p1 := Install(proto, "state", Installed("state"));
    var p2 := Install(p1, "slice", Installed("slice"));
    var sp := Install(p2, "dispatch", Installed("dispatch"));
    assert sp == ServicePrototype(proto);
    var k := ReservedNames[j];
    if j == 2 {
      InstallHolds(p2, "dispatch", Installed("dispatch"));
      var i :| 0 <= i < |sp| && sp[i] == Entry("dispatch", Installed("dispatch"));
      assert sp[i] == Entry(k, Installed(k));
    } else if j == 1 {
      InstallHolds(p1, "slice", Installed("slice"));
      var i :| 0 <= i < |p2| && p2[i] == Entry("slice", Installed("slice"));
      InstallAt(p2, "dispatch", Installed("dispatch"), i);
      assert sp[i] == Entry(k, Installed(k));
    } else {
      InstallHolds(proto, "state", Installed("state"));
      var i :| 0 <= i < |p1| && p1[i] == Entry("state", Installed("state"));
      InstallAt(p1, "slice", Installed("slice"), i);
      InstallAt(p2, "dispatch", Installed("dispatch"), i);
      assert sp[i] == Entry(k, Installed(k));
    }
  }

  /** The three service methods are autobound on every declared service. */
  lemma DeclaredSurfaceHasServiceMethods(slice: JsValue, initialState: JsValue, d: Declaration)
    requires DistinctKeys(d.proto)
    requires DeclareService(slice, initialState, d).Ok?
    ensures var svc := DeclareService(slice, initialState, d).value;
            forall j :: 0 <= j < |ReservedNames| ==>
              ReservedNames[j] in svc.surface && svc.surface[ReservedNames[j]] == Autobound(Installed(ReservedNames[j]))
  {
    var svc := DeclareService(slice, initialState, d).value;
    assert svc.surface == Classify(ServicePrototype(d.proto)).surface;
    forall j | 0 <= j < |ReservedNames|
      ensures ReservedNames[j] in svc.surface && svc.surface[ReservedNames[j]] == Autobound(Installed(ReservedNames[j]))
    {
      ServiceMethodOnSurface(d.proto, j);
    }
  }

  /** The service method `ReservedNames[j]` is autobound on the surface of the
      installed prototype. */
  lemma ServiceMethodOnSurface(proto: seq<Entry>, j: int)
    requires DistinctKeys(proto) && 0 <= j < |ReservedNames|
    ensures var s := Classify(ServicePrototype(proto)).surface;
            ReservedNames[j] in s && s[ReservedNames[j]] == Autobound(Installed(ReservedNames[j]))
  {
    var sp := ServicePrototype(proto);
    var k := ReservedNames[j];
    ServicePrototypeDistinct(proto);
    ServiceMethodAt(proto, j);
    var i :| 0 <= i < |sp| && sp[i] == Entry(k, Installed(k));
    InstalledIsAutobound(k);
    SurfaceEntryAt(sp, i);
  }

  /** Every declared member that is neither reserved nor a reducer keeps its
      classified public form; reducer members are not on the surface. */
  lemma DeclaredSurfaceMembers(slice: JsValue, initialState: JsValue, d: Declaration)
    requires DistinctKeys(d.proto)
    requires DeclareService(slice, initialState, d).Ok?
    ensures var svc := DeclareService(slice, initialState, d).value;
            forall i :: 0 <= i < |d.proto| && d.proto[i].key !in ReservedNames && !RoleOf(d.proto[i]).RouteReducer? ==>
              d.proto[i].key in svc.surface && svc.surface[d.proto[i].key] == KindOf(d.proto[i])
    ensures var svc := DeclareService(slice, initialState, d).value;
            forall i :: 0 <= i < |d.proto| && RoleOf(d.proto[i]).RouteReducer? ==> d.proto[i].key !in svc.surface
  {
    var sp := ServicePrototype(d.proto);
    ServicePrototypeDistinct(d.proto);
    SurfaceEntries(sp);
    forall i | 0 <= i < |d.proto| && d.proto[i].key !in ReservedNames && !RoleOf(d.proto[i]).RouteReducer?
      ensures var svc := DeclareService(slice, initialState, d).value;
              d.proto[i].key in svc.surface && svc.surface[d.proto[i].key] == KindOf(d.proto[i])
    {
      ServiceEntryAt(d.proto, i);
    }
    forall i | 0 <= i < |d.proto| && RoleOf(d.proto[i]).RouteReducer?
      ensures d.proto[i].key !in DeclareService(slice, initialState, d).value.surface
    {
      if d.proto[i].key in ReservedNames {
        ReservedEntriesAreInert(d, i);
      }
      ServiceEntryAt(d.proto, i);
    }
  }

  /** `DeclaredSurfaceMembers` at one index. */
  lemma DeclaredMemberAt(slice: JsValue, initialState: JsValue, d: Declaration, i: int)
    requires DistinctKeys(d.proto)
    requires DeclareService(slice, initialState, d).Ok?
    requires 0 <= i < |d.proto| && d.proto[i].key !in ReservedNames && !RoleOf(d.proto[i]).RouteReducer?
    ensures var s := DeclareService(slice, initialState, d).value.surface;
            d.proto[i].key in s && s[d.proto[i].key] == KindOf(d.proto[i])
  {
    DeclaredSurfaceMembers(slice, initialState, d);
  }

  /** `DeclaredSurfaceMembers` at one reducer member: it is off the surface. */
  lemma DeclaredReducerOffSurface(slice: JsValue, initialState: JsValue, d: Declaration, i: int)
    requires DistinctKeys(d.proto)
    requires DeclareService(slice, initialState, d).Ok?
    requires 0 <= i < |d.proto| && RoleOf(d.proto[i]).RouteReducer?
    ensures d.proto[i].key !in DeclareService(slice, initialState, d).value.surface
  {
    DeclaredSurfaceMembers(slice, initialState, d);
  }

  /** Every key on a declared service's surface is a service method or a
      declared key that routes no reducer. */
  lemma DeclaredSurfaceKeys(slice: JsValue, initialState: JsValue, d: Declaration)
    requires DeclareService(slice, initialState, d).Ok?
    ensures var svc := DeclareService(slice, initialState, d).value;
            forall k :: k in svc.surface ==>
              k in ReservedNames || exists i :: 0 <= i < |d.proto| && d.proto[i].key == k && !RoleOf(d.proto[i]).RouteReducer?
  {
    var svc := DeclareService(slice, initialState, d).value;
    var sp := ServicePrototype(d.proto);
    SurfaceKeys(sp);
    forall k | k in svc.surface
      ensures k in ReservedNames || exists i :: 0 <= i < |d.proto| && d.proto[i].key == k && !RoleOf(d.proto[i]).RouteReducer?
    {
      var i :| 0 <= i < |sp| && sp[i].key == k && !RoleOf(sp[i]).RouteReducer?;
      ServiceEntryAt(d.proto, i);
    }
  }

  /** A class that declares no `onStateAvailable` has no hook. */
  lemma NoDeclaredHook(slice: JsValue, initialState: JsValue, d: Declaration)
    requires DeclareService(slice, initialState, d).Ok?
    requires !HasKey(d.proto, HookName)
    ensures HookOf(DeclareService(slice, initialState, d).value.surface) == NoHook
  {
    DeclaredSurfaceKeys(slice, initialState, d);
    assert HookName !in ReservedNames;
  }

  /** The declared service's reducer table: exactly the types the declared
      members route, each to the last member routing it. */
  lemma DeclaredReducers(slice: JsValue, initialState: JsValue, d: Declaration)
    requires DistinctKeys(d.proto)
    requires DeclareService(slice, initialState, d).Ok?
    ensures var svc := DeclareService(slice, initialState, d).value;
            forall t :: t in svc.reducers <==> exists i :: 0 <= i < |d.proto| && RoutesType(d.proto[i], t)
    ensures var svc := DeclareService(slice, initialState, d).value;
            forall i, t :: 0 <= i < |d.proto| && LastRouting(d.proto, i, t) ==>
              t in svc.reducers && svc.reducers[t] == RoleOf(d.proto[i]).handler
  {
    var svc := DeclareService(slice, initialState, d).value;
    var sp := ServicePrototype(d.proto);
    ServicePrototypeRouting(d);
    ReducerTable(sp);
    assert svc.reducers == Classify(sp).reducers;
    forall t | t in svc.reducers ensures exists i :: 0 <= i < |d.proto| && RoutesType(d.proto[i], t) {
      var i :| 0 <= i < |sp| && RoutesType(sp[i], t);
      assert RoutesType(d.proto[i], t);
    }
    forall t, i | 0 <= i < |d.proto| && RoutesType(d.proto[i], t) ensures t in svc.reducers {
      assert RoutesType(sp[i], t);
    }
    forall i, t | 0 <= i < |d.proto| && LastRouting(d.proto, i, t)
      ensures t in svc.reducers && svc.reducers[t] == RoleOf(d.proto[i]).handler
    {
      if d.proto[i].key in ReservedNames {
        ReservedEntriesAreInert(d, i);
      }
      assert sp[i] == d.proto[i];
      assert LastRouting(sp, i, t);
    }
  }

  /** `DeclaredReducers` at one type: its last routing member handles it. */
  lemma DeclaredReducerAt(slice: JsValue, initialState: JsValue, d: Declaration, i: int, t: string)
    requires DistinctKeys(d.proto)
    requires DeclareService(slice, initialState, d).Ok?
    requires 0 <= i < |d.proto| && LastRouting(d.proto, i, t)
    ensures var r := DeclareService(slice, initialState, d).value.reducers;
            t in r && r[t] == Handler(d.proto[i].key, d.proto[i].member.fn)
  {
    DeclaredReducers(slice, initialState, d);
  }

  /** `DeclaredReducers` as a bound: the table holds no type outside a set
      covering every type the members route. */
  lemma DeclaredReducersWithin(slice: JsValue, initialState: JsValue, d: Declaration, types: set<string>)
    requires DistinctKeys(d.proto)
    requires DeclareService(slice, initialState, d).Ok?
    requires forall i, t :: 0 <= i < |d.proto| && RoutesType(d.proto[i], t) ==> t in types
    ensures DeclareService(slice, initialState, d).value.reducers.Keys <= types
  {
    DeclaredReducers(slice, initialState, d);
  }

  /** A table agreeing with `expected` on its keys and holding no other key is `expected`. */
  lemma TableIs(m: map<string, Handler>, expected: map<string, Handler>)
    requires m.Keys <= expected.Keys
    requires forall k :: k in expected ==> k in m && m[k] == expected[k]
    ensures m == expected
  {
  }

  /** What `instance.onStateAvailable` holds once the prototype is classified. */
  function HookOf(surface: map<string, PublicKind>): (h: Hook)
    ensures HookName !in surface ==> h == NoHook
    ensures HookName in surface && !surface[HookName].AsDeclared? ==> h == CallableHook
    ensures HookName in surface && surface[HookName].AsDeclared? ==>
              (h.NoHook? <==> !Truthy(MemberValue(surface[HookName].member))) &&
              (h.CallableHook? <==> MemberValue(surface[HookName].member).Func?)
  {
    if HookName !in surface then NoHook
    else match surface[HookName]
      case AsDeclared(m) =>
        if !Truthy(MemberValue(m)) then NoHook
        else if IsFunction(m) then CallableHook
        else NonCallableHook
      case _ => CallableHook
  }

  /** The reducer closure `get()` registers for a service. */
  function SliceReducerOf(svc: Service): (r: SliceReducer)
    ensures r.slice == svc.slice && r.initialState == svc.initialState && r.reducers == svc.reducers
    ensures HookName !in svc.surface ==> r.hook == NoHook
    ensures HookName in svc.surface && !svc.surface[HookName].AsDeclared? ==> r.hook == CallableHook
  {
    SliceReducer(svc.slice, svc.initialState, svc.reducers, HookOf(svc.surface))
  }

  /** A declared reducer answers to its type: an action of type `t`, for which
      member `i` is the last to route `t`, reaches that member's handler. */
  lemma DeclaredReducerHandlesItsType(slice: JsValue, initialState: JsValue, d: Declaration, i: int, t: string,
                                      state: JsValue, action: JsValue, run: (Handler, JsValue, JsValue) -> JsValue)
    requires DistinctKeys(d.proto)
    requires DeclareService(slice, initialState, d).Ok?
    requires 0 <= i < |d.proto| && LastRouting(d.proto, i, t)
    requires !state.Undefined? && !Nullish(action) && ActionKey(action) == Some(t)
    ensures var res := Route(SliceReducerOf(DeclareService(slice, initialState, d).value), state, action, run);
            res.Ok? ==> res.value.state == run(Handler(d.proto[i].key, d.proto[i].member.fn), state, action)
  {
    DeclaredReducers(slice, initialState, d);
  }

  /** A type no declared member routes leaves the slice as it is; in
      particular a reducer given an explicit type does not answer to its
      method name. */
  lemma UnroutedTypePassesThrough(slice: JsValue, initialState: JsValue, d: Declaration, t: string,
                                  state: JsValue, action: JsValue, run: (Handler, JsValue, JsValue) -> JsValue,
                                  builtin: (string, JsValue, JsValue) -> Result<JsValue>)
    requires DistinctKeys(d.proto)
    requires DeclareService(slice, initialState, d).Ok?
    requires forall i :: 0 <= i < |d.proto| ==> !RoutesType(d.proto[i], t)
    requires !state.Undefined? && !Nullish(action) && ActionKey(action) == Some(t)
    ensures var res := Route(SliceReducerOf(DeclareService(slice, initialState, d).value), state, action, run);
            res.Ok? ==> res.value.state == state
    ensures t !in ObjectPrototypeNames ==>
              var res := RouteAsWritten(SliceReducerOf(DeclareService(slice, initialState, d).value),
                                        state, action, run, builtin);
              res.Ok? ==> res.value.state == state
  {
    DeclaredReducers(slice, initialState, d);
  }

  /** The object `new clazz()` made, by allocation order. */
  datatype Instance = Instance(objectId: nat)

  /** One `addSlice(slice, reducer)` call. */
  datatype Registration = Registration(slice: string, reducer: SliceReducer)

  /** Process-wide state: the captured store, the slices registered so far,
      and the next object to be allocated. */
  datatype Runtime = Runtime(store: Option<Store>, registrations: seq<Registration>, nextObject: nat)

  /** A service factory: the declared service and its `let instance`. */
  datatype Factory = Factory(service: Service, instance: Option<Instance>)

  datatype Access = Access(factory: Factory, runtime: Runtime, instance: Instance)

  /** `clazz.get()`: the first call constructs the instance and registers the
      slice reducer; later calls return that instance and change nothing. */
  function Get(f: Factory, rt: Runtime): (a: Access)
    ensures a.factory == Factory(f.service, Some(a.instance))
    ensures a.runtime.store == rt.store
    ensures f.instance.Some? ==> a.instance == f.instance.value && a.runtime == rt
    ensures f.instance.None? ==>
              && a.instance == Instance(rt.nextObject)
              && a.runtime.nextObject == rt.nextObject + 1
              && a.runtime.registrations ==
                   rt.registrations + [Registration(f.service.slice, SliceReducerOf(f.service))]
  {
    match f.instance
    case Some(instance) => Access(f, rt, instance)
    case None =>
      var instance := Instance(rt.nextObject);
      var registered := rt.registrations + [Registration(f.service.slice, SliceReducerOf(f.service))];
      Access(Factory(f.service, Some(instance)), Runtime(rt.store, registered, rt.nextObject + 1), instance)
  }

  /** `get() === get()`, and the second call registers nothing. */
  lemma GetIsIdempotent(f: Factory, rt: Runtime)
    ensures var first := Get(f, rt);
            Get(first.factory, first.runtime) == first
  {
  }

  /** `n` calls of `get()`: every call returns the same instance, and the
      slice is registered once, by the first call of a fresh factory. */
  method GetRepeatedly(f: Factory, rt: Runtime, n: nat) returns (last: Access, instances: seq<Instance>)
    requires n > 0
    ensures |instances| == n
    ensures forall i :: 0 <= i < n ==> instances[i] == last.instance
    ensures last.factory == Factory(f.service, Some(last.instance))
    ensures f.instance.Some? ==> last.instance == f.instance.value && last.runtime == rt
    ensures f.instance.None? ==>
              last.instance == Instance(rt.nextObject) &&
              last.runtime.registrations ==
                rt.registrations + [Registration(f.service.slice, SliceReducerOf(f.service))]
  {
    last := Get(f, rt);
    instances := [last.instance];
    var i := 1;
    while i < n
      invariant 1 <= i <= n
      invariant |instances| == i
      invariant forall j :: 0 <= j < i ==> instances[j] == last.instance
      invariant last == Get(f, rt)
    {
      var again := Get(last.factory, last.runtime);
      last := again;
      instances := instances + [again.instance];
      i := i + 1;
    }
  }

  /** `reductusEnhancer`: the store the wrapped `createStore` returns is
      captured for the service methods. */
  function Enhance(rt: Runtime, created: Store): (r: Runtime)
    ensures r.store == Some(created)
    ensures r.registrations == rt.registrations && r.nextObject == rt.nextObject
  {
    Runtime(Some(created), rt.registrations, rt.nextObject)
  }

  /** Once the enhancer has run, no service method fails for want of a store. */
  lemma EnhancedStoreServesMethods(rt: Runtime, created: Store, slice: string, state: JsValue,
                                   actionType: JsValue, payload: JsValue, meta: JsValue)
    ensures var store := Enhance(rt, created).store;
            && StateOf(store, slice) != Err(Thrown(StoreMissing))
            && SliceOf(store, slice, state) != Err(Thrown(StoreMissing))
            && Dispatch(store, actionType, payload, meta).Ok?
  {
  }
}
