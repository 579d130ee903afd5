/** The example application's visibility-filter service: slice
    "visibility", initially "SHOW_ALL". */
module VisibilityService {
  import opened JsValues
  import opened Validators
  import opened Decorators
  import opened Classification
  import opened Router
  import opened ServiceMethods
  import opened ServiceFactory

  const Slice := "visibility"
  const InitialState: JsValue := Str("SHOW_ALL")
  const SetFilterType := "SET_VISIBILITY_FILTER"

  /** The class body: `@reducer() SET_VISIBILITY_FILTER`, and the plain
      methods `setVisibilityFilter` and `getVisibilityFilter`. */
  const Prototype: seq<Entry> := [
    Entry("constructor", Method(0, None, None)),
    Entry(SetFilterType, Method(1, None, Some(ReducerTag(SetFilterType)))),
    Entry("setVisibilityFilter", Method(2, None, None)),
    Entry("getVisibilityFilter", Method(3, None, None))
  ]

  /** The `@service` call on the class. */
  function Declared(d: Declaration): Result<Service> {
    DeclareService(Str(Slice), InitialState, d)
  }

  /** `SET_VISIBILITY_FILTER(state, { payload })`: the new filter is the
      action's payload, whatever the filter was. */
  function SetVisibilityFilterReducer(state: JsValue, action: JsValue): (r: Result<JsValue>)
    ensures Nullish(action) ==> r == Err(CannotRead("payload"))
    ensures !Nullish(action) ==> r == Ok(Read(action, "payload"))
  {
    match GetProp(action, "payload")
    case Err(e) => Err(e)
    case Ok(payload) => Ok(payload)
  }

  /** What the service's table handlers return when called. */
  function Handlers(h: Handler, state: JsValue, action: JsValue): JsValue {
    if h.key == SetFilterType && !Nullish(action) then SetVisibilityFilterReducer(state, action).value
    else state
  }

  /** `setVisibilityFilter(filter)`. */
  function SetVisibilityFilter(store: Option<Store>, filter: JsValue): (r: Result<JsValue>)
    ensures store.None? ==> r == Err(Thrown(StoreMissing))
    ensures store.Some? ==> r.Ok? && r.value.Obj?
    ensures store.Some? ==> "type" in r.value.props && r.value.props["type"] == Str(SetFilterType)
    ensures store.Some? ==> ("payload" in r.value.props <==> !filter.Undefined?)
    ensures store.Some? && !filter.Undefined? ==> r.value.props["payload"] == filter
    ensures store.Some? ==> "meta" !in r.value.props
  {
    Dispatch(store, Str(SetFilterType), filter, Undefined)
  }

  /** `getVisibilityFilter(state)`: the "visibility" property of the state. */
  function GetVisibilityFilter(store: Option<Store>, state: JsValue): (r: Result<JsValue>)
    ensures store.Some? && Truthy(state) ==> r == Ok(Read(state, Slice))
    ensures store.None? ==> r == Err(Thrown(StoreMissing))
    ensures store.Some? && !Truthy(state) ==> r == Err(Thrown(SliceArgumentMissing))
  {
    SliceOf(store, Slice, state)
  }

  /** Which prototype entries route which type. */
  lemma PrototypeRouting(i: int, t: string)
    requires 0 <= i < |Prototype|
    ensures RoutesType(Prototype[i], t) <==> i == 1 && t == SetFilterType
  {
  }

  /** No prototype key is reserved or the hook's; only entry 1 is a reducer. */
  lemma PrototypeKeyAt(i: int)
    requires 0 <= i < |Prototype|
    ensures Prototype[i].key !in ReservedNames && Prototype[i].key != HookName
    ensures RoleOf(Prototype[i]).RouteReducer? <==> i == 1
  {
  }

  lemma PrototypeKeysDistinct(p: seq<Entry>)
    requires SameEntries(p, Prototype)
    ensures DistinctKeys(p)
  {
    forall i, j | 0 <= i < j < |p| ensures p[i].key != p[j].key {
      EntryAt(p, Prototype, i);
      EntryAt(p, Prototype, j);
    }
  }

  lemma NoReservedKeys(p: seq<Entry>)
    requires SameEntries(p, Prototype)
    ensures forall j :: 0 <= j < |ReservedNames| ==> !HasKey(p, ReservedNames[j])
    ensures !HasKey(p, HookName)
  {
    forall i | 0 <= i < |p| ensures p[i].key !in ReservedNames && p[i].key != HookName {
      EntryAt(p, Prototype, i);
      PrototypeKeyAt(i);
    }
  }

  /** The reducer method is the last to route its type. */
  lemma LastRoutingAt(p: seq<Entry>)
    requires SameEntries(p, Prototype)
    ensures 1 < |p| && LastRouting(p, 1, SetFilterType)
    ensures p[1] == Prototype[1]
  {
    forall j | 1 < j < |p| ensures !RoutesType(p[j], SetFilterType) {
      EntryAt(p, Prototype, j);
      PrototypeRouting(j, SetFilterType);
    }
    EntryAt(p, Prototype, 1);
    PrototypeRouting(1, SetFilterType);
  }

  /** The declaration is accepted: the slice is a string, the initial state
      is given, and no reserved name is taken. */
  lemma DeclarationAccepted(d: Declaration)
    requires SameEntries(d.proto, Prototype)
    ensures Declared(d).Ok?
    ensures Declared(d).value.slice == Slice && Declared(d).value.initialState == InitialState
  {
    PrototypeKeysDistinct(d.proto);
    NoReservedKeys(d.proto);
    EntryAt(d.proto, Prototype, 0);
    DeclarationAcceptedWhen(Str(Slice), InitialState, d, 0);
  }

  /** The table holds no type but SET_VISIBILITY_FILTER. */
  lemma TableKeys(d: Declaration)
    requires SameEntries(d.proto, Prototype)
    ensures Declared(d).Ok?
    ensures Declared(d).value.reducers.Keys <= {SetFilterType}
  {
    DeclarationAccepted(d);
    PrototypeKeysDistinct(d.proto);
    forall i, t | 0 <= i < |d.proto| && RoutesType(d.proto[i], t) ensures t in {SetFilterType} {
      EntryAt(d.proto, Prototype, i);
      PrototypeRouting(i, t);
    }
    DeclaredReducersWithin(Str(Slice), InitialState, d, {SetFilterType});
  }

  /** The table holds the one reducer, which is off the public surface. */
  lemma DeclaredTable(d: Declaration)
    requires SameEntries(d.proto, Prototype)
    ensures Declared(d).Ok?
    ensures Declared(d).value.reducers == map[SetFilterType := Handler(SetFilterType, 1)]
    ensures SetFilterType !in Declared(d).value.surface
  {
    DeclarationAccepted(d);
    PrototypeKeysDistinct(d.proto);
    LastRoutingAt(d.proto);
    DeclaredReducerAt(Str(Slice), InitialState, d, 1, SetFilterType);
    TableKeys(d);
    TableIs(Declared(d).value.reducers, map[SetFilterType := Handler(SetFilterType, 1)]);
    DeclaredReducerOffSurface(Str(Slice), InitialState, d, 1);
  }

  /** The two plain methods are autobound, and there is no hook. */
  lemma DeclaredSurface(d: Declaration)
    requires SameEntries(d.proto, Prototype)
    ensures Declared(d).Ok?
    ensures var s := Declared(d).value.surface;
            && "setVisibilityFilter" in s && s["setVisibilityFilter"] == Autobound(Method(2, None, None))
            && "getVisibilityFilter" in s && s["getVisibilityFilter"] == Autobound(Method(3, None, None))
    ensures HookOf(Declared(d).value.surface) == NoHook
  {
    DeclarationAccepted(d);
    PrototypeKeysDistinct(d.proto);
    EntryAt(d.proto, Prototype, 2);
    EntryAt(d.proto, Prototype, 3);
    PrototypeKeyAt(2);
    PrototypeKeyAt(3);
    DeclaredMemberAt(Str(Slice), InitialState, d, 2);
    DeclaredMemberAt(Str(Slice), InitialState, d, 3);
    NoReservedKeys(d.proto);
    NoDeclaredHook(Str(Slice), InitialState, d);
  }

  /** The registered reducer, given an action of its own type, makes the
      action's payload the filter. */
  lemma RouteSetFilter(r: SliceReducer, current: JsValue, action: JsValue, filter: JsValue)
    requires r.reducers == map[SetFilterType := Handler(SetFilterType, 1)] && r.hook == NoHook
    requires !current.Undefined? && action.Obj? && "type" in action.props && action.props["type"] == Str(SetFilterType)
    requires Read(action, "payload") == filter
    ensures Route(r, current, action, Handlers) == Ok(Routed(filter, false))
  {
    assert Read(action, "type") == Str(SetFilterType);
  }

  /** Plugged into the framework: whatever the current filter, dispatching
      `setVisibilityFilter(f)` through the registered slice reducer makes `f`
      the filter. */
  lemma SetFilterRoundTrip(d: Declaration, store: Store, current: JsValue, filter: JsValue)
    requires SameEntries(d.proto, Prototype)
    requires !current.Undefined?
    ensures Declared(d).Ok?
    ensures var action := SetVisibilityFilter(Some(store), filter).value;
            Route(SliceReducerOf(Declared(d).value), current, action, Handlers) == Ok(Routed(filter, false))
  {
    DeclaredTable(d);
    DeclaredSurface(d);
    var action := SetVisibilityFilter(Some(store), filter).value;
    RouteSetFilter(SliceReducerOf(Declared(d).value), current, action, filter);
  }
}
