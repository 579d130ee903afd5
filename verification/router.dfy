/** The reducer a service registers for its slice: it supplies the initial
    state, calls the `onStateAvailable` hook when its own slice-added
    notification passes through, and routes every other action through the
    private reducer table.

    The hook is called synchronously inside the reducer, on every such
    notification: the closure keeps no record of an earlier call. The reducer
    table is a plain JavaScript object, so a lookup also finds the members it
    inherits from `Object.prototype`; `RouteAsWritten` models that lookup and
    `Route` the own-key lookup the pass-through rule calls for. */
module Router {
  import opened JsValues
  import opened Classification

  const SliceAdded := "@@redux-cake/SLICE_ADDED"
  const HookName := "onStateAvailable"

  /** What `instance.onStateAvailable` holds: nothing truthy, a function, or a
      truthy value that is not a function. */
  datatype Hook = NoHook | CallableHook | NonCallableHook

  /** The closure handed to `addSlice` for one service. */
  datatype SliceReducer = SliceReducer(slice: string, initialState: JsValue, reducers: map<string, Handler>, hook: Hook)

  /** The new slice state, and whether the hook was called on the way. */
  datatype Routed = Routed(state: JsValue, hookCalled: bool)

  /** The properties every plain object inherits from `Object.prototype`. */
  const ObjectPrototypeNames: set<string> := {
    "constructor", "hasOwnProperty", "isPrototypeOf", "propertyIsEnumerable",
    "toLocaleString", "toString", "valueOf", "__proto__",
    "__defineGetter__", "__defineSetter__", "__lookupGetter__", "__lookupSetter__"
  }

  datatype Lookup = OwnKeys | WithObjectPrototype

  datatype Found = Missing | OwnHandler(handler: Handler) | InheritedMember(name: string)

  /** `reducers[type]`, with or without the inherited members. */
  function Find(lookup: Lookup, reducers: map<string, Handler>, actionType: JsValue): Found {
    match PropertyKey(actionType)
    case None => Missing
    case Some(k) =>
      if k in reducers then OwnHandler(reducers[k])
      else if lookup == WithObjectPrototype && k in ObjectPrototypeNames then InheritedMember(k)
      else Missing
  }

  /** The table key an action's type selects. */
  function ActionKey(action: JsValue): Option<string>
    requires !Nullish(action)
  {
    PropertyKey(Read(action, "type"))
  }

  /** The action is this slice's own slice-added notification. */
  predicate AnnouncesSlice(r: SliceReducer, action: JsValue)
    requires !Nullish(action)
  {
    Read(action, "type") == Str(SliceAdded) && Read(action, "payload") == Str(r.slice)
  }

  /** The reducer closure under a given table lookup. `run(h, state, action)`
      is what handler `h` returns when called on the instance;
      `builtin(n, state, action)` is the outcome of calling the inherited
      member `n` so, which may throw (`__defineGetter__` and
      `__defineSetter__` refuse a non-callable action). */
  function RouteWith(lookup: Lookup, r: SliceReducer, state: JsValue, action: JsValue,
                     run: (Handler, JsValue, JsValue) -> JsValue,
                     builtin: (string, JsValue, JsValue) -> Result<JsValue>): (res: Result<Routed>)
    ensures state.Undefined? ==> res == Ok(Routed(r.initialState, false))
    ensures !state.Undefined? && Nullish(action) ==> res == Err(CannotRead("type"))
    ensures !state.Undefined? && !Nullish(action) && r.hook.NonCallableHook? && AnnouncesSlice(r, action) ==>
              res == Err(NotCallable(HookName))
  {
    if state.Undefined? then Ok(Routed(r.initialState, false))
    else if Nullish(action) then Err(CannotRead("type"))
    else
      var fire := r.hook != NoHook && AnnouncesSlice(r, action);
      if fire && r.hook == NonCallableHook then Err(NotCallable(HookName))
      else match Find(lookup, r.reducers, Read(action, "type"))
        case Missing => Ok(Routed(state, fire))
        case OwnHandler(h) => Ok(Routed(run(h, state, action), fire))
        case InheritedMember(n) =>
          // `Object.prototype` itself has no `call` method
          if n == "__proto__" then Err(NotCallable("call"))
          else match builtin(n, state, action)
            case Err(e) => Err(e)
            case Ok(v) => Ok(Routed(v, fire))
  }

  /** The slice reducer with an own-key table lookup. */
  function Route(r: SliceReducer, state: JsValue, action: JsValue,
                 run: (Handler, JsValue, JsValue) -> JsValue): (res: Result<Routed>)
    ensures state.Undefined? ==> res == Ok(Routed(r.initialState, false))
    ensures !state.Undefined? && Nullish(action) ==> res == Err(CannotRead("type"))
    ensures !state.Undefined? && !Nullish(action) ==>
              (res.Err? <==> r.hook.NonCallableHook? && AnnouncesSlice(r, action))
    ensures !state.Undefined? && !Nullish(action) && res.Err? ==> res.failure == NotCallable(HookName)
    ensures !state.Undefined? && !Nullish(action) && res.Ok? ==>
              (res.value.hookCalled <==> r.hook.CallableHook? && AnnouncesSlice(r, action))
    ensures !state.Undefined? && !Nullish(action) && res.Ok? &&
            ActionKey(action).Some? && ActionKey(action).value in r.reducers ==>
              res.value.state == run(r.reducers[ActionKey(action).value], state, action)
    ensures !state.Undefined? && !Nullish(action) && res.Ok? &&
            (ActionKey(action).None? || ActionKey(action).value !in r.reducers) ==>
              res.value.state == state
  {
    RouteWith(OwnKeys, r, state, action, run, (n, s, a) => Ok(s))
  }

  /** Whether the hook throws on this action. */
  predicate HookThrows(r: SliceReducer, action: JsValue)
    requires !Nullish(action)
  {
    r.hook.NonCallableHook? && AnnouncesSlice(r, action)
  }

  /** The slice reducer as the source builds it: it agrees with `Route`
      except on a type that names an inherited `Object.prototype` member not
      in the table, which reaches that member. */
  function RouteAsWritten(r: SliceReducer, state: JsValue, action: JsValue,
                          run: (Handler, JsValue, JsValue) -> JsValue,
                          builtin: (string, JsValue, JsValue) -> Result<JsValue>): (res: Result<Routed>)
    ensures state.Undefined? || Nullish(action) ==> res == Route(r, state, action, run)
    ensures !state.Undefined? && !Nullish(action) &&
            (ActionKey(action).None? || ActionKey(action).value in r.reducers ||
             ActionKey(action).value !in ObjectPrototypeNames) ==>
              res == Route(r, state, action, run)
    ensures !state.Undefined? && !Nullish(action) && HookThrows(r, action) ==> res == Err(NotCallable(HookName))
    ensures !state.Undefined? && !Nullish(action) && !HookThrows(r, action) &&
            ActionKey(action) == Some("__proto__") && "__proto__" !in r.reducers ==>
              res == Err(NotCallable("call"))
    ensures !state.Undefined? && !Nullish(action) && !HookThrows(r, action) &&
            ActionKey(action).Some? && ActionKey(action).value != "__proto__" &&
            ActionKey(action).value !in r.reducers && ActionKey(action).value in ObjectPrototypeNames ==>
              var outcome := builtin(ActionKey(action).value, state, action);
              && (outcome.Err? ==> res == Err(outcome.failure))
              && (outcome.Ok? ==> res == Ok(Routed(outcome.value, r.hook.CallableHook? && AnnouncesSlice(r, action))))
  {
    RouteWith(WithObjectPrototype, r, state, action, run, builtin)
  }

  /** An action of type "toString" that no reducer handles: the own-key
      router passes the state through, the source's router replaces it with
      what `Object.prototype.toString` returns for the instance. */
  lemma InheritedNameHijacksRouting(run: (Handler, JsValue, JsValue) -> JsValue)
    ensures var r := SliceReducer("test", Num(0), map[], NoHook);
            var action := Obj(map["type" := Str("toString")]);
            && Route(r, Num(1), action, run) == Ok(Routed(Num(1), false))
            && RouteAsWritten(r, Num(1), action, run, (n, s, a) => Ok(Str("[object Object]"))) ==
                 Ok(Routed(Str("[object Object]"), false))
  {
    var action := Obj(map["type" := Str("toString")]);
    assert Read(action, "type") == Str("toString");
  }

  /** The hook fires again for a second slice-added notification: nothing in
      the closure records that it already ran. */
  lemma HookFiresOnEveryNotification(r: SliceReducer, state: JsValue,
                                     run: (Handler, JsValue, JsValue) -> JsValue)
    requires r.hook.CallableHook? && !state.Undefined?
    ensures var action := Obj(map["type" := Str(SliceAdded), "payload" := Str(r.slice)]);
            var first := Route(r, state, action, run);
            && first.Ok? && first.value.hookCalled
            && (!first.value.state.Undefined? ==>
                  Route(r, first.value.state, action, run).Ok? &&
                  Route(r, first.value.state, action, run).value.hookCalled)
  {
    var action := Obj(map["type" := Str(SliceAdded), "payload" := Str(r.slice)]);
    assert AnnouncesSlice(r, action);
  }
}
