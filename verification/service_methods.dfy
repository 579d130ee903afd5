/** The three methods every service instance receives — `state()`,
    `slice(state)` and `dispatch(type, payload, meta)` — and the store-presence
    check they all begin with. The store is the value the enhancer captured. */
module ServiceMethods {
  import opened JsValues

  /** The live store, seen through its current state tree. */
  datatype Store = Store(state: JsValue)

  const StoreMissing := "You must use the reductus enhancer before calling reductus Service methods"
  const SliceArgumentMissing := "Cannot call slice() without providing the \"state\" parameter"

  /** `assertStore()`. */
  function AssertStore(store: Option<Store>): (c: Check)
    ensures c.Pass? <==> store.Some?
    ensures c.Fail? ==> c.failure == Thrown(StoreMissing)
  {
    if store.None? then Fail(Thrown(StoreMissing)) else Pass
  }

  /** `state()`: this service's slice of the live store's state. */
  function StateOf(store: Option<Store>, slice: string): (r: Result<JsValue>)
    ensures store.None? ==> r == Err(Thrown(StoreMissing))
    ensures store.Some? && !Nullish(store.value.state) ==> r == Ok(Read(store.value.state, slice))
    ensures store.Some? && Nullish(store.value.state) ==> r == Err(CannotRead(slice))
  {
    match AssertStore(store)
    case Fail(e) => Err(e)
    case Pass => GetProp(store.value.state, slice)
  }

  /** `slice(state)`: the store check comes before the argument check, and any
      falsy argument is refused. */
  function SliceOf(store: Option<Store>, slice: string, state: JsValue): (r: Result<JsValue>)
    ensures store.None? ==> r == Err(Thrown(StoreMissing))
    ensures store.Some? && !Truthy(state) ==> r == Err(Thrown(SliceArgumentMissing))
    ensures store.Some? && Truthy(state) ==> r == Ok(Read(state, slice))
  {
    match AssertStore(store)
    case Fail(e) => Err(e)
    case Pass =>
      if !Truthy(state) then Err(Thrown(SliceArgumentMissing))
      else Ok(Read(state, slice))
  }

  /** The Flux-standard action built for a string `type`. */
  function Normalize(actionType: string, payload: JsValue, meta: JsValue): (a: map<string, JsValue>)
    ensures a.Keys <= {"type", "error", "payload", "meta"}
    ensures "type" in a && a["type"] == Str(actionType)
    ensures "error" in a <==> payload.ErrorObj?
    ensures "error" in a ==> a["error"] == Bool(true)
    ensures "payload" in a <==> !payload.Undefined?
    ensures "payload" in a ==> a["payload"] == payload
    ensures "meta" in a <==> !meta.Undefined?
    ensures "meta" in a ==> a["meta"] == meta
  {
    var typed := map["type" := Str(actionType)];
    var flagged := if payload.ErrorObj? then typed["error" := Bool(true)] else typed;
    var carried := if TypeOf(payload) != "undefined" then flagged["payload" := payload] else flagged;
    if TypeOf(meta) != "undefined" then carried["meta" := meta] else carried
  }

  /** `dispatch(type, payload, meta)`: the result is the action handed to the
      store's `dispatch`. A non-string first argument is forwarded as it is. */
  function Dispatch(store: Option<Store>, actionType: JsValue, payload: JsValue, meta: JsValue): (r: Result<JsValue>)
    ensures store.None? ==> r == Err(Thrown(StoreMissing))
    ensures store.Some? && !actionType.Str? ==> r == Ok(actionType)
    ensures store.Some? && actionType.Str? ==> r == Ok(Obj(Normalize(actionType.s, payload, meta)))
  {
    match AssertStore(store)
    case Fail(e) => Err(e)
    case Pass =>
      if TypeOf(actionType) != "string" then Ok(actionType)
      else Ok(Obj(Normalize(actionType.s, payload, meta)))
  }

  /** A raw action is forwarded whatever payload and meta accompany it. */
  lemma RawActionIgnoresPayloadAndMeta(store: Store, action: JsValue, p1: JsValue, m1: JsValue, p2: JsValue, m2: JsValue)
    requires !action.Str?
    ensures Dispatch(Some(store), action, p1, m1) == Dispatch(Some(store), action, p2, m2) == Ok(action)
  {
  }

  /** The dispatch forms exercised against a live store. */
  lemma DispatchForms(store: Store)
    ensures Dispatch(Some(store), Str("RESET"), Undefined, Undefined) == Ok(Obj(map["type" := Str("RESET")]))
    ensures Dispatch(Some(store), Str("ADD"), Num(2), Undefined) ==
              Ok(Obj(map["type" := Str("ADD"), "payload" := Num(2)]))
    ensures Dispatch(Some(store), Str("ERROR"), ErrorObj("oops"), Undefined) ==
              Ok(Obj(map["type" := Str("ERROR"), "error" := Bool(true), "payload" := ErrorObj("oops")]))
    ensures Dispatch(Some(store), Str("META"), Null, Str("meta")) ==
              Ok(Obj(map["type" := Str("META"), "payload" := Null, "meta" := Str("meta")]))
  {
  }

  /** `slice()` needs its argument; `slice({test: 7})` projects the slice. */
  lemma SliceForms(store: Store)
    ensures SliceOf(Some(store), "test", Undefined) == Err(Thrown(SliceArgumentMissing))
    ensures SliceOf(Some(store), "test", Obj(map["test" := Num(7)])) == Ok(Num(7))
  {
  }
}
