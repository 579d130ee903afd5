/** The declaration validators: each returns, or throws one specific error.
    Being pure functions of their arguments, none of them modifies an argument. */
module Validators {
  import opened JsValues

  const SelectorInputsRequired := "The getInputSelectors parameter for @selector() is required."
  const SelectorInputsNotFunction := "Expected the getInputSelectors parameter for @selector() to be a function"
  const SelectorTargetInvalid := "@selector() may only be used on class methods."
  const ReducerTypeNotString := "Unexpected non-string `type` provided to @reducer()."
  const ReducerTargetInvalid := "@reducer() may only be used on class methods."
  const SliceNotString := "The first parameter (slice) for @service() must be a string."
  const InitialStateRequired := "The second second parameter (initialState) for @service() is required."
  const ServiceTargetInvalid := "@service() may only be used on ES6 classes."

  /** Names a service class may not define, in the order they are checked. */
  const ReservedNames: seq<string> := ["state", "slice", "dispatch"]

  function ReservedMessage(key: string): string {
    "\"" + key + "\" is a reserved method name on Reductus services."
  }

  /** `@selector(getInputSelectors)`: a missing resolver is reported before a
      resolver of the wrong type. */
  function ValidateSelectorDecoratorParams(getInputSelectors: JsValue): (c: Check)
    ensures c.Pass? <==> getInputSelectors.Func?
    ensures getInputSelectors.Undefined? ==> c == Fail(Thrown(SelectorInputsRequired))
    ensures !getInputSelectors.Undefined? && !getInputSelectors.Func? ==>
              c == Fail(Thrown(SelectorInputsNotFunction))
  {
    if TypeOf(getInputSelectors) == "undefined" then Fail(Thrown(SelectorInputsRequired))
    else if TypeOf(getInputSelectors) != "function" then Fail(Thrown(SelectorInputsNotFunction))
    else Pass
  }

  /** A decorated member is a class method when its descriptor exists, holds a
      function, and the decorated target has a `constructor` function. */
  predicate IsClassMethod(target: JsValue, descriptor: JsValue) {
    && Truthy(descriptor)
    && Read(descriptor, "value").Func?
    && !Nullish(target)
    && Read(target, "constructor").Func?
  }

  /** The shared check behind both method-decorator target validators; it
      reads `target.constructor` only once the descriptor has passed. */
  function ClassMethodTarget(target: JsValue, descriptor: JsValue, message: string): (c: Check)
    ensures c.Pass? <==> IsClassMethod(target, descriptor)
    ensures c == Fail(CannotRead("constructor")) <==>
              Truthy(descriptor) && Read(descriptor, "value").Func? && Nullish(target)
    ensures c.Fail? && Truthy(descriptor) && Read(descriptor, "value").Func? && !Nullish(target) ==>
              c.failure == Thrown(message)
    ensures !Truthy(descriptor) || !Read(descriptor, "value").Func? ==> c == Fail(Thrown(message))
  {
    if !Truthy(descriptor) then Fail(Thrown(message))
    else if TypeOf(Read(descriptor, "value")) != "function" then Fail(Thrown(message))
    else if Nullish(target) then Fail(CannotRead("constructor"))
    else if TypeOf(Read(target, "constructor")) != "function" then Fail(Thrown(message))
    else Pass
  }

  function ValidateSelectorDecoratorTarget(target: JsValue, key: string, descriptor: JsValue): (c: Check)
    ensures c.Pass? <==> IsClassMethod(target, descriptor)
    ensures c.Fail? && !Nullish(target) ==> c.failure == Thrown(SelectorTargetInvalid)
  {
    ClassMethodTarget(target, descriptor, SelectorTargetInvalid)
  }

  /** `@reducer(type)`: only a truthy non-string type is refused, so an
      omitted type, `0`, `null` and `''` all pass. */
  function ValidateReducerDecoratorParams(actionType: JsValue): (c: Check)
    ensures c.Pass? <==> !Truthy(actionType) || actionType.Str?
    ensures c.Fail? ==> c.failure == Thrown(ReducerTypeNotString)
  {
    if Truthy(actionType) && TypeOf(actionType) != "string" then Fail(Thrown(ReducerTypeNotString))
    else Pass
  }

  function ValidateReducerDecoratorTarget(target: JsValue, key: string, descriptor: JsValue): (c: Check)
    ensures c.Pass? <==> IsClassMethod(target, descriptor)
    ensures c.Fail? && !Nullish(target) ==> c.failure == Thrown(ReducerTargetInvalid)
  {
    ClassMethodTarget(target, descriptor, ReducerTargetInvalid)
  }

  /** `@service(slice, initialState)`: the slice is checked first and need
      only be a string (the empty string passes); only an undefined initial
      state is refused. */
  function ValidateServiceDecoratorParams(slice: JsValue, initialState: JsValue): (c: Check)
    ensures c.Pass? <==> slice.Str? && !initialState.Undefined?
    ensures !slice.Str? ==> c == Fail(Thrown(SliceNotString))
    ensures slice.Str? && initialState.Undefined? ==> c == Fail(Thrown(InitialStateRequired))
  {
    if TypeOf(slice) != "string" then Fail(Thrown(SliceNotString))
    else if TypeOf(initialState) == "undefined" then Fail(Thrown(InitialStateRequired))
    else Pass
  }

  /** The index of the first key whose property on `obj` is truthy. */
  function FirstTruthy(obj: JsValue, keys: seq<string>): (r: Option<nat>)
    requires !Nullish(obj)
    ensures r.Some? ==> r.value < |keys| && Truthy(Read(obj, keys[r.value]))
    ensures r.Some? ==> forall j :: 0 <= j < r.value ==> !Truthy(Read(obj, keys[j]))
    ensures r.None? ==> forall j :: 0 <= j < |keys| ==> !Truthy(Read(obj, keys[j]))
    decreases |keys|
  {
    if |keys| == 0 then None
    else if Truthy(Read(obj, keys[0])) then Some(0)
    else match FirstTruthy(obj, keys[1..])
      case None => None
      case Some(i) => Some(i + 1)
  }

  /** A class: a function whose `prototype.constructor` is a function. */
  predicate IsClass(clazz: JsValue) {
    && clazz.Func?
    && !Nullish(Read(clazz, "prototype"))
    && Read(Read(clazz, "prototype"), "constructor").Func?
  }

  /** The service class's prototype must not carry a truthy `state`, `slice`
      or `dispatch`; the error names the first of them, in that order. */
  function ValidateServiceDecoratorTarget(clazz: JsValue): (c: Check)
    ensures c.Pass? <==>
              IsClass(clazz) &&
              forall j :: 0 <= j < |ReservedNames| ==> !Truthy(Read(Read(clazz, "prototype"), ReservedNames[j]))
    ensures !clazz.Func? ==> c == Fail(Thrown(ServiceTargetInvalid))
    ensures clazz.Func? && Nullish(Read(clazz, "prototype")) ==> c == Fail(CannotRead("constructor"))
    ensures (clazz.Func? && !Nullish(Read(clazz, "prototype")) &&
             !Read(Read(clazz, "prototype"), "constructor").Func?) ==> c == Fail(Thrown(ServiceTargetInvalid))
    ensures IsClass(clazz) && c.Fail? ==>
              exists j :: 0 <= j < |ReservedNames| &&
                c.failure == Thrown(ReservedMessage(ReservedNames[j])) &&
                Truthy(Read(Read(clazz, "prototype"), ReservedNames[j])) &&
                forall i :: 0 <= i < j ==> !Truthy(Read(Read(clazz, "prototype"), ReservedNames[i]))
  {
    if TypeOf(clazz) != "function" then Fail(Thrown(ServiceTargetInvalid))
    else
      var proto := Read(clazz, "prototype");
      if Nullish(proto) then Fail(CannotRead("constructor"))
      else if TypeOf(Read(proto, "constructor")) != "function" then Fail(Thrown(ServiceTargetInvalid))
      else match FirstTruthy(proto, ReservedNames)
        case Some(j) => Fail(Thrown(ReservedMessage(ReservedNames[j])))
        case None => Pass
  }

  /** A prototype defining both `slice` and `dispatch` is refused for `slice`. */
  lemma ReservedNamesCheckedInOrder(f: JsValue, g: JsValue)
    requires Truthy(f) && Truthy(g)
    ensures var proto := Obj(map["constructor" := Func(map[]), "slice" := f, "dispatch" := g]);
            ValidateServiceDecoratorTarget(Func(map["prototype" := proto])) ==
              Fail(Thrown(ReservedMessage("slice")))
  {
    var proto := Obj(map["constructor" := Func(map[]), "slice" := f, "dispatch" := g]);
    assert !Truthy(Read(proto, "state"));
    assert FirstTruthy(proto, ReservedNames) == Some(1);
  }
}
