/** The `@selector` and `@reducer` method decorators: after validating, each
    attaches a tag to the decorated method for the service factory to read. */
module Decorators {
  import opened JsValues
  import opened Validators

  /** `fn._reductusSelector`: the resolver of the selector's input selectors. */
  datatype SelectorTag = SelectorTag(getInputSelectors: JsValue)

  /** `fn._reductusReducer`: the action type the reducer answers to. */
  datatype ReducerTag = ReducerTag(actionType: string)

  /** `@selector(getInputSelectors)` applied to `(target, key, descriptor)`. */
  function SelectorDecorator(getInputSelectors: JsValue, target: JsValue, key: string,
                             descriptor: JsValue): (r: Result<SelectorTag>)
    ensures r.Ok? <==> getInputSelectors.Func? && IsClassMethod(target, descriptor)
    ensures r.Ok? ==> r.value == SelectorTag(getInputSelectors)
    ensures ValidateSelectorDecoratorParams(getInputSelectors).Fail? ==>
              r == Err(ValidateSelectorDecoratorParams(getInputSelectors).failure)
    ensures getInputSelectors.Func? && !IsClassMethod(target, descriptor) ==>
              r == Err(ValidateSelectorDecoratorTarget(target, key, descriptor).failure)
  {
    match ValidateSelectorDecoratorParams(getInputSelectors)
    case Fail(e) => Err(e)
    case Pass =>
      match ValidateSelectorDecoratorTarget(target, key, descriptor)
      case Fail(e) => Err(e)
      case Pass => Ok(SelectorTag(getInputSelectors))
  }

  /** `@reducer(type)` applied to `(target, key, descriptor)`: the tag's type
      is `type` when truthy and the method name otherwise. */
  function ReducerDecorator(actionType: JsValue, target: JsValue, key: string,
                            descriptor: JsValue): (r: Result<ReducerTag>)
    ensures r.Ok? <==> (!Truthy(actionType) || actionType.Str?) && IsClassMethod(target, descriptor)
    ensures r.Ok? && Truthy(actionType) ==> r.value.actionType == actionType.s
    ensures r.Ok? && !Truthy(actionType) ==> r.value.actionType == key
    ensures Truthy(actionType) && !actionType.Str? ==> r == Err(Thrown(ReducerTypeNotString))
    ensures (!Truthy(actionType) || actionType.Str?) && !IsClassMethod(target, descriptor) ==>
              r == Err(ValidateReducerDecoratorTarget(target, key, descriptor).failure)
  {
    match ValidateReducerDecoratorParams(actionType)
    case Fail(e) => Err(e)
    case Pass =>
      match ValidateReducerDecoratorTarget(target, key, descriptor)
      case Fail(e) => Err(e)
      case Pass => Ok(ReducerTag(if Truthy(actionType) then actionType.s else key))
  }
}
