# Reductus service layer, modelled in Dafny

Reductus turns an ES6 class into a Redux "service". `@service(slice, initialState)`:

- validates its arguments and the class;
- installs the service methods `state()`, `slice(state)` and `dispatch(type, payload, meta)` on the prototype;
- walks the prototype's own keys.

On that walk each key is handled as follows:

- `constructor` and non-function values are left as declared.
- A method tagged by `@selector(getInputSelectors)` is wrapped. The wrapper resolves its input selectors on its first call that succeeds, since a call whose resolution throws leaves it unset, and reuses that memoised selector after that.
- A method tagged by `@reducer(type)` moves into a private table keyed by action type and leaves the public surface.
- Every other function is autobound.

`clazz.get()` builds the single instance. On its first call it registers a slice reducer with the store, and that reducer:

- supplies the initial state;
- calls `onStateAvailable` when its own slice-added notification passes;
- routes every other action through the table.

`reductusEnhancer` captures the store that the service methods use.

The model has one module per part of the library:

- `JsValues`: JavaScript values, truthiness, `typeof`, property reads and property-key coercion.
  - A thrown exception becomes the `Err` of a `Result`, or the `Fail` of a `Check`.
- `Validators`: the six declaration validators.
- `Decorators`: `@selector` and `@reducer`, and the tags they attach.
- `ServiceMethods`: `assertStore`, `state()`, `slice()` and `dispatch()`, including the Flux-standard action that `dispatch` builds.
- `LazySelector`: the lazily resolved selector wrapper.
- `Classification`: the pass over the prototype's keys.
  - The prototype is given as its own keys in enumeration order, each with its member.
- `Router`: the slice reducer closure.
- `ServiceFactory`: `@service`, `get()` and the enhancer.
- `TodoService` and `VisibilityService`: the two services of the bundled to-do example.
  - Each is declared through the factory.
  - Each has lemmas showing what its table and surface hold, and that each action method's dispatched action is handled by its reducer as intended.

Where the code and its comments differ, the model follows the code:

- The comment at `src/index.js:145-148` speaks of calling `onStateAvailable` on a future turn. The code calls it synchronously inside the reducer, and `asap` is imported but never used.
  - Nothing records that the hook already ran, so it fires on every matching notification (`Router.HookFiresOnEveryNotification`).
- The comment at `src/index.js:137-138` speaks of waiting a tick before `addSlice`. The code calls it directly inside `get()`.
- `validateServiceDecoratorParams` accepts any string slice, including the empty one.

## Model

| member | source | states |
|---|---|---|
| JsValues.Truthy | src/index.js:59 | `!!v`: a truthy value is never undefined or null |
| JsValues.TypeOf | src/validators.js:6-10 | `typeof v` is "undefined", "string" or "function" exactly for undefined values, strings and functions |
| JsValues.Read | src/index.js:63 | reading a key of an object or function yields its own property when present, and undefined when absent |
| JsValues.GetProp | src/index.js:53 | a property read throws a TypeError naming the key exactly when the base is undefined or null, and otherwise yields the property |
| JsValues.PropertyKey | src/index.js:158 | a string action type is used as the table key unchanged; only object-like types have no primitive key |
| Validators.ValidateSelectorDecoratorParams | src/validators.js:5-13 | passes exactly for a function; a missing resolver reports "required" before a non-function reports "to be a function" |
| Validators.ClassMethodTarget | src/validators.js:15-19 | passes exactly for a truthy descriptor holding a function on a target whose `constructor` is a function; with a truthy function descriptor, a null or undefined target throws a TypeError reading `constructor`; every other failure carries the decorator's message |
| Validators.ValidateSelectorDecoratorTarget | src/validators.js:15-19 | passes exactly for class methods; for a target that is not null or undefined, every failure throws "@selector() may only be used on class methods." |
| Validators.ValidateReducerDecoratorParams | src/validators.js:25-29 | refuses only a truthy non-string type, so an omitted type, `0`, `null` and `''` pass |
| Validators.ValidateReducerDecoratorTarget | src/validators.js:31-35 | passes exactly for class methods; for a target that is not null or undefined, every failure throws "@reducer() may only be used on class methods." |
| Validators.ValidateServiceDecoratorParams | src/validators.js:41-49 | passes exactly for a string slice with a defined initial state; the slice is checked first |
| Validators.FirstTruthy | src/validators.js:56-60 | finds the first key whose property is truthy, with every earlier key falsy; `None` only when all keys are falsy |
| Validators.ValidateServiceDecoratorTarget | src/validators.js:51-61 | passes exactly for a class whose prototype has no truthy `state`, `slice` or `dispatch`; otherwise the error names the first such name in that order; a non-function is refused; a nullish prototype throws reading `constructor`; a prototype whose `constructor` is not a function is refused as not a class |
| Validators.ReservedNamesCheckedInOrder | src/validators.js:56-60 | a prototype defining both `slice` and `dispatch` is refused for `slice` |
| Decorators.SelectorDecorator | src/index.js:19-24 | succeeds exactly for a function resolver on a class method, and tags the method with that resolver; a parameter error comes before a target error |
| Decorators.ReducerDecorator | src/index.js:32-37 | succeeds exactly for an acceptable type on a class method; the tag's type is the given type when it is truthy, otherwise the method name |
| ServiceMethods.AssertStore | src/index.js:191-195 | passes exactly when a store has been captured, and otherwise throws the enhancer message |
| ServiceMethods.StateOf | src/index.js:50-54 | without a store it throws; otherwise it returns the slice's property of the store state, or throws when that state is nullish |
| ServiceMethods.SliceOf | src/index.js:56-64 | the store check comes first; a falsy argument throws the "state" parameter message; otherwise it returns the slice's property of the argument |
| ServiceMethods.Normalize | src/index.js:74-86 | the action holds `type`, plus `error: true` exactly for an Error payload, `payload` exactly when the payload is defined, and `meta` exactly when meta is defined, and nothing else |
| ServiceMethods.Dispatch | src/index.js:66-89 | without a store it throws; a non-string first argument is forwarded as it is; a string type is sent as the normalised action |
| ServiceMethods.RawActionIgnoresPayloadAndMeta | src/index.js:70-72 | a raw action is forwarded whatever payload and meta come with it |
| ServiceMethods.DispatchForms | src/index.js:74-88 | the type-only, payload, Error-payload and meta forms of `dispatch` build the expected actions |
| ServiceMethods.SliceForms | src/index.js:59-63 | `slice()` with no argument throws, and `slice({test: 7})` yields 7 |
| LazySelector.CallSelector | src/index.js:109-115 | a call runs the resolver exactly when the wrapper is unset; a resolver or `createSelector` that throws leaves the wrapper unset and the call throws the same error; a successful resolution is kept, and the call evaluates against the inputs the wrapper then holds |
| LazySelector.FirstOk | src/index.js:110-112 | the index of the first resolution that does not throw: every earlier one throws |
| LazySelector.CallRepeatedly | src/index.js:103-115 | over any run of calls on an unset wrapper the resolver runs on every call up to and including its first success, and never after; the calls before it throw what their resolution threw; every call from it on evaluates against the inputs that success resolved; a wrapper already set never resolves again |
| Classification.MemberValue | src/index.js:96 | a member's value is a function exactly when the member counts as a function |
| Classification.RoleOf | src/index.js:91-127 | `constructor` and non-functions are left as they are; a selector tag wins over a reducer tag; a reducer routes its tag's type to its own key and method; every other function is autobound |
| Classification.KindOf | src/index.js:100-118 | a wrapped selector starts with its inputs unresolved |
| Classification.Step | src/index.js:92-127 | one key changes only its own surface entry: a reducer is deleted from the surface and its type gains the reducer's handler, other types keeping theirs; any other key is on the surface in its public form and leaves the table unchanged |
| Classification.Classify | src/index.js:91-128 | an empty prototype gives an empty surface and table; the last key is on the surface exactly when it routes no reducer |
| Classification.ReducerTableKeys | src/index.js:119-123 | the table holds exactly the types that some key routes |
| Classification.ReducerTableHandlers | src/index.js:121 | each type's handler is the last key routing it, so a later reducer for the same type overwrites an earlier one |
| Classification.ReducerTable | src/index.js:119-123 | the table's types are exactly the routed types, each handled by the last key routing it |
| Classification.SurfaceKeys | src/index.js:91-128 | every key on the surface is a prototype key that routes no reducer |
| Classification.SurfaceEntries | src/index.js:117-126 | with unique keys, every non-reducer key is on the surface in its public form, and every reducer key is deleted from it |
| Classification.SurfaceEntryAt | src/index.js:117-126 | one non-reducer key is on the surface in its public form |
| Classification.Surface | src/index.js:91-128 | with unique keys, the surface holds exactly the non-reducer keys, each in its public form |
| Classification.SelectorsStartUnresolved | src/index.js:103-117 | classification resolves no selector |
| Classification.Replace | src/index.js:50 | assigning to an existing key replaces its value in place and changes no other entry |
| Classification.Install | src/index.js:50-66 | assigning to an existing key keeps its position; a new key is enumerated last |
| Classification.InstallKeepsKeysDistinct | src/index.js:50-66 | assignment keeps keys unique |
| Classification.InstallHolds | src/index.js:50-66 | after the assignment the key holds the new member, and the key set gains only that key |
| ServiceFactory.ServicePrototype | src/index.js:50-89 | installing `state`, `slice` and `dispatch` keeps every declared key at its position and adds at most three keys |
| ServiceFactory.PropsOf | src/index.js:48 | the prototype object has exactly the declared keys |
| ServiceFactory.PropsOfEntry | src/index.js:94 | with unique keys, each key's property is its own member's value |
| ServiceFactory.DeclareService | src/index.js:42-128 | a declaration succeeds exactly when both validators pass; the parameter check's error comes before the class check's; an accepted service keeps the slice string and the initial state |
| ServiceFactory.DeclarationAcceptedWhen | src/index.js:43-44 | a string slice, a defined initial state and a class with a `constructor` method and no reserved names are accepted |
| ServiceFactory.ReservedEntriesAreInert | src/validators.js:56-60 | a reserved name that the validator let through holds a falsy value, so it routes nothing |
| ServiceFactory.InstallAt | src/index.js:50-66 | at each index an assignment keeps the key, leaves other keys' entries untouched, and puts the new member at the assigned key or at the end |
| ServiceFactory.ServiceEntryAt | src/index.js:50-89 | after installing the service methods, each declared non-reserved entry is unchanged and every other entry is an installed service method |
| ServiceFactory.InstalledIsAutobound | src/index.js:124-127 | an installed service method is autobound |
| ServiceFactory.ServicePrototypeRouting | src/index.js:91-128 | installing the service methods changes no routing, and every routing entry is the declared entry itself |
| ServiceFactory.ServicePrototypeDistinct | src/index.js:50-89 | installing the service methods keeps keys unique |
| ServiceFactory.ServiceMethodAt | src/index.js:50-89 | each of `state`, `slice` and `dispatch` is on the installed prototype as its service method |
| ServiceFactory.ServiceMethodOnSurface | src/index.js:124-127 | each service method is autobound on the surface |
| ServiceFactory.DeclaredSurfaceHasServiceMethods | src/index.js:50-128 | every accepted service exposes `state`, `slice` and `dispatch`, autobound |
| ServiceFactory.DeclaredSurfaceMembers | src/index.js:91-128 | every declared non-reserved, non-reducer member keeps its classified public form; no reducer member is on the surface |
| ServiceFactory.DeclaredMemberAt | src/index.js:100-127 | one declared public member is on the surface in its classified form |
| ServiceFactory.DeclaredReducerOffSurface | src/index.js:119-123 | a declared reducer is deleted from the surface |
| ServiceFactory.DeclaredSurfaceKeys | src/index.js:91-128 | every surface key is a service method or a declared key that routes no reducer |
| ServiceFactory.NoDeclaredHook | src/index.js:149-150 | a class that declares no `onStateAvailable` has no hook |
| ServiceFactory.DeclaredReducers | src/index.js:119-123 | the service's table holds exactly the types the declared members route, each handled by the last member routing it |
| ServiceFactory.DeclaredReducerAt | src/index.js:121 | the last declared member routing a type handles it |
| ServiceFactory.DeclaredReducersWithin | src/index.js:119-123 | the table holds no type outside any set covering the routed types |
| ServiceFactory.SliceReducerOf | src/index.js:139 | the registered reducer closes over the service's slice, initial state and table; it has no hook when the surface lacks `onStateAvailable`, and a callable one when the surface holds it wrapped or autobound |
| ServiceFactory.HookOf | src/index.js:150-154 | no hook when `onStateAvailable` is absent or falsy; a callable hook for a function; a truthy non-function is kept as uncallable |
| ServiceFactory.DeclaredReducerHandlesItsType | src/index.js:158-162 | an action whose type a declared member routes last reaches that member's handler |
| ServiceFactory.UnroutedTypePassesThrough | src/index.js:157-160 | an action of a type that no member routes leaves the slice unchanged, even when it matches a reducer's method name; this holds for the corrected router for every type, and for the router as written only for types that do not name an `Object.prototype` member (see Findings) |
| ServiceFactory.Get | src/index.js:130-166 | the first call builds the instance and registers the slice reducer once; later calls return the same instance and change nothing |
| ServiceFactory.GetIsIdempotent | src/index.js:133 | `get()` called twice gives the same instance, and the second call registers nothing |
| ServiceFactory.GetRepeatedly | src/index.js:130-166 | over n calls every call returns one instance, and the slice is registered once, by the first call of a fresh factory |
| ServiceFactory.Enhance | src/index.js:173-180 | the enhancer captures the created store and leaves registrations alone |
| ServiceFactory.EnhancedStoreServesMethods | src/index.js:189-195 | once the enhancer has run, no service method throws for want of a store |
| Router.RouteWith | src/index.js:139-163 | under either table lookup, an undefined state yields the initial state, a nullish action throws reading `type`, and an uncallable hook on its own notification throws |
| Router.Route | src/index.js:139-163 | an undefined state yields the initial state; a nullish action throws reading `type`; only an uncallable hook on its own notification throws; the hook fires exactly on its own slice-added notification; a type in the table gets its handler's result; any other type leaves the state as it is |
| Router.RouteAsWritten | src/index.js:139-163 | the reducer as written agrees with the own-key reducer for an undefined state, a nullish action, a type with no primitive key, a type in the table, and a type that names no `Object.prototype` member; an uncallable hook on its own notification throws first; otherwise an unheld `__proto__` type throws because `Object.prototype` has no `call`, and any other unheld `Object.prototype` name gives what calling that member threw or returned, with the hook fired exactly on its own notification |
| Router.InheritedNameHijacksRouting | src/index.js:46 | for an unhandled action of type "toString", the own-key lookup passes the state through, while the lookup as written returns what `Object.prototype.toString` gives |
| Router.HookFiresOnEveryNotification | src/index.js:149-155 | a callable hook fires for a second notification of the same slice too |
| TodoService.AddTodoReducer | examples/todos/src/services/TodoService.js:9-12 | reading a nullish action or payload throws; otherwise the list gains one uncompleted item at the end, carrying the payload's id and text, and the earlier items are kept |
| TodoService.ToggleMatching | examples/todos/src/services/TodoService.js:16-18 | each item keeps its id and text, and its completion flips exactly when its id matches |
| TodoService.ToggleTodoReducer | examples/todos/src/services/TodoService.js:14-19 | a nullish action throws; otherwise the items with the payload's id are toggled |
| TodoService.ToggleTwice | examples/todos/src/services/TodoService.js:16-18 | toggling the same id twice restores the list |
| TodoService.AddTodo | examples/todos/src/services/TodoService.js:21-23 | the id counter always moves on, even when `dispatch` throws; with a store the action is exactly ADD_TODO with payload `{text, id}` |
| TodoService.ToggleTodo | examples/todos/src/services/TodoService.js:25-27 | without a store it throws; for a defined, non-Error id the action is exactly TOGGLE_TODO with that id as payload |
| TodoService.AddTodoRoundTrip | examples/todos/src/services/TodoService.js:9-23 | the item `addTodo(text)` dispatches is the one ADD_TODO appends |
| TodoService.ToggleTodoRoundTrip | examples/todos/src/services/TodoService.js:14-27 | `toggleTodo(id)` through TOGGLE_TODO flips exactly the items with that id |
| TodoService.AddTodos | examples/todos/src/services/TodoService.js:4-23 | successive `addTodo` calls append the items in order with consecutive ids; without a store the first call throws after moving the counter |
| TodoService.GetTodos | examples/todos/src/services/TodoService.js:29-31 | `getTodos(state)` is the "todos" slice of a truthy state, with `slice()`'s errors otherwise |
| TodoService.WithCompleted | examples/todos/src/services/TodoService.js:42-44 | the filter never lengthens the list, and every item it keeps has the wanted completion |
| TodoService.WithCompletedMembers | examples/todos/src/services/TodoService.js:42-44 | the filter keeps exactly the items whose completion matches |
| TodoService.WithCompletedAppend | examples/todos/src/services/TodoService.js:42-44 | filtering keeps the list's order: filtering a concatenation filters each part |
| TodoService.CompletedAndActivePartition | examples/todos/src/services/TodoService.js:41-44 | the completed list and the active list together are exactly as long as the whole list, so every item lands in exactly one of them |
| TodoService.WithCompletedKeepsMatching | examples/todos/src/services/TodoService.js:42-44 | a list whose items all match passes through the filter whole |
| TodoService.GetVisibleTodos | examples/todos/src/services/TodoService.js:37-48 | SHOW_ALL gives the list, SHOW_COMPLETED the completed items, and SHOW_ACTIVE the active ones; exactly the other filters throw "Unknown filter: " followed by the filter |
| TodoService.VisibleTodosArePartOfTheList | examples/todos/src/services/TodoService.js:38-47 | under every known filter the visible items belong to the list, the completed and active views hold exactly the items in that state, and together they are as long as the list |
| TodoService.DecoratorsGiveTheTags | examples/todos/src/services/TodoService.js:9-36 | a bare `@reducer()` tags ADD_TODO and TOGGLE_TODO with their method names, and `@selector` tags getVisibleTodos with its resolver |
| TodoService.PrototypeRouting | examples/todos/src/services/TodoService.js:9-19 | only ADD_TODO and TOGGLE_TODO route, each its own type |
| TodoService.PrototypeKeyAt | examples/todos/src/services/TodoService.js:7-48 | no key of the class is reserved or the hook's, and only the two reducers route |
| TodoService.NoReservedKeys | examples/todos/src/services/TodoService.js:7-48 | the class defines none of `state`, `slice`, `dispatch` or `onStateAvailable` |
| TodoService.LastRoutingAt | examples/todos/src/services/TodoService.js:9-19 | each reducer is the last key routing its type |
| TodoService.DeclarationAccepted | examples/todos/src/services/TodoService.js:6 | `@service('todos', [])` accepts the class |
| TodoService.TableHandler | examples/todos/src/services/TodoService.js:9-19 | each of the two types is handled by the method of that name |
| TodoService.RoutedTypes | examples/todos/src/services/TodoService.js:9-19 | the class routes no type outside ADD_TODO and TOGGLE_TODO |
| TodoService.TableKeys | examples/todos/src/services/TodoService.js:9-19 | the table holds no type outside the two |
| TodoService.DeclaredTable | examples/todos/src/services/TodoService.js:6-19 | the table is exactly ADD_TODO and TOGGLE_TODO, mapped to their methods |
| TodoService.ReducersOffSurface | examples/todos/src/services/TodoService.js:9-19 | the two reducers are not on the public surface |
| TodoService.PublicMember | examples/todos/src/services/TodoService.js:21-48 | each public method is on the surface in its classified form |
| TodoService.DeclaredSurface | examples/todos/src/services/TodoService.js:6-48 | getVisibleTodos is an unresolved wrapped selector; addTodo, toggleTodo and getTodos are autobound; there is no hook |
| VisibilityService.SetVisibilityFilterReducer | examples/todos/src/services/VisibilityService.js:6-9 | the new filter is the action's payload, whatever the old one; a nullish action throws |
| VisibilityService.SetVisibilityFilter | examples/todos/src/services/VisibilityService.js:11-13 | with a store, the action is SET_VISIBILITY_FILTER carrying the filter exactly when the filter is defined, with no meta |
| VisibilityService.GetVisibilityFilter | examples/todos/src/services/VisibilityService.js:15-17 | the "visibility" slice of a truthy state, with `slice()`'s errors otherwise |
| VisibilityService.PrototypeRouting | examples/todos/src/services/VisibilityService.js:6-9 | only SET_VISIBILITY_FILTER routes, and only its own type |
| VisibilityService.PrototypeKeyAt | examples/todos/src/services/VisibilityService.js:4-19 | no key of the class is reserved or the hook's; only the reducer routes |
| VisibilityService.NoReservedKeys | examples/todos/src/services/VisibilityService.js:4-19 | the class defines none of `state`, `slice`, `dispatch` or `onStateAvailable` |
| VisibilityService.LastRoutingAt | examples/todos/src/services/VisibilityService.js:6-9 | the reducer is the last key routing its type |
| VisibilityService.DeclarationAccepted | examples/todos/src/services/VisibilityService.js:3 | `@service('visibility', 'SHOW_ALL')` accepts the class |
| VisibilityService.TableKeys | examples/todos/src/services/VisibilityService.js:6-9 | the table holds no type but SET_VISIBILITY_FILTER |
| VisibilityService.DeclaredTable | examples/todos/src/services/VisibilityService.js:3-9 | the table is exactly SET_VISIBILITY_FILTER mapped to its method, which is off the surface |
| VisibilityService.DeclaredSurface | examples/todos/src/services/VisibilityService.js:3-17 | setVisibilityFilter and getVisibilityFilter are autobound; there is no hook |
| VisibilityService.RouteSetFilter | examples/todos/src/services/VisibilityService.js:6-9 | the slice reducer makes the payload of a SET_VISIBILITY_FILTER action the filter |
| VisibilityService.SetFilterRoundTrip | examples/todos/src/services/VisibilityService.js:6-13 | whatever the current filter, `setVisibilityFilter(f)` through the registered slice reducer makes `f` the filter |

## Left out

- `createStore`, `addSlice`, `reduxCake` and `combineReducers` from redux-cake: the store is its current state, and `addSlice` is an entry in a registrations log.
- reselect's `createSelector` is not part of this model. The memoised selector is a parameter, `evaluate`, and memoisation of its results is not modelled.
- `get-object-keys` and `get-bound-method` are not part of this model.
  - The prototype is given as its own keys in enumeration order.
  - Autobinding is recorded as a public kind, not as a bound function.
- `asap` is imported but not used by the modelled code.
- Decorator syntax is not modelled: the declaration is built with its tags already attached.
  - The prototype mutation (`Object.defineProperty`, `delete`) is modelled as the resulting surface and table.
- The example's React components and containers are left out: they are UI.
- Property reads on primitives and arrays yield undefined. Wrapper prototypes and prototype chains are not modelled, apart from the inherited `Object.prototype` names in `Router.RouteAsWritten`.
- Getters, setters, symbols, and the ordering of integer-like keys are not modelled.
- Numbers are integers: floating point and NaN are left out.
- An object used as an action type has no key: its `toString` conversion is not modelled.
- The side effects and exceptions of constructors, hooks and reducer handlers are not modelled. A handler's result is given by a `run` parameter.
- What an inherited `Object.prototype` member does when the reducer as written calls it is given by a `builtin` parameter, which may return a value or throw; the members' own behaviour is not modelled.
- Router.Route: a reducer type named `__proto__` would not create an own key when written into the table; the model treats it as an ordinary key.
- ServiceFactory.HookOf: only the prototype's `onStateAvailable` is read; one set on the instance by the constructor is not modelled.
- TodoService.ToggleMatching: `===` on object ids is reference identity in JavaScript; the model compares ids structurally. The list is a sequence of typed items, so a non-array state is not modelled, as for `TodoService.ToggleTodoReducer`.
- TodoService.AddTodoReducer: the state is a list of typed items, not an arbitrary JavaScript value; spreading a non-iterable state, which throws, is not modelled.
- TodoService.ToggleTodoReducer: the state is a list of typed items, not an arbitrary JavaScript value; calling `map` on a non-array state, which throws, is not modelled.
- TodoService.GetVisibleTodos: the filter is taken as a string; a non-string filter, which the `switch` would send to its default branch, is not modelled.
- TodoService.WithCompleted: the function's own contract bounds the result's length and says every kept item matches; that every matching item is kept is stated by `TodoService.WithCompletedMembers`.

## Findings

| source | as written | input that shows it | evidently intended | confidence | as-written member | corrected member |
|---|---|---|---|---|---|---|
| src/index.js:158-162 | the reducer table is the plain object `{}` of line 46, so `reducers[action.type]` also finds the members inherited from `Object.prototype` | an action `{type: "toString"}` for a service with no such reducer: `Object.prototype.toString` is called and its result replaces the slice state | a type with no reducer leaves the slice state as it is | not executed | Router.RouteAsWritten, Router.InheritedNameHijacksRouting | Router.Route |
