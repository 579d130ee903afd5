/** The example application's to-do service: slice "todos", initially the
    empty list, two reducers, two action methods, a slice accessor and a
    memoised selector of the todos the current filter shows. */
module TodoService {
  import opened JsValues
  import opened Validators
  import opened Decorators
  import opened Classification
  import opened LazySelector
  import opened Router
  import opened ServiceMethods
  import opened ServiceFactory

  const Slice := "todos"
  const InitialState: JsValue := Arr([])
  const AddType := "ADD_TODO"
  const ToggleType := "TOGGLE_TODO"

  /** One list item, as the ADD_TODO reducer builds it. */
  datatype Todo = Todo(id: JsValue, text: JsValue, completed: bool)

  // ---------------------------------------------------------------- reducers

  /** `ADD_TODO(state, { payload: { id, text } })`: the list with one new,
      uncompleted item at the end. */
  function AddTodoReducer(state: seq<Todo>, action: JsValue): (r: Result<seq<Todo>>)
    ensures Nullish(action) ==> r == Err(CannotRead("payload"))
    ensures !Nullish(action) && Nullish(Read(action, "payload")) ==> r == Err(CannotRead("id"))
    ensures r.Ok? ==> |r.value| == |state| + 1 && r.value[..|state|] == state
    ensures r.Ok? ==> var payload := Read(action, "payload");
                      r.value[|state|] == Todo(Read(payload, "id"), Read(payload, "text"), false)
    ensures !Nullish(action) && !Nullish(Read(action, "payload")) ==> r.Ok?
  {
    match GetProp(action, "payload")
    case Err(e) => Err(e)
    case Ok(payload) =>
      match GetProp(payload, "id")
      case Err(e) => Err(e)
      case Ok(id) => Ok(state + [Todo(id, Read(payload, "text"), false)])
  }

  /** One item under `todo.id === payload ? { ...todo, completed: !todo.completed } : todo`. */
  function ToggleIfMatches(t: Todo, id: JsValue): Todo {
    if t.id == id then t.(completed := !t.completed) else t
  }

  /** `state.map(...)` with the toggle above. */
  function ToggleMatching(state: seq<Todo>, id: JsValue): (r: seq<Todo>)
    ensures |r| == |state|
    ensures forall i :: 0 <= i < |r| ==> r[i].id == state[i].id && r[i].text == state[i].text
    ensures forall i :: 0 <= i < |r| ==> (r[i].completed != state[i].completed <==> state[i].id == id)
    decreases |state|
  {
    if |state| == 0 then []
    else
      var rest := ToggleMatching(state[1..], id);
      var r := [ToggleIfMatches(state[0], id)] + rest;
      assert forall i :: 1 <= i < |r| ==> r[i] == rest[i - 1] && state[i] == state[1..][i - 1];
      r
  }

  /** `TOGGLE_TODO(state, { payload })`. */
  function ToggleTodoReducer(state: seq<Todo>, action: JsValue): (r: Result<seq<Todo>>)
    ensures Nullish(action) ==> r == Err(CannotRead("payload"))
    ensures !Nullish(action) ==> r == Ok(ToggleMatching(state, Read(action, "payload")))
  {
    match GetProp(action, "payload")
    case Err(e) => Err(e)
    case Ok(payload) => Ok(ToggleMatching(state, payload))
  }

  /** Toggling the same id twice gives back the list. */
  lemma {:induction false} ToggleTwice(state: seq<Todo>, id: JsValue)
    ensures ToggleMatching(ToggleMatching(state, id), id) == state
  {
    var once := ToggleMatching(state, id);
    var twice := ToggleMatching(once, id);
    forall i | 0 <= i < |state| ensures twice[i] == state[i] {
      assert twice[i].id == state[i].id && twice[i].text == state[i].text;
      assert twice[i].completed == state[i].completed;
    }
  }

  // ----------------------------------------------------------------- actions

  /** What a call to `addTodo` does: the action it dispatched (or the error
      it threw) and the next value of the module-level id counter. */
  datatype AddTodoCall = AddTodoCall(dispatched: Result<JsValue>, nextTodoId: int)

  /** `addTodo(text)`: `nextTodoId++` is evaluated before `dispatch` can
      throw, so the counter moves on even without a store. */
  function AddTodo(store: Option<Store>, nextTodoId: int, text: string): (c: AddTodoCall)
    ensures c.nextTodoId == nextTodoId + 1
    ensures store.None? ==> c.dispatched == Err(Thrown(StoreMissing))
    ensures store.Some? ==> c.dispatched.Ok? && c.dispatched.value.Obj?
    ensures store.Some? ==>
              c.dispatched.value.props ==
                map["type" := Str(AddType), "payload" := Obj(map["text" := Str(text), "id" := Num(nextTodoId)])]
  {
    var payload := Obj(map["text" := Str(text), "id" := Num(nextTodoId)]);
    var r := Dispatch(store, Str(AddType), payload, Undefined);
    assert store.Some? ==> r.value.props.Keys == {"type", "payload"};
    AddTodoCall(r, nextTodoId + 1)
  }

  /** `toggleTodo(id)`. */
  function ToggleTodo(store: Option<Store>, id: JsValue): (r: Result<JsValue>)
    ensures store.None? ==> r == Err(Thrown(StoreMissing))
    ensures store.Some? ==> r.Ok? && r.value.Obj?
    ensures store.Some? && !id.Undefined? && !id.ErrorObj? ==>
              r.value.props == map["type" := Str(ToggleType), "payload" := id]
  {
    var r := Dispatch(store, Str(ToggleType), id, Undefined);
    assert store.Some? && !id.Undefined? && !id.ErrorObj? ==> r.value.props.Keys == {"type", "payload"};
    r
  }

  /** The item `addTodo(text)` dispatches is the one ADD_TODO appends. */
  lemma AddTodoRoundTrip(store: Store, nextTodoId: int, text: string, state: seq<Todo>)
    ensures var action := AddTodo(Some(store), nextTodoId, text).dispatched.value;
            AddTodoReducer(state, action) == Ok(state + [Todo(Num(nextTodoId), Str(text), false)])
  {
    var action := AddTodo(Some(store), nextTodoId, text).dispatched.value;
    var payload := Obj(map["text" := Str(text), "id" := Num(nextTodoId)]);
    assert Read(action, "payload") == payload;
    var r := AddTodoReducer(state, action).value;
    assert r == state + [r[|state|]];
  }

  /** `toggleTodo(id)` dispatched through TOGGLE_TODO flips exactly the items
      with that id. */
  lemma ToggleTodoRoundTrip(store: Store, id: int, state: seq<Todo>)
    ensures var action := ToggleTodo(Some(store), Num(id)).value;
            && ToggleTodoReducer(state, action).Ok?
            && var r := ToggleTodoReducer(state, action).value;
               |r| == |state| &&
               forall i :: 0 <= i < |r| ==>
                 r[i].id == state[i].id && r[i].text == state[i].text &&
                 r[i].completed == (if state[i].id == Num(id) then !state[i].completed else state[i].completed)
  {
    var action := ToggleTodo(Some(store), Num(id)).value;
    assert Read(action, "payload") == Num(id);
  }

  /** A run of `addTodo` calls against a store whose slice the ADD_TODO
      reducer keeps: the new items come in order, with consecutive ids from
      the counter. Without a store the first call throws, and has already
      moved the counter on. */
  method AddTodos(store: Option<Store>, nextTodoId: int, texts: seq<string>, state: seq<Todo>)
    returns (todos: seq<Todo>, next: int, failed: bool)
    ensures failed <==> store.None? && |texts| > 0
    ensures failed ==> todos == state && next == nextTodoId + 1
    ensures !failed ==> next == nextTodoId + |texts|
    ensures !failed ==> |todos| == |state| + |texts| && todos[..|state|] == state
    ensures !failed ==> forall i :: 0 <= i < |texts| ==>
              todos[|state| + i] == Todo(Num(nextTodoId + i), Str(texts[i]), false)
  {
    todos := state;
    next := nextTodoId;
    failed := false;
    var i := 0;
    while i < |texts|
      invariant 0 <= i <= |texts|
      invariant store.None? ==> i == 0
      invariant next == nextTodoId + i
      invariant |todos| == |state| + i && todos[..|state|] == state
      invariant forall j :: 0 <= j < i ==> todos[|state| + j] == Todo(Num(nextTodoId + j), Str(texts[j]), false)
    {
      var call := AddTodo(store, next, texts[i]);
      next := call.nextTodoId;
      if call.dispatched.Err? {
        todos := state;
        failed := true;
        return;
      }
      AddTodoRoundTrip(store.value, next - 1, texts[i], todos);
      var r := AddTodoReducer(todos, call.dispatched.value);
      todos := r.value;
      i := i + 1;
    }
  }

  // --------------------------------------------------------------- selectors

  /** `getTodos(state)`: the "todos" property of the state. */
  function GetTodos(store: Option<Store>, state: JsValue): (r: Result<JsValue>)
    ensures store.None? ==> r == Err(Thrown(StoreMissing))
    ensures store.Some? && !Truthy(state) ==> r == Err(Thrown(SliceArgumentMissing))
    ensures store.Some? && Truthy(state) ==> r == Ok(Read(state, Slice))
  {
    SliceOf(store, Slice, state)
  }

  /** The items whose `completed` flag equals `want`, in list order. */
  function WithCompleted(todos: seq<Todo>, want: bool): (r: seq<Todo>)
    ensures |r| <= |todos|
    ensures forall i :: 0 <= i < |r| ==> r[i].completed == want
    decreases |todos|
  {
    if |todos| == 0 then []
    else (if todos[0].completed == want then [todos[0]] else []) + WithCompleted(todos[1..], want)
  }

  /** The filter keeps exactly the items whose completion matches. */
  lemma {:induction false} WithCompletedMembers(todos: seq<Todo>, want: bool)
    ensures forall t :: t in WithCompleted(todos, want) <==> t in todos && t.completed == want
    decreases |todos|
  {
    if |todos| > 0 {
      WithCompletedMembers(todos[1..], want);
      assert todos == [todos[0]] + todos[1..];
    }
  }

  /** Filtering a concatenation filters each part: the order of the list is kept. */
  lemma {:induction false} WithCompletedAppend(a: seq<Todo>, b: seq<Todo>, want: bool)
    ensures WithCompleted(a + b, want) == WithCompleted(a, want) + WithCompleted(b, want)
    decreases |a|
  {
    if |a| > 0 {
      var head := if a[0].completed == want then [a[0]] else [];
      SplitHead(a, b);
      WithCompletedAppend(a[1..], b, want);
      var rest, tail := WithCompleted(a[1..], want), WithCompleted(b, want);
      assert WithCompleted(a + b, want) == head + (rest + tail);
      assert WithCompleted(a, want) == head + rest;
      assert head + (rest + tail) == (head + rest) + tail;
    } else {
      assert a + b == b;
    }
  }

  /** The head and tail of a concatenation whose left part is not empty. */
  lemma SplitHead<T>(a: seq<T>, b: seq<T>)
    requires |a| > 0
    ensures (a + b)[0] == a[0] && (a + b)[1..] == a[1..] + b
  {
  }

  /** The completed and the active items together are as many as the list
      holds: every item is in exactly one of the two views. */
  lemma {:induction false} CompletedAndActivePartition(todos: seq<Todo>)
    ensures |WithCompleted(todos, true)| + |WithCompleted(todos, false)| == |todos|
    decreases |todos|
  {
    if |todos| > 0 {
      CompletedAndActivePartition(todos[1..]);
    }
  }

  /** A filter that keeps everything: a list all of whose items match. */
  lemma {:induction false} WithCompletedKeepsMatching(todos: seq<Todo>, want: bool)
    requires forall i :: 0 <= i < |todos| ==> todos[i].completed == want
    ensures WithCompleted(todos, want) == todos
    decreases |todos|
  {
    if |todos| > 0 {
      WithCompletedKeepsMatching(todos[1..], want);
    }
  }

  /** `getVisibleTodos(todos, currentFilter)`. */
  function GetVisibleTodos(todos: seq<Todo>, currentFilter: string): (r: Result<seq<Todo>>)
    ensures currentFilter == "SHOW_ALL" ==> r == Ok(todos)
    ensures currentFilter == "SHOW_COMPLETED" ==> r == Ok(WithCompleted(todos, true))
    ensures currentFilter == "SHOW_ACTIVE" ==> r == Ok(WithCompleted(todos, false))
    ensures r.Err? <==> currentFilter !in {"SHOW_ALL", "SHOW_COMPLETED", "SHOW_ACTIVE"}
    ensures r.Err? ==> r.failure == Thrown("Unknown filter: " + currentFilter)
  {
    match currentFilter
    case "SHOW_ALL" => Ok(todos)
    case "SHOW_COMPLETED" => Ok(WithCompleted(todos, true))
    case "SHOW_ACTIVE" => Ok(WithCompleted(todos, false))
    case _ => Err(Thrown("Unknown filter: " + currentFilter))
  }

  /** Under every known filter the visible items are a part of the list, the
      completed and active views hold exactly the items in that state, and
      together they are as long as the full one. */
  lemma VisibleTodosArePartOfTheList(todos: seq<Todo>, currentFilter: string)
    requires currentFilter in {"SHOW_ALL", "SHOW_COMPLETED", "SHOW_ACTIVE"}
    ensures GetVisibleTodos(todos, currentFilter).Ok?
    ensures forall t :: t in GetVisibleTodos(todos, currentFilter).value ==> t in todos
    ensures currentFilter == "SHOW_COMPLETED" ==>
              forall t :: t in GetVisibleTodos(todos, currentFilter).value <==> t in todos && t.completed
    ensures currentFilter == "SHOW_ACTIVE" ==>
              forall t :: t in GetVisibleTodos(todos, currentFilter).value <==> t in todos && !t.completed
    ensures |GetVisibleTodos(todos, "SHOW_COMPLETED").value| + |GetVisibleTodos(todos, "SHOW_ACTIVE").value| ==
              |GetVisibleTodos(todos, "SHOW_ALL").value|
  {
    WithCompletedMembers(todos, true);
    WithCompletedMembers(todos, false);
    CompletedAndActivePartition(todos);
  }

  // ------------------------------------------------------------ declaration

  /** The resolver `service => [service.getTodos, VisibilityService.getVisibilityFilter]`. */
  const InputSelectors: JsValue := Func(map[])

  /** The class body, keys in declaration order. */
  const Prototype: seq<Entry> := [
    Entry("constructor", Method(0, None, None)),
    Entry(AddType, Method(1, None, Some(ReducerTag(AddType)))),
    Entry(ToggleType, Method(2, None, Some(ReducerTag(ToggleType)))),
    Entry("addTodo", Method(3, None, None)),
    Entry("toggleTodo", Method(4, None, None)),
    Entry("getTodos", Method(5, None, None)),
    Entry("getVisibleTodos", Method(6, Some(SelectorTag(InputSelectors)), None))
  ]

  /** The `@service` call on the class. */
  function Declared(d: Declaration): Result<Service> {
    DeclareService(Str(Slice), InitialState, d)
  }

  /** The tags in the prototype are the ones the decorators attach: a bare
      `@reducer()` answers to the method name. */
  lemma DecoratorsGiveTheTags()
    ensures var target := Obj(map["constructor" := Func(map[])]);
            var descriptor := Obj(map["value" := Func(map[])]);
            && ReducerDecorator(Undefined, target, AddType, descriptor) == Ok(ReducerTag(AddType))
            && ReducerDecorator(Undefined, target, ToggleType, descriptor) == Ok(ReducerTag(ToggleType))
            && SelectorDecorator(InputSelectors, target, "getVisibleTodos", descriptor) ==
                 Ok(SelectorTag(InputSelectors))
  {
    var target := Obj(map["constructor" := Func(map[])]);
    var descriptor := Obj(map["value" := Func(map[])]);
    assert IsClassMethod(target, descriptor);
  }

  /** Which prototype entries route which type. */
  lemma PrototypeRouting(i: int, t: string)
    requires 0 <= i < |Prototype|
    ensures RoutesType(Prototype[i], t) <==> (i == 1 && t == AddType) || (i == 2 && t == ToggleType)
  {
  }

  /** No prototype key is reserved or the hook's; entries 1 and 2 are the reducers. */
  lemma PrototypeKeyAt(i: int)
    requires 0 <= i < |Prototype|
    ensures Prototype[i].key !in ReservedNames && Prototype[i].key != HookName
    ensures RoleOf(Prototype[i]).RouteReducer? <==> i == 1 || i == 2
  {
  }

  lemma PrototypeKeysDistinct(p: seq<Entry>)
    requires SameEntries(p, Prototype)
    ensures DistinctKeys(p)
  {
    forall i, j | 0 <= i < j < |p| ensures p[i].key != p[j].key {
      EntryAt(p, Prototype, i);
      EntryAt(p, Prototype, j);
    }
  }

  lemma NoReservedKeys(p: seq<Entry>)
    requires SameEntries(p, Prototype)
    ensures forall j :: 0 <= j < |ReservedNames| ==> !HasKey(p, ReservedNames[j])
    ensures !HasKey(p, HookName)
  {
    forall i | 0 <= i < |p| ensures p[i].key !in ReservedNames && p[i].key != HookName {
      EntryAt(p, Prototype, i);
      PrototypeKeyAt(i);
    }
  }

  /** Each reducer method is the last to route its type. */
  lemma LastRoutingAt(p: seq<Entry>, i: int, t: string)
    requires SameEntries(p, Prototype)
    requires (i == 1 && t == AddType) || (i == 2 && t == ToggleType)
    ensures 0 <= i < |p| && LastRouting(p, i, t) && p[i] == Prototype[i]
  {
    forall j | i < j < |p| ensures !RoutesType(p[j], t) {
      EntryAt(p, Prototype, j);
      PrototypeRouting(j, t);
    }
    EntryAt(p, Prototype, i);
    PrototypeRouting(i, t);
  }

  /** The declaration is accepted: the slice is a string, the initial state
      is given, and no reserved name is taken. */
  lemma DeclarationAccepted(d: Declaration)
    requires SameEntries(d.proto, Prototype)
    ensures Declared(d).Ok?
    ensures Declared(d).value.slice == Slice && Declared(d).value.initialState == InitialState
  {
    PrototypeKeysDistinct(d.proto);
    NoReservedKeys(d.proto);
    EntryAt(d.proto, Prototype, 0);
    DeclarationAcceptedWhen(Str(Slice), InitialState, d, 0);
  }

  /** Each reducer type is handled by the method of that name. */
  lemma TableHandler(d: Declaration, i: int, t: string)
    requires SameEntries(d.proto, Prototype)
    requires (i == 1 && t == AddType) || (i == 2 && t == ToggleType)
    ensures Declared(d).Ok?
    ensures t in Declared(d).value.reducers && Declared(d).value.reducers[t] == Handler(t, i)
  {
    DeclarationAccepted(d);
    PrototypeKeysDistinct(d.proto);
    LastRoutingAt(d.proto, i, t);
    DeclaredReducerAt(Str(Slice), InitialState, d, i, t);
  }

  /** No type outside the two is in the table. */
  lemma TableKeys(d: Declaration)
    requires SameEntries(d.proto, Prototype)
    ensures Declared(d).Ok?
    ensures Declared(d).value.reducers.Keys <= {AddType, ToggleType}
  {
    DeclarationAccepted(d);
    PrototypeKeysDistinct(d.proto);
    RoutedTypes(d.proto);
    DeclaredReducersWithin(Str(Slice), InitialState, d, {AddType, ToggleType});
  }

  /** The prototype routes no type outside the two. */
  lemma RoutedTypes(p: seq<Entry>)
    requires SameEntries(p, Prototype)
    ensures forall i, t :: 0 <= i < |p| && RoutesType(p[i], t) ==> t in {AddType, ToggleType}
  {
    forall i, t | 0 <= i < |p| && RoutesType(p[i], t) ensures t in {AddType, ToggleType} {
      EntryAt(p, Prototype, i);
      PrototypeRouting(i, t);
    }
  }

  /** The table holds the two reducers, each under its method name. */
  lemma DeclaredTable(d: Declaration)
    requires SameEntries(d.proto, Prototype)
    ensures Declared(d).Ok?
    ensures Declared(d).value.reducers == map[AddType := Handler(AddType, 1), ToggleType := Handler(ToggleType, 2)]
  {
    TableHandler(d, 1, AddType);
    TableHandler(d, 2, ToggleType);
    TableKeys(d);
    TwoReducerTable(Declared(d).value.reducers);
  }

  /** A table with the two handlers and no other type is the two-entry map. */
  lemma TwoReducerTable(m: map<string, Handler>)
    requires AddType in m && m[AddType] == Handler(AddType, 1)
    requires ToggleType in m && m[ToggleType] == Handler(ToggleType, 2)
    requires m.Keys <= {AddType, ToggleType}
    ensures m == map[AddType := Handler(AddType, 1), ToggleType := Handler(ToggleType, 2)]
  {
    TableIs(m, map[AddType := Handler(AddType, 1), ToggleType := Handler(ToggleType, 2)]);
  }

  /** The reducers are not on the public surface. */
  lemma ReducersOffSurface(d: Declaration, i: int)
    requires SameEntries(d.proto, Prototype)
    requires i == 1 || i == 2
    ensures Declared(d).Ok?
    ensures Prototype[i].key !in Declared(d).value.surface
  {
    DeclarationAccepted(d);
    PrototypeKeysDistinct(d.proto);
    EntryAt(d.proto, Prototype, i);
    PrototypeKeyAt(i);
    DeclaredReducerOffSurface(Str(Slice), InitialState, d, i);
  }

  /** Each public method keeps its classified form on the surface. */
  lemma PublicMember(d: Declaration, i: int)
    requires SameEntries(d.proto, Prototype)
    requires 3 <= i < |Prototype|
    ensures Declared(d).Ok?
    ensures var e := Prototype[i];
            var s := Declared(d).value.surface;
            !RoleOf(e).RouteReducer? && e.key in s && s[e.key] == KindOf(e)
  {
    DeclarationAccepted(d);
    PrototypeKeysDistinct(d.proto);
    EntryAt(d.proto, Prototype, i);
    PrototypeKeyAt(i);
    DeclaredMemberAt(Str(Slice), InitialState, d, i);
  }

  /** `getVisibleTodos` is wrapped as a selector that has not resolved its
      inputs; the plain methods are autobound; there is no hook. */
  lemma DeclaredSurface(d: Declaration)
    requires SameEntries(d.proto, Prototype)
    ensures Declared(d).Ok?
    ensures var s := Declared(d).value.surface;
            && "getVisibleTodos" in s && s["getVisibleTodos"] == WrappedSelector(6, SelectorTag(InputSelectors), Unresolved)
            && "addTodo" in s && s["addTodo"] == Autobound(Method(3, None, None))
            && "toggleTodo" in s && s["toggleTodo"] == Autobound(Method(4, None, None))
            && "getTodos" in s && s["getTodos"] == Autobound(Method(5, None, None))
    ensures HookOf(Declared(d).value.surface) == NoHook
  {
    PublicMember(d, 3);
    PublicMember(d, 4);
    PublicMember(d, 5);
    PublicMember(d, 6);
    PrototypeKeysDistinct(d.proto);
    NoReservedKeys(d.proto);
    NoDeclaredHook(Str(Slice), InitialState, d);
  }
}
