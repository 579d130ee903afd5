/** The pass the service factory makes over the class prototype's own keys:
    each member is left as declared, wrapped as a lazy selector, moved into the
    private reducer table, or autobound as a public method. The prototype is
    the sequence of its own keys in enumeration order, each with its member. */
module Classification {
  import opened JsValues
  import opened Decorators
  import opened LazySelector

  /** What a prototype key holds. `Method` is a function declared in the class
      body, with the tags its decorators attached; `Field` is any other data
      value; `Installed` is one of the service methods the factory adds. */
  datatype Member =
    | Method(fn: nat, selector: Option<SelectorTag>, reducer: Option<ReducerTag>)
    | Field(value: JsValue)
    | Installed(name: string)

  datatype Entry = Entry(key: string, member: Member)

  /** A reducer-table entry: the method, by prototype key and identity. */
  datatype Handler = Handler(key: string, fn: nat)

  datatype Role =
    | KeepAsIs
    | WrapSelector(fn: nat, tag: SelectorTag)
    | RouteReducer(actionType: string, handler: Handler)
    | Autobind

  /** How a key appears on the service's public surface. */
  datatype PublicKind =
    | AsDeclared(member: Member)
    | Autobound(member: Member)
    | WrappedSelector(fn: nat, tag: SelectorTag, cell: SelectorCell)

  datatype Classified = Classified(surface: map<string, PublicKind>, reducers: map<string, Handler>)

  /** `typeof descriptor.value === 'function'`. */
  predicate IsFunction(m: Member) {
    m.Method? || m.Installed? || (m.Field? && m.value.Func?)
  }

  /** The JavaScript value a member holds (tags are not observable here). */
  function MemberValue(m: Member): (v: JsValue)
    ensures v.Func? <==> IsFunction(m)
  {
    match m
    case Field(value) => value
    case _ => Func(map[])
  }

  /** The classification rules: `constructor` and non-functions are skipped,
      the selector tag is tested before the reducer tag, and every other
      function is autobound. */
  function RoleOf(e: Entry): (r: Role)
    ensures r.KeepAsIs? <==> e.key == "constructor" || !IsFunction(e.member)
    ensures r.WrapSelector? <==> e.key != "constructor" && e.member.Method? && e.member.selector.Some?
    ensures r.WrapSelector? ==> r == WrapSelector(e.member.fn, e.member.selector.value)
    ensures r.RouteReducer? <==>
              e.key != "constructor" && e.member.Method? && e.member.selector.None? && e.member.reducer.Some?
    ensures r.RouteReducer? ==>
              r == RouteReducer(e.member.reducer.value.actionType, Handler(e.key, e.member.fn))
  {
    if e.key == "constructor" || !IsFunction(e.member) then KeepAsIs
    else match e.member
      case Method(fn, selector, reducer) =>
        if selector.Some? then WrapSelector(fn, selector.value)
        else if reducer.Some? then RouteReducer(reducer.value.actionType, Handler(e.key, fn))
        else Autobind
      case _ => Autobind
  }

  /** The public form of a member that stays on the surface. A selector's
      cell starts unresolved: nothing is resolved while classifying. */
  function KindOf(e: Entry): (k: PublicKind)
    requires !RoleOf(e).RouteReducer?
    ensures k.WrappedSelector? ==> k.cell == Unresolved
  {
    match RoleOf(e)
    case WrapSelector(fn, tag) => WrappedSelector(fn, tag, Unresolved)
    case Autobind => Autobound(e.member)
    case _ => AsDeclared(e.member)
  }

  /** Processing one key: a reducer is entered in the table under its type,
      overwriting an earlier entry for that type, and deleted from the surface. */
  function Step(c: Classified, e: Entry): (r: Classified)
    ensures forall k :: k != e.key ==> (k in r.surface <==> k in c.surface)
    ensures forall k :: k != e.key && k in r.surface ==> r.surface[k] == c.surface[k]
    ensures e.key in r.surface <==> !RoleOf(e).RouteReducer?
    ensures e.key in r.surface ==> r.surface[e.key] == KindOf(e)
    ensures forall t :: t in r.reducers <==> t in c.reducers || RoutesType(e, t)
    ensures forall t :: t in r.reducers && !RoutesType(e, t) ==> r.reducers[t] == c.reducers[t]
    ensures RoleOf(e).RouteReducer? ==>
              RoleOf(e).actionType in r.reducers && r.reducers[RoleOf(e).actionType] == RoleOf(e).handler
  {
    match RoleOf(e)
    case RouteReducer(t, h) => Classified(c.surface - {e.key}, c.reducers[t := h])
    case _ => Classified(c.surface[e.key := KindOf(e)], c.reducers)
  }

  /** The whole pass, keys in order. */
  function Classify(proto: seq<Entry>): (r: Classified)
    ensures |proto| == 0 ==> r.surface == map[] && r.reducers == map[]
    ensures |proto| > 0 ==> (proto[|proto| - 1].key in r.surface <==> !RoleOf(proto[|proto| - 1]).RouteReducer?)
    decreases |proto|
  {
    if |proto| == 0 then Classified(map[], map[])
    else Step(Classify(proto[..|proto| - 1]), proto[|proto| - 1])
  }

  predicate RoutesType(e: Entry, t: string) {
    RoleOf(e).RouteReducer? && RoleOf(e).actionType == t
  }

  /** Entry `i` routes type `t` and no later entry does. */
  predicate LastRouting(proto: seq<Entry>, i: int, t: string)
    requires 0 <= i < |proto|
  {
    RoutesType(proto[i], t) && forall j :: i < j < |proto| ==> !RoutesType(proto[j], t)
  }

  predicate HasKey(proto: seq<Entry>, key: string) {
    exists i :: 0 <= i < |proto| && proto[i].key == key
  }

  /** Own property keys are unique. */
  predicate DistinctKeys(proto: seq<Entry>) {
    forall i, j :: 0 <= i < j < |proto| ==> proto[i].key != proto[j].key
  }

  /** `p` holds the entries of `q`, in order. */
  predicate SameEntries(p: seq<Entry>, q: seq<Entry>)
    decreases |q|
  {
    |p| == |q| && (|q| == 0 || (p[0] == q[0] && SameEntries(p[1..], q[1..])))
  }

  lemma {:induction false} EntryAt(p: seq<Entry>, q: seq<Entry>, i: int)
    requires SameEntries(p, q) && 0 <= i < |q|
    ensures |p| == |q| && p[i] == q[i]
    decreases i
  {
    if i > 0 {
      EntryAt(p[1..], q[1..], i - 1);
    }
  }

  /** The reducer table holds exactly the types some key routes. */
  lemma {:induction false} ReducerTableKeys(proto: seq<Entry>)
    ensures forall t :: t in Classify(proto).reducers <==> exists i :: 0 <= i < |proto| && RoutesType(proto[i], t)
    decreases |proto|
  {
    if |proto| > 0 {
      var n := |proto| - 1;
      var p := proto[..n];
      ReducerTableKeys(p);
      var r := Step(Classify(p), proto[n]).reducers;
      assert Classify(proto).reducers == r;
      forall t
        ensures t in r <==> exists i :: 0 <= i < |proto| && RoutesType(proto[i], t)
      {
        SomeRoutingSplit(proto, p, t);
      }
    }
  }

  /** Some key routes `t` iff some key before the last does, or the last does. */
  lemma SomeRoutingSplit(proto: seq<Entry>, p: seq<Entry>, t: string)
    requires |proto| > 0 && p == proto[..|proto| - 1]
    ensures (exists i :: 0 <= i < |proto| && RoutesType(proto[i], t)) <==>
              (exists i :: 0 <= i < |p| && RoutesType(p[i], t)) || RoutesType(proto[|p|], t)
  {
    if i :| 0 <= i < |proto| && RoutesType(proto[i], t) {
      if i < |p| { assert p[i] == proto[i]; }
    }
    if i :| 0 <= i < |p| && RoutesType(p[i], t) {
      assert p[i] == proto[i];
    }
  }

  /** Each type's handler is the last key routing it: a later reducer for
      the same type overwrites an earlier one. */
  lemma {:induction false} ReducerTableHandlers(proto: seq<Entry>)
    ensures forall i, t :: 0 <= i < |proto| && LastRouting(proto, i, t) ==>
              t in Classify(proto).reducers && Classify(proto).reducers[t] == RoleOf(proto[i]).handler
    decreases |proto|
  {
    if |proto| > 0 {
      var n := |proto| - 1;
      var p := proto[..n];
      var e := proto[n];
      ReducerTableHandlers(p);
      var r := Classify(proto).reducers;
      assert Classify(proto) == Step(Classify(p), e);
      forall i, t | 0 <= i < |proto| && LastRouting(proto, i, t)
        ensures t in r && r[t] == RoleOf(proto[i]).handler
      {
        if i < n {
          assert p[i] == proto[i];
          assert !RoutesType(proto[n], t);
          assert LastRouting(p, i, t) by {
            forall j | i < j < |p| ensures !RoutesType(p[j], t) {
              assert p[j] == proto[j];
            }
          }
        }
      }
    }
  }

  /** The reducer table holds exactly the types some key routes, and each
      type's handler is the last key routing it. */
  lemma ReducerTable(proto: seq<Entry>)
    ensures forall t :: t in Classify(proto).reducers <==> exists i :: 0 <= i < |proto| && RoutesType(proto[i], t)
    ensures forall i, t :: 0 <= i < |proto| && LastRouting(proto, i, t) ==>
              t in Classify(proto).reducers && Classify(proto).reducers[t] == RoleOf(proto[i]).handler
  {
    ReducerTableKeys(proto);
    ReducerTableHandlers(proto);
  }

  /** Every key on the surface is a key of the prototype that routes no reducer. */
  lemma {:induction false} SurfaceKeys(proto: seq<Entry>)
    ensures forall k :: k in Classify(proto).surface ==>
              exists i :: 0 <= i < |proto| && proto[i].key == k && !RoleOf(proto[i]).RouteReducer?
    decreases |proto|
  {
    if |proto| > 0 {
      var n := |proto| - 1;
      var p := proto[..n];
      var e := proto[n];
      SurfaceKeys(p);
      var s := Classify(proto).surface;
      var s0 := Classify(p).surface;
      assert Classify(proto) == Step(Classify(p), e);
      forall k | k in s
        ensures exists i :: 0 <= i < |proto| && proto[i].key == k && !RoleOf(proto[i]).RouteReducer?
      {
        if k == e.key {
          assert !RoleOf(proto[n]).RouteReducer?;
        } else {
          assert k in s0;
          var i :| 0 <= i < |p| && p[i].key == k && !RoleOf(p[i]).RouteReducer?;
          assert proto[i] == p[i];
        }
      }
    }
  }

  /** With unique keys, every key that routes no reducer is on the surface
      in its public form, and every reducer key is absent. */
  lemma {:induction false} SurfaceEntries(proto: seq<Entry>)
    requires DistinctKeys(proto)
    ensures forall i :: 0 <= i < |proto| && !RoleOf(proto[i]).RouteReducer? ==>
              proto[i].key in Classify(proto).surface && Classify(proto).surface[proto[i].key] == KindOf(proto[i])
    ensures forall i :: 0 <= i < |proto| && RoleOf(proto[i]).RouteReducer? ==>
              proto[i].key !in Classify(proto).surface
    decreases |proto|
  {
    if |proto| > 0 {
      var n := |proto| - 1;
      var p := proto[..n];
      var e := proto[n];
      assert DistinctKeys(p) by {
        forall i, j | 0 <= i < j < |p| ensures p[i].key != p[j].key {
          assert p[i] == proto[i] && p[j] == proto[j];
        }
      }
      SurfaceEntries(p);
      var c := Classify(p);
      var s := Step(c, e).surface;
      assert Classify(proto).surface == s;
      forall i | 0 <= i < n
        ensures proto[i] == p[i] && proto[i].key != e.key
      {
      }
    }
  }

  /** `SurfaceEntries` at one index that routes no reducer. */
  lemma SurfaceEntryAt(proto: seq<Entry>, i: int)
    requires DistinctKeys(proto) && 0 <= i < |proto| && !RoleOf(proto[i]).RouteReducer?
    ensures proto[i].key in Classify(proto).surface && Classify(proto).surface[proto[i].key] == KindOf(proto[i])
  {
    SurfaceEntries(proto);
  }

  /** With unique keys, the surface holds exactly the keys that do not route
      a reducer, each in its public form; reducer keys are absent. */
  lemma Surface(proto: seq<Entry>)
    requires DistinctKeys(proto)
    ensures forall k :: k in Classify(proto).surface ==>
              exists i :: 0 <= i < |proto| && proto[i].key == k && !RoleOf(proto[i]).RouteReducer?
    ensures forall i :: 0 <= i < |proto| && !RoleOf(proto[i]).RouteReducer? ==>
              proto[i].key in Classify(proto).surface && Classify(proto).surface[proto[i].key] == KindOf(proto[i])
    ensures forall i :: 0 <= i < |proto| && RoleOf(proto[i]).RouteReducer? ==>
              proto[i].key !in Classify(proto).surface
  {
    SurfaceKeys(proto);
    SurfaceEntries(proto);
  }

  /** Classification never resolves a selector: every wrapped selector on the
      surface is still unresolved. */
  lemma {:induction false} SelectorsStartUnresolved(proto: seq<Entry>)
    ensures forall k :: k in Classify(proto).surface && Classify(proto).surface[k].WrappedSelector? ==>
              Classify(proto).surface[k].cell == Unresolved
    decreases |proto|
  {
    if |proto| > 0 {
      SelectorsStartUnresolved(proto[..|proto| - 1]);
    }
  }

  /** `proto[key] = m` where the key already exists: the value is replaced in place. */
  function Replace(proto: seq<Entry>, key: string, m: Member): (r: seq<Entry>)
    ensures |r| == |proto|
    ensures forall i :: 0 <= i < |r| ==> r[i] == (if proto[i].key == key then Entry(key, m) else proto[i])
    decreases |proto|
  {
    if |proto| == 0 then []
    else [if proto[0].key == key then Entry(key, m) else proto[0]] + Replace(proto[1..], key, m)
  }

  /** `proto[key] = m`: an existing key keeps its position, a new key is
      enumerated last. */
  function Install(proto: seq<Entry>, key: string, m: Member): (r: seq<Entry>)
    ensures HasKey(proto, key) ==>
              |r| == |proto| &&
              forall i :: 0 <= i < |r| ==> r[i] == (if proto[i].key == key then Entry(key, m) else proto[i])
    ensures !HasKey(proto, key) ==> r == proto + [Entry(key, m)]
    ensures |proto| <= |r| <= |proto| + 1
    ensures forall i :: 0 <= i < |proto| ==> r[i].key == proto[i].key
  {
    if HasKey(proto, key) then Replace(proto, key, m) else proto + [Entry(key, m)]
  }

  /** Installing keeps keys unique. */
  lemma InstallKeepsKeysDistinct(proto: seq<Entry>, key: string, m: Member)
    requires DistinctKeys(proto)
    ensures DistinctKeys(Install(proto, key, m))
  {
    var r := Install(proto, key, m);
    if HasKey(proto, key) {
      assert forall i :: 0 <= i < |r| ==> r[i].key == proto[i].key;
    } else {
      forall i, j | 0 <= i < j < |r| ensures r[i].key != r[j].key {
        if j == |proto| {
          assert r[i] == proto[i];
        } else {
          assert r[i] == proto[i] && r[j] == proto[j];
        }
      }
    }
  }

  /** After installing, the key holds the installed member and the other keys
      are those there were before. */
  lemma InstallHolds(proto: seq<Entry>, key: string, m: Member)
    ensures exists i :: 0 <= i < |Install(proto, key, m)| && Install(proto, key, m)[i] == Entry(key, m)
    ensures forall k :: HasKey(Install(proto, key, m), k) <==> HasKey(proto, k) || k == key
  {
    var r := Install(proto, key, m);
    if HasKey(proto, key) {
      var i :| 0 <= i < |proto| && proto[i].key == key;
      assert r[i] == Entry(key, m);
      assert forall j :: 0 <= j < |r| ==> r[j].key == proto[j].key;
    } else {
      assert r[|proto|] == Entry(key, m);
      assert forall j :: 0 <= j < |proto| ==> r[j] == proto[j];
    }
  }
}
