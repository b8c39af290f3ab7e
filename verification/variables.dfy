/** Variables: plain, mutable, composite and computed variables living in a
    store, `Conditional` callbacks on them, and the `VariableManager`. */
module Variables {
  import opened Errors
  import opened Trees
  import Mappers
  import Callables
  import Callbacks
  import Components
  import Containers

  // ----- Values and variables -----

  /** A Python object as variables see it: an opaque object, the `Nil`
      sentinel an unset variable holds, or a variable object, named by its
      place in the store. */
  datatype Atom = Obj(id: nat) | Nil | Var(ref: nat)

  /** A value: an atom, or dicts, lists, tuples, sets and strings of values. */
  type Value = Tree<Atom>

  /** The variable classes.
      - `Plain`: `Variable(value)`, read-only.
      - `Mutable`: `MutableVariable(value)`; `change` is its `events['change']`
        callback, a node of the store's hub.
      - `Composite`: `CompositeVariable(variables)`, or
        `MutableCompositeVariable(variables)` when `mutable`.
      - `Computed`: `ComputedVariable(func, *args, **kwargs)`, user function
        `func`; `unwrap` marks one built by `from_operator`.
      - `External`: a read-only variable whose value comes from outside the
        runtime (a simulation kernel), and which may be temporarily
        unavailable. */
  datatype Variable =
    | Plain(value: Value)
    | Mutable(value: Value, change: nat)
    | Composite(vars: Value, mutable: bool)
    | Computed(func: nat, args: Callables.Arguments<Value>, unwrap: bool)
    | External(source: nat)

  /** Every variable object, by reference, and every callback object. */
  datatype Store = Store(vars: seq<Variable>, hub: Callbacks.Hub)

  /** The code variables call but do not own: what computed function `id`
      returns for its arguments, what an external variable reads, and what
      the listeners and custom predicates of the change callbacks do. A
      change is announced with the value just written. */
  datatype World = World(
    compute: (nat, Callables.Arguments<Value>) -> Result<Value>,
    external: nat -> Result<Value>,
    events: Callbacks.Env<Value, Value>)

  /** Variable `r` is mutable. */
  predicate IsMutable(st: Store, r: nat) {
    r < |st.vars| && st.vars[r].Mutable?
  }

  // ----- Reading -----

  /** `variable.value`. A composite reads through its mapper with a getter
      applying `valueof` to each leaf; a computed variable calls its function
      afresh, on the unwrapped arguments when built by `from_operator`.
      `fuel` bounds how deeply reads may nest, standing for Python's
      recursion limit. */
  function Read(vars: seq<Variable>, r: nat, w: World, fuel: nat): (res: Result<Value>)
    ensures fuel == 0 ==> res == Err(RecursionError)
    ensures fuel > 0 && r < |vars| && (vars[r].Plain? || vars[r].Mutable?) ==> res == Ok(vars[r].value)
    ensures fuel > 0 && r < |vars| && vars[r].External? ==> res == w.external(vars[r].source)
    decreases fuel, 0
  {
    if fuel == 0 then Err(RecursionError)
    else if r >= |vars| then Err(NotModelled)
    else
      match vars[r]
      case Plain(v) => Ok(v)
      case Mutable(v, _) => Ok(v)
      case External(id) => w.external(id)
      case Composite(t, _) =>
        Mappers.Apply(Mappers.CollectionMapper(Some(Getter(vars, w, fuel - 1))), (), [t]).1
      case Computed(f, args, unwrap) =>
        if !unwrap then w.compute(f, args)
        else
          var a := Unwrap(vars, args, w, fuel - 1);
          if a.Err? then Err(a.error) else w.compute(f, a.value)
  }

  /** `valueof(obj)`: a variable's value, any other object itself. */
  function ValueOf(vars: seq<Variable>, obj: Value, w: World, fuel: nat): (res: Result<Value>)
    ensures obj.Leaf? && obj.atom.Var? ==> res == Read(vars, obj.atom.ref, w, fuel)
    ensures !(obj.Leaf? && obj.atom.Var?) ==> res == Ok(obj)
    decreases fuel, 1
  {
    if obj.Leaf? && obj.atom.Var? then Read(vars, obj.atom.ref, w, fuel) else Ok(obj)
  }

  /** The getter a composite maps over its variables: `valueof` of the one
      object it is given (a getter takes exactly one argument). */
  function Getter(vars: seq<Variable>, w: World, fuel: nat): Mappers.MapperFunction<(), Atom>
    decreases fuel, 2
  {
    (u: (), objs: seq<Value>) => (u, if |objs| == 1 then ValueOf(vars, objs[0], w, fuel) else Err(TypeError))
  }

  /** The operands as `from_operator` passes them on: `valueof` of every
      positional, then of every keyword argument, the first exception
      escaping. */
  function Unwrap(vars: seq<Variable>, a: Callables.Arguments<Value>, w: World, fuel: nat): (r: Result<Callables.Arguments<Value>>)
    ensures r.Ok? ==> |r.value.args| == |a.args| && |r.value.kwargs| == |a.kwargs|
    ensures r.Ok? ==> forall i :: 0 <= i < |a.args| ==> ValueOf(vars, a.args[i], w, fuel) == Ok(r.value.args[i])
    ensures r.Ok? ==> forall j :: 0 <= j < |a.kwargs| ==>
      r.value.kwargs[j].0 == a.kwargs[j].0 && ValueOf(vars, a.kwargs[j].1, w, fuel) == Ok(r.value.kwargs[j].1)
    ensures r.Err? ==>
      (exists i :: 0 <= i < |a.args| && ValueOf(vars, a.args[i], w, fuel) == Err(r.error)) ||
      (exists j :: 0 <= j < |a.kwargs| && ValueOf(vars, a.kwargs[j].1, w, fuel) == Err(r.error))
    decreases fuel, 3
  {
    var xs := UnwrapAll(vars, a.args, w, fuel);
    if xs.Err? then Err(xs.error)
    else
      var ks := seq(|a.kwargs|, j requires 0 <= j < |a.kwargs| => a.kwargs[j].1);
      var vs := UnwrapAll(vars, ks, w, fuel);
      if vs.Err? then Err(vs.error)
      else Ok(Callables.Arguments(xs.value, seq(|a.kwargs|, j requires 0 <= j < |a.kwargs| => (a.kwargs[j].0, vs.value[j]))))
  }

  /** `valueof` of each object in order, stopping at the first exception. */
  function UnwrapAll(vars: seq<Variable>, xs: seq<Value>, w: World, fuel: nat): (r: Result<seq<Value>>)
    ensures r.Ok? ==> |r.value| == |xs| && forall i :: 0 <= i < |xs| ==> ValueOf(vars, xs[i], w, fuel) == Ok(r.value[i])
    ensures r.Err? ==> exists i :: 0 <= i < |xs| && ValueOf(vars, xs[i], w, fuel) == Err(r.error)
    decreases fuel, 2, |xs|
  {
    if xs == [] then Ok([])
    else
      var v := ValueOf(vars, xs[0], w, fuel);
      if v.Err? then Err(v.error)
      else
        var rest := UnwrapAll(vars, xs[1..], w, fuel);
        assert forall i :: 1 <= i < |xs| ==> xs[i] == xs[1..][i - 1];
        if rest.Err? then Err(rest.error) else Ok([v.value] + rest.value)
  }

  // ----- Writing -----

  /** `variable.value = v`. A mutable variable stores the value and then
      calls its `change` callback, whose exception (if any) escapes after the
      value is stored. A mutable composite maps a setter over its variables
      and the value in parallel. Every other variable has a read-only
      `value` property, so the assignment raises `AttributeError`. */
  function Write(st: Store, r: nat, v: Value, w: World, fuel: nat): (res: (Store, Result<()>))
    ensures fuel == 0 || r >= |st.vars| ==> res.0 == st
    ensures fuel > 0 && r < |st.vars| && !st.vars[r].Mutable? && !(st.vars[r].Composite? && st.vars[r].mutable) ==>
      res == (st, Err(AttributeError))
    decreases fuel, 0
  {
    if fuel == 0 then (st, Err(RecursionError))
    else if r >= |st.vars| then (st, Err(NotModelled))
    else
      match st.vars[r]
      case Mutable(_, c) =>
        var vars := st.vars[r := Mutable(v, c)];
        var (h, fired) := Callbacks.Emit(st.hub, c, v, w.events, fuel);
        (Store(vars, h), if fired.Err? then Err(fired.error) else Ok(()))
      case Composite(vars, mutable) =>
        if !mutable then (st, Err(AttributeError))
        else
          var (st1, res) := Mappers.Apply(Mappers.CollectionMapper(Some(Setter(w, fuel - 1))), st, [vars, v]);
          (st1, if res.Err? then Err(res.error) else Ok(()))
      case _ => (st, Err(AttributeError))
  }

  /** The setter a mutable composite maps over its variables and the value:
      `TypeError` for an object that is not a variable, otherwise the
      assignment, returning the value assigned. */
  function Setter(w: World, fuel: nat): Mappers.MapperFunction<Store, Atom>
    decreases fuel, 1
  {
    (s: Store, objs: seq<Value>) =>
      if |objs| != 2 then (s, Err(TypeError))
      else if !(objs[0].Leaf? && objs[0].atom.Var?) then (s, Err(TypeError))
      else
        var (s1, res) := Write(s, objs[0].atom.ref, objs[1], w, fuel);
        (s1, if res.Err? then Err(res.error) else Ok(objs[1]))
  }

  // ----- Mutable variables -----

  /** Writing a mutable variable stores the value, changes no other variable,
      and calls its `change` callback exactly once with the value, whether or
      not the value differs from the one stored before; the write raises what
      the callback raises. */
  lemma WriteStoresThenNotifies(st: Store, r: nat, v: Value, w: World, fuel: nat)
    requires IsMutable(st, r) && fuel > 0
    ensures var (st', res) := Write(st, r, v, w, fuel);
      var c := st.vars[r].change;
      var (h, fired) := Callbacks.Emit(st.hub, c, v, w.events, fuel);
      |st'.vars| == |st.vars| && st'.vars[r] == Mutable(v, c) &&
      (forall q :: 0 <= q < |st.vars| && q != r ==> st'.vars[q] == st.vars[q]) &&
      st'.hub == h && (res.Err? <==> fired.Err?) && (res.Err? ==> res.error == fired.error)
  {
  }

  /** Reading a mutable variable after writing it gives the value written,
      even when a listener of its `change` callback raised. */
  lemma ReadAfterWrite(st: Store, r: nat, v: Value, w: World, fuel: nat, fuel': nat)
    requires IsMutable(st, r) && fuel > 0 && fuel' > 0
    ensures Read(Write(st, r, v, w, fuel).0.vars, r, w, fuel') == Ok(v)
  {
    WriteStoresThenNotifies(st, r, v, w, fuel);
  }

  /** When the `change` callback is a plain callback whose listeners are user
      functions, a write returns what its listener pipeline specifies: every
      write runs the listeners, in registration order, with the new value. */
  lemma WriteRunsChangeListeners(st: Store, r: nat, v: Value, w: World, fuel: nat)
    requires IsMutable(st, r) && fuel > 0
    requires st.vars[r].change < |st.hub.nodes| && st.hub.nodes[st.vars[r].change].filter.None?
    requires forall l :: l in st.hub.nodes[st.vars[r].change].listeners.elems ==> l.Func?
    ensures var ls := st.hub.nodes[st.vars[r].change].listeners.elems;
      var expected := Callables.Expected(ls, Callbacks.Behaviour(v, w.events));
      Write(st, r, v, w, fuel).0.hub == st.hub &&
      (Write(st, r, v, w, fuel).1.Err? <==> expected.Err?) &&
      (expected.Err? ==> Write(st, r, v, w, fuel).1.error == expected.error)
  {
    Callbacks.CallIsPipeline(st.hub, st.vars[r].change, v, w.events, fuel);
  }

  /** Writing the value a mutable variable already holds still notifies: a
      fork sampling every `n`-th call, forked from the fresh `change`
      callback, counts the write. */
  lemma EqualWriteStillCounts(st: Store, r: nat, w: World, fuel: nat, n: int)
    requires IsMutable(st, r) && Callbacks.WellFormed(st.hub) && fuel > 1 && n > 1
    requires st.vars[r].change < |st.hub.nodes| && st.hub.nodes[st.vars[r].change] == Callbacks.Node(Containers.Empty(), None, false)
    ensures Callbacks.Sample(st.hub, st.vars[r].change, n).Ok?
    ensures var (h1, fork) := Callbacks.Sample(st.hub, st.vars[r].change, n).value;
      var (st', res) := Write(st.(hub := h1), r, st.vars[r].value, w, fuel);
      var counted := Callbacks.Node(Containers.Empty(), Some(Callbacks.Frequency(Callbacks.FrequencyPredicate(Some(n), 1))), true);
      st'.vars == st.vars && res == Ok(()) && st'.hub == Callbacks.Hub(h1.nodes[fork.node := counted])
  {
    var k := st.vars[r].change;
    var v := st.vars[r].value;
    var (h1, fork) := Callbacks.Sample(st.hub, k, n).value;
    var j := fork.node;
    var ls := h1.nodes[k].listeners.elems;
    assert ls == [Callbacks.Child(j)];
    Callbacks.SampledCallCounts(h1, j, v, w.events, fuel - 1, n, 0);
    var counted := Callbacks.Node(Containers.Empty(), Some(Callbacks.Frequency(Callbacks.FrequencyPredicate(Some(n), 1))), true);
    var h2 := Callbacks.Hub(h1.nodes[j := counted]);
    assert Callbacks.Emit(h1, j, v, w.events, fuel - 1) == (h2, Ok(Callbacks.Nothing));
    var listen := Callbacks.Listen(v, w.events, fuel - 1);
    assert listen(h1, ls[0]) == Callbacks.Invoke(h1, Callbacks.Child(j), v, w.events, fuel - 1);
    assert listen(h1, ls[0]) == (h2, Ok(Callbacks.Nothing));
    assert ls[1..] == [];
    assert Callables.Run(h2, ls[1..], listen) == (h2, Ok([]));
    var entry: seq<(Callbacks.Listener, Callbacks.Ret<Value>)> := [(Callbacks.Child(j), Callbacks.Nothing)];
    assert entry + [] == entry;
    assert Callables.Run(h1, ls, listen) == (h2, Ok([(Callbacks.Child(j), Callbacks.Nothing)]));
    assert h1.nodes[k].filter.None?;
    assert Callbacks.Forward(h1, k, v, w.events, fuel) == (h2, Ok(Callbacks.Results(entry)));
    assert Callbacks.Emit(h1, k, v, w.events, fuel) == (h2, Ok(Callbacks.Results(entry)));
    assert st.vars[r := Mutable(v, k)] == st.vars;
    assert Write(st.(hub := h1), r, v, w, fuel) == (Store(st.vars, h2), Ok(()));
  }

  // ----- Composite variables -----

  /** A composite whose variables are laid out in dicts, lists and tuples
      reads as the reference walk: the same containers, with every leaf
      replaced by its `valueof`, visited in order. */
  lemma CompositeReadIsWalk(st: Store, r: nat, w: World, fuel: nat)
    requires r < |st.vars| && st.vars[r].Composite? && fuel > 0
    requires Mappers.Follows(st.vars[r].vars, st.vars[r].vars)
    ensures Mappers.Aligned([st.vars[r].vars])
    ensures Read(st.vars, r, w, fuel) == Mappers.Walk(Getter(st.vars, w, fuel - 1), (), [st.vars[r].vars]).1
  {
    Mappers.AlignedMapsLeafwise(Getter(st.vars, w, fuel - 1), (), [st.vars[r].vars]);
  }

  /** Each leaf the walk hands the getter becomes its `valueof`. */
  lemma GetterIsValueOf(vars: seq<Variable>, w: World, fuel: nat, obj: Value)
    ensures Getter(vars, w, fuel)((), [obj]) == ((), ValueOf(vars, obj, w, fuel))
  {
  }

  /** A composite over a single variable is a proxy for it. */
  lemma ProxyReadsThrough(st: Store, r: nat, q: nat, w: World, fuel: nat)
    requires r < |st.vars| && st.vars[r].Composite? && st.vars[r].vars == Leaf(Var(q)) && fuel > 0
    ensures Read(st.vars, r, w, fuel) == Read(st.vars, q, w, fuel - 1)
  {
    Mappers.LeafGoesToNextMapper(Some(Getter(st.vars, w, fuel - 1)), (), [Leaf(Var(q))], 0);
  }

  /** A composite over objects that are not variables reads as those objects. */
  lemma ConstantCompositeReadsItself(st: Store, r: nat, a: Atom, w: World, fuel: nat)
    requires r < |st.vars| && st.vars[r].Composite? && st.vars[r].vars == Leaf(a) && !a.Var? && fuel > 0
    ensures Read(st.vars, r, w, fuel) == Ok(Leaf(a))
  {
    Mappers.LeafGoesToNextMapper(Some(Getter(st.vars, w, fuel - 1)), (), [Leaf(a)], 0);
  }

  /** Assigning a value that follows a mutable composite's layout is the
      reference walk of the setter over the variables and the value: one
      assignment per leaf, in order, each seeing the store the previous one
      left, stopping at the first exception. */
  lemma CompositeWriteIsWalk(st: Store, r: nat, v: Value, w: World, fuel: nat)
    requires r < |st.vars| && st.vars[r].Composite? && st.vars[r].mutable && fuel > 0
    requires Mappers.Follows(st.vars[r].vars, v)
    ensures Mappers.Aligned([st.vars[r].vars, v])
    ensures var (st', res) := Mappers.Walk(Setter(w, fuel - 1), st, [st.vars[r].vars, v]);
      Write(st, r, v, w, fuel) == (st', if res.Err? then Err(res.error) else Ok(()))
  {
    Mappers.PairMapsLeafwise(Setter(w, fuel - 1), st, st.vars[r].vars, v);
  }

  /** The composite setter refuses a leaf that is not a variable with
      `TypeError`, before assigning anything. */
  lemma SetterRejectsObjects(st: Store, r: nat, a: Atom, v: Value, w: World, fuel: nat)
    requires r < |st.vars| && st.vars[r] == Composite(Leaf(a), true) && !a.Var? && fuel > 0
    ensures Write(st, r, v, w, fuel) == (st, Err(TypeError))
  {
    Mappers.LeafGoesToNextMapper(Some(Setter(w, fuel - 1)), st, [Leaf(a), v], 0);
  }

  /** Through a proxy composite, reading after assigning gives the value
      assigned, and the variable behind it holds that value. */
  lemma ProxyWriteRoundTrip(st: Store, r: nat, q: nat, v: Value, w: World, fuel: nat, fuel': nat)
    requires r < |st.vars| && st.vars[r] == Composite(Leaf(Var(q)), true) && IsMutable(st, q)
    requires fuel > 1 && fuel' > 1
    ensures var st' := Write(st, r, v, w, fuel).0;
      Read(st'.vars, r, w, fuel') == Ok(v) && Read(st'.vars, q, w, fuel') == Ok(v)
  {
    Mappers.LeafGoesToNextMapper(Some(Setter(w, fuel - 1)), st, [Leaf(Var(q)), v], 0);
    WriteStoresThenNotifies(st, q, v, w, fuel - 1);
    var st' := Write(st, r, v, w, fuel).0;
    assert st' == Write(st, q, v, w, fuel - 1).0;
    assert st'.vars[r] == st.vars[r];
    ProxyReadsThrough(st', r, q, w, fuel');
  }

  /** The variables `qs`, as the leaves of a composite. */
  function VarLeaves(qs: seq<nat>): (t: seq<Value>)
    ensures |t| == |qs| && forall i :: 0 <= i < |qs| ==> t[i] == Leaf(Var(qs[i]))
  {
    seq(|qs|, i requires 0 <= i < |qs| => Leaf(Var(qs[i])))
  }

  /** Store `s` is `st` after the first `i` of the mutable variables `qs`
      were assigned the first `i` of `xs`. */
  ghost predicate AssignedUpTo(st: Store, s: Store, qs: seq<nat>, xs: seq<Value>, i: nat)
    requires i <= |qs| == |xs|
  {
    |s.vars| == |st.vars| &&
    (forall j :: 0 <= j < |qs| ==> IsMutable(st, qs[j])) &&
    (forall j :: 0 <= j < i ==> s.vars[qs[j]] == Mutable(xs[j], st.vars[qs[j]].change)) &&
    (forall q :: 0 <= q < |st.vars| && q !in qs[..i] ==> s.vars[q] == st.vars[q])
  }

  /** A mutable composite over a list of distinct mutable variables: once an
      assignment of a list of as many values completes, reading the
      composite gives the list assigned, and each variable holds its item. */
  lemma ListWriteRoundTrip(st: Store, r: nat, qs: seq<nat>, xs: seq<Value>, w: World, fuel: nat, fuel': nat)
    requires r < |st.vars| && st.vars[r] == Composite(List(VarLeaves(qs)), true)
    requires |xs| == |qs| && Containers.Distinct(qs) && forall i :: 0 <= i < |qs| ==> IsMutable(st, qs[i])
    requires fuel > 1 && fuel' > 1
    ensures var (st', res) := Write(st, r, List(xs), w, fuel);
      res.Ok? ==>
        Read(st'.vars, r, w, fuel') == Ok(List(xs)) &&
        forall i :: 0 <= i < |qs| ==> Read(st'.vars, qs[i], w, fuel') == Ok(xs[i])
  {
    var t := List(VarLeaves(qs));
    var o := List(xs);
    assert Mappers.Follows(t, o);
    CompositeWriteIsWalk(st, r, o, w, fuel);
    var (st', res) := Write(st, r, o, w, fuel);
    if res.Ok? {
      VarListsAligned(qs, xs);
      assert st.vars[..0] == [] && qs[..0] == [];
      SetterWalkAssigns(st, st, qs, xs, w, fuel - 1, 0);
      assert qs[..|qs|] == qs;
      assert st'.vars[r] == st.vars[r];
      assert Mappers.Follows(t, t);
      CompositeReadIsWalk(st', r, w, fuel');
      GetterWalkReads(st'.vars, qs, xs, w, fuel' - 1, 0);
      assert xs[0..] == xs;
    }
  }

  /** A list of variables and a list of as many values are aligned. */
  lemma VarListsAligned(qs: seq<nat>, xs: seq<Value>)
    requires |xs| == |qs|
    ensures Mappers.Aligned([List(VarLeaves(qs)), List(xs)]) && Mappers.Aligned([List(VarLeaves(qs))])
  {
    assert Mappers.Follows(List(VarLeaves(qs)), List(xs));
    assert Mappers.Follows(List(VarLeaves(qs)), List(VarLeaves(qs)));
  }

  /** The setter's walk over the items from `i` on assigns each variable its
      item, in order; when it completes, it returns the items. */
  lemma {:induction false} SetterWalkAssigns(st: Store, s: Store, qs: seq<nat>, xs: seq<Value>, w: World, fuel: nat, i: nat)
    requires |xs| == |qs| && i <= |qs| && Containers.Distinct(qs) && fuel > 0
    requires AssignedUpTo(st, s, qs, xs, i) && Mappers.Aligned([List(VarLeaves(qs)), List(xs)])
    ensures var (s', res) := Mappers.WalkItems(Setter(w, fuel), s, [List(VarLeaves(qs)), List(xs)], i);
      res.Ok? ==> res.value == xs[i..] && AssignedUpTo(st, s', qs, xs, |qs|)
    decreases |qs| - i
  {
    if i < |qs| {
      var s1 := SetterStep(st, s, qs, xs, w, fuel, i);
      SetterWalkAssigns(st, s1, qs, xs, w, fuel, i + 1);
      assert xs[i..] == [xs[i]] + xs[i + 1..];
    }
  }

  /** One step of the setter's walk: item `i` goes to variable `qs[i]`. */
  lemma SetterStep(st: Store, s: Store, qs: seq<nat>, xs: seq<Value>, w: World, fuel: nat, i: nat) returns (s1: Store)
    requires |xs| == |qs| && i < |qs| && Containers.Distinct(qs) && fuel > 0
    requires AssignedUpTo(st, s, qs, xs, i)
    requires Mappers.Aligned([List(VarLeaves(qs)), List(xs)])
    ensures AssignedUpTo(st, s1, qs, xs, i + 1)
    ensures var objs := [List(VarLeaves(qs)), List(xs)];
      var (s2, rest) := Mappers.WalkItems(Setter(w, fuel), s1, objs, i + 1);
      Mappers.WalkItems(Setter(w, fuel), s, objs, i) ==
        if Write(s, qs[i], xs[i], w, fuel).1.Err? then (s1, Err(Write(s, qs[i], xs[i], w, fuel).1.error))
        else if rest.Err? then (s2, rest) else (s2, Ok([xs[i]] + rest.value))
  {
    var objs := [List(VarLeaves(qs)), List(xs)];
    Mappers.AtAligned(objs, i);
    assert Mappers.At(objs, i) == [Leaf(Var(qs[i])), xs[i]];
    assert qs[i] !in qs[..i];
    s1 := Write(s, qs[i], xs[i], w, fuel).0;
    AssignNext(st, s, s1, qs, xs, i);
  }

  /** Assigning item `i` to its variable extends the assignment by one. */
  lemma AssignNext(st: Store, s: Store, s1: Store, qs: seq<nat>, xs: seq<Value>, i: nat)
    requires |xs| == |qs| && i < |qs| && Containers.Distinct(qs)
    requires AssignedUpTo(st, s, qs, xs, i)
    requires s1.vars == s.vars[qs[i] := Mutable(xs[i], st.vars[qs[i]].change)]
    ensures AssignedUpTo(st, s1, qs, xs, i + 1)
  {
    forall q | 0 <= q < |st.vars| && q !in qs[..i + 1] ensures s1.vars[q] == st.vars[q] {
      assert q !in qs[..i];
      assert q != qs[i];
    }
    forall j | 0 <= j < i ensures s1.vars[qs[j]] == Mutable(xs[j], st.vars[qs[j]].change) {
      assert qs[j] != qs[i];
    }
  }

  /** The getter's walk over the items from `i` on reads each variable. */
  lemma {:induction false} GetterWalkReads(vars: seq<Variable>, qs: seq<nat>, xs: seq<Value>, w: World, fuel: nat, i: nat)
    requires |xs| == |qs| && i <= |qs| && fuel > 0
    requires forall j :: 0 <= j < |qs| ==> qs[j] < |vars| && vars[qs[j]].Mutable? && vars[qs[j]].value == xs[j]
    requires Mappers.Aligned([List(VarLeaves(qs))])
    ensures Mappers.WalkItems(Getter(vars, w, fuel), (), [List(VarLeaves(qs))], i) == ((), Ok(xs[i..]))
    decreases |qs| - i
  {
    var objs := [List(VarLeaves(qs))];
    if i < |qs| {
      Mappers.AtAligned(objs, i);
      assert Mappers.At(objs, i) == [Leaf(Var(qs[i]))];
      assert Mappers.Walk(Getter(vars, w, fuel), (), [Leaf(Var(qs[i]))]) == ((), Ok(xs[i]));
      GetterWalkReads(vars, qs, xs, w, fuel, i + 1);
      assert |objs[0].items| == |qs|;
      assert Mappers.WalkItems(Getter(vars, w, fuel), (), objs, i + 1) == ((), Ok(xs[i + 1..]));
      assert Mappers.WalkItems(Getter(vars, w, fuel), (), objs, i) == ((), Ok([xs[i]] + xs[i + 1..]));
      assert xs[i..] == [xs[i]] + xs[i + 1..];
    } else {
      assert xs[i..] == [];
    }
  }

  // ----- Computed variables -----

  /** A computed variable built by `from_operator` calls its function with
      the current values of its operands on every read: after an operand is
      written, the next read sees the new value. */
  lemma ComputedSeesWrites(st: Store, r: nat, q: nat, v: Value, w: World, fuel: nat, fuel': nat)
    requires r < |st.vars| && IsMutable(st, q) && fuel > 0 && fuel' > 1
    requires st.vars[r].Computed? && st.vars[r].args == Callables.Arguments([Leaf(Var(q))], []) && st.vars[r].unwrap
    ensures Read(Write(st, q, v, w, fuel).0.vars, r, w, fuel') == w.compute(st.vars[r].func, Callables.Arguments([v], []))
  {
    WriteStoresThenNotifies(st, q, v, w, fuel);
    var st' := Write(st, q, v, w, fuel).0;
    assert st'.vars[r] == st.vars[r];
    var u := Unwrap(st'.vars, Callables.Arguments([Leaf(Var(q))], []), w, fuel' - 1);
    assert ValueOf(st'.vars, Leaf(Var(q)), w, fuel' - 1) == Ok(v);
    assert u.Ok? && u.value.args == [v] && u.value.kwargs == [];
  }

  /** A computed variable not built by `from_operator` hands its function the
      argument objects themselves, variables included. */
  lemma ComputedPassesObjects(st: Store, r: nat, w: World, fuel: nat)
    requires r < |st.vars| && st.vars[r].Computed? && !st.vars[r].unwrap && fuel > 0
    ensures Read(st.vars, r, w, fuel) == w.compute(st.vars[r].func, st.vars[r].args)
  {
  }

  // ----- Conditional -----

  /** A `Conditional`: its callback (a node of the hub), the user predicate
      `test` it asks of its parent's value, and the variable it is attached to. */
  datatype Conditional = Conditional(node: nat, test: nat, comp: Components.Component<nat>)

  /** `Conditional(predicate)`: a fresh, unattached callback. Its node
      carries the predicate as a filter, which is how a `change` of the
      parent reaches it. */
  function NewConditional(h: Callbacks.Hub, test: nat): (r: (Callbacks.Hub, Conditional))
    ensures r.0.nodes == h.nodes + [Callbacks.Node(Containers.Empty(), Some(Callbacks.Custom(test)), false)]
    ensures r.1 == Conditional(|h.nodes|, test, Components.Unattached)
  {
    (Callbacks.Hub(h.nodes + [Callbacks.Node(Containers.Empty(), Some(Callbacks.Custom(test)), false)]),
     Conditional(|h.nodes|, test, Components.Unattached))
  }

  /** `Conditional.__attach__(parent)` as evidently intended: the component
      rules, comparing parents as variables, then registration on the
      parent's `change` callback. Only a mutable variable has a `change`
      callback at that point. */
  function AttachConditional(st: Store, c: Conditional, p: nat): (r: Result<(Store, Conditional)>)
    requires Callbacks.WellFormed(st.hub) && c.node < |st.hub.nodes|
    ensures r.Ok? <==> Components.Attach(c.comp, p).Ok?
    ensures r.Err? ==> r.error == ValueError
    ensures r.Ok? ==> r.value.1 == c.(comp := Components.Attached(p)) && r.value.0.vars == st.vars
    ensures r.Ok? && IsMutable(st, p) && st.vars[p].change < |st.hub.nodes| ==>
      r.value.0.hub == Callbacks.On(st.hub, st.vars[p].change, Callbacks.Child(c.node)).0
    ensures r.Ok? && !(IsMutable(st, p) && st.vars[p].change < |st.hub.nodes|) ==> r.value.0 == st
  {
    var comp := Components.Attach(c.comp, p);
    if comp.Err? then Err(comp.error)
    else if IsMutable(st, p) && st.vars[p].change < |st.hub.nodes| then
      var (h, _) := Callbacks.On(st.hub, st.vars[p].change, Callbacks.Child(c.node));
      Ok((st.(hub := h), c.(comp := comp.value)))
    else Ok((st, c.(comp := comp.value)))
  }

  /** `Conditional.__attach__(parent)` as written. `Component.__attach__`
      asks `parent == self.__parent__`, and on variables `==` is the
      arithmetic mixin's: it builds a computed variable, which is always
      truthy. So a conditional already attached keeps its parent, whatever
      the argument, and registers again on that parent's `change` callback;
      an unattached one attaches to `p`. */
  function AttachConditionalAsWritten(st: Store, c: Conditional, p: nat): (r: Result<(Store, Conditional)>)
    requires Callbacks.WellFormed(st.hub) && c.node < |st.hub.nodes|
    ensures r.Ok? && r.value.0.vars == st.vars
    ensures c.comp.Attached? ==> r.value.1 == c
    ensures c.comp.Unattached? ==> r.value.1 == c.(comp := Components.Attached(p))
    ensures var q := r.value.1.comp.owner;
      IsMutable(st, q) && st.vars[q].change < |st.hub.nodes| ==>
      r.value.0.hub == Callbacks.On(st.hub, st.vars[q].change, Callbacks.Child(c.node)).0
    ensures var q := r.value.1.comp.owner;
      !(IsMutable(st, q) && st.vars[q].change < |st.hub.nodes|) ==> r.value.0 == st
  {
    var q := if c.comp.Attached? then c.comp.owner else p;
    var c1 := c.(comp := Components.Attached(q));
    if IsMutable(st, q) && st.vars[q].change < |st.hub.nodes| then
      var (h, _) := Callbacks.On(st.hub, st.vars[q].change, Callbacks.Child(c.node));
      Ok((st.(hub := h), c1))
    else Ok((st, c1))
  }

  /** A conditional attached to `p` and attached again to another variable
      `q`: as written the call succeeds and the conditional stays on `p`;
      as intended it raises `ValueError`. */
  lemma SecondParentIgnored(st: Store, c: Conditional, p: nat, q: nat)
    requires Callbacks.WellFormed(st.hub) && c.node < |st.hub.nodes|
    requires c.comp == Components.Attached(p) && q != p
    ensures AttachConditionalAsWritten(st, c, q).Ok?
    ensures AttachConditionalAsWritten(st, c, q).value.1.comp == Components.Attached(p)
    ensures AttachConditional(st, c, q) == Err(ValueError)
  {
  }

  /** Attaching a fresh conditional and detaching it again gives back the
      store and the conditional as they were. */
  lemma AttachThenDetachRestores(st: Store, c: Conditional, p: nat)
    requires Callbacks.WellFormed(st.hub) && c.node < |st.hub.nodes| && c.comp.Unattached?
    requires IsMutable(st, p) && st.vars[p].change < |st.hub.nodes| ==>
      Callbacks.Child(c.node) !in st.hub.nodes[st.vars[p].change].listeners.elems
    ensures AttachConditional(st, c, p).Ok?
    ensures var (st1, c1) := AttachConditional(st, c, p).value;
      Callbacks.WellFormed(st1.hub) && DetachConditional(st1, c1) == Ok((st, c))
  {
    if IsMutable(st, p) && st.vars[p].change < |st.hub.nodes| {
      Callbacks.OffUndoesOn(st.hub, st.vars[p].change, Callbacks.Child(c.node));
    }
  }

  /** `Conditional.__detach__()`: unregisters from the parent's `change`
      callback, then detaches; without a parent, `ValueError`. */
  function DetachConditional(st: Store, c: Conditional): (r: Result<(Store, Conditional)>)
    requires Callbacks.WellFormed(st.hub)
    ensures r.Ok? <==> c.comp.Attached?
    ensures r.Err? ==> r.error == ValueError
    ensures r.Ok? ==> r.value.1 == c.(comp := Components.Unattached) && r.value.0.vars == st.vars
    ensures r.Ok? && IsMutable(st, c.comp.owner) && st.vars[c.comp.owner].change < |st.hub.nodes| ==>
      var k := st.vars[c.comp.owner].change;
      r.value.0.hub == Callbacks.Off(st.hub, k, Callbacks.Child(c.node)).0 &&
      Callbacks.Child(c.node) !in r.value.0.hub.nodes[k].listeners.elems
  {
    match c.comp
    case Unattached => Err(ValueError)
    case Attached(p) =>
      if IsMutable(st, p) && st.vars[p].change < |st.hub.nodes| then
        var (h, _) := Callbacks.Off(st.hub, st.vars[p].change, Callbacks.Child(c.node));
        Ok((st.(hub := h), c.(comp := Components.Unattached)))
      else Ok((st, c.(comp := Components.Unattached)))
  }

  /** `conditional.detach(parent=None)` as written: `Component.detach`
      passes its `parent` on to `__detach__`, but `Conditional.__detach__`
      takes no argument besides the conditional, so the call raises
      `TypeError` before anything happens, attached or not. */
  function DetachConditionalAsWritten(st: Store, c: Conditional, parent: Option<nat>): (r: Result<(Store, Conditional)>)
    ensures r.Err? && r.error == TypeError
  {
    Err(TypeError)
  }

  /** On an attached conditional the public `detach` raises where the
      corrected `__detach__` detaches; the conditional stays attached and
      registered, so a later `change` still calls it. */
  lemma PublicDetachFails(st: Store, c: Conditional, hint: Option<nat>)
    requires Callbacks.WellFormed(st.hub) && c.comp.Attached?
    ensures DetachConditionalAsWritten(st, c, hint) == Err(TypeError)
    ensures DetachConditional(st, c).Ok? && DetachConditional(st, c).value.1.comp == Components.Unattached
  {
  }

  /** `Conditional.__call__(__target__=target)`: reads the parent's value (a
      temporarily unavailable value makes the call return `None`; any other
      exception escapes); asks the predicate of it, outside any `try`, so
      what the predicate raises escapes too; when it holds, calls the target
      if given, else the conditional's own listeners; otherwise returns
      `None`. */
  function CallConditional(st: Store, c: Conditional, target: Option<Callbacks.Listener>, w: World, fuel: nat)
    : (r: (Callbacks.Hub, Result<Callbacks.Ret<Value>>))
    requires c.node < |st.hub.nodes| && fuel > 0
    ensures c.comp.Unattached? ==> r == (st.hub, Err(ValueError))
    ensures c.comp.Attached? && Read(st.vars, c.comp.owner, w, fuel) == Err(TemporarilyUnavailable) ==>
      r == (st.hub, Ok(Callbacks.Nothing))
    ensures c.comp.Attached? && Read(st.vars, c.comp.owner, w, fuel).Err? && Read(st.vars, c.comp.owner, w, fuel).error != TemporarilyUnavailable ==>
      r == (st.hub, Err(Read(st.vars, c.comp.owner, w, fuel).error))
    ensures c.comp.Attached? && Read(st.vars, c.comp.owner, w, fuel).Ok? ==>
      var t := w.events.test(c.test, Read(st.vars, c.comp.owner, w, fuel).value);
      (t == Ok(false) ==> r == (st.hub, Ok(Callbacks.Nothing))) &&
      (t.Err? ==> r == (st.hub, Err(t.error)))
  {
    match c.comp
    case Unattached => (st.hub, Err(ValueError))
    case Attached(p) =>
      var val := Read(st.vars, p, w, fuel);
      if val.Err? then
        if val.error == TemporarilyUnavailable then (st.hub, Ok(Callbacks.Nothing)) else (st.hub, Err(val.error))
      else
        var t := w.events.test(c.test, val.value);
        if t.Err? then (st.hub, Err(t.error))
        else if !t.value then (st.hub, Ok(Callbacks.Nothing))
        else
          match target
          case Some(l) => Callbacks.Invoke(st.hub, l, val.value, w.events, fuel)
          case None => Callbacks.Forward(st.hub, c.node, val.value, w.events, fuel)
  }

  /** `Conditional.on(func)`: registers the listener, then calls it at once
      if the predicate holds of the parent's value. Returns the listener, or
      what that immediate call raised. */
  function ConditionalOn(st: Store, c: Conditional, l: Callbacks.Listener, w: World, fuel: nat)
    : (r: (Callbacks.Hub, Result<Callbacks.Listener>))
    requires Callbacks.WellFormed(st.hub) && c.node < |st.hub.nodes| && Callbacks.Exists(st.hub, l) && fuel > 0
    ensures var h1 := Callbacks.On(st.hub, c.node, l).0;
      var (h2, called) := CallConditional(st.(hub := h1), c, Some(l), w, fuel);
      r.0 == h2 && (r.1.Ok? <==> called.Ok?) && (r.1.Ok? ==> r.1.value == l) && (r.1.Err? ==> r.1.error == called.error)
    ensures l.Func? ==> l in r.0.nodes[c.node].listeners.elems
  {
    var (h1, _) := Callbacks.On(st.hub, c.node, l);
    var (h2, called) := CallConditional(st.(hub := h1), c, Some(l), w, fuel);
    (h2, if called.Err? then Err(called.error) else Ok(l))
  }

  /** `fork`, `filter(predicate)`, `sample(n)` and `% n` on a conditional:
      `Callback.fork` makes the new callback (wrapped in a `FilteredCallback`
      when `filter` is given) and registers it with `self.on`, which on a
      conditional is `Conditional.on`: the new callback is called at once
      when the predicate holds of the parent's value, and without a parent
      the call raises `ValueError` after the registration. */
  function ConditionalFork(st: Store, c: Conditional, filter: Option<Callbacks.Predicate>, w: World, fuel: nat)
    : (r: (Callbacks.Hub, Result<Callbacks.Listener>))
    requires Callbacks.WellFormed(st.hub) && c.node < |st.hub.nodes| && fuel > 0
    ensures r.1.Ok? ==> r.1.value == Callbacks.Child(|st.hub.nodes|)
    ensures c.comp.Unattached? ==> r == (Callbacks.Fork(st.hub, c.node, filter).0, Err(ValueError))
    ensures c.comp.Attached? && Read(st.vars, c.comp.owner, w, fuel) == Err(TemporarilyUnavailable) ==>
      r == (Callbacks.Fork(st.hub, c.node, filter).0, Ok(Callbacks.Fork(st.hub, c.node, filter).1))
    ensures c.comp.Attached? && Read(st.vars, c.comp.owner, w, fuel).Ok? ==>
      var val := Read(st.vars, c.comp.owner, w, fuel).value;
      var t := w.events.test(c.test, val);
      var (hf, f) := Callbacks.Fork(st.hub, c.node, filter);
      (t == Ok(false) ==> r == (hf, Ok(f))) &&
      (t.Err? ==> r == (hf, Err(t.error))) &&
      (t == Ok(true) ==>
        var (h2, out) := Callbacks.Emit(hf, f.node, val, w.events, fuel);
        r == (h2, if out.Err? then Err(out.error) else Ok(f)))
  {
    var h1 := Callbacks.Hub(st.hub.nodes + [Callbacks.Node(Containers.Empty(), filter, filter.Some?)]);
    assert Callbacks.On(h1, c.node, Callbacks.Child(|st.hub.nodes|)) == Callbacks.Fork(st.hub, c.node, filter);
    ConditionalOn(st.(hub := h1), c, Callbacks.Child(|st.hub.nodes|), w, fuel)
  }

  /** Filtering a conditional that has no parent raises `ValueError`, where
      filtering a plain callback succeeds. */
  lemma FilterUnattachedConditionalRaises(st: Store, c: Conditional, id: nat, w: World, fuel: nat)
    requires Callbacks.WellFormed(st.hub) && c.node < |st.hub.nodes| && fuel > 0 && c.comp.Unattached?
    requires !st.hub.nodes[c.node].proxy
    ensures ConditionalFork(st, c, Some(Callbacks.Custom(id)), w, fuel).1 == Err(ValueError)
    ensures Callbacks.Filter(st.hub, c.node, id).Ok?
  {
  }

  /** `v.when(p).sample(n)` with `p` holding of `v`'s value: the sampler is
      called at once, so it starts with one call counted, not none. */
  lemma SampleOfHoldingConditionalCountsAtOnce(st: Store, c: Conditional, n: int, w: World, fuel: nat)
    requires Callbacks.WellFormed(st.hub) && c.node < |st.hub.nodes| && fuel > 0 && n > 1
    requires c.comp.Attached? && Read(st.vars, c.comp.owner, w, fuel).Ok?
    requires w.events.test(c.test, Read(st.vars, c.comp.owner, w, fuel).value) == Ok(true)
    ensures var sampler := Callbacks.Frequency(Callbacks.NewFrequency(Some(n)));
      var (h, r) := ConditionalFork(st, c, Some(sampler), w, fuel);
      r == Ok(Callbacks.Child(|st.hub.nodes|)) &&
      |h.nodes| == |st.hub.nodes| + 1 &&
      h.nodes[|st.hub.nodes|].filter == Some(Callbacks.Frequency(Callbacks.FrequencyPredicate(Some(n), 1)))
  {
    var sampler := Callbacks.Frequency(Callbacks.NewFrequency(Some(n)));
    var val := Read(st.vars, c.comp.owner, w, fuel).value;
    var (hf, f) := Callbacks.Fork(st.hub, c.node, Some(sampler));
    Callbacks.SampledCallCounts(hf, f.node, val, w.events, fuel, n, 0);
  }

  /** A user function registered on an attached conditional runs at once,
      with the parent's value, exactly when the predicate holds of it: its
      exception escapes from `on`, and so does the predicate's; when the
      predicate fails, or the value is temporarily unavailable, it is only
      registered. */
  lemma OnFiresIffPredicateHolds(st: Store, c: Conditional, id: nat, w: World, fuel: nat)
    requires Callbacks.WellFormed(st.hub) && c.node < |st.hub.nodes| && fuel > 0 && c.comp.Attached?
    requires Read(st.vars, c.comp.owner, w, fuel).Ok? || Read(st.vars, c.comp.owner, w, fuel) == Err(TemporarilyUnavailable)
    ensures var val := Read(st.vars, c.comp.owner, w, fuel);
      var t := if val.Ok? then w.events.test(c.test, val.value) else Ok(false);
      var (h, r) := ConditionalOn(st, c, Callbacks.Func(id), w, fuel);
      h == Callbacks.On(st.hub, c.node, Callbacks.Func(id)).0 &&
      (t.Err? ==> r == Err(t.error)) &&
      (t == Ok(true) && w.events.behave(id, val.value).Err? ==> r == Err(w.events.behave(id, val.value).error)) &&
      (t == Ok(true) && w.events.behave(id, val.value).Ok? ==> r == Ok(Callbacks.Func(id))) &&
      (t == Ok(false) ==> r == Ok(Callbacks.Func(id)))
  {
  }

  /** When the parent is the mutable variable that changed, the `change`
      callback's call of the conditional's node does what
      `Conditional.__call__()` does: the predicate asked of the new value,
      then the conditional's listeners, or `None`. */
  lemma ChangeCallsConditional(st: Store, c: Conditional, w: World, fuel: nat)
    requires c.node < |st.hub.nodes| && fuel > 1 && c.comp.Attached? && IsMutable(st, c.comp.owner)
    requires st.hub.nodes[c.node].filter == Some(Callbacks.Custom(c.test))
    ensures var (h, r) := CallConditional(st, c, None, w, fuel);
      Callbacks.Emit(st.hub, c.node, st.vars[c.comp.owner].value, w.events, fuel) == (h, r)
  {
    var v := st.vars[c.comp.owner].value;
    assert Read(st.vars, c.comp.owner, w, fuel) == Ok(v);
    assert Callbacks.Hub(st.hub.nodes[c.node := st.hub.nodes[c.node].(filter := Some(Callbacks.Custom(c.test)))]) == st.hub;
  }

  // ----- VariableManager -----

  /** `VariableManager(variables, slots)`: the declared slots, and the
      variable created or given for each reference. */
  datatype Manager<R> = Manager(slots: set<R>, variables: map<R, nat>)

  /** Every managed variable exists. */
  predicate Manages<R>(m: Manager<R>, st: Store) {
    forall r | r in m.variables :: m.variables[r] < |st.vars|
  }

  /** `ref in manager`: a declared slot, or a reference with a variable. */
  function Contains<R(==)>(m: Manager<R>, ref: R): (b: bool)
    ensures b <==> ref in m.slots || ref in m.variables
  {
    ref in m.slots || ref in m.variables
  }

  /** `manager[ref]`: the reference's variable; on first access a new
      `MutableVariable()`, holding `Nil`, with a new `change` callback. */
  function GetItem<R(==)>(m: Manager<R>, st: Store, ref: R): (r: (Manager<R>, Store, nat))
    requires Manages(m, st)
    ensures Manages(r.0, r.1) && r.2 < |r.1.vars| && r.0.slots == m.slots
    ensures ref in r.0.variables && r.0.variables[ref] == r.2
    ensures ref in m.variables ==> r == (m, st, m.variables[ref])
    ensures ref !in m.variables ==>
      r.2 == |st.vars| && r.0.variables == m.variables[ref := r.2] &&
      r.1.vars == st.vars + [Mutable(Leaf(Nil), |st.hub.nodes|)] &&
      r.1.hub.nodes == st.hub.nodes + [Callbacks.Node(Containers.Empty(), None, false)]
  {
    if ref in m.variables then (m, st, m.variables[ref])
    else
      var v := |st.vars|;
      var h := Callbacks.Hub(st.hub.nodes + [Callbacks.Node(Containers.Empty(), None, false)]);
      (m.(variables := m.variables[ref := v]), Store(st.vars + [Mutable(Leaf(Nil), |st.hub.nodes|)], h), v)
  }

  /** `del manager[ref]`: forgets the reference's variable; `KeyError` when
      there is none. The slots stay. */
  function DelItem<R(==, !new)>(m: Manager<R>, ref: R): (r: Result<Manager<R>>)
    ensures r.Ok? <==> ref in m.variables
    ensures r.Err? ==> r.error == KeyError
    ensures r.Ok? ==> r.value.slots == m.slots && ref !in r.value.variables
    ensures r.Ok? ==> forall q :: q != ref ==>
      (q in r.value.variables <==> q in m.variables) && (q in m.variables ==> r.value.variables[q] == m.variables[q])
  {
    if ref in m.variables then Ok(m.(variables := m.variables - {ref})) else Err(KeyError)
  }

  /** A reference always gets the same variable; a new one is mutable, reads
      `Nil`, and makes the reference contained. */
  lemma GetItemStable<R>(m: Manager<R>, st: Store, ref: R, w: World, fuel: nat)
    requires Manages(m, st) && fuel > 0
    ensures var (m1, st1, v1) := GetItem(m, st, ref);
      GetItem(m1, st1, ref) == (m1, st1, v1) && Contains(m1, ref) &&
      (ref !in m.variables ==> IsMutable(st1, v1) && Read(st1.vars, v1, w, fuel) == Ok(Leaf(Nil)))
  {
  }

  /** After `del manager[ref]`, the next access creates a fresh variable, and
      the reference is contained only if it is a slot. */
  lemma DeleteThenGetCreatesFresh<R(!new)>(m: Manager<R>, st: Store, ref: R, w: World, fuel: nat)
    requires Manages(m, st) && ref in m.variables && fuel > 0
    ensures var m1 := DelItem(m, ref).value;
      (Contains(m1, ref) <==> ref in m.slots) &&
      var (_, st2, v2) := GetItem(m1, st, ref);
      v2 == |st.vars| && Read(st2.vars, v2, w, fuel) == Ok(Leaf(Nil))
  {
  }
}
