/** `deref`: resolving a reference through a reference manager. */
module Refs {
  import opened Errors
  import Variables
  import Trees

  /** What `deref` asks of a manager and a reference: `ref in manager`,
      `manager[ref]` (which may change the manager), whether the reference is
      callable, and what calling it with the manager does. */
  datatype RefManager<!M, !D, !V> = RefManager(
    contains: (M, D) -> bool,
    getItem: (M, D) -> (M, Result<V>),
    callable: D -> bool,
    call: (M, D) -> (M, Result<V>))

  /** `deref(manager, ref)`: the manager's entry when it contains the
      reference (even a callable one), otherwise the reference called with
      the manager, otherwise `TypeError` with the manager untouched. */
  function Deref<M, D, V>(rm: RefManager<M, D, V>, m: M, ref: D): (r: (M, Result<V>))
    ensures rm.contains(m, ref) ==> r == rm.getItem(m, ref)
    ensures !rm.contains(m, ref) && rm.callable(ref) ==> r == rm.call(m, ref)
    ensures !rm.contains(m, ref) && !rm.callable(ref) ==> r == (m, Err(TypeError))
  {
    if rm.contains(m, ref) then rm.getItem(m, ref)
    else if rm.callable(ref) then rm.call(m, ref)
    else (m, Err(TypeError))
  }

  // ----- Through a VariableManager -----

  /** A `VariableManager` with the variables it hands out. */
  datatype Scope<R> = Scope(manager: Variables.Manager<R>, store: Variables.Store)

  /** The `VariableManager` as the manager `deref` consults; `call` says what
      a callable reference does with it. */
  function VariableRefs<R(==)>(callable: R -> bool, call: (Scope<R>, R) -> (Scope<R>, Result<nat>)): (rm: RefManager<Scope<R>, R, nat>)
    ensures rm.callable == callable && rm.call == call
  {
    RefManager(
      (sc: Scope<R>, ref: R) => Variables.Contains(sc.manager, ref),
      (sc: Scope<R>, ref: R) => GetVariable(sc, ref),
      callable,
      call)
  }

  /** `manager[ref]` on a scope whose manager only names existing variables. */
  function GetVariable<R(==)>(sc: Scope<R>, ref: R): (r: (Scope<R>, Result<nat>))
    ensures Variables.Manages(sc.manager, sc.store) ==>
      var (m1, st1, v) := Variables.GetItem(sc.manager, sc.store, ref);
      r == (Scope(m1, st1), Ok(v))
  {
    if Variables.Manages(sc.manager, sc.store) then
      var (m1, st1, v) := Variables.GetItem(sc.manager, sc.store, ref);
      (Scope(m1, st1), Ok(v))
    else (sc, Err(NotModelled))
  }

  /** A reference the manager contains resolves to its variable, and
      resolving it again gives the same variable and changes nothing more,
      whatever a call of the reference would do. */
  lemma DerefContainedIsStable<R>(sc: Scope<R>, ref: R, callable: R -> bool, call: (Scope<R>, R) -> (Scope<R>, Result<nat>))
    requires Variables.Manages(sc.manager, sc.store) && Variables.Contains(sc.manager, ref)
    ensures var rm := VariableRefs(callable, call);
      var (sc1, r1) := Deref(rm, sc, ref);
      r1.Ok? && r1.value < |sc1.store.vars| && Variables.Manages(sc1.manager, sc1.store) &&
      Deref(rm, sc1, ref) == (sc1, r1)
  {
  }

  /** A declared slot with no variable yet resolves to a new mutable variable
      holding `Nil`. */
  lemma DerefSlotCreatesVariable<R>(sc: Scope<R>, ref: R, callable: R -> bool, call: (Scope<R>, R) -> (Scope<R>, Result<nat>), w: Variables.World, fuel: nat)
    requires Variables.Manages(sc.manager, sc.store) && ref in sc.manager.slots && ref !in sc.manager.variables && fuel > 0
    ensures var (sc1, r) := Deref(VariableRefs(callable, call), sc, ref);
      r == Ok(|sc.store.vars|) && Variables.IsMutable(sc1.store, r.value) &&
      Variables.Read(sc1.store.vars, r.value, w, fuel) == Ok(Trees.Leaf(Variables.Nil))
  {
  }

  /** Membership is asked before `__getitem__`: an unknown reference that is
      not callable raises `TypeError` and, unlike `manager[ref]`, creates no
      variable. */
  lemma DerefUnknownCreatesNothing<R>(sc: Scope<R>, ref: R, callable: R -> bool, call: (Scope<R>, R) -> (Scope<R>, Result<nat>))
    requires Variables.Manages(sc.manager, sc.store) && !Variables.Contains(sc.manager, ref) && !callable(ref)
    ensures Deref(VariableRefs(callable, call), sc, ref) == (sc, Err(TypeError))
    ensures |Variables.GetItem(sc.manager, sc.store, ref).1.vars| == |sc.store.vars| + 1
  {
  }

  /** An unknown callable reference is called with the manager. */
  lemma DerefCallsUnknownCallable<R>(sc: Scope<R>, ref: R, callable: R -> bool, call: (Scope<R>, R) -> (Scope<R>, Result<nat>))
    requires !Variables.Contains(sc.manager, ref) && callable(ref)
    ensures Deref(VariableRefs(callable, call), sc, ref) == call(sc, ref)
  {
  }
}
