/** The nested Python containers the structural mapper walks: dicts, lists,
    tuples and sets of leaf objects, plus strings (iterable, but not
    containers the mapper rebuilds). */
module Trees {
  import opened Dicts

  /** A Python object as the mapper sees it. `Dict` keeps insertion order, `Set`
      keeps the order in which iteration happens to visit its elements. */
  datatype Tree<A> =
    | Leaf(atom: A)
    | Text(text: string)
    | Dict(entries: seq<(string, Tree<A>)>)
    | List(items: seq<Tree<A>>)
    | Tuple(items: seq<Tree<A>>)
    | Set(items: seq<Tree<A>>)

  /** `isinstance(obj, Mapping)`. */
  predicate IsMapping<A>(t: Tree<A>) {
    t.Dict?
  }

  /** `isinstance(obj, Iterable)`: everything except a leaf object. */
  predicate IsIterable<A>(t: Tree<A>) {
    !t.Leaf?
  }

  /** One of the containers `IterableMapper` rebuilds as the same type. */
  predicate IsCollection<A>(t: Tree<A>) {
    t.List? || t.Tuple? || t.Set?
  }

  /** Whether `hash(obj)` succeeds: strings are hashable, a tuple is when its
      elements are, the mutable containers never are. Leaf objects are taken
      to be hashable, which holds for the plain values mapper results are
      made of but not for variables: the arithmetic mixin defines `__eq__`
      without `__hash__`, so no set can hold a variable, and the composite
      lemmas only cover layouts of dicts, lists and tuples. */
  predicate Hashable<A>(t: Tree<A>) {
    match t
    case Leaf(_) => true
    case Text(_) => true
    case Tuple(items) => forall i | 0 <= i < |items| :: Hashable(items[i])
    case _ => false
  }

  /** The largest number in `xs`, `0` for none. */
  function Max(xs: seq<nat>): (m: nat)
    ensures forall i :: 0 <= i < |xs| ==> xs[i] <= m
  {
    if xs == [] then 0
    else
      var r := Max(xs[1..]);
      assert forall i :: 1 <= i < |xs| ==> xs[i] == xs[1..][i - 1];
      if xs[0] > r then xs[0] else r
  }

  /** The nesting depth; every child is strictly shallower than its container. */
  function Depth<A>(t: Tree<A>): nat {
    match t
    case Leaf(_) => 0
    case Text(_) => 0
    case Dict(es) => 1 + Max(seq(|es|, i requires 0 <= i < |es| => Depth(es[i].1)))
    case List(xs) => 1 + Max(seq(|xs|, i requires 0 <= i < |xs| => Depth(xs[i])))
    case Tuple(xs) => 1 + Max(seq(|xs|, i requires 0 <= i < |xs| => Depth(xs[i])))
    case Set(xs) => 1 + Max(seq(|xs|, i requires 0 <= i < |xs| => Depth(xs[i])))
  }

  lemma EntryIsShallower<A>(t: Tree<A>, i: nat)
    requires t.Dict? && i < |t.entries|
    ensures Depth(t.entries[i].1) < Depth(t)
  {
    var es := t.entries;
    var ds := seq(|es|, j requires 0 <= j < |es| => Depth(es[j].1));
    assert ds[i] == Depth(es[i].1);
  }

  lemma ValueIsShallower<A>(t: Tree<A>, k: string)
    requires t.Dict? && k in KeysOf(t.entries)
    ensures Depth(Get(t.entries, k)) < Depth(t)
  {
    var i :| 0 <= i < |t.entries| && t.entries[i].0 == k && t.entries[i].1 == Get(t.entries, k);
    EntryIsShallower(t, i);
  }

  lemma ItemIsShallower<A>(t: Tree<A>, i: nat)
    requires IsCollection(t) && i < |t.items|
    ensures Depth(t.items[i]) < Depth(t)
  {
    var xs := t.items;
    var ds := seq(|xs|, j requires 0 <= j < |xs| => Depth(xs[j]));
    assert ds[i] == Depth(xs[i]);
  }

  /** Every dictionary in the tree has unique keys. */
  ghost predicate WellFormed<A>(t: Tree<A>)
    decreases t
  {
    match t
    case Leaf(_) => true
    case Text(_) => true
    case Dict(es) => UniqueKeys(es) && forall i | 0 <= i < |es| :: WellFormed(es[i].1)
    case List(xs) => forall i | 0 <= i < |xs| :: WellFormed(xs[i])
    case Tuple(xs) => forall i | 0 <= i < |xs| :: WellFormed(xs[i])
    case Set(xs) => forall i | 0 <= i < |xs| :: WellFormed(xs[i])
  }
}
