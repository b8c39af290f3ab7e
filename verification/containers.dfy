/** `OrderedSet`: a set that remembers first-insertion order, backed in the
    source by an `OrderedDict` whose keys are the elements. */
module Containers {
  import opened Errors

  /** No element occurs twice. */
  ghost predicate Distinct<T>(xs: seq<T>) {
    forall i, j :: 0 <= i < j < |xs| ==> xs[i] != xs[j]
  }

  /** `elems` is the iteration order of the backing dictionary's keys. */
  datatype OrderedSet<T> = OrderedSet(elems: seq<T>)

  ghost predicate Valid<T>(s: OrderedSet<T>) {
    Distinct(s.elems)
  }

  /** The elements, forgetting their order. */
  ghost function Contents<T>(s: OrderedSet<T>): set<T> {
    set x | x in s.elems
  }

  /** `xs` with every occurrence of `x` left out, the others in their order. */
  function Without<T(==)>(xs: seq<T>, x: T): seq<T> {
    if xs == [] then []
    else if xs[0] == x then Without(xs[1..], x)
    else [xs[0]] + Without(xs[1..], x)
  }

  /** The elements of `xs` not already in `seen`, each at its first occurrence. */
  function KeepFirst<T(==)>(xs: seq<T>, seen: seq<T>): seq<T> {
    if xs == [] then []
    else if xs[0] in seen then KeepFirst(xs[1..], seen)
    else [xs[0]] + KeepFirst(xs[1..], seen + [xs[0]])
  }

  /** The iterables of `update(*iterables)` read one after another. */
  function Concat<T>(xss: seq<seq<T>>): seq<T> {
    if xss == [] then [] else xss[0] + Concat(xss[1..])
  }

  function Empty<T>(): (r: OrderedSet<T>)
    ensures Valid(r) && Contents(r) == {}
  {
    OrderedSet([])
  }

  /** `element in s`. */
  function Contains<T(==)>(s: OrderedSet<T>, x: T): (b: bool)
    ensures b <==> x in Contents(s)
  {
    x in s.elems
  }

  /** `len(s)`. */
  function Len<T>(s: OrderedSet<T>): nat {
    |s.elems|
  }

  function IndexOf<T(==)>(xs: seq<T>, x: T): (i: nat)
    requires x in xs
    ensures i < |xs| && xs[i] == x && x !in xs[..i]
  {
    if xs[0] == x then 0 else 1 + IndexOf(xs[1..], x)
  }

  /** `add(element)`: assigning an existing dictionary key keeps its position. */
  function Add<T(==)>(s: OrderedSet<T>, x: T): (r: OrderedSet<T>)
    requires Valid(s)
    ensures Valid(r)
    ensures Contents(r) == Contents(s) + {x}
    ensures s.elems <= r.elems
    ensures Contains(s, x) ==> r == s
    ensures Len(r) == Len(s) + (if Contains(s, x) then 0 else 1)
  {
    if x in s.elems then s else OrderedSet(s.elems + [x])
  }

  lemma WithoutAbsent<T>(xs: seq<T>, x: T)
    requires x !in xs
    ensures Without(xs, x) == xs
  {
  }

  lemma {:induction false} WithoutSplit<T>(xs: seq<T>, i: nat)
    requires Distinct(xs) && i < |xs|
    ensures Without(xs, xs[i]) == xs[..i] + xs[i + 1..]
  {
    if i == 0 {
      WithoutAbsent(xs[1..], xs[0]);
    } else {
      WithoutSplit(xs[1..], i - 1);
      assert xs[1..][..i - 1] == xs[1..i];
      assert xs[1..][i - 1 + 1..] == xs[i + 1..];
      assert xs[..i] == [xs[0]] + xs[1..i];
    }
  }

  /** Filtering only ever drops elements. */
  lemma {:induction false} WithoutSubset<T>(xs: seq<T>, x: T, y: T)
    ensures y in Without(xs, x) ==> y in xs
    decreases xs
  {
    if xs != [] {
      WithoutSubset(xs[1..], x, y);
    }
  }

  lemma {:induction false} WithoutKeepsOthers<T>(xs: seq<T>, x: T)
    requires Distinct(xs)
    ensures Distinct(Without(xs, x))
    ensures (set y | y in Without(xs, x)) == (set y | y in xs) - {x}
    ensures |Without(xs, x)| == |xs| - (if x in xs then 1 else 0)
  {
    if xs != [] {
      var t := xs[1..];
      WithoutKeepsOthers(t, x);
      assert xs == [xs[0]] + t;
      assert xs[0] !in t by {
        forall k | 0 <= k < |t| ensures t[k] != xs[0] { assert t[k] == xs[k + 1]; }
      }
      assert (set y | y in xs) == {xs[0]} + (set y | y in t);
      var w := Without(t, x);
      assert (x in xs) == (x in t || xs[0] == x);
      if xs[0] == x {
        assert Without(xs, x) == w;
        assert x !in t;
      } else {
        WithoutSubset(t, x, xs[0]);
        assert Without(xs, x) == [xs[0]] + w;
        assert (set y | y in [xs[0]] + w) == {xs[0]} + (set y | y in w);
        forall i, j | 0 <= i < j < |[xs[0]] + w| ensures ([xs[0]] + w)[i] != ([xs[0]] + w)[j] {
          if i > 0 { assert ([xs[0]] + w)[i] == w[i - 1] && ([xs[0]] + w)[j] == w[j - 1]; }
          else { assert ([xs[0]] + w)[j] == w[j - 1]; }
        }
      }
    }
  }

  /** `discard(element)`: deletes that element only, a no-op when it is absent. */
  function Discard<T(==)>(s: OrderedSet<T>, x: T): (r: OrderedSet<T>)
    requires Valid(s)
    ensures Valid(r)
    ensures Contents(r) == Contents(s) - {x}
    ensures r.elems == Without(s.elems, x)
    ensures !Contains(s, x) ==> r == s
    ensures Len(r) == Len(s) - (if Contains(s, x) then 1 else 0)
  {
    if x !in s.elems then
      WithoutAbsent(s.elems, x);
      s
    else
      var i := IndexOf(s.elems, x);
      WithoutSplit(s.elems, i);
      WithoutKeepsOthers(s.elems, x);
      OrderedSet(s.elems[..i] + s.elems[i + 1..])
  }

  /** `remove(element)`: like `discard`, but `KeyError` when it is absent. */
  function Remove<T(==)>(s: OrderedSet<T>, x: T): (r: Result<OrderedSet<T>>)
    requires Valid(s)
    ensures r.Err? <==> !Contains(s, x)
    ensures r.Err? ==> r.error == KeyError
    ensures r.Ok? ==> r.value == Discard(s, x) && Len(r.value) == Len(s) - 1
  {
    if x !in s.elems then Err(KeyError) else Ok(Discard(s, x))
  }

  /** Adding the elements of `xs` one by one. */
  function AddAll<T(==)>(s: OrderedSet<T>, xs: seq<T>): (r: OrderedSet<T>)
    requires Valid(s)
    ensures Valid(r)
    ensures forall y :: y in r.elems ==> y in s.elems || y in xs
    ensures forall y :: y in xs ==> y in r.elems
    ensures s.elems <= r.elems
    decreases xs
  {
    if xs == [] then s else AddAll(Add(s, xs[0]), xs[1..])
  }

  /** Discarding the elements of `xs` one by one. */
  function DiscardAll<T(==)>(s: OrderedSet<T>, xs: seq<T>): (r: OrderedSet<T>)
    requires Valid(s)
    ensures Valid(r)
    ensures forall y :: y in r.elems ==> y in s.elems && y !in xs
    ensures forall y :: y in s.elems && y !in xs ==> y in r.elems
    decreases xs
  {
    if xs == [] then s else DiscardAll(Discard(s, xs[0]), xs[1..])
  }

  /** `update(*iterables)`. */
  function Update<T(==)>(s: OrderedSet<T>, xss: seq<seq<T>>): (r: OrderedSet<T>)
    requires Valid(s)
    ensures Valid(r)
    ensures s.elems <= r.elems
    decreases xss
  {
    if xss == [] then s else Update(AddAll(s, xss[0]), xss[1..])
  }

  /** `difference_update(*iterables)`. */
  function DifferenceUpdate<T(==)>(s: OrderedSet<T>, xss: seq<seq<T>>): (r: OrderedSet<T>)
    requires Valid(s)
    ensures Valid(r)
    decreases xss
  {
    if xss == [] then s else DifferenceUpdate(DiscardAll(s, xss[0]), xss[1..])
  }

  /** `OrderedSet(iterable)`. */
  function FromSeq<T(==)>(xs: seq<T>): (r: OrderedSet<T>)
    ensures Valid(r)
  {
    Update(Empty(), [xs])
  }

  /** `==`: the backing `OrderedDict`s compare in order. */
  function Equal<T(==)>(a: OrderedSet<T>, b: OrderedSet<T>): bool {
    a.elems == b.elems
  }

  /** The length is the number of distinct elements. */
  lemma {:induction false} LenCountsDistinct<T>(s: OrderedSet<T>)
    requires Valid(s)
    ensures Len(s) == |Contents(s)|
    decreases |s.elems|
  {
    if s.elems != [] {
      var t := OrderedSet(s.elems[1..]);
      LenCountsDistinct(t);
      assert s.elems == [s.elems[0]] + t.elems;
      assert Contents(s) == {s.elems[0]} + Contents(t);
      assert s.elems[0] !in Contents(t);
    }
  }

  lemma {:induction false} AddAllAppend<T>(s: OrderedSet<T>, a: seq<T>, b: seq<T>)
    requires Valid(s)
    ensures AddAll(s, a + b) == AddAll(AddAll(s, a), b)
    decreases a
  {
    if a != [] {
      assert (a + b)[1..] == a[1..] + b;
      AddAllAppend(Add(s, a[0]), a[1..], b);
    } else {
      assert a + b == b;
    }
  }

  lemma {:induction false} DiscardAllAppend<T>(s: OrderedSet<T>, a: seq<T>, b: seq<T>)
    requires Valid(s)
    ensures DiscardAll(s, a + b) == DiscardAll(DiscardAll(s, a), b)
    decreases a
  {
    if a != [] {
      assert (a + b)[1..] == a[1..] + b;
      DiscardAllAppend(Discard(s, a[0]), a[1..], b);
    } else {
      assert a + b == b;
    }
  }

  /** `update` is `add` of every element of every iterable, in order. */
  lemma {:induction false} UpdateIsRepeatedAdd<T>(s: OrderedSet<T>, xss: seq<seq<T>>)
    requires Valid(s)
    ensures Update(s, xss) == AddAll(s, Concat(xss))
    decreases xss
  {
    if xss != [] {
      UpdateIsRepeatedAdd(AddAll(s, xss[0]), xss[1..]);
      AddAllAppend(s, xss[0], Concat(xss[1..]));
    }
  }

  /** `difference_update` is `discard` of every element of every iterable, in order. */
  lemma {:induction false} DifferenceUpdateIsRepeatedDiscard<T>(s: OrderedSet<T>, xss: seq<seq<T>>)
    requires Valid(s)
    ensures DifferenceUpdate(s, xss) == DiscardAll(s, Concat(xss))
    decreases xss
  {
    if xss != [] {
      DifferenceUpdateIsRepeatedDiscard(DiscardAll(s, xss[0]), xss[1..]);
      DiscardAllAppend(s, xss[0], Concat(xss[1..]));
    }
  }

  /** Adding elements keeps the old order and appends each new element at its
      first occurrence: iteration is in first-insertion order. */
  lemma {:induction false} AddAllKeepsFirstInsertionOrder<T>(s: OrderedSet<T>, xs: seq<T>)
    requires Valid(s)
    ensures AddAll(s, xs).elems == s.elems + KeepFirst(xs, s.elems)
    decreases xs
  {
    if xs != [] {
      var x, rest := xs[0], xs[1..];
      var s' := Add(s, x);
      AddAllKeepsFirstInsertionOrder(s', rest);
      assert AddAll(s, xs) == AddAll(s', rest);
      if x in s.elems {
        assert KeepFirst(xs, s.elems) == KeepFirst(rest, s.elems);
      } else {
        var k := KeepFirst(rest, s.elems + [x]);
        assert KeepFirst(xs, s.elems) == [x] + k;
        assert s'.elems == s.elems + [x];
        assert (s.elems + [x]) + k == s.elems + ([x] + k);
      }
    }
  }

  /** A set built from `xs` iterates its elements in order of first occurrence. */
  lemma FromSeqOrder<T>(xs: seq<T>)
    ensures FromSeq(xs).elems == KeepFirst(xs, [])
  {
    var e: OrderedSet<T> := Empty();
    AddAllKeepsFirstInsertionOrder(e, xs);
    assert Update(AddAll(e, xs), []) == AddAll(e, xs);
  }

  lemma KeepFirstPair<T>(x: T, y: T)
    requires x != y
    ensures KeepFirst([x, y], []) == [x, y]
  {
    assert [x, y][1..] == [y] && [y][1..] == [] && [] + [x] == [x];
    assert KeepFirst([y], [x]) == [y] + KeepFirst([], [x] + [y]);
  }

  /** Equality observes order, as the backing `OrderedDict`s do. */
  lemma OrderSensitiveEquality<T>(x: T, y: T)
    requires x != y
    ensures Contents(FromSeq([x, y])) == Contents(FromSeq([y, x]))
    ensures !Equal(FromSeq([x, y]), FromSeq([y, x]))
  {
    FromSeqOrder([x, y]);
    FromSeqOrder([y, x]);
    KeepFirstPair(x, y);
    KeepFirstPair(y, x);
  }
}
