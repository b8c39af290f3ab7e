/** The structural mappers: `MapperProxy`, `MappingMapper`, `IterableMapper`,
    `CompositeMapper` and `CollectionMapper`. A mapper walks N parallel trees
    element-wise and applies its next mapper where they stop being containers.

    The next mapper is a Python callable that may act on the world (a
    composite variable's setter writes variables), so it is modelled as a
    function of a state `S` returning the next state. */
module Mappers {
  import opened Errors
  import opened Dicts
  import opened Zippers
  import opened Trees
  import Containers

  /** The sub-mappers of a composite; each one's own next mapper is the
      composite itself, as in `CollectionMapper`. */
  datatype SubMapper = MappingMapper | IterableMapper

  /** A user mapper function called on the leaves: the state and the parallel
      objects in, the next state and the result (or what it raised) out. */
  type MapperFunction<!S, !A> = (S, seq<Tree<A>>) -> (S, Result<Tree<A>>)

  /** `CompositeMapper(next_mapper, mappers)`; `next = None` is a proxy with
      nothing behind it. */
  datatype CompositeMapper<!S, !A> = CompositeMapper(next: Option<MapperFunction<S, A>>, mappers: seq<SubMapper>)

  /** `CollectionMapper(next_mapper)`: the mapping mapper first, then the iterable one. */
  function CollectionMapper<S, A>(next: Option<MapperFunction<S, A>>): (c: CompositeMapper<S, A>)
    ensures c.next == next && c.mappers == [MappingMapper, IterableMapper]
  {
    CompositeMapper(next, [MappingMapper, IterableMapper])
  }

  /** `CompositeMapper.add(*mappers)`: appends to the sub-mappers. */
  function Add<S, A>(c: CompositeMapper<S, A>, ms: seq<SubMapper>): (r: CompositeMapper<S, A>)
    ensures r.next == c.next && r.mappers == c.mappers + ms
  {
    c.(mappers := c.mappers + ms)
  }

  /** `MappingMapper.maps` (every object is a mapping) and `IterableMapper.maps`
      (every object is iterable). */
  predicate SubMaps<A>(m: SubMapper, objs: seq<Tree<A>>) {
    match m
    case MappingMapper => forall i | 0 <= i < |objs| :: IsMapping(objs[i])
    case IterableMapper => forall i | 0 <= i < |objs| :: IsIterable(objs[i])
  }

  /** `MapperProxy.maps` with a function (or nothing) as next mapper. */
  predicate ProxyMaps<S, A>(c: CompositeMapper<S, A>) {
    c.next.Some?
  }

  /** `CompositeMapper.maps`: some sub-mapper maps the objects, or the proxy does. */
  predicate Maps<S, A>(c: CompositeMapper<S, A>, objs: seq<Tree<A>>) {
    (exists i | 0 <= i < |c.mappers| :: SubMaps(c.mappers[i], objs)) || ProxyMaps(c)
  }

  /** `_ensure_maps`: nothing when the objects can be mapped, `TypeError` otherwise. */
  function EnsureMaps<S, A>(c: CompositeMapper<S, A>, objs: seq<Tree<A>>): (r: Result<()>)
    ensures r.Ok? <==> Maps(c, objs)
    ensures r.Err? ==> r.error == TypeError
  {
    if Maps(c, objs) then Ok(()) else Err(TypeError)
  }

  /** `MapperProxy.__call__`: `ValueError` without a next mapper, otherwise
      the next mapper's call. */
  function ProxyCall<S, A>(c: CompositeMapper<S, A>, s: S, objs: seq<Tree<A>>): (r: (S, Result<Tree<A>>))
    ensures c.next.None? ==> r == (s, Err(ValueError))
    ensures c.next.Some? ==> r == c.next.value(s, objs)
  {
    match c.next
    case None => (s, Err(ValueError))
    case Some(f) => f(s, objs)
  }

  /** The first sub-mapper, in order, whose `maps` holds. */
  function FirstMatch<A>(ms: seq<SubMapper>, objs: seq<Tree<A>>): (r: Option<nat>)
    ensures r.Some? ==> r.value < |ms| && SubMaps(ms[r.value], objs)
    ensures r.Some? ==> forall i :: 0 <= i < r.value ==> !SubMaps(ms[i], objs)
    ensures r.None? <==> forall i :: 0 <= i < |ms| ==> !SubMaps(ms[i], objs)
  {
    if ms == [] then None
    else if SubMaps(ms[0], objs) then Some(0)
    else
      var r := FirstMatch(ms[1..], objs);
      assert forall i :: 1 <= i < |ms| ==> ms[i] == ms[1..][i - 1];
      if r.Some? then Some(r.value + 1) else None
  }

  /** The recursion measure: the depth of the destination object. */
  function Measure<A>(objs: seq<Tree<A>>): nat {
    if objs == [] then 0 else Depth(objs[0])
  }

  /** `CompositeMapper.__call__(*objs)`: `_ensure_maps`, then the first
      sub-mapper that maps the objects, else the proxy's next mapper. */
  function Apply<S, A(==)>(c: CompositeMapper<S, A>, s: S, objs: seq<Tree<A>>): (r: (S, Result<Tree<A>>))
    ensures !Maps(c, objs) ==> r == (s, Err(TypeError))
    decreases Measure(objs), 2
  {
    if !Maps(c, objs) then (s, Err(TypeError))
    else
      match FirstMatch(c.mappers, objs)
      case Some(i) =>
        if c.mappers[i].MappingMapper? then ApplyMapping(c, s, objs) else ApplyIterable(c, s, objs)
      case None => ProxyCall(c, s, objs)
  }

  /** The `entries` of every object, all of which are mappings. */
  function EntriesOf<A>(objs: seq<Tree<A>>): (ms: seq<seq<(string, Tree<A>)>>)
    requires forall i :: 0 <= i < |objs| ==> objs[i].Dict?
    ensures |ms| == |objs| && forall j :: 0 <= j < |objs| ==> ms[j] == objs[j].entries
  {
    seq(|objs|, j requires 0 <= j < |objs| => objs[j].entries)
  }

  /** The `items` of every object, all of which are lists, tuples or sets. */
  function ItemsOf<A>(objs: seq<Tree<A>>): (ss: seq<seq<Tree<A>>>)
    requires forall i :: 0 <= i < |objs| ==> IsCollection(objs[i])
    ensures |ss| == |objs| && forall j :: 0 <= j < |objs| && IsCollection(objs[j]) ==> ss[j] == objs[j].items
  {
    seq(|objs|, j requires 0 <= j < |objs| && IsCollection(objs[j]) => objs[j].items)
  }

  /** `MappingMapper.__call__(dst, *srcs)`: a `dict` of the composite applied to
      each key's values, over the keys common to all objects (`TypeError` when
      called without a destination). */
  function ApplyMapping<S, A(==)>(c: CompositeMapper<S, A>, s: S, objs: seq<Tree<A>>): (r: (S, Result<Tree<A>>))
    requires SubMaps(MappingMapper, objs)
    ensures objs == [] ==> r == (s, Err(TypeError))
    ensures r.1.Ok? ==> objs != [] && r.1.value.Dict?
    ensures r.1.Ok? ==> forall k :: k in KeysOf(r.1.value.entries) <==> InAll(k, EntriesOf(objs))
    decreases Measure(objs), 1
  {
    if objs == [] then (s, Err(TypeError))
    else
      var zs := MappingZipper(EntriesOf(objs)).value;
      ZippedValuesShallower(objs);
      var r := MapEntries(c, s, zs, Measure(objs));
      assert r.1.Ok? ==> KeysOf(r.1.value) == KeysOf(zs) by {
        if r.1.Ok? { SameKeys(r.1.value, zs); }
      }
      AsDict(r)
  }

  /** Entries with the same key at every position have the same keys. */
  lemma SameKeys<V, W>(es: seq<(string, V)>, zs: seq<(string, W)>)
    requires |es| == |zs| && forall i :: 0 <= i < |zs| ==> es[i].0 == zs[i].0
    ensures KeysOf(es) == KeysOf(zs)
  {
  }

  /** The values zipped under a key are shallower than the dicts they come from. */
  lemma ZippedValuesShallower<A>(objs: seq<Tree<A>>)
    requires objs != [] && SubMaps(MappingMapper, objs)
    ensures MappingZipper(EntriesOf(objs)).Ok?
    ensures var zs := MappingZipper(EntriesOf(objs)).value;
      forall i :: 0 <= i < |zs| ==> Measure(zs[i].1) < Measure(objs)
  {
    var ms := EntriesOf(objs);
    var zs := MappingZipper(ms).value;
    forall i | 0 <= i < |zs| ensures Measure(zs[i].1) < Measure(objs) {
      assert zs[i].1[0] == Get(ms[0], zs[i].0);
      ValueIsShallower(objs[0], zs[i].0);
    }
  }

  /** A mapping call is the zip of the objects' entries, mapped entry by entry. */
  lemma ApplyMappingUnfolds<S, A>(c: CompositeMapper<S, A>, s: S, objs: seq<Tree<A>>)
    requires objs != [] && SubMaps(MappingMapper, objs)
    ensures MappingZipper(EntriesOf(objs)).Ok?
    ensures var zs := MappingZipper(EntriesOf(objs)).value;
      (forall i :: 0 <= i < |zs| ==> Measure(zs[i].1) < Measure(objs)) &&
      ApplyMapping(c, s, objs) == AsDict(MapEntries(c, s, zs, Measure(objs)))
  {
    ZippedValuesShallower(objs);
  }

  /** The mapped entries rebuilt as a dict, or the exception that stopped them. */
  function AsDict<S, A>(r: (S, Result<seq<(string, Tree<A>)>>)): (S, Result<Tree<A>>) {
    if r.1.Err? then (r.0, Err(r.1.error)) else (r.0, Ok(Dict(r.1.value)))
  }

  /** The `dict(...)` generator of `MappingMapper`: one recursive call per key,
      in order, stopping at the first exception. */
  function MapEntries<S, A(==)>(c: CompositeMapper<S, A>, s: S, zs: seq<(string, seq<Tree<A>>)>, bound: nat): (r: (S, Result<seq<(string, Tree<A>)>>))
    requires forall i :: 0 <= i < |zs| ==> Measure(zs[i].1) < bound
    ensures r.1.Ok? ==> |r.1.value| == |zs| && forall i :: 0 <= i < |zs| ==> r.1.value[i].0 == zs[i].0
    decreases bound, 0, |zs|
  {
    if zs == [] then (s, Ok([]))
    else
      var (s1, v) := Apply(c, s, zs[0].1);
      if v.Err? then (s1, Err(v.error))
      else
        var (s2, rest) := MapEntries(c, s1, zs[1..], bound);
        if rest.Err? then (s2, rest)
        else
          (s2, Ok([(zs[0].0, v.value)] + rest.value))
  }

  /** `IterableMapper.__call__(dst, *srcs)`: the composite applied to each
      position of the zipped objects, rebuilt as the destination's container
      type. A string or dict among the objects is zipped by character or by
      key, and a first object that is no list, tuple or set is rebuilt as a
      lazy `iter`; the model does not describe either. */
  function ApplyIterable<S, A(==)>(c: CompositeMapper<S, A>, s: S, objs: seq<Tree<A>>): (r: (S, Result<Tree<A>>))
    requires SubMaps(IterableMapper, objs)
    ensures objs == [] ==> r == (s, Err(TypeError))
    ensures objs != [] && (exists i :: 0 <= i < |objs| && !IsCollection(objs[i])) ==> r == (s, Err(NotModelled))
    ensures r.1.Ok? ==> objs != [] && IsCollection(objs[0])
    ensures r.1.Ok? && objs[0].List? ==> r.1.value.List? && |r.1.value.items| == MinLen(ItemsOf(objs))
    ensures r.1.Ok? && objs[0].Tuple? ==> r.1.value.Tuple? && |r.1.value.items| == MinLen(ItemsOf(objs))
    ensures r.1.Ok? && objs[0].Set? ==> r.1.value.Set? && Containers.Distinct(r.1.value.items)
    decreases Measure(objs), 1
  {
    if objs == [] then (s, Err(TypeError))
    else if exists i | 0 <= i < |objs| :: !IsCollection(objs[i]) then (s, Err(NotModelled))
    else
      var ts := IterableZipper(ItemsOf(objs));
      assert forall i :: 0 <= i < |ts| ==> |ts[i]| > 0 && Measure(ts[i]) < Measure(objs) by {
        forall i | 0 <= i < |ts| ensures |ts[i]| > 0 && Measure(ts[i]) < Measure(objs) {
          assert ts[i][0] == objs[0].items[i];
          ItemIsShallower(objs[0], i);
        }
      }
      AsCollection(objs[0], MapItems(c, s, ts, Measure(objs), objs[0].Set?))
  }

  /** The mapped items rebuilt as the same kind of container as `dst`, or the
      exception that stopped them; a set keeps the first of equal elements. */
  function AsCollection<S, A(==)>(dst: Tree<A>, r: (S, Result<seq<Tree<A>>>)): (S, Result<Tree<A>>)
    requires IsCollection(dst)
  {
    if r.1.Err? then (r.0, Err(r.1.error))
    else
      match dst
      case List(_) => (r.0, Ok(List(r.1.value)))
      case Tuple(_) => (r.0, Ok(Tuple(r.1.value)))
      case Set(_) => (r.0, Ok(Set(Containers.FromSeq(r.1.value).elems)))
  }

  /** An iterable call on containers is their zip, mapped position by position. */
  lemma ApplyIterableUnfolds<S, A>(c: CompositeMapper<S, A>, s: S, objs: seq<Tree<A>>)
    requires objs != [] && forall i :: 0 <= i < |objs| ==> IsCollection(objs[i])
    ensures SubMaps(IterableMapper, objs)
    ensures var ts := IterableZipper(ItemsOf(objs));
      (forall i :: 0 <= i < |ts| ==> Measure(ts[i]) < Measure(objs)) &&
      ApplyIterable(c, s, objs) == AsCollection(objs[0], MapItems(c, s, ts, Measure(objs), objs[0].Set?))
  {
    var ts := IterableZipper(ItemsOf(objs));
    forall i | 0 <= i < |ts| ensures Measure(ts[i]) < Measure(objs) {
      assert ts[i][0] == objs[0].items[i];
      ItemIsShallower(objs[0], i);
    }
  }

  /** The `list(...)`, `tuple(...)` or `set(...)` generator of `IterableMapper`:
      one recursive call per position, stopping at the first exception; a set
      also hashes each result as it is added. */
  function MapItems<S, A(==)>(c: CompositeMapper<S, A>, s: S, ts: seq<seq<Tree<A>>>, bound: nat, hashed: bool): (r: (S, Result<seq<Tree<A>>>))
    requires forall i :: 0 <= i < |ts| ==> Measure(ts[i]) < bound
    ensures r.1.Ok? ==> |r.1.value| == |ts|
    ensures r.1.Ok? && hashed ==> forall i :: 0 <= i < |ts| ==> Hashable(r.1.value[i])
    decreases bound, 0, |ts|
  {
    if ts == [] then (s, Ok([]))
    else
      var (s1, v) := Apply(c, s, ts[0]);
      if v.Err? then (s1, Err(v.error))
      else if hashed && !Hashable(v.value) then (s1, Err(TypeError))
      else
        var (s2, rest) := MapItems(c, s1, ts[1..], bound, hashed);
        if rest.Err? then (s2, rest)
        else (s2, Ok([v.value] + rest.value))
  }

  // ----- Dispatch -----

  /** A proxy without a next mapper maps nothing, and calling it raises `ValueError`. */
  lemma ProxyWithoutNextMapsNothing<S, A>(c: CompositeMapper<S, A>, s: S, objs: seq<Tree<A>>)
    requires c.next.None?
    ensures !ProxyMaps(c)
    ensures ProxyCall(c, s, objs) == (s, Err(ValueError))
  {
  }

  /** `CollectionMapper` tries `MappingMapper` first: mappings always go to it,
      never to `IterableMapper` (for which a dict is iterable too), and the
      result is a dict over exactly the keys every mapping has. */
  lemma MappingTriedFirst<S, A>(next: Option<MapperFunction<S, A>>, s: S, objs: seq<Tree<A>>)
    requires objs != [] && forall i :: 0 <= i < |objs| ==> objs[i].Dict?
    ensures Apply(CollectionMapper(next), s, objs) == ApplyMapping(CollectionMapper(next), s, objs)
    ensures var r := Apply(CollectionMapper(next), s, objs).1;
      r.Ok? ==> r.value.Dict? && forall k :: k in KeysOf(r.value.entries) <==> InAll(k, EntriesOf(objs))
  {
    var c := CollectionMapper(next);
    assert SubMaps(c.mappers[0], objs);
    assert FirstMatch(c.mappers, objs) == Some(0);
    MappedDictKeys(c, s, objs);
  }

  /** A mapping call that returns yields a dict over the keys common to all. */
  lemma MappedDictKeys<S, A>(c: CompositeMapper<S, A>, s: S, objs: seq<Tree<A>>)
    requires objs != [] && SubMaps(MappingMapper, objs)
    ensures var r := ApplyMapping(c, s, objs).1;
      r.Ok? ==> r.value.Dict? && forall k :: k in KeysOf(r.value.entries) <==> InAll(k, EntriesOf(objs))
  {
    ApplyMappingUnfolds(c, s, objs);
    var ms := EntriesOf(objs);
    var zs := MappingZipper(ms).value;
    var r := MapEntries(c, s, zs, Measure(objs)).1;
    if r.Ok? {
      assert KeysOf(r.value) == KeysOf(zs);
      forall k ensures k in KeysOf(r.value) <==> InAll(k, ms) {
        if InAll(k, ms) { assert k in KeysOf(ms[0]); }
      }
    }
  }

  /** Lists, tuples and sets that are not all mappings go to `IterableMapper`,
      which rebuilds the destination's container type, truncated to the
      shortest input for lists and tuples, without duplicates for sets. */
  lemma IterableRebuildsSameContainer<S, A>(next: Option<MapperFunction<S, A>>, s: S, objs: seq<Tree<A>>)
    requires objs != [] && forall i :: 0 <= i < |objs| ==> IsCollection(objs[i])
    ensures SubMaps(IterableMapper, objs) && Apply(CollectionMapper(next), s, objs) == ApplyIterable(CollectionMapper(next), s, objs)
    ensures var r := Apply(CollectionMapper(next), s, objs).1;
      r.Ok? ==>
        (objs[0].List? ==> r.value.List? && |r.value.items| == MinLen(ItemsOf(objs))) &&
        (objs[0].Tuple? ==> r.value.Tuple? && |r.value.items| == MinLen(ItemsOf(objs))) &&
        (objs[0].Set? ==> r.value.Set? && Containers.Distinct(r.value.items))
  {
    var c := CollectionMapper(next);
    assert !SubMaps(c.mappers[0], objs) by {
      assert !IsMapping(objs[0]);
    }
    assert SubMaps(c.mappers[1], objs) by {
      forall i | 0 <= i < |objs| ensures IsIterable(objs[i]) { assert IsCollection(objs[i]); }
    }
    assert FirstMatch(c.mappers[1..], objs) == Some(0);
    assert FirstMatch(c.mappers, objs) == Some(1);
  }

  /** Where some object is a leaf, neither sub-mapper applies: the call goes
      to the next mapper, and without one `_ensure_maps` raises `TypeError`. */
  lemma LeafGoesToNextMapper<S, A>(next: Option<MapperFunction<S, A>>, s: S, objs: seq<Tree<A>>, j: nat)
    requires j < |objs| && objs[j].Leaf?
    ensures next.None? ==> Apply(CollectionMapper(next), s, objs) == (s, Err(TypeError))
    ensures next.Some? ==> Apply(CollectionMapper(next), s, objs) == next.value(s, objs)
  {
    var c := CollectionMapper(next);
    assert !SubMaps(c.mappers[0], objs) by { assert !IsMapping(objs[j]); }
    assert !SubMaps(c.mappers[1], objs) by { assert !IsIterable(objs[j]); }
    assert FirstMatch(c.mappers[1..], objs) == None;
    assert FirstMatch(c.mappers, objs) == None;
  }

  /** Adding sub-mappers never makes objects unmappable. */
  lemma AddKeepsMaps<S, A>(c: CompositeMapper<S, A>, ms: seq<SubMapper>, objs: seq<Tree<A>>)
    requires Maps(c, objs)
    ensures Maps(Add(c, ms), objs)
  {
    if !ProxyMaps(c) {
      var i :| 0 <= i < |c.mappers| && SubMaps(c.mappers[i], objs);
      assert Add(c, ms).mappers[i] == c.mappers[i];
    }
  }

  // ----- Trees that follow one another -----

  /** `b` has the containers of `a` down to `a`'s leaves: dicts with the same
      keys, lists (or tuples) of the same length; where `a` has a leaf, `b`
      may hold anything. */
  ghost predicate Follows<A>(a: Tree<A>, b: Tree<A>)
    decreases a
  {
    match a
    case Leaf(_) => true
    case Dict(es) =>
      b.Dict? && UniqueKeys(es) && UniqueKeys(b.entries) &&
      (forall k :: k in KeysOf(b.entries) ==> k in KeysOf(es)) &&
      forall i | 0 <= i < |es| :: es[i].0 in KeysOf(b.entries) && Follows(es[i].1, Get(b.entries, es[i].0))
    case List(xs) => b.List? && |xs| == |b.items| && forall i | 0 <= i < |xs| :: Follows(xs[i], b.items[i])
    case Tuple(xs) => b.Tuple? && |xs| == |b.items| && forall i | 0 <= i < |xs| :: Follows(xs[i], b.items[i])
    case _ => false
  }

  // ----- Aligned trees -----

  /** At least one tree, and every tree follows the first. */
  ghost predicate Aligned<A>(objs: seq<Tree<A>>) {
    objs != [] && forall j :: 0 <= j < |objs| ==> Follows(objs[0], objs[j])
  }

  /** A tree that another tree follows follows itself. */
  lemma {:induction false} FollowsItself<A>(a: Tree<A>, b: Tree<A>)
    requires Follows(a, b)
    ensures Follows(a, a)
    decreases a
  {
    match a
    case Leaf(_) =>
    case Dict(es) =>
      forall i | 0 <= i < |es| ensures es[i].0 in KeysOf(es) && Follows(es[i].1, Get(es, es[i].0)) {
        GetEntry(es, i);
        FollowsItself(es[i].1, Get(b.entries, es[i].0));
      }
    case List(xs) =>
      forall i | 0 <= i < |xs| ensures Follows(xs[i], xs[i]) { FollowsItself(xs[i], b.items[i]); }
    case Tuple(xs) =>
      forall i | 0 <= i < |xs| ensures Follows(xs[i], xs[i]) { FollowsItself(xs[i], b.items[i]); }
  }

  /** The value under key `k` in each of the dicts. */
  function Under<A>(objs: seq<Tree<A>>, k: string): (col: seq<Tree<A>>)
    requires forall j :: 0 <= j < |objs| ==> objs[j].Dict? && k in KeysOf(objs[j].entries)
    ensures |col| == |objs| && forall j :: 0 <= j < |objs| ==> col[j] == Get(objs[j].entries, k)
  {
    seq(|objs|, j requires 0 <= j < |objs| => Get(objs[j].entries, k))
  }

  /** The item at position `i` in each of the containers. */
  function At<A>(objs: seq<Tree<A>>, i: nat): (col: seq<Tree<A>>)
    requires forall j :: 0 <= j < |objs| ==> IsCollection(objs[j]) && i < |objs[j].items|
    ensures |col| == |objs|
    ensures forall j :: 0 <= j < |objs| ==> IsCollection(objs[j]) && col[j] == objs[j].items[i]
  {
    seq(|objs|, j requires 0 <= j < |objs| && IsCollection(objs[j]) && i < |objs[j].items| => objs[j].items[i])
  }

  /** Aligned dicts all have the keys of the first; the values under its
      `i`-th key are aligned and shallower. */
  lemma UnderAligned<A>(objs: seq<Tree<A>>, i: nat)
    requires Aligned(objs) && objs[0].Dict? && i < |objs[0].entries|
    ensures forall j :: 0 <= j < |objs| ==> objs[j].Dict? && objs[0].entries[i].0 in KeysOf(objs[j].entries)
    ensures var col := Under(objs, objs[0].entries[i].0);
      Aligned(col) && col[0] == objs[0].entries[i].1 && Depth(col[0]) < Depth(objs[0])
  {
    var es := objs[0].entries;
    assert forall j :: 0 <= j < |objs| ==> Follows(objs[0], objs[j]);
    var col := Under(objs, es[i].0);
    GetEntry(es, i);
    EntryIsShallower(objs[0], i);
  }

  /** Aligned lists (or tuples) are all lists (or tuples) of one length; their
      items at position `i` are aligned and shallower. */
  lemma AtAligned<A>(objs: seq<Tree<A>>, i: nat)
    requires Aligned(objs) && (objs[0].List? || objs[0].Tuple?) && i < |objs[0].items|
    ensures forall j :: 0 <= j < |objs| ==> IsCollection(objs[j]) && |objs[j].items| == |objs[0].items|
    ensures var col := At(objs, i);
      Aligned(col) && col[0] == objs[0].items[i] && Depth(col[0]) < Depth(objs[0])
  {
    assert forall j :: 0 <= j < |objs| ==> Follows(objs[0], objs[j]);
    ItemIsShallower(objs[0], i);
  }

  /** Reference walk over aligned trees: the leaves are handed to `g`
      position by position, in the first tree's order, threading the state
      and stopping at the first exception; the containers are rebuilt as the
      first tree's. */
  function Walk<S, A>(g: MapperFunction<S, A>, s: S, objs: seq<Tree<A>>): (r: (S, Result<Tree<A>>))
    requires Aligned(objs)
    ensures objs[0].Leaf? ==> r == g(s, objs)
    ensures r.1.Ok? && objs[0].Dict? ==> r.1.value.Dict? && |r.1.value.entries| == |objs[0].entries|
    ensures r.1.Ok? && objs[0].List? ==> r.1.value.List? && |r.1.value.items| == |objs[0].items|
    ensures r.1.Ok? && objs[0].Tuple? ==> r.1.value.Tuple? && |r.1.value.items| == |objs[0].items|
    decreases Depth(objs[0]), 1
  {
    match objs[0]
    case Leaf(_) => g(s, objs)
    case Dict(es) =>
      var (s1, r) := WalkEntries(g, s, objs, 0);
      (s1, if r.Err? then Err(r.error) else Ok(Dict(r.value)))
    case List(_) =>
      var (s1, r) := WalkItems(g, s, objs, 0);
      (s1, if r.Err? then Err(r.error) else Ok(List(r.value)))
    case Tuple(_) =>
      var (s1, r) := WalkItems(g, s, objs, 0);
      (s1, if r.Err? then Err(r.error) else Ok(Tuple(r.value)))
  }

  /** The walk over the entries of aligned dicts from the `i`-th key of the first on. */
  function WalkEntries<S, A>(g: MapperFunction<S, A>, s: S, objs: seq<Tree<A>>, i: nat): (r: (S, Result<seq<(string, Tree<A>)>>))
    requires Aligned(objs) && objs[0].Dict? && i <= |objs[0].entries|
    ensures r.1.Ok? ==> |r.1.value| == |objs[0].entries| - i
    decreases Depth(objs[0]), 0, |objs[0].entries| - i
  {
    var es := objs[0].entries;
    if i == |es| then (s, Ok([]))
    else
      UnderAligned(objs, i);
      var (s1, v) := Walk(g, s, Under(objs, es[i].0));
      if v.Err? then (s1, Err(v.error))
      else
        var (s2, rest) := WalkEntries(g, s1, objs, i + 1);
        if rest.Err? then (s2, rest) else (s2, Ok([(es[i].0, v.value)] + rest.value))
  }

  /** The walk over the items of aligned lists or tuples from position `i` on. */
  function WalkItems<S, A>(g: MapperFunction<S, A>, s: S, objs: seq<Tree<A>>, i: nat): (r: (S, Result<seq<Tree<A>>>))
    requires Aligned(objs) && (objs[0].List? || objs[0].Tuple?) && i <= |objs[0].items|
    ensures r.1.Ok? ==> |r.1.value| == |objs[0].items| - i
    decreases Depth(objs[0]), 0, |objs[0].items| - i
  {
    if i == |objs[0].items| then (s, Ok([]))
    else
      AtAligned(objs, i);
      var (s1, v) := Walk(g, s, At(objs, i));
      if v.Err? then (s1, Err(v.error))
      else
        var (s2, rest) := WalkItems(g, s1, objs, i + 1);
        if rest.Err? then (s2, rest) else (s2, Ok([v.value] + rest.value))
  }

  /** `CollectionMapper(g)` over aligned trees is the reference walk: it
      descends through dicts, lists and tuples in lockstep and calls `g` once
      per leaf position, in the first tree's order, threading `g`'s state. */
  lemma {:induction false} AlignedMapsLeafwise<S, A>(g: MapperFunction<S, A>, s: S, objs: seq<Tree<A>>)
    requires Aligned(objs)
    ensures Apply(CollectionMapper(Some(g)), s, objs) == Walk(g, s, objs)
    decreases Depth(objs[0]), 1
  {
    var c := CollectionMapper(Some(g));
    match objs[0]
    case Leaf(_) =>
      LeafGoesToNextMapper(Some(g), s, objs, 0);
    case Dict(es) =>
      var zs := ZipAligned(objs);
      MappingTriedFirst(Some(g), s, objs);
      ApplyMappingUnfolds(c, s, objs);
      MapEntriesWalk(g, s, objs, zs, 0);
      assert zs[0..] == zs;
    case List(_) =>
      var ts := ZipAlignedItems(objs);
      IterableRebuildsSameContainer(Some(g), s, objs);
      ApplyIterableUnfolds(c, s, objs);
      MapItemsWalk(g, s, objs, ts, 0);
      assert ts[0..] == ts;
    case Tuple(_) =>
      var ts := ZipAlignedItems(objs);
      IterableRebuildsSameContainer(Some(g), s, objs);
      ApplyIterableUnfolds(c, s, objs);
      MapItemsWalk(g, s, objs, ts, 0);
      assert ts[0..] == ts;
  }

  /** Zipping aligned dicts gives, for each key of the first in order, the
      values under it. */
  lemma ZipAligned<A>(objs: seq<Tree<A>>) returns (zs: seq<(string, seq<Tree<A>>)>)
    requires Aligned(objs) && objs[0].Dict?
    ensures SubMaps(MappingMapper, objs) && MappingZipper(EntriesOf(objs)) == Ok(zs)
    ensures |zs| == |objs[0].entries|
    ensures forall i :: 0 <= i < |zs| ==> zs[i].0 == objs[0].entries[i].0
    ensures forall i :: 0 <= i < |zs| ==> UnderFacts(objs, i) && zs[i].1 == Under(objs, zs[i].0)
  {
    var es := objs[0].entries;
    KeysCommonToAligned(objs);
    var ms := EntriesOf(objs);
    zs := MappingZipper(ms).value;
    assert KeysOf(zs) == KeysOf(es);
    forall i | 0 <= i < |zs| ensures zs[i].0 == es[i].0 && zs[i].1 == Under(objs, zs[i].0) {
      assert zs[i].0 == KeysOf(zs)[i];
    }
  }

  /** Aligned dicts share every key of the first. */
  lemma KeysCommonToAligned<A>(objs: seq<Tree<A>>)
    requires Aligned(objs) && objs[0].Dict?
    ensures forall j :: 0 <= j < |objs| ==> objs[j].Dict?
    ensures forall i :: 0 <= i < |objs[0].entries| ==> UnderFacts(objs, i)
    ensures Common(KeysOf(objs[0].entries), EntriesOf(objs)) == KeysOf(objs[0].entries)
  {
    var es := objs[0].entries;
    assert forall j :: 0 <= j < |objs| ==> objs[j].Dict? by {
      assert forall j :: 0 <= j < |objs| ==> Follows(objs[0], objs[j]);
    }
    var ms := EntriesOf(objs);
    var ks := KeysOf(es);
    forall i | 0 <= i < |es| ensures UnderFacts(objs, i) && InAll(ks[i], ms) {
      UnderAligned(objs, i);
    }
    CommonAll(ks, ms);
  }

  /** The conclusions of `UnderAligned`, as one fact. */
  ghost predicate UnderFacts<A>(objs: seq<Tree<A>>, i: nat) {
    objs != [] && objs[0].Dict? && i < |objs[0].entries| &&
    (forall j :: 0 <= j < |objs| ==> objs[j].Dict? && objs[0].entries[i].0 in KeysOf(objs[j].entries)) &&
    var col := Under(objs, objs[0].entries[i].0);
    Aligned(col) && col[0] == objs[0].entries[i].1 && Depth(col[0]) < Depth(objs[0])
  }

  /** Zipping aligned lists or tuples gives, for each position, the items there. */
  lemma ZipAlignedItems<A>(objs: seq<Tree<A>>) returns (ts: seq<seq<Tree<A>>>)
    requires Aligned(objs) && (objs[0].List? || objs[0].Tuple?)
    ensures forall j :: 0 <= j < |objs| ==> IsCollection(objs[j]) && |objs[j].items| == |objs[0].items|
    ensures ts == IterableZipper(ItemsOf(objs)) && |ts| == |objs[0].items|
    ensures forall i :: 0 <= i < |ts| ==> AtFacts(objs, i) && ts[i] == At(objs, i)
  {
    assert forall j :: 0 <= j < |objs| ==> Follows(objs[0], objs[j]);
    var ss := ItemsOf(objs);
    ts := IterableZipper(ss);
    assert MinLen(ss) == |objs[0].items| by {
      var j :| 0 <= j < |ss| && MinLen(ss) == |ss[j]|;
    }
    forall i | 0 <= i < |ts| ensures AtFacts(objs, i) && ts[i] == At(objs, i) {
      AtAligned(objs, i);
    }
  }

  /** The conclusions of `AtAligned`, as one fact. */
  ghost predicate AtFacts<A>(objs: seq<Tree<A>>, i: nat) {
    objs != [] && (objs[0].List? || objs[0].Tuple?) && i < |objs[0].items| &&
    (forall j :: 0 <= j < |objs| ==> IsCollection(objs[j]) && i < |objs[j].items|) &&
    var col := At(objs, i);
    Aligned(col) && col[0] == objs[0].items[i] && Depth(col[0]) < Depth(objs[0])
  }

  /** `MapEntries` over the zip of aligned dicts is the reference walk. */
  lemma {:induction false} MapEntriesWalk<S, A>(g: MapperFunction<S, A>, s: S, objs: seq<Tree<A>>, zs: seq<(string, seq<Tree<A>>)>, i: nat)
    requires Aligned(objs) && objs[0].Dict? && |zs| == |objs[0].entries| && i <= |zs|
    requires forall n :: 0 <= n < |zs| ==> zs[n].0 == objs[0].entries[n].0
    requires forall n :: 0 <= n < |zs| ==> UnderFacts(objs, n) && zs[n].1 == Under(objs, zs[n].0)
    ensures forall n :: 0 <= n < |zs[i..]| ==> Measure(zs[i..][n].1) < Depth(objs[0])
    ensures MapEntries(CollectionMapper(Some(g)), s, zs[i..], Depth(objs[0])) == WalkEntries(g, s, objs, i)
    decreases Depth(objs[0]), 0, |zs| - i
  {
    assert forall n :: 0 <= n < |zs[i..]| ==> zs[i..][n] == zs[i + n];
    if i < |zs| {
      assert UnderFacts(objs, i);
      AlignedMapsLeafwise(g, s, zs[i].1);
      var s1 := Walk(g, s, zs[i].1).0;
      MapEntriesWalk(g, s1, objs, zs, i + 1);
      assert zs[i..][1..] == zs[i + 1..];
    }
  }

  /** `MapItems` over the zip of aligned lists or tuples is the reference walk. */
  lemma {:induction false} MapItemsWalk<S, A>(g: MapperFunction<S, A>, s: S, objs: seq<Tree<A>>, ts: seq<seq<Tree<A>>>, i: nat)
    requires Aligned(objs) && (objs[0].List? || objs[0].Tuple?) && |ts| == |objs[0].items| && i <= |ts|
    requires forall n :: 0 <= n < |ts| ==> AtFacts(objs, n) && ts[n] == At(objs, n)
    ensures forall n :: 0 <= n < |ts[i..]| ==> Measure(ts[i..][n]) < Depth(objs[0])
    ensures MapItems(CollectionMapper(Some(g)), s, ts[i..], Depth(objs[0]), false) == WalkItems(g, s, objs, i)
    decreases Depth(objs[0]), 0, |ts| - i
  {
    assert forall n :: 0 <= n < |ts[i..]| ==> ts[i..][n] == ts[i + n];
    if i < |ts| {
      assert AtFacts(objs, i);
      AlignedMapsLeafwise(g, s, ts[i]);
      var s1 := Walk(g, s, ts[i]).0;
      MapItemsWalk(g, s1, objs, ts, i + 1);
      assert ts[i..][1..] == ts[i + 1..];
    }
  }

  /** When `b` follows `a` (in particular when the two have the same shape)
      the pair is aligned, so the mapper walks them in lockstep, handing each
      pair of corresponding leaves to `g`. */
  lemma PairMapsLeafwise<S, A>(g: MapperFunction<S, A>, s: S, a: Tree<A>, b: Tree<A>)
    requires Follows(a, b)
    ensures Aligned([a, b])
    ensures Apply(CollectionMapper(Some(g)), s, [a, b]) == Walk(g, s, [a, b])
  {
    FollowsItself(a, b);
    AlignedMapsLeafwise(g, s, [a, b]);
  }

  /** When every key is common, the common keys are all of them, in order. */
  lemma {:induction false} CommonAll<V>(ks: seq<string>, ms: seq<seq<(string, V)>>)
    requires forall i :: 0 <= i < |ks| ==> InAll(ks[i], ms)
    ensures Common(ks, ms) == ks
    decreases |ks|
  {
    if ks != [] {
      CommonAll(ks[1..], ms);
    }
  }
}
