/** Callbacks: duplicate-free, ordered sets of listeners called through the
    listener pipeline; children forked from them, optionally wrapped in a
    `FilteredCallback` (such as the every-n-th-call sampler); and the manager
    that creates one callback per reference on first access.

    Callback objects refer to one another, so they live in a `Hub` and are
    named by their position in it. User listeners and custom predicates are
    functions taken from an `Env`; they see the call's arguments and do not
    change the hub. */
module Callbacks {
  import opened Errors
  import opened Containers
  import Callables

  // ----- FrequencyPredicate -----

  /** `FrequencyPredicate(freq)`: the period (`None`: every call) and the
      number of calls counted since the predicate last held. */
  datatype FrequencyPredicate = FrequencyPredicate(freq: Option<int>, counter: int)

  /** A fresh predicate: nothing counted yet. */
  function NewFrequency(freq: Option<int>): (p: FrequencyPredicate)
    ensures p.freq == freq && p.counter == 0
  {
    FrequencyPredicate(freq, 0)
  }

  /** Python's `a % n` for `n != 0`: unlike Dafny's, the remainder takes
      the sign of the divisor. */
  function PyMod(a: int, n: int): (m: int)
    requires n != 0
    ensures n > 0 ==> 0 <= m < n && m == a % n
    ensures n < 0 ==> n < m <= 0
    ensures m == 0 <==> a % n == 0
  {
    var e := a % n;
    if n < 0 && e != 0 then e + n else e
  }

  /** `FrequencyPredicate.__call__`: counts the call, then holds, and starts
      counting afresh, when there is no period or the period divides the
      count. A zero period raises `ZeroDivisionError` after counting. */
  function Tick(p: FrequencyPredicate): (r: (FrequencyPredicate, Result<bool>))
    ensures r.0.freq == p.freq
    ensures r.1 == Ok(true) ==> r.0.counter == 0
    ensures r.1 != Ok(true) ==> r.0.counter == p.counter + 1
    ensures r.1.Err? <==> p.freq == Some(0)
    ensures r.1.Err? ==> r.1.error == ZeroDivisionError
    ensures p.freq.None? ==> r.1 == Ok(true)
    ensures p.freq.Some? && p.freq.value != 0 ==>
      (r.1 == Ok(true) <==> (p.counter + 1) % p.freq.value == 0)
  {
    var c := p.counter + 1;
    match p.freq
    case None => (p.(counter := 0), Ok(true))
    case Some(n) =>
      if n == 0 then (p.(counter := c), Err(ZeroDivisionError))
      else if PyMod(c, n) == 0 then (p.(counter := 0), Ok(true))
      else (p.(counter := c), Ok(false))
  }

  /** A negative period `-n` samples exactly as the period `n` does: the
      remainders differ in sign, but they are zero together. */
  lemma NegativePeriodActsAsPositive(n: int, c: int)
    requires n > 0
    ensures Tick(FrequencyPredicate(Some(-n), c)).1 == Tick(FrequencyPredicate(Some(n), c)).1
    ensures Tick(FrequencyPredicate(Some(-n), c)).0.counter == Tick(FrequencyPredicate(Some(n), c)).0.counter
  {
    DividesNegated(c + 1, n);
  }

  /** `n` divides `a` exactly when `-n` does. */
  lemma DividesNegated(a: int, n: int)
    requires n > 0
    ensures a % n == 0 <==> a % -n == 0
  {
    if a % n == 0 {
      assert a == n * (a / n);
      assert a == (-n) * (-(a / n));
    }
    if a % -n == 0 {
      assert a == (-n) * (a / -n);
      assert a == n * (-(a / -n));
    }
  }

  /** The answers to `k` calls in a row, and the predicate afterwards. */
  function Ticks(p: FrequencyPredicate, k: nat): (r: (FrequencyPredicate, seq<Result<bool>>))
    ensures |r.1| == k
    ensures r.0.freq == p.freq
    decreases k
  {
    if k == 0 then (p, [])
    else
      var (p1, b) := Tick(p);
      var (p2, bs) := Ticks(p1, k - 1);
      (p2, [b] + bs)
  }

  /** With period `n > 0`, a predicate that has counted `c` calls answers
      false to each further call until the count reaches `n`. */
  lemma {:induction false} CountsUpToPeriod(n: int, c: int, k: nat)
    requires n > 0 && 0 <= c && c + k < n
    ensures Ticks(FrequencyPredicate(Some(n), c), k) == (FrequencyPredicate(Some(n), c + k), seq(k, i => Ok(false)))
    decreases k
  {
    var p := FrequencyPredicate(Some(n), c);
    if k > 0 {
      assert PyMod(c + 1, n) == c + 1;
      var p1 := FrequencyPredicate(Some(n), c + 1);
      assert Tick(p) == (p1, Ok(false));
      CountsUpToPeriod(n, c + 1, k - 1);
      var rest: seq<Result<bool>> := seq(k - 1, i => Ok(false));
      assert Ticks(p1, k - 1) == (FrequencyPredicate(Some(n), c + k), rest);
      assert Ticks(p, k) == (FrequencyPredicate(Some(n), c + k), [Ok(false)] + rest);
      assert [Ok(false)] + rest == seq(k, i => Ok(false));
    } else {
      var none: seq<Result<bool>> := seq(k, i => Ok(false));
      assert none == [];
      assert Ticks(p, k) == (p, []);
    }
  }

  /** `FrequencyPredicate(n)` with `n > 0` holds on exactly every n-th call:
      from a fresh predicate, `n` calls answer `n - 1` times false, then true,
      and leave the predicate fresh again, so the pattern repeats. */
  lemma EveryNthCall(n: int)
    requires n > 0
    ensures Ticks(NewFrequency(Some(n)), n) == (NewFrequency(Some(n)), seq(n - 1, i => Ok(false)) + [Ok(true)])
  {
    var p := NewFrequency(Some(n));
    CountsUpToPeriod(n, 0, n - 1);
    var q := FrequencyPredicate(Some(n), n - 1);
    assert n % n == 0;
    assert Tick(q) == (p, Ok(true));
    assert Ticks(p, 0) == (p, []);
    var yes: seq<Result<bool>> := [Ok(true)];
    assert Ticks(q, 1) == (p, yes + []);
    assert yes + [] == yes;
    var falses: seq<Result<bool>> := seq(n - 1, i => Ok(false));
    assert Ticks(p, n - 1) == (q, falses);
    var m: nat := n - 1;
    TicksSplit(p, m, 1);
    assert Ticks(p, m).0 == q && Ticks(p, m).1 == falses;
    assert Ticks(p, m + 1) == (p, falses + yes);
  }

  /** `k + j` calls are `k` calls followed by `j` calls. */
  lemma {:induction false} TicksSplit(p: FrequencyPredicate, k: nat, j: nat)
    ensures Ticks(p, k + j) == (Ticks(Ticks(p, k).0, j).0, Ticks(p, k).1 + Ticks(Ticks(p, k).0, j).1)
    decreases k
  {
    if k > 0 {
      var (p1, b) := Tick(p);
      TicksSplit(p1, k - 1, j);
      var (q, bs) := Ticks(p1, k - 1);
      var (q2, cs) := Ticks(q, j);
      assert Ticks(p, k) == (q, [b] + bs);
      assert Ticks(p, k + j) == (q2, [b] + (bs + cs));
      assert [b] + (bs + cs) == ([b] + bs) + cs;
    } else {
      assert Ticks(p, 0) == (p, []);
      assert [] + Ticks(p, j).1 == Ticks(p, j).1;
    }
  }

  /** `FrequencyPredicate(None)` holds on every call. */
  lemma WithoutPeriodAlwaysHolds(p: FrequencyPredicate, k: nat)
    requires p.freq.None?
    ensures forall i :: 0 <= i < k ==> Ticks(p, k).1[i] == Ok(true)
    decreases k
  {
    if k > 0 {
      WithoutPeriodAlwaysHolds(Tick(p).0, k - 1);
    }
  }

  // ----- Callback objects -----

  /** A listener: a user function, named by an id, or a callback forked from
      the one it is registered with, named by its place in the hub. */
  datatype Listener = Func(id: nat) | Child(node: nat)

  /** What a `FilteredCallback` asks before it forwards a call. */
  datatype Predicate = Frequency(fp: FrequencyPredicate) | Custom(id: nat)

  /** A callback object: its listener pipeline and the predicate asked
      before the pipeline runs, if any. `proxy` marks a `FilteredCallback`
      made by `filter` or `sample`: a `CallbackProxy` that passes `on`, `off`,
      calls and `fork` to the `Callback` it wraps, but is no `BaseCallback`,
      so it has neither `filter`, `sample` nor `%`. A `Conditional` carries
      its predicate too, yet is a full callback. */
  datatype Node = Node(listeners: OrderedSet<Listener>, filter: Option<Predicate>, proxy: bool)

  /** Every callback object, by position. */
  datatype Hub = Hub(nodes: seq<Node>)

  /** A listener that is an existing object. */
  predicate Exists(h: Hub, l: Listener) {
    l.Func? || l.node < |h.nodes|
  }

  /** Every callback's listeners are distinct existing objects. */
  ghost predicate WellFormed(h: Hub) {
    forall k :: 0 <= k < |h.nodes| ==>
      Valid(h.nodes[k].listeners) && forall l :: l in h.nodes[k].listeners.elems ==> Exists(h, l)
  }

  /** The callbacks other than `k` are as they were. */
  ghost predicate OthersUnchanged(h: Hub, h': Hub, k: nat) {
    |h'.nodes| >= |h.nodes| && forall j :: 0 <= j < |h.nodes| && j != k ==> h'.nodes[j] == h.nodes[j]
  }

  /** Callback `k` with listeners `ls`, everything else as in `h`. */
  function WithListeners(h: Hub, k: nat, ls: OrderedSet<Listener>): Hub
    requires k < |h.nodes|
  {
    Hub(h.nodes[k := h.nodes[k].(listeners := ls)])
  }

  /** `Callback.on(func)`: a listener already registered stays where it is;
      any other is appended. The listener is returned. */
  function On(h: Hub, k: nat, l: Listener): (r: (Hub, Listener))
    requires WellFormed(h) && k < |h.nodes| && Exists(h, l)
    ensures WellFormed(r.0) && r.1 == l
    ensures |r.0.nodes| == |h.nodes| && OthersUnchanged(h, r.0, k)
    ensures r.0.nodes[k].filter == h.nodes[k].filter
    ensures l in h.nodes[k].listeners.elems ==> r.0 == h
    ensures l !in h.nodes[k].listeners.elems ==>
      r.0.nodes[k].listeners.elems == h.nodes[k].listeners.elems + [l]
  {
    (WithListeners(h, k, Add(h.nodes[k].listeners, l)), l)
  }

  /** `Callback.off(func)`: removes only that listener, keeping the order of
      the others; a listener not registered is ignored. Returns the listener. */
  function Off(h: Hub, k: nat, l: Listener): (r: (Hub, Listener))
    requires WellFormed(h) && k < |h.nodes|
    ensures WellFormed(r.0) && r.1 == l
    ensures |r.0.nodes| == |h.nodes| && OthersUnchanged(h, r.0, k)
    ensures r.0.nodes[k].filter == h.nodes[k].filter
    ensures l !in h.nodes[k].listeners.elems ==> r.0 == h
    ensures r.0.nodes[k].listeners.elems == Without(h.nodes[k].listeners.elems, l)
    ensures l !in r.0.nodes[k].listeners.elems
  {
    var d := Discard(h.nodes[k].listeners, l);
    assert forall x :: x in d.elems ==> x in h.nodes[k].listeners.elems by {
      forall x ensures x in d.elems ==> x in h.nodes[k].listeners.elems {
        WithoutSubset(h.nodes[k].listeners.elems, l, x);
      }
    }
    (WithListeners(h, k, d), l)
  }

  /** `Callback.fork(transform)`: a new, empty callback, wrapped in a
      `FilteredCallback` when a predicate is given (the transforms this
      library passes), registered as the last listener of callback `k`, and
      returned. */
  function Fork(h: Hub, k: nat, filter: Option<Predicate>): (r: (Hub, Listener))
    requires WellFormed(h) && k < |h.nodes|
    ensures WellFormed(r.0)
    ensures r.1 == Child(|h.nodes|)
    ensures |r.0.nodes| == |h.nodes| + 1 && OthersUnchanged(h, r.0, k)
    ensures r.0.nodes[|h.nodes|] == Node(Empty(), filter, filter.Some?)
    ensures r.0.nodes[k].filter == h.nodes[k].filter
    ensures r.0.nodes[k].listeners.elems == h.nodes[k].listeners.elems + [Child(|h.nodes|)]
  {
    var c := |h.nodes|;
    var h1 := Hub(h.nodes + [Node(Empty(), filter, filter.Some?)]);
    assert Child(c) !in h1.nodes[k].listeners.elems;
    On(h1, k, Child(c))
  }

  /** `filter(predicate)`: a fork wrapped in a `FilteredCallback` asking the
      user predicate `id`, appended to callback `k`'s listeners. A
      `FilteredCallback` has no `filter`: `AttributeError`. */
  function Filter(h: Hub, k: nat, id: nat): (r: Result<(Hub, Listener)>)
    requires WellFormed(h) && k < |h.nodes|
    ensures r.Ok? <==> !h.nodes[k].proxy
    ensures r.Err? ==> r.error == AttributeError
    ensures r.Ok? ==> r.value == Fork(h, k, Some(Custom(id)))
    ensures r.Ok? ==> ForkedFrom(h, k, r.value, Some(Custom(id)))
  {
    if h.nodes[k].proxy then Err(AttributeError)
    else Ok(Fork(h, k, Some(Custom(id))))
  }

  /** What a fork with `filter` leaves: a new node at the end, empty and
      asking `filter`, registered last on callback `k`, which keeps its
      predicate; every other callback as it was. */
  ghost predicate ForkedFrom(h: Hub, k: nat, r: (Hub, Listener), filter: Option<Predicate>)
    requires k < |h.nodes|
  {
    && WellFormed(r.0) && r.1 == Child(|h.nodes|)
    && |r.0.nodes| == |h.nodes| + 1 && OthersUnchanged(h, r.0, k)
    && r.0.nodes[|h.nodes|] == Node(Empty(), filter, true)
    && r.0.nodes[k].filter == h.nodes[k].filter && r.0.nodes[k].proxy == h.nodes[k].proxy
    && r.0.nodes[k].listeners.elems == h.nodes[k].listeners.elems + [Child(|h.nodes|)]
  }

  /** `sample(interval)` and `sample.uniform(interval)`: a fork that forwards
      every `interval`-th call. A `FilteredCallback` has no `sample`:
      `AttributeError`. */
  function Sample(h: Hub, k: nat, interval: int): (r: Result<(Hub, Listener)>)
    requires WellFormed(h) && k < |h.nodes|
    ensures r.Ok? <==> !h.nodes[k].proxy
    ensures r.Err? ==> r.error == AttributeError
    ensures r.Ok? ==> r.value == Fork(h, k, Some(Frequency(NewFrequency(Some(interval)))))
    ensures r.Ok? ==> ForkedFrom(h, k, r.value, Some(Frequency(FrequencyPredicate(Some(interval), 0))))
  {
    if h.nodes[k].proxy then Err(AttributeError)
    else Ok(Fork(h, k, Some(Frequency(NewFrequency(Some(interval))))))
  }

  /** `callback % interval`: `sample.uniform(interval)`; a `FilteredCallback`
      has no `__mod__`, so `%` raises `TypeError` there. */
  function Mod(h: Hub, k: nat, interval: int): (r: Result<(Hub, Listener)>)
    requires WellFormed(h) && k < |h.nodes|
    ensures r.Ok? <==> !h.nodes[k].proxy
    ensures r.Err? ==> r.error == TypeError
    ensures r.Ok? ==> r == Sample(h, k, interval)
  {
    if h.nodes[k].proxy then Err(TypeError)
    else Sample(h, k, interval)
  }

  /** A sampled or filtered fork cannot be sampled or filtered again, while
      the callback it was forked from still can. */
  lemma ForkOfForkRaises(h: Hub, k: nat, n: int, m: int, id: nat)
    requires WellFormed(h) && k < |h.nodes| && !h.nodes[k].proxy
    ensures var (h1, f) := Sample(h, k, n).value;
      && Sample(h1, f.node, m) == Err(AttributeError)
      && Filter(h1, f.node, id) == Err(AttributeError)
      && Mod(h1, f.node, m) == Err(TypeError)
      && Sample(h1, k, m).Ok? && Filter(h1, k, id).Ok?
  {
  }

  /** `on` is idempotent. */
  lemma OnIdempotent(h: Hub, k: nat, l: Listener)
    requires WellFormed(h) && k < |h.nodes| && Exists(h, l)
    ensures On(On(h, k, l).0, k, l) == On(h, k, l)
  {
  }

  /** `off` undoes an `on` of a listener that was not registered. */
  lemma OffUndoesOn(h: Hub, k: nat, l: Listener)
    requires WellFormed(h) && k < |h.nodes| && Exists(h, l)
    requires l !in h.nodes[k].listeners.elems
    ensures Off(On(h, k, l).0, k, l).0 == h
  {
    var xs := h.nodes[k].listeners.elems;
    var h1 := On(h, k, l).0;
    WithoutSplit(xs + [l], |xs|);
    assert (xs + [l])[..|xs|] == xs;
    assert h1.nodes[k].listeners.elems == xs + [l];
    assert Off(h1, k, l).0.nodes[k] == h.nodes[k];
  }

  /** Registering again a listener that was turned off moves it to the end. */
  lemma OnAfterOffMovesToEnd(h: Hub, k: nat, i: nat)
    requires WellFormed(h) && k < |h.nodes| && i < |h.nodes[k].listeners.elems|
    ensures var xs := h.nodes[k].listeners.elems;
      var h1 := Off(h, k, xs[i]).0;
      On(h1, k, xs[i]).0.nodes[k].listeners.elems == xs[..i] + xs[i + 1..] + [xs[i]]
  {
    var xs := h.nodes[k].listeners.elems;
    WithoutSplit(xs, i);
  }

  // ----- Calling a callback -----

  /** The user code: what listener `id` does when called with the arguments
      (returns a value, or raises), and what custom predicate `id` answers
      for them (whether it holds, or what it raises). */
  datatype Env<!A, !V> = Env(behave: (nat, A) -> Result<V>, test: (nat, A) -> Result<bool>)

  /** What a listener call returns: a user function's value, a child
      callback's results keyed by its listeners, or the `None` of a filtered
      child that did not forward the call. */
  datatype Ret<V> = Returned(value: V) | Results(entries: seq<(Listener, Ret<V>)>) | Nothing

  /** A user function's outcome as a listener outcome. */
  function Lift<V>(o: Result<V>): Result<Ret<V>> {
    if o.Err? then Err(o.error) else Ok(Returned(o.value))
  }

  /** Asking a `FilteredCallback`'s predicate; a frequency predicate counts
      the call, and what a custom predicate raises escapes from the call. */
  function Test<A, V>(p: Predicate, args: A, env: Env<A, V>): (Predicate, Result<bool>) {
    match p
    case Custom(id) => (p, env.test(id, args))
    case Frequency(fp) => var (fp', b) := Tick(fp); (Frequency(fp'), b)
  }

  /** Calling callback `k`: a `FilteredCallback` whose predicate does not
      hold returns `None` and calls nothing; otherwise its listener pipeline
      runs. `fuel` bounds how deeply callbacks may nest, standing for
      Python's recursion limit. */
  function Emit<A, V>(h: Hub, k: nat, args: A, env: Env<A, V>, fuel: nat): (r: (Hub, Result<Ret<V>>))
    ensures fuel == 0 ==> r == (h, Err(RecursionError))
    ensures r.1.Ok? ==> r.1.value.Results? || r.1.value.Nothing?
    decreases fuel, 1
  {
    if fuel == 0 then (h, Err(RecursionError))
    else if k >= |h.nodes| then (h, Err(NotModelled))
    else
      match h.nodes[k].filter
      case None => Forward(h, k, args, env, fuel)
      case Some(p) =>
        var (p', ok) := Test(p, args, env);
        var h1 := Hub(h.nodes[k := h.nodes[k].(filter := Some(p'))]);
        if ok.Err? then (h1, Err(ok.error))
        else if !ok.value then (h1, Ok(Nothing))
        else Forward(h1, k, args, env, fuel)
  }

  /** `Callback.__call__`: the pipeline of callback `k`'s listeners, each
      called with the arguments, the values keyed by listener. */
  function Forward<A, V>(h: Hub, k: nat, args: A, env: Env<A, V>, fuel: nat): (r: (Hub, Result<Ret<V>>))
    requires k < |h.nodes| && fuel > 0
    ensures r.1.Ok? ==> r.1.value.Results?
    decreases fuel, 0
  {
    var (h', res) := Callables.Run(h, h.nodes[k].listeners.elems, Listen(args, env, fuel - 1));
    if res.Err? then (h', Err(res.error)) else (h', Ok(Results(res.value)))
  }

  /** The call of one listener, as the pipeline makes it. */
  function Listen<A, V>(args: A, env: Env<A, V>, fuel: nat): (Hub, Listener) -> (Hub, Result<Ret<V>>)
    decreases fuel, 3
  {
    (h: Hub, l: Listener) => Invoke(h, l, args, env, fuel)
  }

  /** One listener call: a user function does what `env` says; a child
      callback is called in turn, and what it raises (its predicate's
      `ContinueOperation` or `StopOperation` included) reaches this pipeline. */
  function Invoke<A, V>(h: Hub, l: Listener, args: A, env: Env<A, V>, fuel: nat): (r: (Hub, Result<Ret<V>>))
    ensures l.Func? ==> r == (h, Lift(env.behave(l.id, args)))
    decreases fuel, 2
  {
    match l
    case Func(id) => (h, Lift(env.behave(id, args)))
    case Child(j) =>
      Emit(h, j, args, env, fuel)
  }

  /** What a user-function listener does, as a function of the listener alone. */
  function Behaviour<A, V>(args: A, env: Env<A, V>): Listener -> Result<Ret<V>> {
    (l: Listener) => if l.Func? then Lift(env.behave(l.id, args)) else Err(NotModelled)
  }

  /** A pipeline result as a callback result. */
  function AsResults<V>(r: Result<seq<(Listener, Ret<V>)>>): Result<Ret<V>> {
    if r.Err? then Err(r.error) else Ok(Results(r.value))
  }

  /** Calling an unfiltered callback whose listeners are user functions runs
      them in registration order and returns exactly what the listener
      pipeline specifies (`Callables.Expected`), leaving the hub unchanged. */
  lemma CallIsPipeline<A, V>(h: Hub, k: nat, args: A, env: Env<A, V>, fuel: nat)
    requires k < |h.nodes| && fuel > 0 && h.nodes[k].filter.None?
    requires forall l :: l in h.nodes[k].listeners.elems ==> l.Func?
    ensures Emit(h, k, args, env, fuel) == (h, AsResults(Callables.Expected(h.nodes[k].listeners.elems, Behaviour(args, env))))
  {
    var ls := h.nodes[k].listeners.elems;
    var f := Behaviour(args, env);
    var plain: (Hub, Listener) -> (Hub, Result<Ret<V>>) := Callables.Stateless(f);
    forall s: Hub, l: Listener | l in ls ensures Listen(args, env, fuel - 1)(s, l) == plain(s, l) {
    }
    Callables.RunRespectsListeners(h, ls, Listen(args, env, fuel - 1), plain);
    Callables.RunIsExpected(h, ls, f);
  }

  /** A filtered callback whose predicate does not hold returns `None`
      without calling any listener; only its predicate's state changes. */
  lemma FilterBlocks<A, V>(h: Hub, k: nat, args: A, env: Env<A, V>, fuel: nat)
    requires k < |h.nodes| && fuel > 0 && h.nodes[k].filter.Some?
    requires Test(h.nodes[k].filter.value, args, env).1 == Ok(false)
    ensures var p' := Test(h.nodes[k].filter.value, args, env).0;
      Emit(h, k, args, env, fuel) == (Hub(h.nodes[k := h.nodes[k].(filter := Some(p'))]), Ok(Nothing))
  {
  }

  /** A filtered callback whose predicate holds behaves as the callback it wraps. */
  lemma FilterForwards<A, V>(h: Hub, k: nat, args: A, env: Env<A, V>, fuel: nat)
    requires k < |h.nodes| && fuel > 0 && h.nodes[k].filter.Some?
    requires Test(h.nodes[k].filter.value, args, env).1 == Ok(true)
    ensures var p' := Test(h.nodes[k].filter.value, args, env).0;
      var h1 := Hub(h.nodes[k := h.nodes[k].(filter := Some(p'))]);
      Emit(h, k, args, env, fuel) == Forward(h1, k, args, env, fuel)
  {
  }

  /** What a filtered callback's predicate raises escapes from the call, and
      no listener runs. */
  lemma FilterRaises<A, V>(h: Hub, k: nat, args: A, env: Env<A, V>, fuel: nat)
    requires k < |h.nodes| && fuel > 0 && h.nodes[k].filter.Some?
    requires Test(h.nodes[k].filter.value, args, env).1.Err?
    ensures var (p', ok) := Test(h.nodes[k].filter.value, args, env);
      Emit(h, k, args, env, fuel) == (Hub(h.nodes[k := h.nodes[k].(filter := Some(p'))]), Err(ok.error))
  {
  }

  /** A child whose custom predicate raises `StopOperation` ends its parent's
      pipeline: the parent returns the results recorded so far, here none. */
  lemma ChildPredicateStopsParent<A, V>(h: Hub, k: nat, j: nat, id: nat, args: A, env: Env<A, V>, fuel: nat)
    requires k < |h.nodes| && j < |h.nodes| && fuel > 1
    requires h.nodes[k].filter.None?
    requires h.nodes[k].listeners.elems != [] && h.nodes[k].listeners.elems[0] == Child(j)
    requires h.nodes[j].filter == Some(Custom(id)) && env.test(id, args) == Err(StopOperation)
    ensures Emit(h, k, args, env, fuel) == (h, Ok(Results([])))
  {
    var ls := h.nodes[k].listeners.elems;
    assert h.nodes[j := h.nodes[j].(filter := Some(Custom(id)))] == h.nodes;
    assert Emit(h, j, args, env, fuel - 1) == (h, Err(StopOperation));
    assert Listen(args, env, fuel - 1)(h, ls[0]) == (h, Err(StopOperation));
    assert Callables.Run(h, ls, Listen(args, env, fuel - 1)) == (h, Ok([]));
  }

  /** A child whose custom predicate raises `ContinueOperation` is skipped by
      its parent's pipeline, which goes on with the remaining listeners. */
  lemma ChildPredicateContinueSkipsChild<A, V>(h: Hub, k: nat, j: nat, id: nat, args: A, env: Env<A, V>, fuel: nat)
    requires k < |h.nodes| && j < |h.nodes| && fuel > 1
    requires h.nodes[k].filter.None?
    requires h.nodes[k].listeners.elems != [] && h.nodes[k].listeners.elems[0] == Child(j)
    requires h.nodes[j].filter == Some(Custom(id)) && env.test(id, args) == Err(ContinueOperation)
    ensures var rest := Callables.Run(h, h.nodes[k].listeners.elems[1..], Listen(args, env, fuel - 1));
      Emit(h, k, args, env, fuel) == (rest.0, AsResults(rest.1))
  {
    var ls := h.nodes[k].listeners.elems;
    assert h.nodes[j := h.nodes[j].(filter := Some(Custom(id)))] == h.nodes;
    assert Emit(h, j, args, env, fuel - 1) == (h, Err(ContinueOperation));
    assert Listen(args, env, fuel - 1)(h, ls[0]) == (h, Err(ContinueOperation));
  }

  /** A sampled callback with period `n` forwards on exactly every n-th call:
      the calls before the n-th return `None` and only count. */
  lemma SampledCallCounts<A, V>(h: Hub, k: nat, args: A, env: Env<A, V>, fuel: nat, n: int, c: int)
    requires k < |h.nodes| && fuel > 0 && n > 0 && 0 <= c < n
    requires h.nodes[k].filter == Some(Frequency(FrequencyPredicate(Some(n), c)))
    ensures c + 1 < n ==>
      Emit(h, k, args, env, fuel) ==
      (Hub(h.nodes[k := h.nodes[k].(filter := Some(Frequency(FrequencyPredicate(Some(n), c + 1))))]), Ok(Nothing))
    ensures c + 1 == n ==>
      Emit(h, k, args, env, fuel) ==
      Forward(Hub(h.nodes[k := h.nodes[k].(filter := Some(Frequency(NewFrequency(Some(n)))))]), k, args, env, fuel)
  {
    if c + 1 < n {
      assert (c + 1) % n != 0;
    } else {
      assert (c + 1) % n == 0;
    }
  }

  // ----- CallbackManager -----

  /** `CallbackManager(callbacks, slots)`: the declared slots, and the
      callback created so far for each reference. */
  datatype Manager<R> = Manager(slots: set<R>, callbacks: map<R, nat>)

  /** Every managed callback exists. */
  ghost predicate Manages<R>(m: Manager<R>, h: Hub) {
    forall r :: r in m.callbacks ==> m.callbacks[r] < |h.nodes|
  }

  /** `ref in manager`: a declared slot, or a reference accessed before. */
  function Contains<R(==)>(m: Manager<R>, ref: R): (b: bool)
    ensures b <==> ref in m.slots || ref in m.callbacks
  {
    ref in m.slots || ref in m.callbacks
  }

  /** `manager[ref]`: the reference's callback, created empty (and
      remembered) on first access, slot or not. */
  function GetItem<R(==)>(m: Manager<R>, h: Hub, ref: R): (r: (Manager<R>, Hub, nat))
    requires WellFormed(h) && Manages(m, h)
    ensures WellFormed(r.1) && Manages(r.0, r.1) && r.2 < |r.1.nodes|
    ensures r.0.slots == m.slots && ref in r.0.callbacks && r.0.callbacks[ref] == r.2
    ensures ref in m.callbacks ==> r == (m, h, m.callbacks[ref])
    ensures ref !in m.callbacks ==>
      r.2 == |h.nodes| && r.1.nodes == h.nodes + [Node(Empty(), None, false)] && r.0.callbacks == m.callbacks[ref := r.2]
  {
    if ref in m.callbacks then (m, h, m.callbacks[ref])
    else
      var c := |h.nodes|;
      (m.(callbacks := m.callbacks[ref := c]), Hub(h.nodes + [Node(Empty(), None, false)]), c)
  }

  /** A reference always gets the same callback, created once. */
  lemma GetItemStable<R>(m: Manager<R>, h: Hub, ref: R)
    requires WellFormed(h) && Manages(m, h)
    ensures var (m1, h1, c1) := GetItem(m, h, ref);
      GetItem(m1, h1, ref) == (m1, h1, c1) && Contains(m1, ref)
  {
  }

  /** The listeners of `ref`'s callback before an access: none when the
      access creates it. */
  function ListenersOf<R(==)>(m: Manager<R>, h: Hub, ref: R): seq<Listener>
    requires Manages(m, h)
  {
    if ref in m.callbacks then h.nodes[m.callbacks[ref]].listeners.elems else []
  }

  /** `manager.on(ref, func)`: `manager[ref].on(func)`; returns `func`. The
      listener stays where it is on `ref`'s callback, or goes last; no other
      callback and no other reference changes. */
  function ManagerOn<R(==)>(m: Manager<R>, h: Hub, ref: R, l: Listener): (r: (Manager<R>, Hub, Listener))
    requires WellFormed(h) && Manages(m, h) && Exists(h, l)
    ensures WellFormed(r.1) && Manages(r.0, r.1) && r.2 == l && ref in r.0.callbacks && r.0.callbacks[ref] < |r.1.nodes|
    ensures l in r.1.nodes[r.0.callbacks[ref]].listeners.elems
    ensures var (m1, h1, c) := GetItem(m, h, ref); r == (m1, On(h1, c, l).0, l)
    ensures r.0.slots == m.slots && r.0.callbacks == m.callbacks[ref := r.0.callbacks[ref]]
    ensures OthersUnchanged(h, r.1, r.0.callbacks[ref])
    ensures var before := ListenersOf(m, h, ref);
      r.1.nodes[r.0.callbacks[ref]].listeners.elems == if l in before then before else before + [l]
  {
    var (m1, h1, c) := GetItem(m, h, ref);
    var (h2, l') := On(h1, c, l);
    (m1, h2, l')
  }

  /** `manager.off(ref, func)`: `manager[ref].off(func)`; returns `func`.
      Only that listener leaves `ref`'s callback, the others keep their
      order; no other callback and no other reference changes. */
  function ManagerOff<R(==)>(m: Manager<R>, h: Hub, ref: R, l: Listener): (r: (Manager<R>, Hub, Listener))
    requires WellFormed(h) && Manages(m, h)
    ensures WellFormed(r.1) && Manages(r.0, r.1) && r.2 == l && ref in r.0.callbacks && r.0.callbacks[ref] < |r.1.nodes|
    ensures l !in r.1.nodes[r.0.callbacks[ref]].listeners.elems
    ensures var (m1, h1, c) := GetItem(m, h, ref); r == (m1, Off(h1, c, l).0, l)
    ensures r.0.slots == m.slots && r.0.callbacks == m.callbacks[ref := r.0.callbacks[ref]]
    ensures OthersUnchanged(h, r.1, r.0.callbacks[ref])
    ensures r.1.nodes[r.0.callbacks[ref]].listeners.elems == Without(ListenersOf(m, h, ref), l)
  {
    var (m1, h1, c) := GetItem(m, h, ref);
    var (h2, l') := Off(h1, c, l);
    (m1, h2, l')
  }

  /** `manager(ref, *args, **kwargs)`: calls `manager[ref]`. */
  function ManagerCall<R(==), A, V>(m: Manager<R>, h: Hub, ref: R, args: A, env: Env<A, V>, fuel: nat): (r: (Manager<R>, Hub, Result<Ret<V>>))
    requires WellFormed(h) && Manages(m, h)
    ensures r.0 == GetItem(m, h, ref).0 && Contains(r.0, ref)
    ensures var (_, h1, c) := GetItem(m, h, ref); (r.1, r.2) == Emit(h1, c, args, env, fuel)
  {
    var (m1, h1, c) := GetItem(m, h, ref);
    var (h2, res) := Emit(h1, c, args, env, fuel);
    (m1, h2, res)
  }

  /** A fresh reference's callback has no listeners: calling it returns an
      empty result and creates it. */
  lemma CallingFreshReference<R, A, V>(m: Manager<R>, h: Hub, ref: R, args: A, env: Env<A, V>, fuel: nat)
    requires WellFormed(h) && Manages(m, h) && ref !in m.callbacks && fuel > 0
    ensures ManagerCall(m, h, ref, args, env, fuel).2 == Ok(Results([]))
    ensures Contains(ManagerCall(m, h, ref, args, env, fuel).0, ref)
  {
    var (m1, h1, c) := GetItem(m, h, ref);
    assert h1.nodes[c] == Node(Empty(), None, false);
    assert h1.nodes[c].listeners.elems == [];
    assert Callables.Run(h1, [], Listen(args, env, fuel - 1)) == (h1, Ok([]));
    assert Forward(h1, c, args, env, fuel) == (h1, Ok(Results([])));
    assert Emit(h1, c, args, env, fuel) == (h1, Ok(Results([])));
  }
}
