/** `CallablePipeline` and `ExecutionContext`: running an ordered set of
    callables with `continue`/`break` signalling, the argument container, the
    acknowledgement slot and the context manager's exit protocol. */
module Callables {
  import opened Errors

  /** A listener call ended by `ContinueOperation`: the loop moves on. */
  predicate Skips<R>(o: Result<R>) {
    o.Err? && o.error == ContinueOperation
  }

  /** A listener call that ends the loop: it raised `StopOperation`, which
      the loop catches, or any other exception but `ContinueOperation`, which
      escapes. */
  predicate Halts<R>(o: Result<R>) {
    o.Err? && o.error != ContinueOperation
  }

  /** The keys of a pipeline result, in order. */
  function Keys<L, R>(entries: seq<(L, R)>): (ks: seq<L>)
    ensures |ks| == |entries|
    ensures forall i :: 0 <= i < |ks| ==> ks[i] == entries[i].0
  {
    if entries == [] then [] else [entries[0].0] + Keys(entries[1..])
  }

  /** `xs` can be obtained from `ys` by deleting elements. */
  ghost predicate IsSubsequence<T>(xs: seq<T>, ys: seq<T>)
    decreases |ys|
  {
    xs == [] || (ys != [] && ((xs[0] == ys[0] && IsSubsequence(xs[1..], ys[1..])) || IsSubsequence(xs, ys[1..])))
  }

  /** `CallablePipeline.__call__` with the callables' effect on the world made
      explicit: `invoke(s, l)` is the call of listener `l` in state `s`, giving
      the next state and the value it returned or the exception it raised.
      `ContinueOperation` and `StopOperation` are caught by the loop; any
      other exception escapes. The result is the ordered
      dictionary of recorded return values, or the exception that escaped. */
  function Run<S, L, R>(s: S, ls: seq<L>, invoke: (S, L) -> (S, Result<R>)): (r: (S, Result<seq<(L, R)>>))
    ensures r.1.Ok? ==> |r.1.value| <= |ls| && IsSubsequence(Keys(r.1.value), ls)
    decreases |ls|
  {
    if ls == [] then (s, Ok([]))
    else
      var (s1, out) := invoke(s, ls[0]);
      if out.Ok? then
        var (s2, rest) := Run(s1, ls[1..], invoke);
        if rest.Ok? then
          assert Keys([(ls[0], out.value)] + rest.value)[1..] == Keys(rest.value);
          (s2, Ok([(ls[0], out.value)] + rest.value))
        else (s2, rest)
      else if out.error == ContinueOperation then
        var r' := Run(s1, ls[1..], invoke);
        (r'.0, r'.1)
      else if out.error == StopOperation then (s1, Ok([]))
      else (s1, Err(out.error))
  }

  /** A pipeline result with `acc` recorded in front of it. */
  function Prepend<S, L, R>(acc: seq<(L, R)>, r: (S, Result<seq<(L, R)>>)): (S, Result<seq<(L, R)>>) {
    (r.0, if r.1.Ok? then Ok(acc + r.1.value) else r.1)
  }

  /** The same `for f in self` loop as `CallablePipeline.__call__` writes it,
      accumulating the results in place. */
  method Pipeline<S, L, R>(s: S, ls: seq<L>, invoke: (S, L) -> (S, Result<R>)) returns (state: S, res: Result<seq<(L, R)>>)
    ensures (state, res) == Run(s, ls, invoke)
    ensures res.Ok? ==> IsSubsequence(Keys(res.value), ls)
  {
    var acc: seq<(L, R)> := [];
    state := s;
    var i := 0;
    assert ls[0..] == ls;
    assert Run(s, ls, invoke).1.Ok? ==> [] + Run(s, ls, invoke).1.value == Run(s, ls, invoke).1.value;
    while i < |ls|
      invariant 0 <= i <= |ls|
      invariant Run(s, ls, invoke) == Prepend(acc, Run(state, ls[i..], invoke))
    {
      assert ls[i..][0] == ls[i] && ls[i..][1..] == ls[i + 1..];
      var (next, out) := invoke(state, ls[i]);
      PrependStep(acc, state, ls[i..], invoke);
      if out.Ok? {
        acc := acc + [(ls[i], out.value)];
      } else if out.error == ContinueOperation {
      } else if out.error == StopOperation {
        return next, Ok(acc);
      } else {
        return next, Err(out.error);
      }
      state := next;
      i := i + 1;
    }
    assert ls[i..] == [];
    assert acc + [] == acc;
    res := Ok(acc);
  }

  /** One turn of the loop: what the first listener does decides whether the
      run records it, skips it, or ends there. */
  lemma PrependStep<S, L, R>(acc: seq<(L, R)>, s: S, ls: seq<L>, invoke: (S, L) -> (S, Result<R>))
    requires ls != []
    ensures var (next, out) := invoke(s, ls[0]);
      && (out.Ok? ==> Prepend(acc, Run(s, ls, invoke)) == Prepend(acc + [(ls[0], out.value)], Run(next, ls[1..], invoke)))
      && (Skips(out) ==> Prepend(acc, Run(s, ls, invoke)) == Prepend(acc, Run(next, ls[1..], invoke)))
      && (out.Err? && out.error == StopOperation ==> Prepend(acc, Run(s, ls, invoke)) == (next, Ok(acc)))
      && (Halts(out) && out.error != StopOperation ==> Prepend(acc, Run(s, ls, invoke)) == (next, Err(out.error)))
  {
    var (next, out) := invoke(s, ls[0]);
    if out.Ok? {
      var r' := Run(next, ls[1..], invoke);
      if r'.1.Ok? {
        assert acc + ([(ls[0], out.value)] + r'.1.value) == (acc + [(ls[0], out.value)]) + r'.1.value;
      }
    } else if out.error == StopOperation {
      assert acc + [] == acc;
    }
  }

  /** Reference semantics for listeners whose outcome depends on nothing but
      the listener: the index of the first call that stops the loop. */
  function HaltIndex<L, R>(ls: seq<L>, f: L -> Result<R>): (k: nat)
    ensures k <= |ls|
    ensures forall i :: 0 <= i < k ==> !Halts(f(ls[i]))
    ensures k < |ls| ==> Halts(f(ls[k]))
  {
    if ls == [] then 0
    else if Halts(f(ls[0])) then 0
    else 1 + HaltIndex(ls[1..], f)
  }

  /** The returned values among `ls`, each paired with its listener. */
  function Produced<L, R>(ls: seq<L>, f: L -> Result<R>): seq<(L, R)> {
    if ls == [] then []
    else if f(ls[0]).Ok? then [(ls[0], f(ls[0]).value)] + Produced(ls[1..], f)
    else Produced(ls[1..], f)
  }

  /** What the pipeline returns: the values produced before the first halting
      call, unless that call raised an exception other than `StopOperation`. */
  function Expected<L, R>(ls: seq<L>, f: L -> Result<R>): Result<seq<(L, R)>> {
    var k := HaltIndex(ls, f);
    if k < |ls| && f(ls[k]).error != StopOperation then Err(f(ls[k]).error) else Ok(Produced(ls[..k], f))
  }

  /** Listeners that do what `f` says and leave the state alone. */
  function Stateless<S, L, R>(f: L -> Result<R>): (S, L) -> (S, Result<R>) {
    (s': S, l: L) => (s', f(l))
  }

  /** For listeners that do not touch the state, the pipeline is `Expected`,
      and the state is left as it was. */
  lemma {:induction false} RunIsExpected<S, L, R>(s: S, ls: seq<L>, f: L -> Result<R>)
    ensures Run(s, ls, Stateless(f)) == (s, Expected(ls, f))
    decreases |ls|
  {
    if ls != [] {
      RunIsExpected(s, ls[1..], f);
      var k := HaltIndex(ls, f);
      if !Halts(f(ls[0])) {
        assert k == 1 + HaltIndex(ls[1..], f);
        assert ls[..k][1..] == ls[1..][..k - 1];
        assert k < |ls| ==> ls[k] == ls[1..][k - 1];
      }
    }
  }

  /** The pipeline only depends on what its listeners do. */
  lemma {:induction false} RunRespectsListeners<S, L, R>(s: S, ls: seq<L>, i1: (S, L) -> (S, Result<R>), i2: (S, L) -> (S, Result<R>))
    requires forall s': S, l: L :: l in ls ==> i1(s', l) == i2(s', l)
    ensures Run(s, ls, i1) == Run(s, ls, i2)
    decreases |ls|
  {
    if ls != [] {
      var (s1, out) := i1(s, ls[0]);
      assert forall l :: l in ls[1..] ==> l in ls;
      RunRespectsListeners(s1, ls[1..], i1, i2);
    }
  }

  /** Every recorded entry is a listener that returned that value. */
  lemma {:induction false} ProducedAreValues<L, R>(ls: seq<L>, f: L -> Result<R>)
    ensures forall e :: e in Produced(ls, f) ==> e.0 in ls && f(e.0) == Ok(e.1)
    decreases |ls|
  {
    if ls != [] {
      ProducedAreValues(ls[1..], f);
    }
  }

  /** Every listener that returned a value is recorded, in listener order. */
  lemma {:induction false} ProducedAreComplete<L, R>(ls: seq<L>, f: L -> Result<R>)
    ensures forall i :: 0 <= i < |ls| && f(ls[i]).Ok? ==> (ls[i], f(ls[i]).value) in Produced(ls, f)
    decreases |ls|
  {
    if ls != [] {
      ProducedAreComplete(ls[1..], f);
      forall i | 0 <= i < |ls| && f(ls[i]).Ok?
        ensures (ls[i], f(ls[i]).value) in Produced(ls, f)
      {
        if i > 0 { assert ls[i] == ls[1..][i - 1]; }
      }
    }
  }

  /** Without `ContinueOperation`, `StopOperation` or any exception, every
      listener's result is recorded, keyed by the listener, in pipeline order. */
  lemma {:induction false} PlainPipelineRecordsEverything<L, R>(ls: seq<L>, f: L -> Result<R>)
    requires forall l :: l in ls ==> f(l).Ok?
    ensures Expected(ls, f).Ok?
    ensures |Expected(ls, f).value| == |ls|
    ensures forall i :: 0 <= i < |ls| ==> Expected(ls, f).value[i] == (ls[i], f(ls[i]).value)
    decreases |ls|
  {
    assert HaltIndex(ls, f) == |ls|;
    assert ls[..|ls|] == ls;
    if ls != [] {
      PlainPipelineRecordsEverything(ls[1..], f);
      assert ls[1..][..|ls[1..]|] == ls[1..];
      forall i | 0 <= i < |ls| ensures Expected(ls, f).value[i] == (ls[i], f(ls[i]).value) {
        if i > 0 { assert ls[i] == ls[1..][i - 1]; }
      }
    }
  }

  /** The pipeline's result once a first listener has produced `o` without
      halting it. */
  function Then<L, R>(l: L, o: Result<R>, r: Result<seq<(L, R)>>): Result<seq<(L, R)>> {
    if r.Err? || o.Err? then r else Ok([(l, o.value)] + r.value)
  }

  /** One step of `Expected` past a listener that does not halt the pipeline. */
  lemma ExpectedStep<L, R>(ls: seq<L>, f: L -> Result<R>)
    requires ls != [] && !Halts(f(ls[0]))
    ensures Expected(ls, f) == Then(ls[0], f(ls[0]), Expected(ls[1..], f))
  {
    var k := HaltIndex(ls[1..], f);
    assert HaltIndex(ls, f) == 1 + k;
    assert ls[..1 + k][1..] == ls[1..][..k];
    assert 1 + k < |ls| ==> ls[1 + k] == ls[1..][k];
  }

  /** A listener raising `ContinueOperation` is skipped and its result not
      recorded: the pipeline returns what it would return without it. */
  lemma {:induction false} ContinueSkipsListener<L, R>(ls: seq<L>, f: L -> Result<R>, i: nat)
    requires i < |ls| && Skips(f(ls[i]))
    ensures Expected(ls, f) == Expected(ls[..i] + ls[i + 1..], f)
    decreases |ls|
  {
    var rest := ls[..i] + ls[i + 1..];
    if i == 0 {
      assert rest == ls[1..];
      ExpectedStep(ls, f);
    } else {
      ContinueSkipsListener(ls[1..], f, i - 1);
      assert rest[1..] == ls[1..][..i - 1] + ls[1..][i..];
      assert rest[0] == ls[0];
      if Halts(f(ls[0])) {
        assert HaltIndex(ls, f) == 0 && HaltIndex(rest, f) == 0;
        assert ls[..0] == rest[..0];
      } else {
        ExpectedStep(ls, f);
        ExpectedStep(rest, f);
      }
    }
  }

  /** A listener raising `StopOperation` ends the loop: only the results of
      the listeners before it are returned. */
  lemma StopEndsIteration<L, R>(ls: seq<L>, f: L -> Result<R>, k: nat)
    requires k < |ls| && f(ls[k]).Err? && f(ls[k]).error == StopOperation
    requires forall i :: 0 <= i < k ==> !Halts(f(ls[i]))
    ensures Expected(ls, f) == Ok(Produced(ls[..k], f))
  {
    HaltIndexIsFirst(ls, f, k);
  }

  /** Any other exception escapes the pipeline, discarding the results so far. */
  lemma RaisePropagates<L, R>(ls: seq<L>, f: L -> Result<R>, k: nat)
    requires k < |ls| && f(ls[k]).Err? && f(ls[k]).error != ContinueOperation && f(ls[k]).error != StopOperation
    requires forall i :: 0 <= i < k ==> !Halts(f(ls[i]))
    ensures Expected(ls, f) == Err(f(ls[k]).error)
  {
    HaltIndexIsFirst(ls, f, k);
  }

  /** The halting index is the first listener that stops or raises. */
  lemma {:induction false} HaltIndexIsFirst<L, R>(ls: seq<L>, f: L -> Result<R>, k: nat)
    requires k < |ls| && Halts(f(ls[k]))
    requires forall i :: 0 <= i < k ==> !Halts(f(ls[i]))
    ensures HaltIndex(ls, f) == k
    decreases k
  {
    if k > 0 {
      forall i | 0 <= i < k - 1 ensures !Halts(f(ls[1..][i])) {
        assert ls[1..][i] == ls[i + 1];
      }
      HaltIndexIsFirst(ls[1..], f, k - 1);
    }
  }

  // ----- ExecutionContext.Arguments -----

  /** `Arguments(*args, **kwargs)`; `kwargs` in insertion order. */
  datatype Arguments<V> = Arguments(args: seq<V>, kwargs: seq<(string, V)>)

  /** A key of the argument container: a position or a keyword. */
  datatype Key = Index(i: int) | Name(name: string)

  /** Keyword names are unique, as in a Python `**kwargs` dictionary. */
  ghost predicate WellFormed<V>(a: Arguments<V>) {
    forall i, j :: 0 <= i < j < |a.kwargs| ==> a.kwargs[i].0 != a.kwargs[j].0
  }

  /** `keys()`: the positions `0 .. len(args)-1`, then the keyword names. */
  function ArgKeys<V>(a: Arguments<V>): (ks: seq<Key>)
    ensures |ks| == |a.args| + |a.kwargs|
    ensures forall i :: 0 <= i < |a.args| ==> ks[i] == Index(i)
    ensures forall j :: 0 <= j < |a.kwargs| ==> ks[|a.args| + j] == Name(a.kwargs[j].0)
  {
    seq(|a.args|, i => Index(i)) + seq(|a.kwargs|, j requires 0 <= j < |a.kwargs| => Name(a.kwargs[j].0))
  }

  /** `values()`: the positional values, then the keyword values, in the same order as `keys()`. */
  function ArgValues<V>(a: Arguments<V>): (vs: seq<V>)
    ensures |vs| == |ArgKeys(a)|
    ensures forall i :: 0 <= i < |a.args| ==> vs[i] == a.args[i]
    ensures forall j :: 0 <= j < |a.kwargs| ==> vs[|a.args| + j] == a.kwargs[j].1
  {
    a.args + seq(|a.kwargs|, j requires 0 <= j < |a.kwargs| => a.kwargs[j].1)
  }

  /** Looking a keyword up in the `**kwargs` dictionary; `KeyError` when absent. */
  function Lookup<V>(kwargs: seq<(string, V)>, name: string): (r: Result<V>)
    ensures r.Ok? <==> exists j :: 0 <= j < |kwargs| && kwargs[j].0 == name
    ensures r.Ok? ==> exists j :: 0 <= j < |kwargs| && kwargs[j].0 == name && kwargs[j].1 == r.value
    ensures r.Err? ==> r.error == KeyError
  {
    if kwargs == [] then Err(KeyError)
    else if kwargs[0].0 == name then Ok(kwargs[0].1)
    else
      assert forall j :: 1 <= j < |kwargs| ==> kwargs[j] == kwargs[1..][j - 1];
      Lookup(kwargs[1..], name)
  }

  /** `__getitem__` as evidently intended: a position indexes `args` when it
      is one of `keys()`, a keyword looks `kwargs` up, anything else is a `KeyError`. */
  function GetItem<V>(a: Arguments<V>, key: Key): (r: Result<V>)
    ensures key.Index? && 0 <= key.i < |a.args| ==> r == Ok(a.args[key.i])
    ensures key.Index? && !(0 <= key.i < |a.args|) ==> r == Err(KeyError)
    ensures key.Name? ==> r == Lookup(a.kwargs, key.name)
  {
    match key
    case Index(i) => if 0 <= i < |a.args| then Ok(a.args[i]) else Err(KeyError)
    case Name(n) => Lookup(a.kwargs, n)
  }

  /** `keys()` and `values()` agree with `__getitem__`: the i-th key reads the
      i-th value. */
  lemma KeysIndexValues<V>(a: Arguments<V>, i: nat)
    requires WellFormed(a) && i < |ArgKeys(a)|
    ensures GetItem(a, ArgKeys(a)[i]) == Ok(ArgValues(a)[i])
  {
    if i >= |a.args| {
      var j := i - |a.args|;
      LookupFinds(a.kwargs, j);
    }
  }

  lemma {:induction false} LookupFinds<V>(kwargs: seq<(string, V)>, j: nat)
    requires j < |kwargs|
    requires forall p, q :: 0 <= p < q < |kwargs| ==> kwargs[p].0 != kwargs[q].0
    ensures Lookup(kwargs, kwargs[j].0) == Ok(kwargs[j].1)
    decreases j
  {
    if j > 0 {
      assert kwargs[j] == kwargs[1..][j - 1];
      LookupFinds(kwargs[1..], j - 1);
    }
  }

  /** The Python values a positional argument or a key can be, as far as the
      comparisons in `__getitem__` can tell them apart. */
  datatype Scalar = Int(n: int) | Str(s: string) | Other(id: nat)

  /** Python's `tuple[key]`: an integer index, negative ones counted from the
      end, `IndexError` out of range, `TypeError` for a non-integer. */
  function TupleIndex<V>(t: seq<V>, key: Scalar): (r: Result<V>)
    ensures r.Ok? <==> key.Int? && -|t| <= key.n < |t|
    ensures r.Ok? && key.n >= 0 ==> r.value == t[key.n]
    ensures r.Ok? && key.n < 0 ==> r.value == t[|t| + key.n]
    ensures key.Int? && r.Err? ==> r.error == IndexError
    ensures !key.Int? ==> r == Err(TypeError)
  {
    match key
    case Int(n) =>
      if 0 <= n < |t| then Ok(t[n])
      else if -|t| <= n < 0 then Ok(t[|t| + n])
      else Err(IndexError)
    case _ => Err(TypeError)
  }

  /** `__getitem__` as written: it asks whether the key is one of the positional
      VALUES, and only then indexes the tuple with it. */
  function GetItemAsWritten(a: Arguments<Scalar>, key: Scalar): (r: Result<Scalar>)
    ensures key in a.args ==> r == TupleIndex(a.args, key)
    ensures key !in a.args && key.Str? ==> r == Lookup(a.kwargs, key.s)
    ensures key !in a.args && !key.Str? ==> r == Err(KeyError)
  {
    if key in a.args then TupleIndex(a.args, key)
    else match key
      case Str(n) => Lookup(a.kwargs, n)
      case _ => Err(KeyError)
  }

  /** The as-written lookup misses positions that are keys and reads values
      that are not: `Arguments(5, 6)[0]` raises `KeyError`, `Arguments(7)[7]`
      raises `IndexError`, and `Arguments(-1, 5)[-1]` returns the last argument. */
  lemma GetItemAsWrittenMissesPositions()
    ensures GetItemAsWritten(Arguments([Int(5), Int(6)], []), Int(0)) == Err(KeyError)
    ensures GetItem(Arguments([Int(5), Int(6)], []), Index(0)) == Ok(Int(5))
    ensures GetItemAsWritten(Arguments([Int(7)], []), Int(7)) == Err(IndexError)
    ensures GetItemAsWritten(Arguments([Int(-1), Int(5)], []), Int(-1)) == Ok(Int(5))
    ensures GetItem(Arguments([Int(-1), Int(5)], []), Index(-1)) == Err(KeyError)
  {
    assert Int(0) !in [Int(5), Int(6)];
    assert Int(7) in [Int(7)];
    assert Int(-1) in [Int(-1), Int(5)];
  }

  // ----- ExecutionContext.Ack -----

  /** The acknowledgement slot: the value most recently set (`None` at first),
      whether it is deferred, and the state of its completion event. */
  datatype Ack<V> = Ack(value: Option<V>, deferred: bool, done: bool)

  /** `Ack(deferred)`: holds `None`, completion event unset. */
  function NewAck<V>(deferred: bool): (a: Ack<V>)
    ensures a.value == None && a.deferred == deferred && !a.done
  {
    Ack(None, deferred, false)
  }

  /** `set(value)` (and `__call__`): stores the value, signals completion when
      deferred, and returns the value stored. */
  function Set<V>(a: Ack<V>, v: Option<V>): (r: (Ack<V>, Option<V>))
    ensures r.0.value == v && r.1 == v
    ensures r.0.deferred == a.deferred
    ensures r.0.done <==> a.deferred
  {
    (Ack(v, a.deferred, a.deferred), v)
  }

  /** `get()`: returns the stored value and, when deferred, clears the
      completion event so that the next `get` waits for the next `set`. */
  function Get<V>(a: Ack<V>): (r: (Ack<V>, Option<V>))
    ensures r.1 == a.value
    ensures r.0.value == a.value && r.0.deferred == a.deferred
    ensures !r.0.done
  {
    (Ack(a.value, a.deferred, false), a.value)
  }

  /** A `get` after a `set` returns the value set. */
  lemma SetThenGet<V>(a: Ack<V>, v: Option<V>)
    ensures Get(Set(a, v).0).1 == v
    ensures Set(a, v).0.deferred ==> Set(a, v).0.done
  {
  }

  // ----- ExecutionContext.__exit__ -----

  /** The exception (if any) that leaves the `with` block. */
  datatype Raised<V> = ContextReturn(returned: Option<V>) | Other(error: Error)

  /** What `__exit__` tells the interpreter. */
  datatype ExitVerdict = Completed | Suppressed | Propagate(error: Error)

  /** `ExecutionContext(vars, ack)`. */
  datatype ExecutionContext<V> = ExecutionContext(vars: Arguments<V>, ack: Ack<V>)

  /** `__exit__`: a normal exit acknowledges `None`, a `ContextReturn`
      acknowledges its value and is swallowed, any other exception leaves the
      acknowledgement alone and propagates. */
  function Exit<V>(ctx: ExecutionContext<V>, exc: Option<Raised<V>>): (r: (ExecutionContext<V>, ExitVerdict))
    ensures r.0.vars == ctx.vars && r.0.ack.deferred == ctx.ack.deferred
    ensures exc.None? ==> r.1 == Completed && r.0.ack.value == None
    ensures exc.Some? && exc.value.ContextReturn? ==>
      r.1 == Suppressed && r.0.ack.value == exc.value.returned
    ensures exc.Some? && exc.value.Other? ==> r == (ctx, Propagate(exc.value.error))
  {
    match exc
    case None => (ctx.(ack := Set(ctx.ack, None).0), Completed)
    case Some(ContextReturn(v)) => (ctx.(ack := Set(ctx.ack, v).0), Suppressed)
    case Some(Other(e)) => (ctx, Propagate(e))
  }

  /** A callee that leaves the block with `ContextReturn(v)` delivers `v` to
      the caller's `ack.get()`; the exception does not escape. */
  lemma ContextReturnDeliversValue<V>(ctx: ExecutionContext<V>, v: Option<V>)
    ensures Exit(ctx, Some(ContextReturn(v))).1 == Suppressed
    ensures Get(Exit(ctx, Some(ContextReturn(v))).0.ack).1 == v
  {
  }

  /** A normal exit acknowledges `None`, overwriting a value the callee set
      with `ack(v)` inside the block. */
  lemma NormalExitOverwritesAck<V>(ctx: ExecutionContext<V>, v: V)
    ensures Get(Exit(ctx.(ack := Set(ctx.ack, Some(v)).0), None).0.ack).1 == None
  {
  }
}
