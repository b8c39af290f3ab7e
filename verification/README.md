# The reactive runtime of controllables-energyplus, in Dafny

This project models the generic runtime that the `controllables` packages
build their EnergyPlus and reinforcement-learning adapters on, and proves
properties of the model. It covers:

- **Components.** The single-owner attachment state of `Component`: a
  component is unattached, or attached to exactly one parent.
- **Ordered sets and pipelines.** `OrderedSet`, a set that remembers
  first-insertion order. `CallablePipeline`, which calls its listeners in
  that order. `ContinueOperation` skips a listener and `StopOperation` ends
  the run.
- **Execution context.** `ExecutionContext.Arguments`, the non-deferred
  `Ack`, and what `__exit__` does with a `ContextReturn`.
- **Callbacks.**
  - `Callback` (`on`, `off`, `fork`, calling it), `FilteredCallback`, and
    `FrequencyPredicate`.
  - The `filter` and `sample` shortcuts.
  - `CallbackManager`, which creates a callback on first access.
- **Structural mappers and zippers.**
  - `MapperProxy`, `MappingMapper`, `IterableMapper`, `CompositeMapper`,
    `CollectionMapper` and `_ensure_maps`.
  - `MappingZipper` and `IterableZipper`, which walk N parallel trees of
    dicts, lists, tuples and sets.
- **Variables.**
  - `valueof`, `Variable`, `MutableVariable` (a write fires its `change`
    callback).
  - `CompositeVariable` and `MutableCompositeVariable`, which read and
    write through the mapper.
  - `ComputedVariable`, including `from_operator`.
  - `Conditional` and `VariableManager`.
- **`deref`.** Resolving a reference through a manager.
- **`infer_format_from_path`.** The kernel's choice between epJSON and IDF
  input, read off the path's suffix.

## How the model is built

- Python objects are values. Mutation is a state passed in and returned:
  - a `Callbacks.Hub` is every callback object, by position;
  - a `Variables.Store` is every variable plus the hub.
- Exceptions are the `Errors.Error` constructors, carried in a `Result`.
  `None`-able results are `Option`s.
- Dictionaries are association lists in insertion order. Dict keys in the
  mapper trees are strings.
- User code is a parameter. Listener bodies, predicates and computed
  functions come from `Callbacks.Env` and `Variables.World`. So does
  reading a variable whose value comes from a simulation kernel.
- Python's recursion limit is a `fuel` argument. Running out of fuel is
  `RecursionError`. This covers callback forks calling forks, composites
  reading through variables, and setters writing through composites.

Modules, one file each:

| module | models |
|---|---|
| `Errors` | exceptions, `Option`, `Result` |
| `Components` | `Component` |
| `Containers` | `OrderedSet` |
| `Callables` | `CallablePipeline`, `ExecutionContext` |
| `Callbacks` | `FrequencyPredicate`, `Callback`, `FilteredCallback`, `CallbackManager` |
| `Dicts` | insertion-ordered dictionaries |
| `Zippers` | `IterableZipper`, `MappingZipper` |
| `Trees` | the nested containers the mapper walks |
| `Mappers` | the mapper classes |
| `Variables` | the variable classes, `Conditional`, `VariableManager` |
| `Refs` | `deref` |
| `Kernel` | `infer_format_from_path` |

Where the code and its own annotations disagree, the model follows the code:

- **`deref` and plain values.** `core/refs.py:15` types `Derefable` as a
  reference, any value, or a callable of the manager. But `deref`
  (`core/refs.py:66-77`) has no branch for a plain value. A reference that is
  neither contained in the manager nor callable raises `TypeError`, and
  `Refs.Deref` does the same.
- **Listener container import.** `callbacks.py` imports
  `CallableSequence` from `callables.py`, which defines only
  `CallablePipeline`. The listener container is modelled as
  `CallablePipeline`: an `OrderedSet` of callables with the pipeline's
  `__call__`.

## Model

Source paths are relative to the repository root.

| member | source | states |
|---|---|---|
| Components.Parent | packages/controllables/core/components.py:62-67 | `parent` succeeds exactly when attached, with the owner, and otherwise raises `ValueError` |
| Components.Attach | packages/controllables/core/components.py:73-82 | attaching succeeds exactly when unattached or already owned by that parent; afterwards `parent` is the argument; otherwise `ValueError` |
| Components.Detach | packages/controllables/core/components.py:84-87 | detaching succeeds exactly when attached, and leaves the component with no parent; otherwise `ValueError` |
| Components.AttachIdempotent | packages/controllables/core/components.py:74-76 | attaching to the current parent again changes nothing |
| Components.AttachedIsExclusive | packages/controllables/core/components.py:74-79 | once attached, attaching to another parent raises `ValueError` and the parent stays |
| Components.DetachFreesComponent | packages/controllables/core/components.py:84-93 | after `detach` (whatever its argument) a later attach to any parent succeeds |
| Containers.Empty | packages/energyplus/ooep/utils/containers.py:61-63 | a new set is valid and has no element |
| Containers.Contains | packages/energyplus/ooep/utils/containers.py:65-66 | membership is membership of the contents |
| Containers.Add | packages/energyplus/ooep/utils/containers.py:74-75 | `add` keeps the old order and adds the element; an element already present changes nothing; the length grows by one exactly for a new element |
| Containers.Discard | packages/energyplus/ooep/utils/containers.py:77-79 | `discard` removes only that element, keeping the others in order; an absent element is a no-op |
| Containers.Remove | packages/energyplus/ooep/utils/containers.py:81-84 | `remove` raises `KeyError` exactly when the element is absent, and otherwise is `discard`, shortening the set by one |
| Containers.AddAll | packages/energyplus/ooep/utils/containers.py:86-89 | adding a sequence keeps the old elements first, and the result holds exactly the old and the added elements |
| Containers.DiscardAll | packages/energyplus/ooep/utils/containers.py:91-94 | discarding a sequence leaves exactly the old elements not in it |
| Containers.Update | packages/energyplus/ooep/utils/containers.py:86-89 | `update(*iterables)` keeps the set valid and loses no element |
| Containers.DifferenceUpdate | packages/energyplus/ooep/utils/containers.py:91-94 | `difference_update(*iterables)` keeps the set valid |
| Containers.FromSeq | packages/energyplus/ooep/utils/containers.py:61-63 | `OrderedSet(iterable)` is a valid set |
| Containers.LenCountsDistinct | packages/energyplus/ooep/utils/containers.py:71-72 | `len` is the number of distinct elements |
| Containers.UpdateIsRepeatedAdd | packages/energyplus/ooep/utils/containers.py:86-89 | `update(*iterables)` is `add` of every element of every iterable, in order |
| Containers.DifferenceUpdateIsRepeatedDiscard | packages/energyplus/ooep/utils/containers.py:91-94 | `difference_update(*iterables)` is `discard` of every element of every iterable, in order |
| Containers.AddAllAppend | packages/energyplus/ooep/utils/containers.py:86-89 | adding `a + b` is adding `a`, then `b` |
| Containers.DiscardAllAppend | packages/energyplus/ooep/utils/containers.py:91-94 | discarding `a + b` is discarding `a`, then `b` |
| Containers.AddAllKeepsFirstInsertionOrder | packages/energyplus/ooep/utils/containers.py:68-69 | iteration keeps the old elements, then each new element at its first occurrence |
| Containers.FromSeqOrder | packages/energyplus/ooep/utils/containers.py:61-63 | a set built from a sequence iterates the elements in order of first occurrence |
| Containers.OrderSensitiveEquality | packages/energyplus/ooep/utils/containers.py:99-102 | two sets with the same elements in different orders are not equal, because the backing ordered dicts compare in order |
| Callables.Run | packages/controllables/core/callables.py:54-85 | a pipeline run records results only for listeners, in their order, at most one each; a listener may return or raise, and the loop itself catches `ContinueOperation` and `StopOperation` |
| Callables.Pipeline | packages/controllables/core/callables.py:77-85 | the loop computes the same as `Run`, and its record is a subsequence of the listeners |
| Callables.PrependStep | packages/controllables/core/callables.py:79-84 | one turn of the loop: a returned value is recorded, `ContinueOperation` skips the listener, `StopOperation` ends with the results so far, and anything else escapes |
| Callables.RunIsExpected | packages/controllables/core/callables.py:77-85 | with stateless listeners, the run is the reference semantics: values recorded in order, `ContinueOperation` skipped, `StopOperation` ends, other exceptions escape |
| Callables.HaltIndex | packages/controllables/core/callables.py:79-84 | the halting position: every earlier listener returned or raised `ContinueOperation`, and the listener there raises `StopOperation` or another exception |
| Callables.RunRespectsListeners | packages/controllables/core/callables.py:79-84 | the run depends only on what its own listeners do |
| Callables.ProducedAreValues | packages/controllables/core/callables.py:80-81 | every recorded pair is a listener with the value it returned |
| Callables.ProducedAreComplete | packages/controllables/core/callables.py:80-81 | every listener that returned a value is recorded with it |
| Callables.PlainPipelineRecordsEverything | packages/controllables/core/callables.py:77-85 | when every listener returns, the result holds each listener with its value, in insertion order |
| Callables.ContinueSkipsListener | packages/controllables/core/callables.py:82 | a listener raising `ContinueOperation` is left out, and the run is that of the other listeners |
| Callables.StopEndsIteration | packages/controllables/core/callables.py:83 | a listener raising `StopOperation` ends the run with exactly the earlier results |
| Callables.RaisePropagates | packages/controllables/core/callables.py:79-84 | any other exception from the first halting listener escapes the pipeline |
| Callables.HaltIndexIsFirst | packages/controllables/core/callables.py:79-84 | the run halts at the first listener that raises anything but `ContinueOperation` |
| Callables.ArgKeys | packages/controllables/core/callables.py:128-132 | `keys()` lists the positions `0..n-1`, then the keyword names in order |
| Callables.ArgValues | packages/controllables/core/callables.py:134-138 | `values()` lists the positional values, then the keyword values, in the order of `keys()` |
| Callables.GetItem | packages/controllables/core/callables.py:143-146 | corrected `__getitem__`: a position in range gives its argument, another position `KeyError`, a name its keyword value or `KeyError` |
| Callables.KeysIndexValues | packages/controllables/core/callables.py:128-146 | for well-formed arguments, indexing with the i-th key gives the i-th value |
| Callables.Lookup | packages/controllables/core/callables.py:146 | a keyword lookup succeeds exactly when the name is present, with its value, and raises `KeyError` otherwise |
| Callables.LookupFinds | packages/controllables/core/callables.py:146 | with distinct names, looking up a keyword's name gives that keyword's value |
| Callables.TupleIndex | packages/controllables/core/callables.py:145 | tuple indexing accepts integers in `-n..n-1` (negative from the end), raises `IndexError` for other integers and `TypeError` for non-integers |
| Callables.GetItemAsWritten | packages/controllables/core/callables.py:143-146 | `__getitem__` as written: a key equal to some positional value indexes the tuple, otherwise the keywords are consulted |
| Callables.GetItemAsWrittenMissesPositions | packages/controllables/core/callables.py:144-145 | concrete inputs where the as-written lookup disagrees with the corrected one |
| Callables.NewAck | packages/controllables/core/callables.py:162-171 | a new acknowledgement holds `None` and is not done |
| Callables.Set | packages/controllables/core/callables.py:173-186 | `set` stores the value and returns it; a deferred ack becomes done |
| Callables.Get | packages/controllables/core/callables.py:188-201 | `get` returns the stored value and clears the done flag |
| Callables.SetThenGet | packages/controllables/core/callables.py:173-201 | `get` after `set(v)` returns `v` |
| Callables.Exit | packages/controllables/core/callables.py:229-239 | a normal exit acks `None`; `ContextReturn(v)` acks `v` and suppresses; any other exception propagates, leaving the context as it was |
| Callables.ContextReturnDeliversValue | packages/controllables/core/callables.py:234-236 | returning `v` from a context makes the ack deliver `v` |
| Callables.NormalExitOverwritesAck | packages/controllables/core/callables.py:230-232 | a normal exit overwrites a value acked inside the block with `None` |
| Callbacks.NewFrequency | packages/controllables/core/callbacks.py:287-289 | a new predicate keeps its period and has counted nothing |
| Callbacks.Tick | packages/controllables/core/callbacks.py:291-296 | a call counts one more and holds exactly when the period divides the new count (Python's `%`, for any sign of period), then resets the count; with no period it always holds; period 0 raises `ZeroDivisionError` |
| Callbacks.PyMod | packages/controllables/core/callbacks.py:293 | Python's `%`: the remainder has the divisor's sign, lies strictly within the divisor, and is 0 exactly when the divisor divides the number |
| Callbacks.NegativePeriodActsAsPositive | packages/controllables/core/callbacks.py:291-296 | a negative period `-n` answers and counts exactly as the period `n` |
| Callbacks.Ticks | packages/controllables/core/callbacks.py:291-296 | `k` calls give `k` answers and keep the period |
| Callbacks.CountsUpToPeriod | packages/controllables/core/callbacks.py:291-296 | before the period is reached, every call answers false and the count grows |
| Callbacks.EveryNthCall | packages/controllables/core/callbacks.py:291-296 | with period `n > 0`, `n` calls answer false `n-1` times then true, and leave the predicate fresh |
| Callbacks.TicksSplit | packages/controllables/core/callbacks.py:291-296 | `k + j` calls are `k` calls followed by `j` calls |
| Callbacks.WithoutPeriodAlwaysHolds | packages/controllables/core/callbacks.py:293-295 | with no period every call holds |
| Callbacks.On | packages/controllables/core/callbacks.py:468-474 | `on` returns the listener; a registered one stays where it is; a new one goes last; other callbacks are untouched |
| Callbacks.Off | packages/controllables/core/callbacks.py:476-483 | `off` returns the listener and removes only it, keeping the order; an unregistered one is a no-op |
| Callbacks.Fork | packages/controllables/core/callbacks.py:499-504 | `fork` creates a new empty callback (wrapped by the transform), appends it to the parent's listeners and returns it |
| Callbacks.Filter | packages/controllables/core/callbacks.py:321-327 | `filter(predicate)` appends a new, empty fork asking that predicate to the callback's listeners, changing nothing else; on a `FilteredCallback`, which has no `filter`, it raises `AttributeError` |
| Callbacks.Sample | packages/controllables/core/callbacks.py:333-344 | `sample(n)` and `sample.uniform(n)` append a new, empty fork asking a fresh `FrequencyPredicate(n)` to the callback's listeners, changing nothing else; on a `FilteredCallback` they raise `AttributeError` |
| Callbacks.Mod | packages/controllables/core/callbacks.py:348-349 | `callback % n` is `sample.uniform(n)`; on a `FilteredCallback`, which has no `__mod__`, it raises `TypeError` |
| Callbacks.ForkOfForkRaises | packages/controllables/core/callbacks.py:300-358 | a fork made by `sample` cannot be filtered, sampled or taken `%` again, while the callback it came from still can |
| Callbacks.OnIdempotent | packages/controllables/core/callbacks.py:468-470 | `on` twice is `on` once |
| Callbacks.OffUndoesOn | packages/controllables/core/callbacks.py:468-483 | `off` undoes the `on` of a listener that was not registered |
| Callbacks.OnAfterOffMovesToEnd | packages/controllables/core/callbacks.py:468-483 | turning a listener off and on again moves it to the end |
| Callbacks.Emit | packages/controllables/core/callbacks.py:305-308 | calling a callback returns a record of results, `None`, or what a listener or the predicate raised; out of fuel it raises `RecursionError` |
| Callbacks.Forward | packages/controllables/core/callbacks.py:495-496 | the unfiltered call of a callback returns the record of its pipeline |
| Callbacks.Invoke | packages/controllables/core/callables.py:80-84 | a user-function listener returns or raises what the user code says, and leaves the callbacks as they were |
| Callbacks.CallIsPipeline | packages/controllables/core/callbacks.py:495-496 | calling an unfiltered callback whose listeners are user functions is exactly the pipeline over its listeners |
| Callbacks.FilterBlocks | packages/controllables/core/callbacks.py:305-307 | when the predicate does not hold, the filtered callback returns `None` and calls nobody; only the predicate's state changes |
| Callbacks.FilterRaises | packages/controllables/core/callbacks.py:305-306 | what the predicate raises escapes from the filtered callback, and no listener runs |
| Callbacks.ChildPredicateStopsParent | packages/controllables/core/callbacks.py:305-306 | a child callback whose predicate raises `StopOperation` ends the parent's pipeline, which returns an empty record |
| Callbacks.ChildPredicateContinueSkipsChild | packages/controllables/core/callbacks.py:305-306 | a child callback whose predicate raises `ContinueOperation` is skipped, and the parent's pipeline goes on with its other listeners |
| Callbacks.FilterForwards | packages/controllables/core/callbacks.py:305-308 | when the predicate holds, the filtered callback forwards to the callback it wraps |
| Callbacks.SampledCallCounts | packages/controllables/core/callbacks.py:291-308 | a sampled callback forwards on exactly every n-th call and returns `None` on the others |
| Callbacks.Contains | packages/controllables/core/callbacks.py:539-540 | `ref in manager` holds exactly for declared slots and references already accessed |
| Callbacks.GetItem | packages/controllables/core/callbacks.py:543-554 | `manager[ref]` returns the reference's callback, creating an empty one on first access; nothing else changes |
| Callbacks.GetItemStable | packages/controllables/core/callbacks.py:543-554 | a reference gets the same callback on every access, created once |
| Callbacks.ManagerOn | packages/controllables/core/callbacks.py:402-412 | `manager.on(ref, func)` is `manager[ref].on(func)` and returns `func`: the listener stays where it was on the reference's callback or goes last, and no other callback or reference changes |
| Callbacks.ManagerOff | packages/controllables/core/callbacks.py:414-424 | `manager.off(ref, func)` is `manager[ref].off(func)` and returns `func`: only that listener leaves the reference's callback, the others keep their order, and no other callback or reference changes |
| Callbacks.ManagerCall | packages/controllables/core/callbacks.py:559-560 | `manager(ref, ...)` accesses `manager[ref]` and calls that callback |
| Callbacks.CallingFreshReference | packages/controllables/core/callbacks.py:543-560 | calling a reference never accessed creates its callback and returns an empty record |
| Dicts.GetEntry | packages/energyplus/ooep/utils/zippers.py:20 | in a dict with unique keys, looking up an entry's key gives that entry's value |
| Dicts.Get | packages/energyplus/ooep/utils/zippers.py:20 | `d[k]` is the value of an entry with key `k`, and with unique keys of every such entry |
| Zippers.MinLen | packages/energyplus/ooep/utils/zippers.py:12-13 | the length of the shortest input: no longer than any, equal to one, 0 for none |
| Zippers.IterableZipper | packages/energyplus/ooep/utils/zippers.py:12-13 | `zip` yields as many tuples as the shortest input has elements, the i-th holding the i-th element of each input |
| Zippers.ZipFrom | packages/energyplus/ooep/utils/zippers.py:12-13 | the tuples from position `k` on: one per remaining position of the shortest input, each the column there |
| Zippers.InAll | packages/energyplus/ooep/utils/zippers.py:17-18 | a key is common exactly when every mapping has it |
| Zippers.Common | packages/energyplus/ooep/utils/zippers.py:17-18 | the common keys are exactly the keys of the first mapping that every mapping has |
| Zippers.MappingZipper | packages/energyplus/ooep/utils/zippers.py:16-20 | one pair per common key, holding that key's value from each mapping in argument order; no mapping at all raises `TypeError` |
| Zippers.CommonUnique | packages/energyplus/ooep/utils/zippers.py:17-19 | each common key is yielded once |
| Zippers.MappingZipperUniqueKeys | packages/energyplus/ooep/utils/zippers.py:16-20 | zipping dicts yields each key once |
| Mappers.CollectionMapper | packages/controllables/core/utils/mappers.py:241-250 | `CollectionMapper(next)` has the mapping mapper first, then the iterable one |
| Mappers.Add | packages/controllables/core/utils/mappers.py:191-192 | `add` appends sub-mappers and keeps the next mapper |
| Mappers.AddKeepsMaps | packages/controllables/core/utils/mappers.py:191-198 | adding sub-mappers never makes objects unmappable |
| Mappers.EnsureMaps | packages/controllables/core/utils/mappers.py:106-119 | `_ensure_maps` passes exactly when the objects can be mapped, and otherwise raises `TypeError` |
| Mappers.ProxyCall | packages/controllables/core/utils/mappers.py:132-139 | the proxy raises `ValueError` without a next mapper and otherwise calls it |
| Mappers.ProxyWithoutNextMapsNothing | packages/controllables/core/utils/mappers.py:123-136 | a proxy with no next mapper maps nothing and raises `ValueError` when called |
| Mappers.FirstMatch | packages/controllables/core/utils/mappers.py:200-205 | dispatch picks the first sub-mapper whose `maps` holds, and none when no sub-mapper maps |
| Mappers.Apply | packages/controllables/core/utils/mappers.py:200-206 | objects that cannot be mapped raise `TypeError` and nothing is called |
| Mappers.ApplyMapping | packages/controllables/core/utils/mappers.py:146-157 | the mapping mapper returns a dict whose keys are exactly those common to all its inputs; no input raises `TypeError` |
| Mappers.ApplyMappingUnfolds | packages/controllables/core/utils/mappers.py:153-157 | the mapping mapper maps the zip of the entries, key by key |
| Mappers.MappedDictKeys | packages/controllables/core/utils/mappers.py:146-157 | a mapping call that returns yields a dict over the keys common to all inputs |
| Mappers.MapEntries | packages/controllables/core/utils/mappers.py:154-157 | the `dict(...)` generator maps every zipped key and keeps the keys in order |
| Mappers.ApplyIterable | packages/controllables/core/utils/mappers.py:164-179 | the iterable mapper rebuilds a list as a list and a tuple as a tuple, as long as the shortest input, and a set as a set |
| Mappers.ApplyIterableUnfolds | packages/controllables/core/utils/mappers.py:177-179 | the iterable mapper maps the zip of the items, position by position |
| Mappers.MapItems | packages/controllables/core/utils/mappers.py:177-179 | the generator maps every zipped position, and results that go into a set must be hashable |
| Mappers.MappingTriedFirst | packages/controllables/core/utils/mappers.py:245-250 | `CollectionMapper` sends dicts to the mapping mapper, and the result is a dict over the common keys |
| Mappers.IterableRebuildsSameContainer | packages/controllables/core/utils/mappers.py:167-179 | lists, tuples and sets go to the iterable mapper and come back as the same kind of container |
| Mappers.LeafGoesToNextMapper | packages/controllables/core/utils/mappers.py:194-206 | when some object is a leaf, the call goes to the next mapper, or raises `TypeError` without one |
| Mappers.FollowsItself | tests/controllables/core/test_utils/test_mappers.py:6-29 | a tree that another tree follows has its own shape |
| Mappers.UnderAligned | tests/controllables/core/test_utils/test_mappers.py:6-29 | aligned dicts all have the first one's keys, and the values under each key are aligned |
| Mappers.AtAligned | tests/controllables/core/test_utils/test_mappers.py:6-29 | aligned lists or tuples have one length, and the items at each position are aligned |
| Mappers.Walk | tests/controllables/core/test_utils/test_mappers.py:6-29 | the reference walk rebuilds the first tree's containers with the same sizes and hands the parallel leaves to the mapper function |
| Mappers.AlignedMapsLeafwise | tests/controllables/core/test_utils/test_mappers.py:6-29 | `CollectionMapper(g)` over trees of one shape equals the reference walk |
| Mappers.PairMapsLeafwise | tests/controllables/core/test_utils/test_mappers.py:6-29 | two trees where the second has the first's containers map leaf by leaf, as the walk does |
| Mappers.ZipAligned | packages/controllables/core/utils/mappers.py:153-157 | zipping aligned dicts gives each key of the first in order, with the values under it |
| Mappers.KeysCommonToAligned | packages/energyplus/ooep/utils/zippers.py:17-18 | every key of the first aligned dict is common to all of them |
| Mappers.ZipAlignedItems | packages/controllables/core/utils/mappers.py:177-179 | zipping aligned lists or tuples gives, for each position, the items there |
| Mappers.MapEntriesWalk | packages/controllables/core/utils/mappers.py:154-157 | the dict generator over aligned dicts is the walk over their entries |
| Mappers.MapItemsWalk | packages/controllables/core/utils/mappers.py:177-179 | the list or tuple generator over aligned containers is the walk over their items |
| Mappers.CommonAll | packages/energyplus/ooep/utils/zippers.py:17-18 | when every key is common, the common keys are all of them, in order |
| Variables.Read | packages/controllables/core/variables.py:382-387 | reading a plain or mutable variable gives its value; an external one gives what the outside reports; no fuel raises `RecursionError` |
| Variables.ValueOf | packages/controllables/core/variables.py:121-129 | `valueof` reads a variable and returns any other object itself |
| Variables.Unwrap | packages/controllables/core/variables.py:455-459 | `from_operator` passes each operand's `valueof`, keeping names and order, or the first exception |
| Variables.UnwrapAll | packages/controllables/core/variables.py:457 | `valueof` of each operand in order, or an exception one of them raised |
| Variables.Write | packages/controllables/core/variables.py:663-667 | writing a variable with no setter raises `AttributeError`; without fuel or a variable nothing changes |
| Variables.WriteStoresThenNotifies | packages/controllables/core/variables.py:663-667 | a write stores the value, changes no other variable, then calls the `change` callback |
| Variables.ReadAfterWrite | packages/controllables/core/variables.py:660-667 | reading a mutable variable after a write gives the value written, even if a listener failed |
| Variables.WriteRunsChangeListeners | packages/controllables/core/variables.py:663-667 | with a plain `change` callback, a write runs its listeners' pipeline and fails exactly when the pipeline does |
| Variables.EqualWriteStillCounts | packages/controllables/core/variables.py:663-667 | writing the value a variable already holds still calls `change`: a `sample(n)` fork of a fresh `change` callback counts the write, and nothing else changes |
| Variables.CompositeReadIsWalk | packages/controllables/core/variables.py:382-387 | a composite reads as the walk of its layout with every variable leaf replaced by its value |
| Variables.GetterIsValueOf | packages/controllables/core/variables.py:384-386 | the getter gives each leaf its `valueof` |
| Variables.ProxyReadsThrough | packages/controllables/core/variables.py:382-387 | a composite over a single variable reads as that variable |
| Variables.ConstantCompositeReadsItself | packages/controllables/core/variables.py:382-387 | a composite over a non-variable object reads as that object |
| Variables.CompositeWriteIsWalk | packages/controllables/core/variables.py:407-415 | assigning a mutable composite a value with its layout is the walk of the setter over the layout and the value |
| Variables.SetterRejectsObjects | packages/controllables/core/variables.py:410-412 | a one-leaf layout whose leaf is not a variable raises `TypeError` and assigns nothing |
| Variables.ProxyWriteRoundTrip | packages/controllables/core/variables.py:407-415 | through a proxy composite, reading after assigning gives the value, in the composite and in the variable |
| Variables.ListWriteRoundTrip | packages/controllables/core/variables.py:770-793 | after a successful write to a mutable composite list of distinct mutable variables, the composite reads back the list and each variable reads its item |
| Variables.VarLeaves | packages/controllables/core/variables.py:766-767 | the layout of a composite list holds each variable as a leaf, in order |
| Variables.ComputedSeesWrites | packages/controllables/core/variables.py:448-461 | a computed variable built by `from_operator` sees the latest write to its operand |
| Variables.ComputedPassesObjects | packages/controllables/core/variables.py:489-491 | a computed variable not built by `from_operator` calls its function with its arguments unchanged |
| Variables.NewConditional | packages/controllables/core/variables.py:561-563 | a new conditional is unattached, with a new, empty callback filtered by its predicate |
| Variables.AttachConditional | packages/controllables/core/variables.py:565-569 | corrected `__attach__`: attaching follows the component rules, then registers the conditional on a mutable parent's `change` callback; no variable changes |
| Variables.AttachConditionalAsWritten | packages/controllables/core/variables.py:565-569 | `__attach__` as written: it never fails; an attached conditional keeps its parent whatever the argument and registers again on that parent's `change` |
| Variables.SecondParentIgnored | packages/controllables/core/components.py:75-76 | attaching a conditional to a second variable is silently ignored as written, and raises `ValueError` as intended |
| Variables.AttachThenDetachRestores | packages/controllables/core/variables.py:565-575 | attaching a fresh conditional and detaching it gives back the store and the conditional |
| Variables.DetachConditional | packages/controllables/core/variables.py:571-575 | `__detach__()` unregisters from the parent's `change` and leaves the conditional unattached; unattached raises `ValueError`; it is what the public `detach` evidently intends |
| Variables.DetachConditionalAsWritten | packages/controllables/core/components.py:93-95 | `conditional.detach(...)` as written raises `TypeError`, because it passes an argument to a `__detach__` that takes none |
| Variables.PublicDetachFails | packages/controllables/core/variables.py:571 | on an attached conditional the public `detach` raises `TypeError` where `__detach__()` detaches |
| Variables.CallConditional | packages/controllables/core/variables.py:582-589 | the call raises `ValueError` without a parent, returns `None` when the read is temporarily unavailable or the predicate fails, and passes other read errors and the predicate's exceptions on |
| Variables.ConditionalOn | packages/controllables/core/variables.py:577-580 | `on` registers the listener first, then calls the conditional with it as target |
| Variables.ConditionalFork | packages/controllables/core/callbacks.py:499-504 | `fork`, `filter`, `sample` and `%` on a conditional register the new callback through `Conditional.on`: without a parent this raises `ValueError`; when the predicate holds of the parent's value the new callback is called at once and what it raises escapes; otherwise the result is the plain fork |
| Variables.FilterUnattachedConditionalRaises | packages/controllables/core/variables.py:577-584 | filtering a conditional with no parent raises `ValueError`, where filtering a plain callback succeeds |
| Variables.SampleOfHoldingConditionalCountsAtOnce | packages/controllables/core/variables.py:250-254 | `v.when(p).sample(n)` with `p` holding calls the sampler at subscription time, so it starts with one call counted |
| Variables.OnFiresIffPredicateHolds | packages/controllables/core/variables.py:577-589 | a listener registered on an attached conditional runs at once exactly when the predicate holds of the parent's value, and its exception escapes; the predicate's exception escapes too; an unavailable value does not fire it |
| Variables.ChangeCallsConditional | packages/controllables/core/variables.py:565-589 | when the mutable parent changes, its `change` callback calls the conditional as `Conditional.__call__()` does |
| Variables.Contains | packages/controllables/core/variables.py:686-687 | `ref in manager` holds exactly for slots and references with a variable |
| Variables.GetItem | packages/controllables/core/variables.py:689-692 | `manager[ref]` returns the reference's variable, creating a new `MutableVariable()` holding `Nil` on first access |
| Variables.DelItem | packages/controllables/core/variables.py:694-695 | `del manager[ref]` forgets only that reference's variable, and raises `KeyError` when it has none |
| Variables.GetItemStable | packages/controllables/core/variables.py:689-692 | a reference gets the same variable every time; a new one is mutable and reads `Nil` |
| Variables.DeleteThenGetCreatesFresh | packages/controllables/core/variables.py:686-695 | after `del`, the reference is contained only if it is a slot, and the next access creates a fresh variable |
| Refs.Deref | packages/controllables/core/refs.py:66-77 | a contained reference gives `manager[ref]`; otherwise a callable one is called with the manager; otherwise `TypeError` |
| Refs.VariableRefs | packages/controllables/core/variables.py:686-692 | a `VariableManager` as a reference manager: membership is `__contains__` and lookup is `__getitem__` |
| Refs.GetVariable | packages/controllables/core/variables.py:689-692 | looking a reference up in a manager returns the variable `__getitem__` gives |
| Refs.DerefContainedIsStable | packages/controllables/core/refs.py:66-67 | a contained reference resolves to an existing variable, and resolving it again gives the same variable |
| Refs.DerefSlotCreatesVariable | packages/controllables/core/refs.py:66-67 | a declared slot with no variable yet resolves to a new mutable variable holding `Nil` |
| Refs.DerefUnknownCreatesNothing | packages/controllables/core/refs.py:66-77 | membership is asked before lookup: an unknown, non-callable reference raises `TypeError` and creates no variable, although `manager[ref]` would |
| Refs.DerefCallsUnknownCallable | packages/controllables/core/refs.py:69-70 | an unknown callable reference is called with the manager |
| Kernel.Name | packages/controllables/energyplus/_kernel/__init__.py:206 | the path's name has no slash and is never `.` |
| Kernel.NameIsComponent | packages/controllables/energyplus/_kernel/__init__.py:206 | a non-empty name is a whole component of the path, between slashes or the ends |
| Kernel.Suffix | packages/controllables/energyplus/_kernel/__init__.py:206 | a suffix is the end of the name, starts with its only dot, has something after the dot, and is shorter than the name |
| Kernel.FormatOf | packages/controllables/energyplus/_kernel/__init__.py:206-213 | `.json` and `.epjson` are epJSON, `.idf` is IDF, and any other suffix is `None` |
| Kernel.InferFormat | packages/controllables/energyplus/_kernel/__init__.py:205-213 | a format is inferred only from a real suffix of the path's name |
| Kernel.LowerChar | packages/controllables/energyplus/_kernel/__init__.py:206 | lower-casing turns an ASCII capital into its small letter and keeps every other character |
| Kernel.InferIgnoresCase | packages/controllables/energyplus/_kernel/__init__.py:206 | paths that agree once lower-cased are given the same format |
| Kernel.NameLower | packages/controllables/energyplus/_kernel/__init__.py:206 | the name of a lower-cased path is the lower-cased name |
| Kernel.SuffixLower | packages/controllables/energyplus/_kernel/__init__.py:206 | the suffix of a lower-cased name is the lower-cased suffix |
| Kernel.InferFromExtension | packages/controllables/energyplus/_kernel/__init__.py:205-213 | `dir/stem.ext` gets the format its extension names, in any case, and `None` for any other extension |
| Kernel.HiddenFileHasNoFormat | packages/controllables/energyplus/_kernel/__init__.py:206-213 | a dot file such as `.json` has no suffix, so no format |
| Kernel.NoSuffixWithoutInnerDot | packages/controllables/energyplus/_kernel/__init__.py:206-213 | a name without a dot, or ending in one, has no suffix |
| Kernel.TrailingSlashIgnored | packages/controllables/energyplus/_kernel/__init__.py:206 | a trailing slash or a trailing `.` component does not change the format |

## Left out

- **Deferred `Ack`.** Blocking in `get` is not modelled: threads and timeouts are outside the model. A deferred ack records only that it is done.
- **Future-based handlers.** The handlers, `future`, `wait`, `queue`, `async_*` and `cancel` on callbacks are concurrency and are not modelled. The same goes for `Callback.cancel` and `clear`.
- **`fork` transforms.** `fork(transform)` is modelled for the transforms the runtime builds: none, or a `FilteredCallback` by `filter` and `sample`. An arbitrary user transform is not modelled.
- **Listeners and the state.** A listener's outcome depends only on the arguments, through `Callbacks.Env`. Listeners cannot register or unregister listeners. They cannot write variables during a call.
- Callbacks.Fork: models `fork` on a plain `Callback`; on a conditional `self.on` is `Conditional.on`, which `Variables.ConditionalFork` models.
- Callbacks.Filter: as `Callbacks.Fork`; `Variables.ConditionalFork` with a custom predicate is `filter` on a conditional.
- Callbacks.Sample: as `Callbacks.Fork`; `Variables.ConditionalFork` with a frequency predicate is `sample` on a conditional.
- Callbacks.Mod: as `Callbacks.Sample`.
- Callbacks.Emit: a conditional's node is modelled only as reached from its parent's `change` callback, whose arguments are the parent's new value (`Variables.ChangeCallsConditional`). Registered on another callback, or called after it was detached, the node asks its predicate of the call's own arguments, while `Conditional.__call__` ignores them, reads the parent, and raises `ValueError` without one.
- **Arguments of `change`.** `MutableVariable`'s setter calls `change` with no arguments. The model passes the new value as the call's arguments. For a `Conditional` this is the value its `__call__` reads from the parent. For a user function, its behaviour may depend on it as on any read of the variable.
- Variables.CallConditional: `Conditional.__call__` calls its target and its own listeners with no arguments; the model hands them the parent's value, which they could read themselves. A listener that uses no argument behaves the same either way; one that requires an argument raises `TypeError` in Python, which the model does not show.
- Variables.ConditionalOn: the immediate call of the new listener gets the parent's value as its argument, for the reason above; `Variables.OnFiresIffPredicateHolds` states the listener's outcome as its behaviour on that value.
- **Composite and computed `events`.** These are cached properties built on first access by subscribing to the inner variables' `change` callbacks. They are not modelled. A `Conditional` registers itself only on a mutable parent. On a composite or computed parent it only attaches.
- **Computed functions.** Only those built by `from_operator` read variables, by unwrapping their operands. Any other function is `World.compute` and sees its arguments unchanged.
- **Set order in `MappingZipper`.** It iterates the common keys in the hash order of a `set`. The model yields them in the order of the first mapping. Each key is still yielded once, with every mapping's value.
- **`IterableMapper` on strings and dicts.** It rebuilds its result with the type of the first object. A list, tuple or set first gives an eager container of that type, even when a later object is a dict or a string; their keys or characters are zipped in. Any other first object gives a lazy `iter`. The model gives `NotModelled` whenever a dict or a string is among the objects. Inputs that are all lists, tuples or sets are modelled.
- **Sets and strings in aligned layouts.** `Mappers.Follows` and `Mappers.Aligned` do not cover sets and strings, because a set's iteration order is not fixed. The walk lemmas therefore cover dicts, lists and tuples only.
- **Variables.ListWriteRoundTrip:** the write-then-read round trip of a mutable composite is proved for a single variable (`Variables.ProxyWriteRoundTrip`) and for a flat list of distinct mutable variables. For nested layouts, `Variables.CompositeWriteIsWalk` and `Variables.CompositeReadIsWalk` state each direction separately.
- **The recursion bound.** `fuel` stands for Python's recursion limit, which is not a fixed number. Results are stated for any fuel that suffices, and running out is `RecursionError`.
- **`var`, `const_var` and `compose`.** These, together with `VariableView`, `IndexVariable`, `cast`, `when`, `const` and the container mixin, are thin constructors and views over the modelled classes, adding no behaviour of their own.
- **Arithmetic mixins and `ProxyMeta`.** These synthesize operators through a metaclass and are not modelled.
- **Kernel.InferFormat: paths.** It models POSIX paths only; Windows drive letters and backslashes are not modelled.
- **Kernel.InferFormat: lower-casing.** Only ASCII is lower-cased. No non-ASCII string lower-cases to `.json`, `.epjson` or `.idf`, so the inferred format does not depend on this.
- **Kernel.Suffix:** a name ending in a dot has no suffix here, as in the Python versions that reject a trailing dot. Newer Python versions report `.` there. Either way the format is `None`.

## Findings

| source | as written | input that shows it | evidently intended | confidence | as-written member | corrected member |
|---|---|---|---|---|---|---|
| packages/controllables/core/callables.py:144-145 | `__getitem__` tests `key in self.__args__`, which asks whether the key equals one of the positional values rather than whether it is a valid position | `Arguments(5, 6)[0]` raises `KeyError`. `Arguments(7)[7]` raises `IndexError`. `Arguments(-1, 5)[-1]` returns `5` | an integer key in `range(len(args))` indexes the positional arguments, as the order of `keys()` promises | high, not executed | Callables.GetItemAsWritten, Callables.GetItemAsWrittenMissesPositions | Callables.GetItem, Callables.KeysIndexValues |
| packages/controllables/core/components.py:75-76 | `if parent == self.__parent__` compares with `==`, which on variables is the arithmetic mixin's (packages/controllables/core/variables.py:160) and builds a computed variable, always truthy | a `Conditional` attached to variable `a`, then `__attach__(b)`: it returns without error, stays on `a`, and registers on `a`'s `change` again | attaching to a different parent raises `ValueError`, as for any other component | medium, not executed | Variables.AttachConditionalAsWritten, Variables.SecondParentIgnored | Variables.AttachConditional, Variables.AttachThenDetachRestores |
| packages/controllables/core/components.py:93-95 | `Component.detach(parent=None)` calls `self.__detach__(parent)`, but `Conditional.__detach__(self)` (packages/controllables/core/variables.py:571) takes no argument | `conditional.detach()` on a conditional attached to a mutable variable raises `TypeError`, leaving it attached and listening | `detach()` detaches the conditional, as `__detach__()` does | high, not executed | Variables.DetachConditionalAsWritten, Variables.PublicDetachFails | Variables.DetachConditional, Variables.AttachThenDetachRestores |
