# Group operator and key lookups of differential dataflow, in Dafny

This project models two pieces of differential dataflow's early Rust sources:

- **The `Lookup` finite-map interface** (`new`, `get_ref`, `get_mut`,
  `entry_or_insert`, `remove_key`) and its three implementations:
  - a `HashMap`;
  - a linear-scan vector of `(key, value)` pairs that removes with `swap_remove`;
  - a dense vector of optional slots indexed by `key >> shift`.

  Each implementation is a class whose methods update its representation in
  place. Each method states its concrete effect on the representation. It also
  states its effect on an abstract map, `Model()`. For the dense table, the
  abstraction divides the shift out of the key.
- **The per-time step of the `group` operator.** It has four parts:
  - *Staging*: each arriving delivery goes onto its time's list, and a
    notification is requested for that time.
  - *Absorbing*: at a notified time, the staged input is built into a Compact,
    and each key of the Compact is scheduled at every time the source trace
    reports as interesting. The Compact is then installed in the source trace.
  - *Differencing*: the time's pending keys are sorted by `(key_h(key), key)`
    and de-duplicated. For each key, the user logic runs only on a non-empty
    input collection, and the buffer is sorted by value. The previous result is
    negated, merged with the buffer and coalesced. Every net difference is both
    emitted and recorded.
  - *Installing*: the accumulation of differences goes into the result trace
    when it is non-empty.

The headline theorem is stated as a postcondition of
`GroupOp.GroupOperator.ProcessTime`. The operator's invariant includes
reflexivity of the time order. After a time is processed, the result
trace holds, for every key that was pending, exactly the normalized output of
the logic on the key's current input. That is, the previous output plus the
emitted differences equals the new output, as weighted collections: value
ordered, each value once, no zero weights.

Modules:

- `Options`: the `Option` type.
- `Weighted`: weighted sequences of `(value, weight)` pairs, with sort, negate,
  merge, coalesce and the `Diff` pipeline.
- `Traces`: the Compact and Trace collaborators, reduced to what the operator
  relies on.
- `Lookup`: the three lookup classes.
- `GroupOp`: the operator's state as a class, with the specification functions
  used to state its step.

Keys and values are `int`. Times are a type parameter ordered by a partial order
`le` that is supplied as a parameter. The user `logic`, `reduc`, `kv`, `key_h`
and `interesting_times` are also parameters, collected in `GroupOp.Ops`. The
output session is the log `output`. The notificator is the set `requested` of
times with a pending notification.

Keys of a new batch are scheduled at the times the source trace's
`interesting_times` returns (group.rs line 240). The source trace is asked
before the batch is installed in it.

## Model

| member | source | states |
|---|---|---|
| Lookup.HashLookup.New | src/collection/lookup.rs:14 | a new table is empty |
| Lookup.HashLookup.GetRef | src/collection/lookup.rs:16 | returns the key's value exactly when the key is present |
| Lookup.HashLookup.GetMut | src/collection/lookup.rs:18 | returns the old value; the write through the reference changes only that key, and an absent key changes nothing |
| Lookup.HashLookup.EntryOrInsert | src/collection/lookup.rs:20-22 | the factory runs exactly when the key is absent; the value returned is the existing one or the factory's; only that key changes |
| Lookup.HashLookup.RemoveKey | src/collection/lookup.rs:24 | returns the key's former value, or None, and removes the key |
| Lookup.FirstIndex | src/collection/lookup.rs:31 | `position`: the index of the first pair with the key, with no earlier match, or None when no pair has the key |
| Lookup.VecLookup.New | src/collection/lookup.rs:28 | starts with no pairs and an empty map |
| Lookup.VecLookup.Position | src/collection/lookup.rs:31 | the scan loop finds exactly `FirstIndex` |
| Lookup.VecLookup.GetRef | src/collection/lookup.rs:30-35 | Some exactly when some pair has the key, holding the first such pair's value; equals the abstract map lookup |
| Lookup.VecLookup.GetMut | src/collection/lookup.rs:37-42 | writes through the first matching pair only; no match changes nothing; the abstract map is updated at the key; keys stay distinct |
| Lookup.VecLookup.EntryOrInsert | src/collection/lookup.rs:44-53 | a present key: the old value is returned, the factory is not called and only that pair's value changes; an absent key: `(key, init)` is appended, so the length grows by one; keys stay pairwise distinct |
| Lookup.VecLookup.RemoveKey | src/collection/lookup.rs:55-60 | an absent key: None and nothing changes; a present key: its value is returned and the list becomes `swap_remove` of the match; the abstract map loses exactly the key |
| Lookup.SwapRemove | src/collection/lookup.rs:57 | one shorter; the old last pair fills the vacated index; every other index is unchanged |
| Lookup.PairsModelSwapRemove | src/collection/lookup.rs:55-60 | on distinct keys, `swap_remove` at a position keeps keys distinct and removes exactly that pair's key from the map |
| Lookup.PairsModelAppend | src/collection/lookup.rs:49 | pushing a pair with a new key adds exactly that binding |
| Lookup.PairsModelUpdate | src/collection/lookup.rs:46 | writing a value at a position keeps keys distinct and rebinds exactly that key |
| Lookup.PairsModelFirst | src/collection/lookup.rs:31 | the abstraction `PairsModel` of a pair list: a key is in the map exactly when `position` finds it, and maps to the first match's value |
| Lookup.Slot | src/collection/lookup.rs:67 | every operation addresses slot `key >> shift`, never above the key; with shift 0 the slot is the key itself, so the dense table then refines a map over the keys |
| Lookup.DenseLookup.New | src/collection/lookup.rs:64 | empty slots, shift 0, empty map |
| Lookup.DenseLookup.WithShift | src/operators/group.rs:78 | the `(Vec::new(), shift)` a caller builds: empty slots with the given shift |
| Lookup.DenseLookup.GetRef | src/collection/lookup.rs:66-69 | None when slot `key >> shift` is past the end, otherwise that slot's contents |
| Lookup.DenseLookup.GetMut | src/collection/lookup.rs:71-74 | returns the slot's contents; writes only that slot and only when it is occupied; the length is unchanged |
| Lookup.DenseLookup.EntryOrInsert | src/collection/lookup.rs:76-81 | the array grows with empty slots exactly up to the index; the factory runs exactly when the slot was empty; afterwards the slot is occupied and no other slot has changed contents |
| Lookup.DenseLookup.RemoveKey | src/collection/lookup.rs:83-86 | returns the slot's former contents, empties it, leaves the length and every other slot unchanged |
| Weighted.SortByValue | src/operators/group.rs:280 | `buffer.sort_by` on values: the result is value-ordered and as long as the buffer (its contents: `SortByValueContents`) |
| Weighted.Negate | src/operators/group.rs:285 | same length; each pair keeps its value and has its weight negated |
| Weighted.Merge | src/operators/group.rs:286-288 | `merge_by` on two value-sorted streams: value-sorted, as long as both together, and it starts with the head of one of them |
| Weighted.Coalesce | src/operators/group.rs:284 | the coalesced stream is canonical: values strictly increase and no weight is zero |
| Weighted.Diff | src/operators/group.rs:284-288 | the differences of negate, merge and coalesce are canonical |
| Weighted.SortByValueContents | src/operators/group.rs:280 | sorting the buffer by value yields a value-ordered permutation that keeps every value's weight |
| Weighted.NegateWeight | src/operators/group.rs:285 | negation flips every value's weight |
| Weighted.MergeContents | src/operators/group.rs:286-288 | the merge of two value-sorted streams is value-sorted, holds exactly the pairs of both, and adds weights |
| Weighted.Emit | src/operators/group.rs:284 | a finished run yields a pair exactly when its summed weight is non-zero |
| Weighted.CoalesceWeight | src/operators/group.rs:284 | coalescing keeps every value's net weight; its result is canonical |
| Weighted.NormalizeWeight | src/operators/group.rs:275 | the canonical form of a history keeps every value's net weight |
| Weighted.CanonicalUnique | src/operators/group.rs:284-288 | two canonical collections with the same weights are equal |
| Weighted.DiffIsNetChange | src/operators/group.rs:284-288 | the emitted differences are canonical, and previous plus differences weighs exactly what the new buffer weighs |
| Weighted.DiffOfEmptyIsRetraction | src/operators/group.rs:284-288 | against an empty buffer the differences are exactly the negated previous collection |
| Weighted.DiffOfSameIsEmpty | src/operators/group.rs:284-288 | when the new buffer equals the previous collection no difference is emitted |
| Traces.CompactKeys | src/operators/group.rs:239 | the keys of a Compact, group by group |
| Traces.Records | src/operators/group.rs:221-232 | the records of a time's staged deliveries, mapped through `kv`: exactly as many as the deliveries hold |
| Traces.GroupRecordsSpec | src/operators/group.rs:220-235 | `GroupRecords`: grouping records gives each key once, holding exactly that key's records in arrival order, and all records |
| Traces.BuildCompactSpec | src/operators/group.rs:220-237 | `BuildCompact`: a time's staged input yields no Compact exactly when it holds no record; otherwise the Compact holds every staged record under its key, each key once, and its value count is the number of staged records |
| Traces.Trace.SetDifference | src/operators/group.rs:248 | installing a Compact appends one entry for the time and keeps every earlier entry |
| Traces.Trace.Collection | src/operators/group.rs:275 | `get_collection_using`: a key's collection at a time is canonical and value-ordered |
| Traces.CollectionWeight | src/operators/group.rs:275 | a key's collection at a time weighs what the key's differences at all times `le` it weigh |
| Traces.SetDifferenceVals | src/operators/group.rs:299 | a new entry adds its differences for a key to every time above the entry's time and to no other |
| GroupOp.AppendAllAt | src/operators/group.rs:241-242 | `AppendAll`: after a series of pushes, each time's list is its former list followed by that time's items in order; a time is present exactly when it was before or was pushed to |
| GroupOp.SortKeys | src/operators/group.rs:266 | `keys.sort_by((key_h(k), k))`: sorted in that order, same length |
| GroupOp.SortKeysContents | src/operators/group.rs:266 | sorting the pending keys by `(key_h(key), key)` is a permutation |
| GroupOp.DedupStrict | src/operators/group.rs:267 | de-duplicating a sorted key list leaves it strictly increasing, so no key repeats |
| GroupOp.Dedup | src/operators/group.rs:267 | `dedup` keeps exactly the elements of its input and its first element |
| GroupOp.OrderedKeys | src/operators/group.rs:266-267 | the recomputation order holds each pending key exactly once, strictly increasing in `(key_h(key), key)` |
| GroupOp.ScheduleWorkSpec | src/operators/group.rs:239-243 | a (time, key) pair is pushed exactly when the key is in the batch and the time is interesting for it |
| GroupOp.NewOutput | src/operators/group.rs:278-280 | the buffer, sorted by value, is the logic's output on a non-empty input, and empty otherwise |
| GroupOp.KeyDiffIsNetChange | src/operators/group.rs:284-288 | `KeyDiff`: a key's differences are canonical, and each value's weight is new output minus previous result |
| GroupOp.NoInputRetracts | src/operators/group.rs:278 | on an empty input the logic does not run, and the differences are exactly the negated previous result |
| GroupOp.Emissions | src/operators/group.rs:290 | one `(reduc(key, val), wgt)` record at the time per difference |
| GroupOp.DoneVals | src/operators/group.rs:291-293 | `Done`, that is `compact.done(key)`: closing a key's run adds its differences under that key only, and its count to the value count |
| GroupOp.EmittedAreAccumulated | src/operators/group.rs:290-291 | every difference given to the session is also pushed into the accumulation, under its key, with the same value and weight and in the same order: the session's records are exactly those the accumulation's groups stand for |
| GroupOp.AccumulatedDiffs | src/operators/group.rs:272-295 | with each key once, the accumulation records exactly each recomputed key's differences and nothing for other keys |
| GroupOp.NoDiffsNoAccumulation | src/operators/group.rs:272-295 | keys without differences emit nothing and leave the accumulation empty |
| GroupOp.InstalledWeight | src/operators/group.rs:297-300 | `Installed`: installing an accumulation at the time adds each key's accumulated differences to its collection there, value by value |
| GroupOp.InstalledKeyWeight | src/operators/group.rs:272-300 | for a recomputed key, every value's weight in the installed result is its weight in the new output |
| GroupOp.InstalledKeyIsNewOutput | src/operators/group.rs:272-300 | after installing, a recomputed key's result collection is exactly the normalized logic output on its input |
| GroupOp.RecomputeInstallsNewOutput | src/operators/group.rs:272-300 | the same for every key of the time's key list |
| GroupOp.UnchangedKeyHasNoDiff | src/operators/group.rs:284-288 | a key whose target collection equals its previous result, as weighted collections, has no differences |
| GroupOp.UnchangedOutputInstallsNothing | src/operators/group.rs:297-300 | when every key's target collection equals its previous result as a weighted collection (whatever the raw buffer), nothing is emitted and the result trace is unchanged |
| GroupOp.GroupOperator.constructor | src/operators/group.rs:181-191 | for a reflexive time order: empty traces, empty staging and to-do tables, nothing requested or emitted |
| GroupOp.GroupOperator.Stage | src/operators/group.rs:206-208 | the time is requested and the delivery is appended to its staged list; nothing else changes |
| GroupOp.GroupOperator.StageAll | src/operators/group.rs:205-209 | every delivery is staged in order, and all of their times are requested |
| GroupOp.GroupOperator.Push | src/operators/group.rs:241-242 | the key is appended to the time's to-do list, and the time is requested exactly when its list is new |
| GroupOp.GroupOperator.Enqueue | src/operators/group.rs:240-243 | every item is pushed in order; exactly the times without a former list are newly requested |
| GroupOp.GroupOperator.Schedule | src/operators/group.rs:239-244 | the to-do table gains exactly the scheduled work, in push order, and exactly its new times are requested |
| GroupOp.GroupOperator.Publish | src/operators/group.rs:289-291 | the session receives each difference as a record, in order, and the pairs returned for `compact.push` are exactly the differences |
| GroupOp.GroupOperator.NetChange | src/operators/group.rs:275-288 | the buffer is filled by the logic only on a non-empty input, sorted, and diffed against the previous result; the buffer is empty afterwards |
| GroupOp.GroupOperator.RecomputeKey | src/operators/group.rs:274-294 | one key's differences are emitted and returned for the accumulation; the buffer is empty again |
| GroupOp.GroupOperator.RecomputeStep | src/operators/group.rs:272-295 | one iteration of the key loop: the session and the accumulation grow by exactly the key's part, and the traces are unchanged |
| GroupOp.GroupOperator.RecomputeAll | src/operators/group.rs:272-295 | each key in order emits its differences, and the accumulation collects them |
| GroupOp.GroupOperator.Recompute | src/operators/group.rs:269-300 | the session gets every key's differences, and the result trace gains the accumulation only when it holds a value |
| GroupOp.GroupOperator.Absorb | src/operators/group.rs:217-249 | the staged input is removed, so it is consumed once; its keys are scheduled at times interesting in the source as it was; the batch is installed in the source trace |
| GroupOp.GroupOperator.Flush | src/operators/group.rs:262-301 | the time's pending list is removed and its keys recomputed, each once, in `(key_h(key), key)` order; each pending key's result collection is then its target collection |
| GroupOp.GroupOperator.ProcessTime | src/operators/group.rs:214-302 | the whole step for one notified time, with its effect on every part of the state; every key pending at the time ends with the normalized logic output on its current input as its result collection |

## Left out

- Weights are unbounded integers. The source's `i32` weights can overflow when
  summed or negated; that overflow is not modelled.
- Hashing and probing of the `HashMap` implementation: its model is a Dafny
  `map`.
- A reference returned by `get_mut` or `entry_or_insert` is modelled as an
  `edit` function, which says what the caller writes through the reference. The
  factory of `entry_or_insert` is a value `init`, and a `called` result says
  whether the factory ran. The notification that group.rs's factory requests is
  performed by the caller on `called`.
- The dense table requires `shift < 64`. A larger shift of a `u64` is an
  arithmetic overflow in Rust. Slot indices are unbounded naturals, so the
  conversion of `usize` is not modelled.
- Timely dataflow plumbing is not part of this model: `unary_notify`, the
  `Exchange` pact, and the `input.next()` and `notificator.next()` loops. The
  caller drives the step through `StageAll` and `ProcessTime`. The session is
  the log `output`, and the notificator is the `requested` set.
- The internals of Trace, Compact and Coalesce are not part of this model. A
  Trace is modelled as an append-only list of `(time, Compact)` entries. A
  collection is the normalized sum of a key's differences at the times `le` the
  query time. `interesting_times` and the time order are parameters.
- The radix sorter, the choice between radix sort and `sort_by`, and buffer
  recycling (group.rs lines 220-235) are not modelled. Both paths are modelled
  as grouping the records by key. Keys appear in the Compact in order of first
  appearance, not in `key_h` order. Recomputation order does not depend on this,
  because a time's pending keys are sorted before use.
- `compact.done(key)` is assumed to record a group only when it holds a
  difference. This makes no difference to any collection.
- The user `logic`, `reduc`, `kv` and `key_h` are uninterpreted parameters.
  `part` and the exchange they feed are not modelled. The keys, input values and
  output values are `int`.
- The `Group`, `GroupUnsigned` and `GroupBy` wrappers (group.rs lines 56-149)
  only plumb closures and are not modelled. Neither is src/operators/mod.rs.
- The scratch heaps of `get_collection_using` and the `unsafe` access they need
  are not modelled.
- The time order is a parameter. The operator's invariant asks only that it is
  reflexive; antisymmetry and transitivity are not needed by any statement.
