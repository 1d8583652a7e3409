/**
 * The per-time step of the group operator: staging of arriving deliveries,
 * scheduling of keys at the times the source trace reports as interesting,
 * and, at a notified time, recomputation of every pending key, emitting
 * exactly the net change of the reduction's output and recording it in the
 * result trace.
 *
 * The user logic, `reduc`, `kv`, `key_h`, the time domain's partial order and
 * `interesting_times` are the parameters in `Ops`; the dataflow session is the
 * log `output`, and the notificator is the set `requested` of requested times.
 */
module GroupOp {
  import opened Options
  import opened Weighted
  import opened Traces
  import opened Lookup

  datatype Ops<!T, !R, D> = Ops(
    kv: R -> (int, int),                       // record to (key, value)
    keyHash: int -> nat,                       // key_h
    reduc: (int, int) -> D,                    // (key, output value) to output record
    logic: (int, seq<Pair>) -> seq<Pair>,      // the reduction, given a key and its input collection
    le: (T, T) -> bool,                        // the partial order on times
    interesting: (Trace<T>, int, T) -> seq<T>) // `source.interesting_times(key, time)`

  // ---------------------------------------------------------------------------
  // Tables from times to lists: the staging table `inputs` and the work table `to_do`.
  // ---------------------------------------------------------------------------

  function ListAt<T(==), X>(m: map<T, seq<X>>, t: T): seq<X>
  {
    if t in m then m[t] else []
  }

  /** `entry_or_insert(t, Vec::new).push(x)` on the abstract map. */
  function Append<T(==), X>(m: map<T, seq<X>>, t: T, x: X): map<T, seq<X>>
  {
    m[t := ListAt(m, t) + [x]]
  }

  /** Appends every item, in order, to the list of its time. */
  function AppendAll<T(==), X>(m: map<T, seq<X>>, items: seq<(T, X)>): map<T, seq<X>>
    decreases |items|
  {
    if items == [] then m
    else
      var last := items[|items| - 1];
      Append(AppendAll(m, items[..|items| - 1]), last.0, last.1)
  }

  /** The items of time `t`, in order. */
  function ItemsAt<T(==), X>(items: seq<(T, X)>, t: T): seq<X>
    decreases |items|
  {
    if items == [] then []
    else
      var last := items[|items| - 1];
      ItemsAt(items[..|items| - 1], t) + (if last.0 == t then [last.1] else [])
  }

  ghost function TimesOf<T, X>(items: seq<(T, X)>): set<T>
  {
    set j | 0 <= j < |items| :: items[j].0
  }

  lemma TimesOfSnoc<T, X>(items: seq<(T, X)>, x: (T, X))
    ensures TimesOf(items + [x]) == TimesOf(items) + {x.0}
  {
    var s := items + [x];
    assert forall j :: 0 <= j < |items| ==> s[j] == items[j];
    assert s[|items|] == x;
  }

  /** Each time's list is its former list followed by that time's items, in order. */
  lemma {:induction false} AppendAllAt<T, X>(m: map<T, seq<X>>, items: seq<(T, X)>, t: T)
    ensures t in AppendAll(m, items) <==> t in m || t in TimesOf(items)
    ensures ListAt(AppendAll(m, items), t) == ListAt(m, t) + ItemsAt(items, t)
    decreases |items|
  {
    if items != [] {
      var init := items[..|items| - 1];
      AppendAllAt(m, init, t);
      assert items == init + [items[|items| - 1]];
      TimesOfSnoc(init, items[|items| - 1]);
    }
  }

  lemma TimesOfConcat<T, X>(a: seq<(T, X)>, b: seq<(T, X)>)
    ensures TimesOf(a + b) == TimesOf(a) + TimesOf(b)
  {
    var s := a + b;
    forall t | t in TimesOf(a) + TimesOf(b)
      ensures t in TimesOf(s)
    {
      if t in TimesOf(a) {
        var j :| 0 <= j < |a| && a[j].0 == t;
        assert s[j] == a[j];
      } else {
        var j :| 0 <= j < |b| && b[j].0 == t;
        assert s[|a| + j] == b[j];
      }
    }
  }

  lemma {:induction false} AppendAllConcat<T, X>(m: map<T, seq<X>>, a: seq<(T, X)>, b: seq<(T, X)>)
    ensures AppendAll(m, a + b) == AppendAll(AppendAll(m, a), b)
    decreases |b|
  {
    if b == [] {
      assert a + b == a;
    } else {
      var init := b[..|b| - 1];
      AppendAllConcat(m, a, init);
      assert (a + b)[..|a + b| - 1] == a + init;
    }
  }

  lemma AppendAllKeys<T, X>(m: map<T, seq<X>>, items: seq<(T, X)>)
    ensures AppendAll(m, items).Keys == m.Keys + TimesOf(items)
  {
    forall t
      ensures t in AppendAll(m, items) <==> t in m.Keys + TimesOf(items)
    {
      AppendAllAt(m, items, t);
    }
  }

  // ---------------------------------------------------------------------------
  // Ordering the pending keys: `sort_by((key_h(k), k))` then `dedup()`.
  // ---------------------------------------------------------------------------

  /** The lexicographic order on (key_h(key), key). */
  predicate KeyLe(h: int -> nat, a: int, b: int)
  {
    h(a) < h(b) || (h(a) == h(b) && a <= b)
  }

  ghost predicate SortedKeys(h: int -> nat, s: seq<int>)
  {
    forall i, j :: 0 <= i < j < |s| ==> KeyLe(h, s[i], s[j])
  }

  /** Strictly increasing in (key_h(key), key); in particular no key occurs twice. */
  ghost predicate StrictKeys(h: int -> nat, s: seq<int>)
  {
    forall i, j :: 0 <= i < j < |s| ==> KeyLe(h, s[i], s[j]) && s[i] != s[j]
  }

  function InsertKey(h: int -> nat, k: int, s: seq<int>): (r: seq<int>)
    requires SortedKeys(h, s)
    ensures SortedKeys(h, r)
    ensures |r| == |s| + 1
    ensures r[0] == k || (s != [] && r[0] == s[0])
    decreases |s|
  {
    if s == [] then [k]
    else if KeyLe(h, k, s[0]) then [k] + s
    else [s[0]] + InsertKey(h, k, s[1..])
  }

  lemma {:induction false} InsertKeyContents(h: int -> nat, k: int, s: seq<int>)
    requires SortedKeys(h, s)
    ensures multiset(InsertKey(h, k, s)) == multiset(s) + multiset{k}
    decreases |s|
  {
    if s != [] && !KeyLe(h, k, s[0]) {
      InsertKeyContents(h, k, s[1..]);
      assert s == [s[0]] + s[1..];
    }
  }

  function SortKeys(h: int -> nat, s: seq<int>): (r: seq<int>)
    ensures SortedKeys(h, r)
    ensures |r| == |s|
    decreases |s|
  {
    if s == [] then [] else InsertKey(h, s[0], SortKeys(h, s[1..]))
  }

  /** Sorting the keys is a permutation of the pending list. */
  lemma {:induction false} SortKeysContents(h: int -> nat, s: seq<int>)
    ensures multiset(SortKeys(h, s)) == multiset(s)
    decreases |s|
  {
    if s != [] {
      SortKeysContents(h, s[1..]);
      InsertKeyContents(h, s[0], SortKeys(h, s[1..]));
      assert s == [s[0]] + s[1..];
    }
  }

  /** `Vec::dedup`: drops every element equal to its predecessor. */
  function Dedup(s: seq<int>): (r: seq<int>)
    ensures forall x :: x in r <==> x in s
    ensures s != [] ==> r != [] && r[0] == s[0]
    decreases |s|
  {
    if |s| <= 1 then s
    else if s[0] == s[1] then Dedup(s[1..])
    else [s[0]] + Dedup(s[1..])
  }

  /** Deduplicating a sorted list leaves it strictly increasing. */
  lemma {:induction false} DedupStrict(h: int -> nat, s: seq<int>)
    requires SortedKeys(h, s)
    ensures StrictKeys(h, Dedup(s))
    decreases |s|
  {
    if |s| > 1 {
      DedupStrict(h, s[1..]);
      if s[0] != s[1] {
        var rest := Dedup(s[1..]);
        forall j | 0 <= j < |rest|
          ensures KeyLe(h, s[0], rest[j]) && s[0] != rest[j]
        {
          assert rest[j] in s[1..];
          var k :| 1 <= k < |s| && s[k] == rest[j];
          assert KeyLe(h, s[1], rest[j]) by {
            if k > 1 {
              assert KeyLe(h, s[1], s[k]);
            }
          }
        }
      }
    }
  }

  /** The order in which a time's pending keys are recomputed: each key once, by (key_h(key), key). */
  function OrderedKeys(h: int -> nat, pending: seq<int>): (r: seq<int>)
    ensures StrictKeys(h, r)
    ensures forall k :: k in r <==> k in pending
  {
    SortKeysContents(h, pending);
    DedupStrict(h, SortKeys(h, pending));
    assert forall k :: k in SortKeys(h, pending) <==> k in multiset(pending);
    Dedup(SortKeys(h, pending))
  }

  // ---------------------------------------------------------------------------
  // Scheduling: every key of the new batch, at every interesting time.
  // ---------------------------------------------------------------------------

  function Tagged<T>(times: seq<T>, key: int): (r: seq<(T, int)>)
    ensures |r| == |times|
  {
    seq(|times|, j requires 0 <= j < |times| => (times[j], key))
  }

  /** The (time, key) pairs the nested loops push into `to_do`, in push order. */
  function ScheduleWork<T, R, D>(ops: Ops<T, R, D>, source: Trace<T>, keys: seq<int>, index: T): seq<(T, int)>
    decreases |keys|
  {
    if keys == [] then []
    else
      var key := keys[|keys| - 1];
      ScheduleWork(ops, source, keys[..|keys| - 1], index) + Tagged(ops.interesting(source, key, index), key)
  }

  /** A pair is pushed exactly when its time is interesting for its key. */
  lemma {:induction false} ScheduleWorkSpec<T, R, D>(ops: Ops<T, R, D>, source: Trace<T>, keys: seq<int>, index: T)
    ensures forall i, t :: 0 <= i < |keys| && t in ops.interesting(source, keys[i], index) ==>
      (t, keys[i]) in ScheduleWork(ops, source, keys, index)
    ensures forall p :: p in ScheduleWork(ops, source, keys, index) ==>
      p.1 in keys && p.0 in ops.interesting(source, p.1, index)
    decreases |keys|
  {
    if keys != [] {
      var init := keys[..|keys| - 1];
      var key := keys[|keys| - 1];
      var times := ops.interesting(source, key, index);
      ScheduleWorkSpec(ops, source, init, index);
      var w := ScheduleWork(ops, source, keys, index);
      assert w == ScheduleWork(ops, source, init, index) + Tagged(times, key);
      forall i, t | 0 <= i < |keys| && t in ops.interesting(source, keys[i], index)
        ensures (t, keys[i]) in w
      {
        if i < |keys| - 1 {
          assert keys[i] == init[i];
        } else {
          var j :| 0 <= j < |times| && times[j] == t;
          assert Tagged(times, key)[j] == (t, key);
        }
      }
      forall p | p in w
        ensures p.1 in keys && p.0 in ops.interesting(source, p.1, index)
      {
        if p in ScheduleWork(ops, source, init, index) {
          assert p.1 in init;
          var i :| 0 <= i < |init| && init[i] == p.1;
          assert keys[i] == p.1;
        } else {
          var j :| 0 <= j < |Tagged(times, key)| && Tagged(times, key)[j] == p;
          assert keys[|keys| - 1] == key;
        }
      }
    }
  }

  // ---------------------------------------------------------------------------
  // Recomputing one key.
  // ---------------------------------------------------------------------------

  /**
   * The sorted buffer for `key`: the logic's output when the key's input
   * collection is non-empty, and nothing otherwise (the logic is not invoked).
   */
  function NewOutput<T, R, D>(ops: Ops<T, R, D>, source: Trace<T>, key: int, index: T): (r: seq<Pair>)
    ensures SortedByValue(r)
  {
    var input := source.Collection(key, index, ops.le);
    SortByValue(if input != [] then ops.logic(key, input) else [])
  }

  /** The collection the result trace should hold for `key` after the time is processed. */
  function TargetCollection<T, R, D>(ops: Ops<T, R, D>, source: Trace<T>, key: int, index: T): seq<Pair>
  {
    var input := source.Collection(key, index, ops.le);
    Normalize(if input != [] then ops.logic(key, input) else [])
  }

  /** The net differences emitted for `key`. */
  function KeyDiff<T, R, D>(ops: Ops<T, R, D>, source: Trace<T>, result: Trace<T>, key: int, index: T): seq<Pair>
  {
    Diff(result.Collection(key, index, ops.le), NewOutput(ops, source, key, index))
  }

  /** What `session.give((reduc(&key, val), wgt))` sends for the differences `d`. */
  function Emissions<T, R, D>(ops: Ops<T, R, D>, key: int, index: T, d: seq<Pair>): (r: seq<(T, D, int)>)
    ensures |r| == |d|
  {
    seq(|d|, i requires 0 <= i < |d| => (index, ops.reduc(key, d[i].0), d[i].1))
  }

  /** `compact.done(key)`: closes the key's run, kept only when it holds a difference. */
  function Done(acc: Compact, key: int, vals: seq<Pair>): Compact
  {
    if vals == [] then acc else acc + [Group(key, vals)]
  }

  lemma DoneVals(acc: Compact, key: int, vals: seq<Pair>, k: int)
    ensures KeyVals(Done(acc, key, vals), k) == KeyVals(acc, k) + (if k == key then vals else [])
    ensures ValCount(Done(acc, key, vals)) == ValCount(acc) + |vals|
  {
    if vals != [] {
      var g := [Group(key, vals)];
      KeyValsAppend(acc, g, k);
      ValCountAppend(acc, g);
      assert g[1..] == [];
    }
  }

  /** The differences of every key, against the given source and result traces. */
  function KeyDiffs<T, R, D>(ops: Ops<T, R, D>, source: Trace<T>, result: Trace<T>, index: T): int -> seq<Pair>
  {
    k => KeyDiff(ops, source, result, k, index)
  }

  /** The session's records for `keys`, in order, when `diffs` gives each key's differences. */
  function EmitAll<T, R, D>(ops: Ops<T, R, D>, keys: seq<int>, index: T, diffs: int -> seq<Pair>): seq<(T, D, int)>
    decreases |keys|
  {
    if keys == [] then []
    else
      var key := keys[|keys| - 1];
      EmitAll(ops, keys[..|keys| - 1], index, diffs) + Emissions(ops, key, index, diffs(key))
  }

  /** The accumulation Compact for `keys`, in order. */
  function AccumulateAll(keys: seq<int>, diffs: int -> seq<Pair>): Compact
    decreases |keys|
  {
    if keys == [] then []
    else
      var key := keys[|keys| - 1];
      Done(AccumulateAll(keys[..|keys| - 1], diffs), key, diffs(key))
  }

  /** `if accumulation.vals.len() > 0 { result.set_difference(index, accumulation) }`. */
  function Installed<T>(result: Trace<T>, index: T, acc: Compact): Trace<T>
  {
    if ValCount(acc) > 0 then result.SetDifference(index, acc) else result
  }

  // ---------------------------------------------------------------------------
  // Properties of the recomputation.
  // ---------------------------------------------------------------------------

  /** The emitted differences are canonical and are exactly new output minus previous output. */
  lemma KeyDiffIsNetChange<T, R, D>(ops: Ops<T, R, D>, source: Trace<T>, result: Trace<T>, key: int, index: T)
    ensures Canonical(KeyDiff(ops, source, result, key, index))
    ensures forall v :: Weight(KeyDiff(ops, source, result, key, index), v) ==
                        Weight(NewOutput(ops, source, key, index), v) - Weight(result.Collection(key, index, ops.le), v)
  {
    DiffIsNetChange(result.Collection(key, index, ops.le), NewOutput(ops, source, key, index));
  }

  /** The weight of one value in a key's differences, as the table of all keys' differences gives it. */
  lemma KeyDiffWeight<T, R, D>(ops: Ops<T, R, D>, source: Trace<T>, result: Trace<T>, key: int, index: T, v: int)
    ensures Weight(KeyDiffs(ops, source, result, index)(key), v) ==
            Weight(NewOutput(ops, source, key, index), v) - Weight(result.Collection(key, index, ops.le), v)
  {
    KeyDiffIsNetChange(ops, source, result, key, index);
  }

  /** Without input the logic is not run, and the previous output is retracted exactly. */
  lemma NoInputRetracts<T, R, D>(ops: Ops<T, R, D>, source: Trace<T>, result: Trace<T>, key: int, index: T)
    requires source.Collection(key, index, ops.le) == []
    ensures NewOutput(ops, source, key, index) == []
    ensures KeyDiff(ops, source, result, key, index) == Negate(result.Collection(key, index, ops.le))
  {
    DiffOfEmptyIsRetraction(result.Collection(key, index, ops.le));
  }

  /** The session records a Compact's differences stand for: each group's pairs, in order, under the group's key. */
  function CompactEmissions<T, R, D>(ops: Ops<T, R, D>, index: T, c: Compact): seq<(T, D, int)>
    decreases |c|
  {
    if c == [] then []
    else
      var g := c[|c| - 1];
      CompactEmissions(ops, index, c[..|c| - 1]) + Emissions(ops, g.key, index, g.vals)
  }

  /**
   * Every difference given to the session is also pushed into the
   * accumulation, under its key, with the same value and weight, and in the
   * same order.
   */
  lemma {:induction false} EmittedAreAccumulated<T, R, D>(ops: Ops<T, R, D>, keys: seq<int>, index: T, diffs: int -> seq<Pair>)
    ensures EmitAll(ops, keys, index, diffs) == CompactEmissions(ops, index, AccumulateAll(keys, diffs))
    decreases |keys|
  {
    if keys != [] {
      var init := keys[..|keys| - 1];
      var key := keys[|keys| - 1];
      var acc := AccumulateAll(init, diffs);
      EmittedAreAccumulated(ops, init, index, diffs);
      if diffs(key) == [] {
        assert Emissions(ops, key, index, diffs(key)) == [];
      } else {
        var c := acc + [Group(key, diffs(key))];
        assert c[..|c| - 1] == acc;
      }
    }
  }

  /** With each key once, the accumulation records for every key exactly its differences. */
  lemma {:induction false} AccumulatedDiffs(keys: seq<int>, diffs: int -> seq<Pair>, k: int)
    requires forall i, j :: 0 <= i < j < |keys| ==> keys[i] != keys[j]
    ensures KeyVals(AccumulateAll(keys, diffs), k) == if k in keys then diffs(k) else []
    decreases |keys|
  {
    if keys != [] {
      var init := keys[..|keys| - 1];
      var key := keys[|keys| - 1];
      AccumulatedDiffs(init, diffs, k);
      DoneVals(AccumulateAll(init, diffs), key, diffs(key), k);
      assert keys == init + [key];
      if k == key {
        assert k !in init;
      }
    }
  }

  /** Keys without differences emit nothing and leave the accumulation empty. */
  lemma {:induction false} NoDiffsNoAccumulation<T, R, D>(ops: Ops<T, R, D>, keys: seq<int>, index: T, diffs: int -> seq<Pair>)
    requires forall k :: k in keys ==> diffs(k) == []
    ensures EmitAll(ops, keys, index, diffs) == []
    ensures AccumulateAll(keys, diffs) == []
    decreases |keys|
  {
    if keys != [] {
      NoDiffsNoAccumulation(ops, keys[..|keys| - 1], index, diffs);
      assert keys[|keys| - 1] in keys;
    }
  }

  /** Installing an accumulation at `index` adds each key's accumulated differences to its collection at `index`. */
  lemma InstalledWeight<T>(result: Trace<T>, index: T, acc: Compact, k: int, le: (T, T) -> bool, v: int)
    requires le(index, index)
    ensures Weight(Installed(result, index, acc).Collection(k, index, le), v) ==
            Weight(result.Collection(k, index, le), v) + Weight(KeyVals(acc, k), v)
  {
    CollectionWeight(Installed(result, index, acc), k, index, le, v);
    CollectionWeight(result, k, index, le, v);
    if ValCount(acc) > 0 {
      SetDifferenceVals(result, index, acc, k, index, le);
      WeightAppend(HistoryVals(result.entries, k, index, le), KeyVals(acc, k), v);
    } else {
      KeyValsEmpty(acc, k);
    }
  }

  /**
   * For a recomputed key, the weight of every value in the installed result
   * is its weight in the logic's new output: previous output plus emitted
   * differences.
   */
  lemma InstalledKeyWeight<T, R, D>(ops: Ops<T, R, D>, source: Trace<T>, result: Trace<T>, keys: seq<int>, index: T, k: int, v: int)
    requires forall i, j :: 0 <= i < j < |keys| ==> keys[i] != keys[j]
    requires ops.le(index, index)
    requires k in keys
    ensures Weight(Installed(result, index, AccumulateAll(keys, KeyDiffs(ops, source, result, index))).Collection(k, index, ops.le), v) ==
            Weight(NewOutput(ops, source, k, index), v)
  {
    var diffs := KeyDiffs(ops, source, result, index);
    var acc := AccumulateAll(keys, diffs);
    AccumulatedDiffs(keys, diffs, k);
    InstalledWeight(result, index, acc, k, ops.le, v);
    KeyDiffWeight(ops, source, result, k, index, v);
  }

  /**
   * After a time's pending keys are recomputed, the result trace holds for
   * every such key exactly the normalized output of the logic on the key's
   * current input.
   */
  lemma InstalledKeyIsNewOutput<T, R, D>(ops: Ops<T, R, D>, source: Trace<T>, result: Trace<T>, keys: seq<int>, index: T, k: int)
    requires forall i, j :: 0 <= i < j < |keys| ==> keys[i] != keys[j]
    requires ops.le(index, index)
    requires k in keys
    ensures Installed(result, index, AccumulateAll(keys, KeyDiffs(ops, source, result, index))).Collection(k, index, ops.le) ==
      TargetCollection(ops, source, k, index)
  {
    var input := source.Collection(k, index, ops.le);
    var raw := if input != [] then ops.logic(k, input) else [];
    var installed := Installed(result, index, AccumulateAll(keys, KeyDiffs(ops, source, result, index))).Collection(k, index, ops.le);
    forall v
      ensures Weight(installed, v) == Weight(TargetCollection(ops, source, k, index), v)
    {
      InstalledKeyWeight(ops, source, result, keys, index, k, v);
      SortByValueWeight(raw, v);
      NormalizeWeight(raw, v);
    }
    CanonicalUnique(installed, TargetCollection(ops, source, k, index));
  }

  lemma RecomputeInstallsNewOutput<T, R, D>(ops: Ops<T, R, D>, source: Trace<T>, result: Trace<T>, keys: seq<int>, index: T)
    requires forall i, j :: 0 <= i < j < |keys| ==> keys[i] != keys[j]
    requires ops.le(index, index)
    ensures forall k :: k in keys ==>
      Installed(result, index, AccumulateAll(keys, KeyDiffs(ops, source, result, index))).Collection(k, index, ops.le) ==
      TargetCollection(ops, source, k, index)
  {
    forall k | k in keys
      ensures Installed(result, index, AccumulateAll(keys, KeyDiffs(ops, source, result, index))).Collection(k, index, ops.le) ==
        TargetCollection(ops, source, k, index)
    {
      InstalledKeyIsNewOutput(ops, source, result, keys, index, k);
    }
  }

  /** A key whose target collection is its previous result has no differences. */
  lemma UnchangedKeyHasNoDiff<T, R, D>(ops: Ops<T, R, D>, source: Trace<T>, result: Trace<T>, k: int, index: T)
    requires TargetCollection(ops, source, k, index) == result.Collection(k, index, ops.le)
    ensures KeyDiffs(ops, source, result, index)(k) == []
  {
    var input := source.Collection(k, index, ops.le);
    var raw := if input != [] then ops.logic(k, input) else [];
    var d := KeyDiff(ops, source, result, k, index);
    KeyDiffIsNetChange(ops, source, result, k, index);
    forall v
      ensures Weight(d, v) == Weight([], v)
    {
      SortByValueWeight(raw, v);
      NormalizeWeight(raw, v);
    }
    CanonicalUnique(d, []);
  }

  /**
   * A time at which every key's target collection equals its previous result
   * (as weighted collections, whatever the logic's raw buffer) emits nothing
   * and installs no entry.
   */
  lemma UnchangedOutputInstallsNothing<T, R, D>(ops: Ops<T, R, D>, source: Trace<T>, result: Trace<T>, keys: seq<int>, index: T)
    requires forall k :: k in keys ==> TargetCollection(ops, source, k, index) == result.Collection(k, index, ops.le)
    ensures EmitAll(ops, keys, index, KeyDiffs(ops, source, result, index)) == []
    ensures Installed(result, index, AccumulateAll(keys, KeyDiffs(ops, source, result, index))) == result
  {
    forall k | k in keys
      ensures KeyDiffs(ops, source, result, index)(k) == []
    {
      UnchangedKeyHasNoDiff(ops, source, result, k, index);
    }
    NoDiffsNoAccumulation(ops, keys, index, KeyDiffs(ops, source, result, index));
  }

  /** One more key extends the session log and the accumulation by that key's part. */
  lemma AccumulateSnoc<T, R, D>(ops: Ops<T, R, D>, log: seq<(T, D, int)>, keys: seq<int>, i: nat, index: T, diffs: int -> seq<Pair>)
    requires i < |keys|
    ensures (log + EmitAll(ops, keys[..i], index, diffs)) + Emissions(ops, keys[i], index, diffs(keys[i])) ==
            log + EmitAll(ops, keys[..i + 1], index, diffs)
    ensures AccumulateAll(keys[..i + 1], diffs) == Done(AccumulateAll(keys[..i], diffs), keys[i], diffs(keys[i]))
  {
    assert keys[..i + 1][..i] == keys[..i];
  }

  /** One more item extends its time's list, and requests its time exactly when the time is new. */
  lemma EnqueueStep<T>(m0: map<T, seq<int>>, items: seq<(T, int)>, j: nat, req0: set<T>, req: set<T>)
    requires j < |items|
    requires req == req0 + (TimesOf(items[..j]) - m0.Keys)
    ensures AppendAll(m0, items[..j + 1]) == Append(AppendAll(m0, items[..j]), items[j].0, items[j].1)
    ensures (if items[j].0 in AppendAll(m0, items[..j]) then req else req + {items[j].0}) ==
            req0 + (TimesOf(items[..j + 1]) - m0.Keys)
  {
    assert items[..j + 1] == items[..j] + [items[j]];
    TimesOfSnoc(items[..j], items[j]);
    AppendAllKeys(m0, items[..j]);
  }

  /** One more key's items extend the scheduled work, the to-do table and the requested times. */
  lemma ScheduleStep<T, R, D>(ops: Ops<T, R, D>, source: Trace<T>, keys: seq<int>, i: nat, index: T,
                              m0: map<T, seq<int>>, req0: set<T>, req: set<T>)
    requires i < |keys|
    requires req == req0 + (TimesOf(ScheduleWork(ops, source, keys[..i], index)) - m0.Keys)
    ensures var done := ScheduleWork(ops, source, keys[..i], index);
            var items := Tagged(ops.interesting(source, keys[i], index), keys[i]);
            && ScheduleWork(ops, source, keys[..i + 1], index) == done + items
            && AppendAll(AppendAll(m0, done), items) == AppendAll(m0, ScheduleWork(ops, source, keys[..i + 1], index))
            && req + (TimesOf(items) - AppendAll(m0, done).Keys) ==
               req0 + (TimesOf(ScheduleWork(ops, source, keys[..i + 1], index)) - m0.Keys)
  {
    var done := ScheduleWork(ops, source, keys[..i], index);
    var items := Tagged(ops.interesting(source, keys[i], index), keys[i]);
    assert keys[..i + 1][..i] == keys[..i];
    assert ScheduleWork(ops, source, keys[..i + 1], index) == done + items;
    AppendAllConcat(m0, done, items);
    TimesOfConcat(done, items);
    AppendAllKeys(m0, done);
  }

  // ---------------------------------------------------------------------------
  // The operator's persistent state and its step.
  // ---------------------------------------------------------------------------

  /** The Compact built from the input staged for `index`, if any was staged and it holds records. */
  function StagedCompact<T(==), R, D>(ops: Ops<T, R, D>, staged: map<T, seq<seq<(R, int)>>>, index: T): Option<Compact>
  {
    if index in staged then BuildCompact(staged[index], ops.kv) else None
  }

  /** The (time, key) pairs scheduled while absorbing the input staged for `index`. */
  ghost function WorkAt<T, R, D>(ops: Ops<T, R, D>, staged: map<T, seq<seq<(R, int)>>>, source: Trace<T>, index: T): seq<(T, int)>
  {
    var compact := StagedCompact(ops, staged, index);
    if compact.Some? then ScheduleWork(ops, source, CompactKeys(compact.value), index) else []
  }

  /** The source trace once the input staged for `index` is installed. */
  function AbsorbedSource<T(==), R, D>(ops: Ops<T, R, D>, staged: map<T, seq<seq<(R, int)>>>, source: Trace<T>, index: T): Trace<T>
  {
    var compact := StagedCompact(ops, staged, index);
    if compact.Some? then source.SetDifference(index, compact.value) else source
  }

  /** The keys pending at `index` once its staged input is absorbed. */
  ghost function PendingAt<T, R, D>(ops: Ops<T, R, D>, staged: map<T, seq<seq<(R, int)>>>, toDo: map<T, seq<int>>, source: Trace<T>, index: T): seq<int>
  {
    ListAt(AppendAll(toDo, WorkAt(ops, staged, source, index)), index)
  }

  class GroupOperator<T(==,!new), R, D> {
    const ops: Ops<T, R, D>
    var source: Trace<T>
    var result: Trace<T>
    const inputs: VecLookup<T, seq<seq<(R, int)>>>
    const toDo: VecLookup<T, seq<int>>
    var buffer: seq<Pair>
    var requested: set<T>
    var output: seq<(T, D, int)>

    /** The tables keep distinct keys, the buffer is empty between keys, and times are ordered reflexively. */
    ghost predicate Valid()
      reads this, inputs, toDo
    {
      inputs.Valid() && toDo.Valid() && buffer == [] && forall t :: ops.le(t, t)
    }

    constructor (ops: Ops<T, R, D>)
      requires forall t :: ops.le(t, t)
      ensures Valid() && this.ops == ops && fresh(inputs) && fresh(toDo)
      ensures source == Trace([]) && result == Trace([])
      ensures inputs.Model() == map[] && toDo.Model() == map[]
      ensures requested == {} && output == []
    {
      this.ops := ops;
      source := Trace([]);
      result := Trace([]);
      inputs := new VecLookup.New();
      toDo := new VecLookup.New();
      buffer := [];
      requested := {};
      output := [];
    }

    /** Stages one delivery: a notification for its time, and the delivery appended to that time's list. */
    method Stage(time: T, data: seq<(R, int)>)
      requires Valid()
      modifies this, inputs
      ensures Valid()
      ensures requested == old(requested) + {time}
      ensures inputs.Model() == Append(old(inputs.Model()), time, data)
      ensures source == old(source) && result == old(result) && output == old(output)
      ensures toDo.pairs == old(toDo.pairs)
    {
      requested := requested + {time};
      var staged, created := inputs.EntryOrInsert(time, [], q => q + [data]);
    }

    /** Stages every delivery the input yields, in order. */
    method StageAll(arrivals: seq<(T, seq<(R, int)>)>)
      requires Valid()
      modifies this, inputs
      ensures Valid()
      ensures requested == old(requested) + TimesOf(arrivals)
      ensures inputs.Model() == AppendAll(old(inputs.Model()), arrivals)
      ensures source == old(source) && result == old(result) && output == old(output)
      ensures toDo.pairs == old(toDo.pairs)
    {
      var i := 0;
      while i < |arrivals|
        invariant 0 <= i <= |arrivals|
        invariant Valid()
        invariant requested == old(requested) + TimesOf(arrivals[..i])
        invariant inputs.Model() == AppendAll(old(inputs.Model()), arrivals[..i])
        invariant source == old(source) && result == old(result) && output == old(output)
        invariant toDo.pairs == old(toDo.pairs)
      {
        Stage(arrivals[i].0, arrivals[i].1);
        TimesOfSnoc(arrivals[..i], arrivals[i]);
        assert arrivals[..i + 1] == arrivals[..i] + [arrivals[i]];
        i := i + 1;
      }
      assert arrivals[..i] == arrivals;
    }

    /** Pushes `key` onto the to-do list of `t`, requesting a notification for `t` when the list is new. */
    method Push(t: T, key: int)
      requires Valid()
      modifies this, toDo
      ensures Valid()
      ensures toDo.Model() == Append(old(toDo.Model()), t, key)
      ensures requested == if t in old(toDo.Model()) then old(requested) else old(requested) + {t}
      ensures source == old(source) && result == old(result) && output == old(output)
      ensures inputs.pairs == old(inputs.pairs)
    {
      var queue, created := toDo.EntryOrInsert(t, [], q => q + [key]);
      if created {
        requested := requested + {t};
      }
    }

    /** Pushes each (time, key) item onto its time's to-do list, requesting a notification for each new time. */
    method Enqueue(items: seq<(T, int)>)
      requires Valid()
      modifies this, toDo
      ensures Valid()
      ensures toDo.Model() == AppendAll(old(toDo.Model()), items)
      ensures requested == old(requested) + (TimesOf(items) - old(toDo.Model()).Keys)
      ensures source == old(source) && result == old(result) && output == old(output)
      ensures inputs.pairs == old(inputs.pairs)
    {
      ghost var m0 := toDo.Model();
      var j := 0;
      while j < |items|
        invariant 0 <= j <= |items|
        invariant Valid()
        invariant toDo.Model() == AppendAll(m0, items[..j])
        invariant requested == old(requested) + (TimesOf(items[..j]) - m0.Keys)
        invariant source == old(source) && result == old(result) && output == old(output)
        invariant inputs.pairs == old(inputs.pairs)
      {
        EnqueueStep(m0, items, j, old(requested), requested);
        Push(items[j].0, items[j].1);
        j := j + 1;
      }
      assert items[..j] == items;
    }

    /** Queues every key of `c` at every time the source trace finds interesting for it. */
    method Schedule(c: Compact, index: T)
      requires Valid()
      modifies this, toDo
      ensures Valid()
      ensures toDo.Model() == AppendAll(old(toDo.Model()), ScheduleWork(ops, source, CompactKeys(c), index))
      ensures requested == old(requested) + (TimesOf(ScheduleWork(ops, source, CompactKeys(c), index)) - old(toDo.Model()).Keys)
      ensures source == old(source) && result == old(result) && output == old(output)
      ensures inputs.pairs == old(inputs.pairs)
    {
      ghost var m0 := toDo.Model();
      ghost var keys := CompactKeys(c);
      var i := 0;
      while i < |c|
        invariant 0 <= i <= |c|
        invariant Valid()
        invariant toDo.Model() == AppendAll(m0, ScheduleWork(ops, source, keys[..i], index))
        invariant requested == old(requested) + (TimesOf(ScheduleWork(ops, source, keys[..i], index)) - m0.Keys)
        invariant source == old(source) && result == old(result) && output == old(output)
        invariant inputs.pairs == old(inputs.pairs)
      {
        var key := c[i].key;
        var items := Tagged(ops.interesting(source, key, index), key);
        ghost var done := ScheduleWork(ops, source, keys[..i], index);
        ghost var req := requested;
        AppendAllKeys(m0, done);
        Enqueue(items);
        ScheduleStep(ops, source, keys, i, index, m0, old(requested), req);
        i := i + 1;
      }
      assert keys[..i] == keys;
    }

    /** Gives each difference of `diff` to the session, as `(reduc(key, val), wgt)` at `index`, and returns the pairs `compact.push` records. */
    method Publish(key: int, index: T, diff: seq<Pair>) returns (pushed: seq<Pair>)
      modifies this
      ensures pushed == diff
      ensures output == old(output) + Emissions(ops, key, index, diff)
      ensures source == old(source) && result == old(result) && requested == old(requested) && buffer == old(buffer)
    {
      pushed := [];
      var j := 0;
      while j < |diff|
        invariant 0 <= j <= |diff|
        invariant pushed == diff[..j]
        invariant output == old(output) + Emissions(ops, key, index, diff[..j])
        invariant source == old(source) && result == old(result) && requested == old(requested) && buffer == old(buffer)
      {
        output := output + [(index, ops.reduc(key, diff[j].0), diff[j].1)];
        pushed := pushed + [diff[j]];
        assert diff[..j + 1] == diff[..j] + [diff[j]];
        j := j + 1;
      }
      assert diff[..j] == diff;
    }

    /**
     * Runs the logic on the key's input collection when it is non-empty, sorts
     * the buffer, and returns its difference from the key's previous output.
     */
    method NetChange(key: int, index: T) returns (diff: seq<Pair>)
      requires buffer == []
      modifies this
      ensures diff == KeyDiff(ops, source, result, key, index)
      ensures buffer == []
      ensures source == old(source) && result == old(result) && requested == old(requested) && output == old(output)
    {
      var input := source.Collection(key, index, ops.le);
      if input != [] {
        buffer := buffer + ops.logic(key, input);
        assert buffer == ops.logic(key, input);
      }
      buffer := SortByValue(buffer);
      assert buffer == NewOutput(ops, source, key, index);
      diff := Diff(result.Collection(key, index, ops.le), buffer);
      buffer := [];
    }

    /** Recomputes one key: its differences go to the session and are returned for the accumulation. */
    method RecomputeKey(key: int, index: T) returns (pushed: seq<Pair>)
      requires buffer == []
      modifies this
      ensures pushed == KeyDiff(ops, source, result, key, index)
      ensures output == old(output) + Emissions(ops, key, index, pushed)
      ensures buffer == []
      ensures source == old(source) && result == old(result) && requested == old(requested)
    {
      var diff := NetChange(key, index);
      pushed := Publish(key, index, diff);
    }

    /** Recomputes `keys[i]`, extending the session and the accumulation by the key's differences. */
    method RecomputeStep(keys: seq<int>, i: nat, index: T, acc: Compact, ghost log: seq<(T, D, int)>) returns (next: Compact)
      requires i < |keys| && buffer == []
      requires output == log + EmitAll(ops, keys[..i], index, KeyDiffs(ops, source, result, index))
      requires acc == AccumulateAll(keys[..i], KeyDiffs(ops, source, result, index))
      modifies this
      ensures buffer == []
      ensures source == old(source) && result == old(result) && requested == old(requested)
      ensures output == log + EmitAll(ops, keys[..i + 1], index, KeyDiffs(ops, source, result, index))
      ensures next == AccumulateAll(keys[..i + 1], KeyDiffs(ops, source, result, index))
    {
      var pushed := RecomputeKey(keys[i], index);
      AccumulateSnoc(ops, log, keys, i, index, KeyDiffs(ops, source, result, index));
      next := Done(acc, keys[i], pushed);
    }

    /** Recomputes each key of `keys` in order, returning the accumulation of their differences. */
    method RecomputeAll(keys: seq<int>, index: T) returns (acc: Compact)
      requires buffer == []
      modifies this
      ensures buffer == []
      ensures source == old(source) && result == old(result) && requested == old(requested)
      ensures output == old(output) + EmitAll(ops, keys, index, KeyDiffs(ops, source, result, index))
      ensures acc == AccumulateAll(keys, KeyDiffs(ops, source, result, index))
    {
      acc := [];
      var i := 0;
      while i < |keys|
        invariant 0 <= i <= |keys|
        invariant buffer == []
        invariant source == old(source) && result == old(result) && requested == old(requested)
        invariant output == old(output) + EmitAll(ops, keys[..i], index, KeyDiffs(ops, source, result, index))
        invariant acc == AccumulateAll(keys[..i], KeyDiffs(ops, source, result, index))
      {
        acc := RecomputeStep(keys, i, index, acc, old(output));
        i := i + 1;
      }
      assert keys[..i] == keys;
    }

    /**
     * Recomputes each key of `keys` at `index`: runs the logic on a non-empty
     * input, sorts the buffer, emits and records the differences from the
     * previous output, and installs the accumulation if it is non-empty.
     */
    method Recompute(keys: seq<int>, index: T)
      requires buffer == []
      modifies this
      ensures buffer == []
      ensures output == old(output) + EmitAll(ops, keys, index, KeyDiffs(ops, source, old(result), index))
      ensures result == Installed(old(result), index, AccumulateAll(keys, KeyDiffs(ops, source, old(result), index)))
      ensures source == old(source) && requested == old(requested)
    {
      var acc := RecomputeAll(keys, index);
      if ValCount(acc) > 0 {
        result := result.SetDifference(index, acc);
      }
    }

    /**
     * Consumes the input staged for `index`: builds its Compact, schedules the
     * Compact's keys at their interesting times (asked of the source trace as
     * it was before this batch), then installs the batch in the source trace.
     */
    method Absorb(index: T) returns (ghost work: seq<(T, int)>)
      requires Valid()
      modifies this, inputs, toDo
      ensures Valid()
      ensures work == WorkAt(ops, old(inputs.Model()), old(source), index)
      ensures inputs.Model() == old(inputs.Model()) - {index}
      ensures source == AbsorbedSource(ops, old(inputs.Model()), old(source), index)
      ensures toDo.Model() == AppendAll(old(toDo.Model()), work)
      ensures requested == old(requested) + (TimesOf(work) - old(toDo.Model()).Keys)
      ensures result == old(result) && output == old(output)
    {
      ghost var m0 := toDo.Model();
      work := [];
      assert TimesOf(work) == {};
      var queue := inputs.RemoveKey(index);
      if queue.Some? {
        var compact := BuildCompact(queue.value, ops.kv);
        if compact.Some? {
          work := ScheduleWork(ops, source, CompactKeys(compact.value), index);
          Schedule(compact.value, index);
          source := source.SetDifference(index, compact.value);
        }
      }
    }

    /**
     * Takes the keys pending at `index` and recomputes them, each once, in
     * (key_h(key), key) order.
     */
    method Flush(index: T)
      requires Valid()
      modifies this, toDo
      ensures Valid()
      ensures toDo.Model() == old(toDo.Model()) - {index}
      ensures output == old(output) + EmitAll(ops, OrderedKeys(ops.keyHash, ListAt(old(toDo.Model()), index)), index, KeyDiffs(ops, source, old(result), index))
      ensures result == Installed(old(result), index, AccumulateAll(OrderedKeys(ops.keyHash, ListAt(old(toDo.Model()), index)), KeyDiffs(ops, source, old(result), index)))
      ensures forall k :: k in ListAt(old(toDo.Model()), index) ==>
                result.Collection(k, index, ops.le) == TargetCollection(ops, source, k, index)
      ensures source == old(source) && requested == old(requested)
    {
      var pending := toDo.RemoveKey(index);
      if pending.Some? {
        var keys := OrderedKeys(ops.keyHash, pending.value);
        RecomputeInstallsNewOutput(ops, source, result, keys, index);
        Recompute(keys, index);
      } else {
        assert ListAt(old(toDo.Model()), index) == [];
        assert OrderedKeys(ops.keyHash, []) == [];
        assert output + [] == output;
      }
    }

    /**
     * Processes a time handed out by the notificator: its staged input is
     * absorbed, then its pending keys are recomputed; afterwards the result
     * trace holds, for every key that was pending, the logic's output on the
     * key's current input.
     */
    method ProcessTime(index: T)
      requires Valid()
      modifies this, inputs, toDo
      ensures Valid()
      ensures inputs.Model() == old(inputs.Model()) - {index}
      ensures source == AbsorbedSource(ops, old(inputs.Model()), old(source), index)
      ensures requested == (old(requested) - {index}) +
                (TimesOf(WorkAt(ops, old(inputs.Model()), old(source), index)) - old(toDo.Model()).Keys)
      ensures toDo.Model() == AppendAll(old(toDo.Model()), WorkAt(ops, old(inputs.Model()), old(source), index)) - {index}
      ensures output == old(output) + EmitAll(ops, OrderedKeys(ops.keyHash, PendingAt(ops, old(inputs.Model()), old(toDo.Model()), old(source), index)),
                index, KeyDiffs(ops, source, old(result), index))
      ensures result == Installed(old(result), index,
                AccumulateAll(OrderedKeys(ops.keyHash, PendingAt(ops, old(inputs.Model()), old(toDo.Model()), old(source), index)),
                  KeyDiffs(ops, source, old(result), index)))
      ensures forall k :: k in PendingAt(ops, old(inputs.Model()), old(toDo.Model()), old(source), index) ==>
                result.Collection(k, index, ops.le) == TargetCollection(ops, source, k, index)
    {
      requested := requested - {index};
      ghost var work := Absorb(index);
      Flush(index);
    }
  }
}
