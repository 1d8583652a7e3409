/**
 * The collaborators of the group operator whose source is not part of this
 * model, reduced to what the operator relies on: a `Compact` batch groups one
 * time's (value, weight) differences by key; a `Trace` is the append-only list
 * of (time, Compact) entries; and the collection of a key at a time is the
 * coalesced, value-ordered sum of the key's differences at every recorded time
 * that is less than or equal to it in the time domain's partial order `le`.
 */
module Traces {
  import opened Options
  import opened Weighted

  /** One key's run of (value, weight) differences inside a Compact. */
  datatype Group = Group(key: int, vals: seq<Pair>)

  type Compact = seq<Group>

  /** `compact.keys`. */
  function CompactKeys(c: Compact): (r: seq<int>)
    ensures |r| == |c| && forall i :: 0 <= i < |c| ==> r[i] == c[i].key
    decreases |c|
  {
    if c == [] then [] else [c[0].key] + CompactKeys(c[1..])
  }

  /** `vals.len()`: the number of (value, weight) pairs the Compact holds. */
  function ValCount(c: Compact): nat
    decreases |c|
  {
    if c == [] then 0 else |c[0].vals| + ValCount(c[1..])
  }

  /** The differences a Compact records for `key`. */
  function KeyVals(c: Compact, key: int): seq<Pair>
    decreases |c|
  {
    if c == [] then [] else (if c[0].key == key then c[0].vals else []) + KeyVals(c[1..], key)
  }

  lemma {:induction false} KeyValsEmpty(c: Compact, key: int)
    requires ValCount(c) == 0
    ensures KeyVals(c, key) == []
    decreases |c|
  {
    if c != [] {
      KeyValsEmpty(c[1..], key);
    }
  }

  lemma {:induction false} KeyValsAppend(c: Compact, d: Compact, key: int)
    ensures KeyVals(c + d, key) == KeyVals(c, key) + KeyVals(d, key)
    decreases |c|
  {
    if c == [] {
      assert c + d == d;
    } else {
      assert (c + d)[1..] == c[1..] + d;
      KeyValsAppend(c[1..], d, key);
    }
  }

  lemma {:induction false} ValCountAppend(c: Compact, d: Compact)
    ensures ValCount(c + d) == ValCount(c) + ValCount(d)
    decreases |c|
  {
    if c == [] {
      assert c + d == d;
    } else {
      assert (c + d)[1..] == c[1..] + d;
      ValCountAppend(c[1..], d);
    }
  }

  // ---------------------------------------------------------------------------
  // Building the Compact of a time's staged input.
  // ---------------------------------------------------------------------------

  /** A (key, (value, weight)) triple, the output of `kv` paired with the record's weight. */
  type Record = (int, Pair)

  /** The number of records the staged deliveries hold. */
  function StagedCount<R>(queue: seq<seq<(R, int)>>): nat
    decreases |queue|
  {
    if queue == [] then 0 else StagedCount(queue[..|queue| - 1]) + |queue[|queue| - 1]|
  }

  /** Every record of every staged delivery, in arrival order, mapped through `kv`; none is lost or added. */
  function Records<R>(queue: seq<seq<(R, int)>>, kv: R -> (int, int)): (r: seq<Record>)
    ensures |r| == StagedCount(queue)
    decreases |queue|
  {
    if queue == [] then []
    else Records(queue[..|queue| - 1], kv) + DeliveryRecords(queue[|queue| - 1], kv)
  }

  function DeliveryRecords<R>(data: seq<(R, int)>, kv: R -> (int, int)): (r: seq<Record>)
    ensures |r| == |data|
  {
    seq(|data|, i requires 0 <= i < |data| => (kv(data[i].0).0, (kv(data[i].0).1, data[i].1)))
  }

  /** The (value, weight) pairs of the records with key `key`, in order. */
  function RecordsFor(recs: seq<Record>, key: int): seq<Pair>
    decreases |recs|
  {
    if recs == [] then []
    else RecordsFor(recs[..|recs| - 1], key) + (if recs[|recs| - 1].0 == key then [recs[|recs| - 1].1] else [])
  }

  ghost predicate DistinctGroups(c: Compact)
  {
    forall i, j :: 0 <= i < j < |c| ==> c[i].key != c[j].key
  }

  /** Adds one record to its key's group, opening a new group for a new key. */
  function AddRecord(c: Compact, key: int, p: Pair): (r: Compact)
    ensures |r| == if key in CompactKeys(c) then |c| else |c| + 1
    decreases |c|
  {
    if c == [] then [Group(key, [p])]
    else if c[0].key == key then [Group(key, c[0].vals + [p])] + c[1..]
    else [c[0]] + AddRecord(c[1..], key, p)
  }

  /** Adding a record keeps every group's key and adds at most the record's key. */
  lemma {:induction false} AddRecordKeys(c: Compact, key: int, p: Pair)
    ensures forall i :: 0 <= i < |AddRecord(c, key, p)| ==> AddRecord(c, key, p)[i].key in CompactKeys(c) || AddRecord(c, key, p)[i].key == key
    decreases |c|
  {
    if c != [] && c[0].key != key {
      AddRecordKeys(c[1..], key, p);
      assert CompactKeys(c) == [c[0].key] + CompactKeys(c[1..]);
    }
  }

  lemma {:induction false} AddRecordDistinct(c: Compact, key: int, p: Pair)
    requires DistinctGroups(c)
    ensures DistinctGroups(AddRecord(c, key, p))
    decreases |c|
  {
    var r := AddRecord(c, key, p);
    if c != [] && c[0].key != key {
      AddRecordDistinct(c[1..], key, p);
      AddRecordKeys(c[1..], key, p);
      var r' := AddRecord(c[1..], key, p);
      assert r == [c[0]] + r';
      forall i | 0 <= i < |r'|
        ensures r'[i].key != c[0].key
      {
        if r'[i].key in CompactKeys(c[1..]) {
          var j :| 0 <= j < |c[1..]| && CompactKeys(c[1..])[j] == r'[i].key;
          assert c[j + 1].key == r'[i].key;
        }
      }
    }
  }

  lemma {:induction false} AddRecordVals(c: Compact, key: int, p: Pair, k: int)
    requires DistinctGroups(c)
    ensures KeyVals(AddRecord(c, key, p), k) == KeyVals(c, k) + (if k == key then [p] else [])
    decreases |c|
  {
    var r := AddRecord(c, key, p);
    if c == [] {
    } else if c[0].key == key {
      assert r[1..] == c[1..];
      assert key !in CompactKeys(c[1..]);
      KeyValsAbsent(c[1..], key);
      if k == key {
        assert KeyVals(r, k) == (c[0].vals + [p]) + [];
        assert KeyVals(c, k) == c[0].vals + [];
      }
    } else {
      var r' := AddRecord(c[1..], key, p);
      assert r[1..] == r';
      AddRecordVals(c[1..], key, p, k);
      assert KeyVals(r, k) == (if c[0].key == k then c[0].vals else []) + KeyVals(r', k);
    }
  }

  lemma {:induction false} AddRecordCount(c: Compact, key: int, p: Pair)
    ensures ValCount(AddRecord(c, key, p)) == ValCount(c) + 1
    decreases |c|
  {
    var r := AddRecord(c, key, p);
    if c == [] {
    } else if c[0].key == key {
      assert r[1..] == c[1..];
    } else {
      AddRecordCount(c[1..], key, p);
      assert r[1..] == AddRecord(c[1..], key, p);
    }
  }

  lemma {:induction false} KeyValsAbsent(c: Compact, key: int)
    requires key !in CompactKeys(c)
    ensures KeyVals(c, key) == []
    decreases |c|
  {
    if c != [] {
      assert CompactKeys(c)[1..] == CompactKeys(c[1..]);
      KeyValsAbsent(c[1..], key);
    }
  }

  /** Groups records by key, keys in order of first appearance (`Compact::from_radix`). */
  function GroupRecords(recs: seq<Record>): (c: Compact)
    decreases |recs|
  {
    if recs == [] then []
    else
      var last := recs[|recs| - 1];
      AddRecord(GroupRecords(recs[..|recs| - 1]), last.0, last.1)
  }

  /** The Compact holds, per key, exactly that key's records, and each key once. */
  lemma {:induction false} GroupRecordsSpec(recs: seq<Record>)
    ensures DistinctGroups(GroupRecords(recs))
    ensures forall k :: KeyVals(GroupRecords(recs), k) == RecordsFor(recs, k)
    ensures ValCount(GroupRecords(recs)) == |recs|
    decreases |recs|
  {
    if recs != [] {
      var last := recs[|recs| - 1];
      var c := GroupRecords(recs[..|recs| - 1]);
      GroupRecordsSpec(recs[..|recs| - 1]);
      AddRecordDistinct(c, last.0, last.1);
      AddRecordCount(c, last.0, last.1);
      forall k
        ensures KeyVals(GroupRecords(recs), k) == RecordsFor(recs, k)
      {
        AddRecordVals(c, last.0, last.1, k);
      }
    }
  }

  /** The Compact of a time's staged deliveries; `None` when they hold no record. */
  function BuildCompact<R>(queue: seq<seq<(R, int)>>, kv: R -> (int, int)): Option<Compact>
  {
    var recs := Records(queue, kv);
    if recs == [] then None else Some(GroupRecords(recs))
  }

  lemma BuildCompactSpec<R>(queue: seq<seq<(R, int)>>, kv: R -> (int, int))
    ensures BuildCompact(queue, kv).None? <==> StagedCount(queue) == 0
    ensures BuildCompact(queue, kv).Some? ==>
      var c := BuildCompact(queue, kv).value;
      DistinctGroups(c) && ValCount(c) == StagedCount(queue) &&
      forall k :: KeyVals(c, k) == RecordsFor(Records(queue, kv), k)
  {
    GroupRecordsSpec(Records(queue, kv));
  }

  // ---------------------------------------------------------------------------
  // The trace.
  // ---------------------------------------------------------------------------

  /** The differences of `key` at all entries whose time is `le` `time`, oldest first. */
  function HistoryVals<T>(entries: seq<(T, Compact)>, key: int, time: T, le: (T, T) -> bool): seq<Pair>
    decreases |entries|
  {
    if entries == [] then []
    else
      var e := entries[|entries| - 1];
      HistoryVals(entries[..|entries| - 1], key, time, le) + (if le(e.0, time) then KeyVals(e.1, key) else [])
  }

  datatype Trace<T> = Trace(entries: seq<(T, Compact)>) {

    /** `set_difference`: installs a Compact as the entry for `time`, leaving earlier entries alone. */
    function SetDifference(time: T, c: Compact): (r: Trace<T>)
      ensures |r.entries| == |entries| + 1 && r.entries[..|entries|] == entries && r.entries[|entries|] == (time, c)
    {
      Trace(entries + [(time, c)])
    }

    /** `get_collection_using`: the key's accumulated collection at `time`. */
    function Collection(key: int, time: T, le: (T, T) -> bool): (r: seq<Pair>)
      ensures Canonical(r) && SortedByValue(r)
    {
      Normalize(HistoryVals(entries, key, time, le))
    }
  }

  /** The collection of a key at a time weighs what the key's differences at the times below it weigh. */
  lemma CollectionWeight<T>(tr: Trace<T>, key: int, time: T, le: (T, T) -> bool, v: int)
    ensures Weight(tr.Collection(key, time, le), v) == Weight(HistoryVals(tr.entries, key, time, le), v)
  {
    NormalizeWeight(HistoryVals(tr.entries, key, time, le), v);
  }

  /** A newly installed entry adds its differences for `key` to every time above it. */
  lemma SetDifferenceVals<T>(tr: Trace<T>, t: T, c: Compact, key: int, time: T, le: (T, T) -> bool)
    ensures HistoryVals(tr.SetDifference(t, c).entries, key, time, le) ==
      HistoryVals(tr.entries, key, time, le) + (if le(t, time) then KeyVals(c, key) else [])
  {
    assert (tr.entries + [(t, c)])[..|tr.entries|] == tr.entries;
  }
}
