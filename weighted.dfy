/**
 * Weighted collections: sequences of (value, weight) pairs, where a weight is a
 * signed multiplicity and a value of net weight zero is absent.
 *
 * This module states the streaming merge-and-cancel pipeline of the group
 * operator (buffer sort by value, negation of the previous output, the merge of
 * the two, and Coalesce), and proves that it yields exactly the net change.
 */
module Weighted {

  type Pair = (int, int)

  /** The net weight of value `v` in `s`: the sum of the weights paired with it. */
  function Weight(s: seq<Pair>, v: int): int
    decreases |s|
  {
    if s == [] then 0
    else (if s[0].0 == v then s[0].1 else 0) + Weight(s[1..], v)
  }

  /** Values never decrease along `s` (the order `sort_by` and `merge_by` produce). */
  ghost predicate SortedByValue(s: seq<Pair>)
  {
    forall i, j :: 0 <= i < j < |s| ==> s[i].0 <= s[j].0
  }

  /** Values strictly increase along `s`: each value occurs at most once. */
  ghost predicate StrictlySorted(s: seq<Pair>)
  {
    forall i, j :: 0 <= i < j < |s| ==> s[i].0 < s[j].0
  }

  ghost predicate NoZeroWeights(s: seq<Pair>)
  {
    forall i :: 0 <= i < |s| ==> s[i].1 != 0
  }

  /** The form in which a trace presents a collection: value order, each value once, no zeros. */
  ghost predicate Canonical(s: seq<Pair>)
  {
    StrictlySorted(s) && NoZeroWeights(s)
  }

  ghost predicate AllAtLeast(s: seq<Pair>, v: int)
  {
    forall i :: 0 <= i < |s| ==> v <= s[i].0
  }

  lemma {:induction false} WeightAppend(a: seq<Pair>, b: seq<Pair>, v: int)
    ensures Weight(a + b, v) == Weight(a, v) + Weight(b, v)
    decreases |a|
  {
    if a == [] {
      assert a + b == b;
    } else {
      assert (a + b)[1..] == a[1..] + b;
      WeightAppend(a[1..], b, v);
    }
  }

  /** A value below every value of `s` has no weight in it. */
  lemma {:induction false} WeightBelow(s: seq<Pair>, v: int)
    requires forall i :: 0 <= i < |s| ==> v < s[i].0
    ensures Weight(s, v) == 0
    decreases |s|
  {
    if s != [] {
      WeightBelow(s[1..], v);
    }
  }

  // ---------------------------------------------------------------------------
  // Sorting a buffer by value (`buffer.sort_by(|x,y| x.0.cmp(&y.0))`).
  // ---------------------------------------------------------------------------

  /**
   * Places `x` before the first pair whose value is not smaller. Each head is
   * inserted ahead of its equals in the sorted tail, so the sort is stable.
   */
  function InsertByValue(x: Pair, s: seq<Pair>): (r: seq<Pair>)
    requires SortedByValue(s)
    ensures SortedByValue(r)
    ensures |r| == |s| + 1
    ensures r[0] == x || (s != [] && r[0] == s[0])
    decreases |s|
  {
    if s == [] then [x]
    else if x.0 <= s[0].0 then [x] + s
    else [s[0]] + InsertByValue(x, s[1..])
  }

  lemma {:induction false} InsertByValueMultiset(x: Pair, s: seq<Pair>)
    requires SortedByValue(s)
    ensures multiset(InsertByValue(x, s)) == multiset(s) + multiset{x}
    decreases |s|
  {
    if s != [] && x.0 > s[0].0 {
      InsertByValueMultiset(x, s[1..]);
      assert s == [s[0]] + s[1..];
    }
  }

  lemma {:induction false} InsertByValueWeight(x: Pair, s: seq<Pair>, v: int)
    requires SortedByValue(s)
    ensures Weight(InsertByValue(x, s), v) == Weight(s, v) + (if x.0 == v then x.1 else 0)
    decreases |s|
  {
    if s == [] {
    } else if x.0 <= s[0].0 {
      assert ([x] + s)[1..] == s;
    } else {
      var rest := InsertByValue(x, s[1..]);
      InsertByValueWeight(x, s[1..], v);
      assert ([s[0]] + rest)[1..] == rest;
    }
  }

  /** Stable insertion sort by value. */
  function SortByValue(s: seq<Pair>): (r: seq<Pair>)
    ensures SortedByValue(r)
    ensures |r| == |s|
    decreases |s|
  {
    if s == [] then [] else InsertByValue(s[0], SortByValue(s[1..]))
  }

  lemma {:induction false} SortByValueMultiset(s: seq<Pair>)
    ensures multiset(SortByValue(s)) == multiset(s)
    decreases |s|
  {
    if s != [] {
      SortByValueMultiset(s[1..]);
      InsertByValueMultiset(s[0], SortByValue(s[1..]));
      assert s == [s[0]] + s[1..];
    }
  }

  lemma {:induction false} SortByValueWeight(s: seq<Pair>, v: int)
    ensures Weight(SortByValue(s), v) == Weight(s, v)
    decreases |s|
  {
    if s != [] {
      SortByValueWeight(s[1..], v);
      InsertByValueWeight(s[0], SortByValue(s[1..]), v);
    }
  }

  /** Sorting yields a permutation of the buffer, so every value keeps its weight. */
  lemma SortByValueContents(s: seq<Pair>)
    ensures multiset(SortByValue(s)) == multiset(s)
    ensures forall v :: Weight(SortByValue(s), v) == Weight(s, v)
  {
    SortByValueMultiset(s);
    forall v
      ensures Weight(SortByValue(s), v) == Weight(s, v)
    {
      SortByValueWeight(s, v);
    }
  }

  // ---------------------------------------------------------------------------
  // Negation of the previous output (`.map(|(v, w)| (v, -w))`).
  // ---------------------------------------------------------------------------

  function Negate(s: seq<Pair>): (r: seq<Pair>)
    ensures |r| == |s|
    ensures forall i :: 0 <= i < |s| ==> r[i] == (s[i].0, -s[i].1)
    decreases |s|
  {
    if s == [] then [] else [(s[0].0, -s[0].1)] + Negate(s[1..])
  }

  lemma {:induction false} NegateWeight(s: seq<Pair>, v: int)
    ensures Weight(Negate(s), v) == -Weight(s, v)
    decreases |s|
  {
    if s != [] {
      assert Negate(s)[1..] == Negate(s[1..]);
      NegateWeight(s[1..], v);
    }
  }

  // ---------------------------------------------------------------------------
  // Two-way merge by value (`merge_by(..., |x, y| x.0.cmp(&y.0))`).
  // ---------------------------------------------------------------------------

  /** Merges two value-sorted sequences, taking from `a` first when the values tie. */
  function Merge(a: seq<Pair>, b: seq<Pair>): (r: seq<Pair>)
    requires SortedByValue(a) && SortedByValue(b)
    ensures SortedByValue(r)
    ensures |r| == |a| + |b|
    ensures r != [] ==> (a != [] && r[0] == a[0]) || (b != [] && r[0] == b[0])
    decreases |a| + |b|
  {
    if a == [] then b
    else if b == [] then a
    else if a[0].0 <= b[0].0 then [a[0]] + Merge(a[1..], b)
    else [b[0]] + Merge(a, b[1..])
  }

  lemma {:induction false} MergeMultiset(a: seq<Pair>, b: seq<Pair>)
    requires SortedByValue(a) && SortedByValue(b)
    ensures multiset(Merge(a, b)) == multiset(a) + multiset(b)
    decreases |a| + |b|, 1
  {
    if a != [] && b != [] {
      if a[0].0 <= b[0].0 {
        MergeMultisetLeft(a, b);
      } else {
        MergeMultisetRight(a, b);
      }
    }
  }

  lemma {:induction false} MergeMultisetLeft(a: seq<Pair>, b: seq<Pair>)
    requires SortedByValue(a) && SortedByValue(b)
    requires a != [] && b != [] && a[0].0 <= b[0].0
    ensures multiset(Merge(a, b)) == multiset(a) + multiset(b)
    decreases |a| + |b|, 0
  {
    var tail := a[1..];
    var rest := Merge(tail, b);
    MergeMultiset(tail, b);
    assert a == [a[0]] + tail;
    calc {
      multiset(Merge(a, b));
      multiset([a[0]] + rest);
      multiset([a[0]]) + multiset(rest);
      multiset([a[0]]) + multiset(tail) + multiset(b);
      multiset(a) + multiset(b);
    }
  }

  lemma {:induction false} MergeMultisetRight(a: seq<Pair>, b: seq<Pair>)
    requires SortedByValue(a) && SortedByValue(b)
    requires a != [] && b != [] && b[0].0 < a[0].0
    ensures multiset(Merge(a, b)) == multiset(a) + multiset(b)
    decreases |a| + |b|, 0
  {
    var tail := b[1..];
    var rest := Merge(a, tail);
    MergeMultiset(a, tail);
    assert b == [b[0]] + tail;
    calc {
      multiset(Merge(a, b));
      multiset([b[0]] + rest);
      multiset([b[0]]) + multiset(rest);
      multiset(a) + (multiset([b[0]]) + multiset(tail));
      multiset(a) + multiset(b);
    }
  }

  lemma {:induction false} MergeWeight(a: seq<Pair>, b: seq<Pair>, v: int)
    requires SortedByValue(a) && SortedByValue(b)
    ensures Weight(Merge(a, b), v) == Weight(a, v) + Weight(b, v)
    decreases |a| + |b|
  {
    if a == [] {
    } else if b == [] {
    } else if a[0].0 <= b[0].0 {
      var rest := Merge(a[1..], b);
      MergeWeight(a[1..], b, v);
      assert ([a[0]] + rest)[1..] == rest;
    } else {
      var rest := Merge(a, b[1..]);
      MergeWeight(a, b[1..], v);
      assert ([b[0]] + rest)[1..] == rest;
    }
  }

  /** The merge holds exactly the pairs of both inputs, so weights add. */
  lemma MergeContents(a: seq<Pair>, b: seq<Pair>)
    requires SortedByValue(a) && SortedByValue(b)
    ensures multiset(Merge(a, b)) == multiset(a) + multiset(b)
    ensures forall v :: Weight(Merge(a, b), v) == Weight(a, v) + Weight(b, v)
  {
    MergeMultiset(a, b);
    forall v
      ensures Weight(Merge(a, b), v) == Weight(a, v) + Weight(b, v)
    {
      MergeWeight(a, b, v);
    }
  }

  // ---------------------------------------------------------------------------
  // Coalesce: sum the weights of adjacent equal values, drop zero sums.
  // ---------------------------------------------------------------------------

  /** The pair a finished run contributes: nothing when its weights cancel. */
  function Emit(v: int, w: int): (r: seq<Pair>)
    ensures r == [] <==> w == 0
  {
    if w == 0 then [] else [(v, w)]
  }

  lemma EmitWeight(v: int, w: int, u: int)
    ensures Weight(Emit(v, w), u) == if u == v then w else 0
  {
    if w != 0 {
      assert Emit(v, w)[1..] == [];
    }
  }

  /**
   * The rest of the coalesced stream, given that the current run has value `v`
   * and weights summing to `w` so far, and `s` is what the merge still yields.
   */
  function CoalesceFrom(v: int, w: int, s: seq<Pair>): (r: seq<Pair>)
    requires SortedByValue(s) && AllAtLeast(s, v)
    ensures Canonical(r)
    ensures AllAtLeast(r, v)
    decreases |s|
  {
    if s == [] then Emit(v, w)
    else if s[0].0 == v then CoalesceFrom(v, w + s[0].1, s[1..])
    else Emit(v, w) + CoalesceFrom(s[0].0, s[0].1, s[1..])
  }

  lemma {:induction false} CoalesceFromWeight(v: int, w: int, s: seq<Pair>, u: int)
    requires SortedByValue(s) && AllAtLeast(s, v)
    ensures Weight(CoalesceFrom(v, w, s), u) == (if u == v then w else 0) + Weight(s, u)
    decreases |s|
  {
    if s == [] {
      EmitWeight(v, w, u);
    } else {
      if s[0].0 == v {
        CoalesceFromWeight(v, w + s[0].1, s[1..], u);
      } else {
        EmitWeight(v, w, u);
        CoalesceFromWeight(s[0].0, s[0].1, s[1..], u);
        WeightAppend(Emit(v, w), CoalesceFrom(s[0].0, s[0].1, s[1..]), u);
      }
    }
  }

  /** The net collection of a value-sorted stream: each value once, with its summed weight, if non-zero. */
  function Coalesce(s: seq<Pair>): (r: seq<Pair>)
    requires SortedByValue(s)
    ensures Canonical(r)
  {
    if s == [] then [] else CoalesceFrom(s[0].0, s[0].1, s[1..])
  }

  /** Coalescing keeps every value's net weight. */
  lemma CoalesceWeight(s: seq<Pair>, v: int)
    requires SortedByValue(s)
    ensures Weight(Coalesce(s), v) == Weight(s, v)
  {
    if s != [] {
      CoalesceFromWeight(s[0].0, s[0].1, s[1..], v);
    }
  }

  /** The canonical form of an arbitrary weighted sequence. */
  function Normalize(s: seq<Pair>): (r: seq<Pair>)
    ensures Canonical(r)
  {
    Coalesce(SortByValue(s))
  }

  /** Normalizing keeps every value's net weight. */
  lemma NormalizeWeight(s: seq<Pair>, v: int)
    ensures Weight(Normalize(s), v) == Weight(s, v)
  {
    SortByValueWeight(s, v);
    CoalesceWeight(SortByValue(s), v);
  }

  /**
   * The net differences the group operator emits for one key: the previous
   * output negated, merged with the value-sorted new output, coalesced.
   */
  function Diff(previous: seq<Pair>, sortedBuffer: seq<Pair>): (r: seq<Pair>)
    requires SortedByValue(previous) && SortedByValue(sortedBuffer)
    ensures Canonical(r)
  {
    Coalesce(Merge(Negate(previous), sortedBuffer))
  }

  // ---------------------------------------------------------------------------
  // Properties.
  // ---------------------------------------------------------------------------

  /** In a strictly sorted sequence the first value carries exactly the first weight. */
  lemma HeadWeight(s: seq<Pair>)
    requires StrictlySorted(s) && s != []
    ensures Weight(s, s[0].0) == s[0].1
  {
    WeightBelow(s[1..], s[0].0);
  }

  /** A canonical sequence is determined by its weights. */
  lemma {:induction false} CanonicalUnique(a: seq<Pair>, b: seq<Pair>)
    requires Canonical(a) && Canonical(b)
    requires forall v :: Weight(a, v) == Weight(b, v)
    ensures a == b
    decreases |a| + |b|
  {
    if a == [] && b == [] {
    } else if a == [] {
      HeadWeight(b);
    } else if b == [] {
      HeadWeight(a);
    } else if a[0].0 < b[0].0 {
      HeadWeight(a);
      WeightBelow(b, a[0].0);
    } else if b[0].0 < a[0].0 {
      HeadWeight(b);
      WeightBelow(a, b[0].0);
    } else {
      HeadWeight(a);
      HeadWeight(b);
      assert a[0] == b[0];
      forall v
        ensures Weight(a[1..], v) == Weight(b[1..], v)
      {
        assert Weight(a, v) == (if a[0].0 == v then a[0].1 else 0) + Weight(a[1..], v);
        assert Weight(b, v) == (if b[0].0 == v then b[0].1 else 0) + Weight(b[1..], v);
      }
      CanonicalUnique(a[1..], b[1..]);
      assert a == [a[0]] + a[1..] && b == [b[0]] + b[1..];
    }
  }

  /**
   * The differences are canonical, and previous output plus differences is the
   * new output: for every value, weight(previous) + weight(diff) = weight(buffer).
   */
  lemma DiffIsNetChange(previous: seq<Pair>, sortedBuffer: seq<Pair>)
    requires SortedByValue(previous) && SortedByValue(sortedBuffer)
    ensures Canonical(Diff(previous, sortedBuffer))
    ensures forall v :: Weight(previous, v) + Weight(Diff(previous, sortedBuffer), v) == Weight(sortedBuffer, v)
  {
    forall v
      ensures Weight(previous, v) + Weight(Diff(previous, sortedBuffer), v) == Weight(sortedBuffer, v)
    {
      NegateWeight(previous, v);
      MergeWeight(Negate(previous), sortedBuffer, v);
      CoalesceWeight(Merge(Negate(previous), sortedBuffer), v);
    }
  }

  /** With an empty new output the differences retract exactly the previous output. */
  lemma DiffOfEmptyIsRetraction(previous: seq<Pair>)
    requires Canonical(previous)
    ensures Diff(previous, []) == Negate(previous)
  {
    var n := Negate(previous);
    DiffIsNetChange(previous, []);
    forall v
      ensures Weight(Diff(previous, []), v) == Weight(n, v)
    {
      NegateWeight(previous, v);
    }
    CanonicalUnique(Diff(previous, []), n);
  }

  /** When nothing changed no difference is emitted. */
  lemma DiffOfSameIsEmpty(collection: seq<Pair>)
    requires SortedByValue(collection)
    ensures Diff(collection, collection) == []
  {
    DiffIsNetChange(collection, collection);
    CanonicalUnique(Diff(collection, collection), []);
  }
}
