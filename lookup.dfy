/**
 * The `Lookup` key-to-value contract and its three implementations: a hash
 * map, a linear-scan list of (key, value) pairs, and a dense vector of
 * optional values indexed by the key shifted right.
 *
 * Each implementation is a class whose methods update its representation in
 * place; `Model()` is the abstraction function to a finite map, and every
 * method states both its concrete effect and its effect on `Model()`.
 *
 * A `&mut V` handed back by `get_mut` or `entry_or_insert` is modelled by an
 * `edit` parameter: the rewrite the caller performs through that reference.
 * The lazily invoked factory of `entry_or_insert` is modelled by the value
 * `init` it produces and by the out-parameter `called`, which is true exactly
 * when the factory runs.
 */
module Lookup {
  import opened Options

  function Get<K, V>(m: map<K, V>, key: K): Option<V>
  {
    if key in m then Some(m[key]) else None
  }

  // ---------------------------------------------------------------------------
  // `HashMap<K, V>`: the map itself (hashing and probing are not modelled).
  // ---------------------------------------------------------------------------

  class HashLookup<K(==), V> {
    var m: map<K, V>

    ghost function Model(): map<K, V>
      reads this
    {
      m
    }

    constructor New()
      ensures Model() == map[]
    {
      m := map[];
    }

    method GetRef(key: K) returns (r: Option<V>)
      ensures r.Some? <==> key in Model()
      ensures r.Some? ==> r.value == Model()[key]
    {
      r := if key in m then Some(m[key]) else None;
    }

    method GetMut(key: K, edit: V -> V) returns (r: Option<V>)
      modifies this
      ensures r == Get(old(Model()), key)
      ensures Model() == if key in old(Model()) then old(Model())[key := edit(old(Model())[key])] else old(Model())
    {
      r := if key in m then Some(m[key]) else None;
      if key in m {
        m := m[key := edit(m[key])];
      }
    }

    method EntryOrInsert(key: K, init: V, edit: V -> V) returns (v: V, called: bool)
      modifies this
      ensures called <==> key !in old(Model())
      ensures v == if called then init else old(Model())[key]
      ensures Model() == old(Model())[key := edit(v)]
    {
      called := key !in m;
      if called {
        m := m[key := init];
      }
      v := m[key];
      m := m[key := edit(v)];
    }

    method RemoveKey(key: K) returns (r: Option<V>)
      modifies this
      ensures r == Get(old(Model()), key)
      ensures Model() == old(Model()) - {key}
    {
      r := if key in m then Some(m[key]) else None;
      m := m - {key};
    }
  }

  // ---------------------------------------------------------------------------
  // `Vec<(K, V)>`: linear scan, removal by `swap_remove`.
  // ---------------------------------------------------------------------------

  /** The index of the first pair whose key is `key` (`iter().position(|x| x.0 == key)`). */
  function FirstIndex<K(==), V>(ps: seq<(K, V)>, key: K): (r: Option<nat>)
    ensures r.Some? ==> r.value < |ps| && ps[r.value].0 == key
    ensures r.Some? ==> forall j :: 0 <= j < r.value ==> ps[j].0 != key
    ensures r.None? ==> forall j :: 0 <= j < |ps| ==> ps[j].0 != key
    decreases |ps|
  {
    if ps == [] then None
    else if ps[0].0 == key then Some(0)
    else match FirstIndex(ps[1..], key)
      case None => None
      case Some(i) => Some(i + 1)
  }

  ghost function KeysOf<K, V>(ps: seq<(K, V)>): set<K>
  {
    set j | 0 <= j < |ps| :: ps[j].0
  }

  ghost predicate DistinctKeys<K, V>(ps: seq<(K, V)>)
  {
    forall i, j :: 0 <= i < j < |ps| ==> ps[i].0 != ps[j].0
  }

  /** The map a pair list stands for: each key to the value of its first pair. */
  ghost function PairsModel<K, V>(ps: seq<(K, V)>): map<K, V>
    decreases |ps|
  {
    if ps == [] then map[] else PairsModel(ps[1..])[ps[0].0 := ps[0].1]
  }

  /** `Vec::swap_remove`: the last pair moves into position `i`, the length drops by one. */
  function SwapRemove<K, V>(ps: seq<(K, V)>, i: nat): (r: seq<(K, V)>)
    requires i < |ps|
    ensures |r| == |ps| - 1
    ensures forall j :: 0 <= j < |r| && j != i ==> r[j] == ps[j]
    ensures i < |r| ==> r[i] == ps[|ps| - 1]
  {
    ps[i := ps[|ps| - 1]][..|ps| - 1]
  }

  /** The model holds exactly the keys of the list, each with its first pair's value. */
  lemma {:induction false} PairsModelFirst<K, V>(ps: seq<(K, V)>, key: K)
    ensures key in PairsModel(ps) <==> FirstIndex(ps, key).Some?
    ensures key in PairsModel(ps) ==> PairsModel(ps)[key] == ps[FirstIndex(ps, key).value].1
    decreases |ps|
  {
    if ps != [] && ps[0].0 != key {
      PairsModelFirst(ps[1..], key);
    }
  }

  lemma PairsModelKeys<K, V>(ps: seq<(K, V)>)
    ensures PairsModel(ps).Keys == KeysOf(ps)
  {
    forall key
      ensures key in PairsModel(ps) <==> key in KeysOf(ps)
    {
      PairsModelFirst(ps, key);
      if key in KeysOf(ps) {
        var j :| 0 <= j < |ps| && ps[j].0 == key;
      }
    }
  }

  /** With distinct keys every pair is the one its key maps to. */
  lemma PairsModelAt<K, V>(ps: seq<(K, V)>, j: nat)
    requires DistinctKeys(ps) && j < |ps|
    ensures ps[j].0 in PairsModel(ps) && PairsModel(ps)[ps[j].0] == ps[j].1
  {
    PairsModelFirst(ps, ps[j].0);
  }

  /** Appending a pair with a new key adds that key to the map. */
  lemma {:induction false} PairsModelAppend<K, V>(ps: seq<(K, V)>, key: K, v: V)
    requires key !in KeysOf(ps)
    ensures PairsModel(ps + [(key, v)]) == PairsModel(ps)[key := v]
    decreases |ps|
  {
    if ps == [] {
    } else {
      assert (ps + [(key, v)])[1..] == ps[1..] + [(key, v)];
      assert key !in KeysOf(ps[1..]);
      PairsModelAppend(ps[1..], key, v);
      assert ps[0].0 != key;
    }
  }

  lemma SwapRemoveDistinct<K, V>(ps: seq<(K, V)>, i: nat)
    requires DistinctKeys(ps) && i < |ps|
    ensures DistinctKeys(SwapRemove(ps, i))
  {
    var r := SwapRemove(ps, i);
    var last := |ps| - 1;
    forall a, b | 0 <= a < b < |r|
      ensures r[a].0 != r[b].0
    {
      var a' := if a == i then last else a;
      var b' := if b == i then last else b;
      assert r[a] == ps[a'] && r[b] == ps[b'];
    }
  }

  lemma SwapRemoveKeptPairs<K, V>(ps: seq<(K, V)>, i: nat)
    requires DistinctKeys(ps) && i < |ps|
    ensures forall key :: key in PairsModel(SwapRemove(ps, i)) ==>
      key in PairsModel(ps) && key != ps[i].0 && PairsModel(SwapRemove(ps, i))[key] == PairsModel(ps)[key]
  {
    var r := SwapRemove(ps, i);
    SwapRemoveDistinct(ps, i);
    PairsModelKeys(r);
    forall key | key in PairsModel(r)
      ensures key in PairsModel(ps) && key != ps[i].0 && PairsModel(r)[key] == PairsModel(ps)[key]
    {
      var j :| 0 <= j < |r| && r[j].0 == key;
      var j' := if j == i then |ps| - 1 else j;
      assert j' != i && r[j] == ps[j'];
      PairsModelAt(r, j);
      PairsModelAt(ps, j');
    }
  }

  lemma SwapRemoveKeptKeys<K, V>(ps: seq<(K, V)>, i: nat)
    requires i < |ps|
    ensures forall key :: key in PairsModel(ps) && key != ps[i].0 ==> key in PairsModel(SwapRemove(ps, i))
  {
    var r := SwapRemove(ps, i);
    PairsModelKeys(ps);
    PairsModelKeys(r);
    forall key | key in PairsModel(ps) && key != ps[i].0
      ensures key in PairsModel(r)
    {
      var j' :| 0 <= j' < |ps| && ps[j'].0 == key;
      var j := if j' == |ps| - 1 then i else j';
      assert r[j] == ps[j'];
      assert r[j].0 in KeysOf(r);
    }
  }

  /** Swap-removing a pair of a distinct-key list removes exactly its key. */
  lemma PairsModelSwapRemove<K, V>(ps: seq<(K, V)>, i: nat)
    requires DistinctKeys(ps) && i < |ps|
    ensures DistinctKeys(SwapRemove(ps, i))
    ensures PairsModel(SwapRemove(ps, i)) == PairsModel(ps) - {ps[i].0}
  {
    SwapRemoveDistinct(ps, i);
    SwapRemoveKeptPairs(ps, i);
    SwapRemoveKeptKeys(ps, i);
  }

  /** Overwriting the value of a pair of a distinct-key list updates that key. */
  lemma {:induction false} PairsModelUpdate<K, V>(ps: seq<(K, V)>, i: nat, v: V)
    requires DistinctKeys(ps) && i < |ps|
    ensures DistinctKeys(ps[i := (ps[i].0, v)])
    ensures PairsModel(ps[i := (ps[i].0, v)]) == PairsModel(ps)[ps[i].0 := v]
    decreases |ps|
  {
    var r := ps[i := (ps[i].0, v)];
    forall a, b | 0 <= a < b < |r|
      ensures r[a].0 != r[b].0
    {
      assert r[a].0 == ps[a].0 && r[b].0 == ps[b].0;
    }
    if i > 0 {
      assert r[1..] == ps[1..][i - 1 := (ps[i].0, v)];
      PairsModelUpdate(ps[1..], i - 1, v);
      assert ps[0].0 != ps[i].0;
    }
  }

  class VecLookup<K(==), V> {
    var pairs: seq<(K, V)>

    /** Keys are pairwise distinct: `entry_or_insert` pushes only when no pair matches. */
    ghost predicate Valid()
      reads this
    {
      DistinctKeys(pairs)
    }

    ghost function Model(): map<K, V>
      reads this
    {
      PairsModel(pairs)
    }

    constructor New()
      ensures Valid() && pairs == [] && Model() == map[]
    {
      pairs := [];
    }

    /** The scan `self.iter().position(|x| x.0 == key)`. */
    method Position(key: K) returns (r: Option<nat>)
      ensures r == FirstIndex(pairs, key)
    {
      var i := 0;
      while i < |pairs|
        invariant 0 <= i <= |pairs|
        invariant forall j :: 0 <= j < i ==> pairs[j].0 != key
      {
        if pairs[i].0 == key {
          return Some(i);
        }
        i := i + 1;
      }
      return None;
    }

    method GetRef(key: K) returns (r: Option<V>)
      ensures r.Some? <==> exists j :: 0 <= j < |pairs| && pairs[j].0 == key
      ensures r.Some? ==> r.value == pairs[FirstIndex(pairs, key).value].1
      ensures r == Get(Model(), key)
    {
      var pos := Position(key);
      PairsModelFirst(pairs, key);
      r := if pos.Some? then Some(pairs[pos.value].1) else None;
    }

    method GetMut(key: K, edit: V -> V) returns (r: Option<V>)
      requires Valid()
      modifies this
      ensures Valid()
      ensures r == Get(old(Model()), key)
      ensures match FirstIndex(old(pairs), key)
        case Some(i) => r == Some(old(pairs)[i].1) && pairs == old(pairs)[i := (key, edit(old(pairs)[i].1))]
        case None => r == None && pairs == old(pairs)
      ensures Model() == if key in old(Model()) then old(Model())[key := edit(old(Model())[key])] else old(Model())
    {
      var pos := Position(key);
      PairsModelFirst(pairs, key);
      if pos.Some? {
        var i := pos.value;
        r := Some(pairs[i].1);
        PairsModelUpdate(pairs, i, edit(pairs[i].1));
        pairs := pairs[i := (key, edit(pairs[i].1))];
      } else {
        r := None;
      }
    }

    method EntryOrInsert(key: K, init: V, edit: V -> V) returns (v: V, called: bool)
      requires Valid()
      modifies this
      ensures Valid()
      ensures called <==> FirstIndex(old(pairs), key).None?
      ensures !called ==> v == old(pairs)[FirstIndex(old(pairs), key).value].1
      ensures !called ==> pairs == old(pairs)[FirstIndex(old(pairs), key).value := (key, edit(v))]
      ensures called ==> v == init && pairs == old(pairs) + [(key, edit(init))]
      ensures called <==> key !in old(Model())
      ensures v == if called then init else old(Model())[key]
      ensures Model() == old(Model())[key := edit(v)]
    {
      var pos := Position(key);
      PairsModelFirst(pairs, key);
      PairsModelKeys(pairs);
      if pos.Some? {
        var i := pos.value;
        called := false;
        v := pairs[i].1;
        PairsModelUpdate(pairs, i, edit(v));
        pairs := pairs[i := (key, edit(v))];
      } else {
        called := true;
        v := init;
        PairsModelAppend(pairs, key, edit(init));
        pairs := pairs + [(key, edit(init))];
      }
    }

    method RemoveKey(key: K) returns (r: Option<V>)
      requires Valid()
      modifies this
      ensures Valid()
      ensures match FirstIndex(old(pairs), key)
        case Some(i) => r == Some(old(pairs)[i].1) && pairs == SwapRemove(old(pairs), i)
        case None => r == None && pairs == old(pairs)
      ensures r == Get(old(Model()), key)
      ensures Model() == old(Model()) - {key}
    {
      var pos := Position(key);
      PairsModelFirst(pairs, key);
      if pos.Some? {
        var i := pos.value;
        r := Some(pairs[i].1);
        PairsModelSwapRemove(pairs, i);
        pairs := SwapRemove(pairs, i);
      } else {
        r := None;
        assert key !in Model();
        assert Model() - {key} == Model();
      }
    }
  }

  // ---------------------------------------------------------------------------
  // `(Vec<Option<V>>, u64)`: a dense vector indexed by `key >> shift`.
  // ---------------------------------------------------------------------------

  newtype u64 = x: int | 0 <= x < 0x1_0000_0000_0000_0000

  /** `x >> n` on a non-negative integer: `n` halvings, each dropping the lowest bit. */
  function Shr(x: nat, n: nat): (r: nat)
    ensures r <= x
    decreases n
  {
    if n == 0 then x else Shr(x / 2, n - 1)
  }

  /**
   * The slot a key addresses: `key.as_u64() >> shift`, for a shift below 64.
   * With shift 0 the slot is the key itself, so the dense table then stands
   * for a map over the keys, like the other two implementations.
   */
  function Slot(key: u64, shift: nat): (r: nat)
    requires shift < 64
    ensures r <= key as nat
    ensures shift == 0 ==> r == key as nat
  {
    Shr(key as nat, shift)
  }

  class DenseLookup<V> {
    var slots: seq<Option<V>>
    var shift: nat

    ghost predicate Valid()
      reads this
    {
      shift < 64
    }

    /** The abstraction divides out the shift: slot indices to the values held there. */
    ghost function Model(): map<nat, V>
      reads this
    {
      map i | 0 <= i < |slots| && slots[i].Some? :: slots[i].value
    }

    constructor New()
      ensures Valid() && slots == [] && shift == 0 && Model() == map[]
    {
      slots := [];
      shift := 0;
    }

    /** The lookup a caller builds as `(Vec::new(), shift)`. */
    constructor WithShift(shift: nat)
      requires shift < 64
      ensures Valid() && slots == [] && this.shift == shift && Model() == map[]
    {
      slots := [];
      this.shift := shift;
    }

    method GetRef(key: u64) returns (r: Option<V>)
      requires Valid()
      ensures Slot(key, shift) >= |slots| ==> r == None
      ensures Slot(key, shift) < |slots| ==> r == slots[Slot(key, shift)]
      ensures r == Get(Model(), Slot(key, shift))
    {
      var idx := Slot(key, shift);
      r := if idx < |slots| then slots[idx] else None;
    }

    method GetMut(key: u64, edit: V -> V) returns (r: Option<V>)
      requires Valid()
      modifies this
      ensures Valid() && shift == old(shift) && |slots| == |old(slots)|
      ensures r == Get(old(Model()), Slot(key, shift))
      ensures forall i :: 0 <= i < |slots| && i != Slot(key, shift) ==> slots[i] == old(slots)[i]
      ensures Model() == if Slot(key, shift) in old(Model())
        then old(Model())[Slot(key, shift) := edit(old(Model())[Slot(key, shift)])]
        else old(Model())
    {
      var idx := Slot(key, shift);
      r := if idx < |slots| then slots[idx] else None;
      if r.Some? {
        slots := slots[idx := Some(edit(r.value))];
      }
    }

    method EntryOrInsert(key: u64, init: V, edit: V -> V) returns (v: V, called: bool)
      requires Valid()
      modifies this
      ensures Valid() && shift == old(shift)
      ensures |slots| == if Slot(key, shift) < |old(slots)| then |old(slots)| else Slot(key, shift) + 1
      ensures slots[Slot(key, shift)].Some?
      ensures forall i :: 0 <= i < |old(slots)| && i != Slot(key, shift) ==> slots[i] == old(slots)[i]
      ensures forall i :: |old(slots)| <= i < |slots| && i != Slot(key, shift) ==> slots[i] == None
      ensures called <==> Slot(key, shift) !in old(Model())
      ensures v == if called then init else old(Model())[Slot(key, shift)]
      ensures Model() == old(Model())[Slot(key, shift) := edit(v)]
    {
      var idx := Slot(key, shift);
      while |slots| <= idx
        invariant shift == old(shift)
        invariant |old(slots)| <= |slots| <= if idx < |old(slots)| then |old(slots)| else idx + 1
        invariant forall i :: 0 <= i < |old(slots)| ==> slots[i] == old(slots)[i]
        invariant forall i :: |old(slots)| <= i < |slots| ==> slots[i] == None
        invariant Model() == old(Model())
      {
        slots := slots + [None];
      }
      called := slots[idx].None?;
      if called {
        slots := slots[idx := Some(init)];
      }
      v := slots[idx].value;
      slots := slots[idx := Some(edit(v))];
    }

    method RemoveKey(key: u64) returns (r: Option<V>)
      requires Valid()
      modifies this
      ensures Valid() && shift == old(shift) && |slots| == |old(slots)|
      ensures r == Get(old(Model()), Slot(key, shift))
      ensures Slot(key, shift) < |slots| ==> slots[Slot(key, shift)] == None
      ensures forall i :: 0 <= i < |slots| && i != Slot(key, shift) ==> slots[i] == old(slots)[i]
      ensures Model() == old(Model()) - {Slot(key, shift)}
    {
      var idx := Slot(key, shift);
      if idx < |slots| {
        r := slots[idx];
        slots := slots[idx := None];
      } else {
        r := None;
      }
    }
  }
}
