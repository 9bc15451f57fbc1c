/**
 * Python dictionaries keep their keys in first-insertion order. An insertion-ordered map is
 * modelled as a sequence of (key, value) entries with distinct keys: assigning to a present key
 * replaces its value where it stands, assigning to a new key appends it.
 */
module OrderedMap {
  import opened Wrappers
  import opened Sequences

  function Keys<K(==), V>(m: seq<(K, V)>): (r: seq<K>)
    ensures |r| == |m|
    ensures forall i :: 0 <= i < |m| ==> r[i] == m[i].0
  {
    seq(|m|, i requires 0 <= i < |m| => m[i].0)
  }

  predicate DistinctKeys<K(==), V>(m: seq<(K, V)>) {
    forall i, j :: 0 <= i < j < |m| ==> m[i].0 != m[j].0
  }

  /** Position of `k` in `m`, or `|m|` when it is absent. */
  function IndexOf<K(==), V>(m: seq<(K, V)>, k: K): (i: nat)
    ensures i <= |m|
    ensures i < |m| ==> m[i].0 == k
    ensures forall j :: 0 <= j < i ==> m[j].0 != k
  {
    if m == [] then 0 else if m[0].0 == k then 0 else 1 + IndexOf(m[1..], k)
  }

  /** The first entry with key `k` is where `IndexOf` finds it. */
  lemma {:induction false} IndexOfAt<K, V>(m: seq<(K, V)>, k: K, i: nat)
    requires i < |m| && m[i].0 == k && forall j :: 0 <= j < i ==> m[j].0 != k
    ensures IndexOf(m, k) == i
    ensures Get(m, k) == Some(m[i].1)
  {
    if i > 0 {
      IndexOfAt(m[1..], k, i - 1);
    }
  }

  /** `d[k] = v`. */
  function Put<K(==), V>(m: seq<(K, V)>, k: K, v: V): (r: seq<(K, V)>)
    ensures IndexOf(m, k) < |m| ==> |r| == |m| && r[IndexOf(m, k)] == (k, v)
    ensures IndexOf(m, k) < |m| ==> forall j :: 0 <= j < |m| && j != IndexOf(m, k) ==> r[j] == m[j]
    ensures IndexOf(m, k) == |m| ==> r == m + [(k, v)]
    ensures DistinctKeys(m) ==> DistinctKeys(r)
  {
    var i := IndexOf(m, k);
    if i < |m| then m[i := (k, v)] else m + [(k, v)]
  }

  /** `d.get(k)`. */
  function Get<K(==), V>(m: seq<(K, V)>, k: K): (r: Option<V>)
    ensures r.Some? <==> exists i :: 0 <= i < |m| && m[i].0 == k
    ensures r.Some? ==> m[IndexOf(m, k)] == (k, r.value)
  {
    var i := IndexOf(m, k);
    if i < |m| then Some(m[i].1) else None
  }

  /** After `d[k] = v`, `d[k]` is `v` and every other key keeps its value. */
  lemma GetAfterPut<K, V>(m: seq<(K, V)>, k: K, v: V, k': K)
    requires DistinctKeys(m)
    ensures Get(Put(m, k, v), k) == Some(v)
    ensures k' != k ==> Get(Put(m, k, v), k') == Get(m, k')
  {
    var r := Put(m, k, v);
    var i := IndexOf(m, k);
    var i' := IndexOf(m, k');
    if i < |m| {
      assert IndexOf(r, k) == i by { assert forall j :: 0 <= j < i ==> r[j] == m[j]; }
      if k' != k {
        assert forall j :: 0 <= j < |m| && j != i ==> r[j] == m[j];
        assert r[i].0 != k';
        assert IndexOf(r, k') == i' by {
          assert forall j :: 0 <= j < i' ==> r[j].0 != k';
        }
      }
    } else {
      assert forall j :: 0 <= j < |m| ==> r[j] == m[j];
      assert r[|m|] == (k, v);
    }
  }

  /** `dict(pairs)`, i.e. `d[k] = v` for every pair in turn, starting from an empty dictionary. */
  function FromPairs<K(==), V>(m: seq<(K, V)>): (r: seq<(K, V)>)
    ensures DistinctKeys(r)
    ensures |r| <= |m|
  {
    if m == [] then [] else Put(FromPairs(m[..|m| - 1]), m[|m| - 1].0, m[|m| - 1].1)
  }

  /** A dictionary built from pairs with distinct keys holds them all, in their order. */
  lemma {:induction false} FromDistinctPairs<K, V>(m: seq<(K, V)>)
    requires DistinctKeys(m)
    ensures FromPairs(m) == m
  {
    if m != [] {
      var init := m[..|m| - 1];
      InitLast(m);
      FromDistinctPairs(init);
      assert IndexOf(init, m[|m| - 1].0) == |init|;
    }
  }

  /** `d[k] = v` adds `k` to the keys and keeps every other key. */
  lemma PutKeys<K, V>(m: seq<(K, V)>, k: K, v: V, x: K)
    ensures x in Keys(Put(m, k, v)) <==> x in Keys(m) || x == k
  {
    var r := Put(m, k, v);
    var i := IndexOf(m, k);
    if x in Keys(r) {
      var j :| 0 <= j < |r| && Keys(r)[j] == x;
      if x != k {
        assert j < |m| && r[j] == m[j];
        assert Keys(m)[j] == x;
      }
    }
    if x in Keys(m) {
      var j :| 0 <= j < |m| && Keys(m)[j] == x;
      if x != k {
        assert j != i && r[j] == m[j];
        assert Keys(r)[j] == x;
      }
    }
    if i < |m| {
      assert Keys(r)[i] == k;
    } else {
      assert Keys(r)[|m|] == k;
    }
  }

  /** The keys of a sequence of pairs are its keys without the last pair's, then that one. */
  lemma KeysLast<K, V>(m: seq<(K, V)>, k: K)
    requires m != []
    ensures k in Keys(m) <==> k in Keys(m[..|m| - 1]) || k == m[|m| - 1].0
  {
    var init := m[..|m| - 1];
    if k in Keys(m) {
      var i :| 0 <= i < |m| && Keys(m)[i] == k;
      if i < |init| {
        assert Keys(init)[i] == k;
      }
    }
    if k in Keys(init) {
      var i :| 0 <= i < |init| && Keys(init)[i] == k;
      assert Keys(m)[i] == k;
    }
    if k == m[|m| - 1].0 {
      assert Keys(m)[|m| - 1] == k;
    }
  }

  /** A built dictionary has exactly the keys of its pairs. */
  lemma {:induction false} FromPairsKeys<K, V>(m: seq<(K, V)>, k: K)
    ensures k in Keys(FromPairs(m)) <==> k in Keys(m)
  {
    if m != [] {
      var init := m[..|m| - 1];
      var last := m[|m| - 1];
      assert FromPairs(m) == Put(FromPairs(init), last.0, last.1);
      FromPairsKeys(init, k);
      PutKeys(FromPairs(init), last.0, last.1, k);
      KeysLast(m, k);
    }
  }

  /** `itertools.chain.from_iterable(d.items())`: keys and values, alternating, in order. */
  function FlattenItems<T>(m: seq<(T, T)>): (r: seq<T>)
    ensures |r| == 2 * |m|
    ensures forall i :: 0 <= i < |m| ==> r[2 * i] == m[i].0 && r[2 * i + 1] == m[i].1
  {
    if m == [] then [] else [m[0].0, m[0].1] + FlattenItems(m[1..])
  }
}
