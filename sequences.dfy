/**
 * Python's list built-ins the price store relies on, over any element type and an integer key:
 * `sorted(xs, key=...)` (stable), `min`/`max` with a key (the first extreme element wins), and
 * a list comprehension whose element function may raise.
 */
module Sequences {
  import opened Wrappers

  /** Concatenation groups either way. */
  lemma AppendAssoc<T>(a: seq<T>, b: seq<T>, c: seq<T>)
    ensures (a + b) + c == a + (b + c)
  {
  }

  /** The first and last elements of a concatenation whose first part is not empty. */
  lemma AppendEnds<T>(a: seq<T>, b: seq<T>)
    requires a != []
    ensures (a + b)[0] == a[0]
    ensures (a + b)[|a + b| - 1] == if b == [] then a[|a| - 1] else b[|b| - 1]
  {
  }

  /** The images of `parts` under `f`, concatenated in order. */
  function JoinMap<B, T>(parts: seq<B>, f: B -> seq<T>): (r: seq<T>)
    ensures parts == [] ==> r == []
  {
    if parts == [] then [] else JoinMap(parts[..|parts| - 1], f) + f(parts[|parts| - 1])
  }

  /** Joining one more part appends its image. */
  lemma JoinMapStep<B, T>(parts: seq<B>, f: B -> seq<T>, i: nat)
    requires i < |parts|
    ensures JoinMap(parts[..i + 1], f) == JoinMap(parts[..i], f) + f(parts[i])
  {
    assert parts[..i + 1][..i] == parts[..i];
  }

  /** When appending the text of any part keeps a text readable and adds that part's rows to what
      it reads as, appending the texts of all the parts adds all their rows, in order. */
  lemma {:induction false} JoinMapRead<B, T(!new), R>(start: seq<T>, parts: seq<B>, text: B -> seq<T>, rows: B -> seq<R>,
                                                 ok: seq<T> -> bool, read: seq<T> -> seq<R>)
    requires ok(start)
    requires forall s, b {:trigger s + text(b)} :: b in parts && ok(s) ==> ok(s + text(b)) && read(s + text(b)) == read(s) + rows(b)
    ensures ok(start + JoinMap(parts, text))
    ensures read(start + JoinMap(parts, text)) == read(start) + JoinMap(parts, rows)
  {
    if parts == [] {
      assert start + [] == start;
      assert read(start) + [] == read(start);
    } else {
      var init, last := parts[..|parts| - 1], parts[|parts| - 1];
      assert forall b :: b in init ==> b in parts;
      JoinMapRead(start, init, text, rows, ok, read);
      assert JoinMap(parts, text) == JoinMap(init, text) + text(last);
      assert JoinMap(parts, rows) == JoinMap(init, rows) + rows(last);
      assert last in parts;
      assert ok(start + JoinMap(init, text) + text(last));
      AppendAssoc(start, JoinMap(init, text), text(last));
      AppendAssoc(read(start), JoinMap(init, rows), rows(last));
    }
  }

  predicate SortedBy<T>(s: seq<T>, key: T -> int) {
    forall i, j :: 0 <= i < j < |s| ==> key(s[i]) <= key(s[j])
  }

  /** The elements of `s` whose key is `k`, in their order in `s`. */
  function WithKey<T>(s: seq<T>, key: T -> int, k: int): (r: seq<T>)
    ensures |r| <= |s|
    ensures forall x :: x in r ==> x in s && key(x) == k
  {
    if s == [] then [] else (if key(s[0]) == k then [s[0]] else []) + WithKey(s[1..], key, k)
  }

  lemma {:induction false} WithKeyAppend<T>(s: seq<T>, x: T, key: T -> int, k: int)
    ensures WithKey(s + [x], key, k) == WithKey(s, key, k) + (if key(x) == k then [x] else [])
  {
    if s == [] {
      assert s + [x] == [x];
    } else {
      assert (s + [x])[1..] == s[1..] + [x];
      WithKeyAppend(s[1..], x, key, k);
    }
  }

  /** A non-empty sequence is its front followed by its last element. */
  lemma InitLast<T>(xs: seq<T>)
    requires xs != []
    ensures xs[..|xs| - 1] + [xs[|xs| - 1]] == xs
  {
  }

  /** Places `x` after every element of `s` up to the first one whose key is larger. */
  function Insert<T>(s: seq<T>, x: T, key: T -> int): (r: seq<T>)
    ensures multiset(r) == multiset(s) + multiset{x}
  {
    if s == [] then [x]
    else if key(x) < key(s[0]) then [x] + s
    else
      assert s == [s[0]] + s[1..];
      [s[0]] + Insert(s[1..], x, key)
  }

  lemma {:induction false} InsertSorted<T>(s: seq<T>, x: T, key: T -> int)
    requires SortedBy(s, key)
    ensures SortedBy(Insert(s, x, key), key)
  {
    if s != [] && key(s[0]) <= key(x) {
      InsertSorted(s[1..], x, key);
      var r := Insert(s[1..], x, key);
      forall y | y in multiset(r)
        ensures key(s[0]) <= key(y)
      {
        assert y in multiset(s[1..]) + multiset{x};
      }
      forall j | 0 <= j < |r|
        ensures key(s[0]) <= key(r[j])
      {
        assert r[j] in multiset(r);
      }
    }
  }

  /** `sorted(xs, key=key)`, an insertion of each element in turn. */
  function SortBy<T>(xs: seq<T>, key: T -> int): (r: seq<T>)
    ensures multiset(r) == multiset(xs)
    ensures |r| == |xs|
  {
    if xs == [] then []
    else
      assert xs == xs[..|xs| - 1] + [xs[|xs| - 1]];
      var r := Insert(SortBy(xs[..|xs| - 1], key), xs[|xs| - 1], key);
      assert |multiset(r)| == |multiset(xs)|;
      r
  }

  /** The result of `sorted` is in key order. */
  lemma {:induction false} SortBySorted<T>(xs: seq<T>, key: T -> int)
    ensures SortedBy(SortBy(xs, key), key)
  {
    if xs != [] {
      SortBySorted(xs[..|xs| - 1], key);
      InsertSorted(SortBy(xs[..|xs| - 1], key), xs[|xs| - 1], key);
    }
  }

  /** A sorted sequence whose first key is above `k` has no element with key `k`. */
  lemma {:induction false} NoSmallerKey<T>(s: seq<T>, key: T -> int, k: int)
    requires SortedBy(s, key) && s != [] && k < key(s[0])
    ensures WithKey(s, key, k) == []
  {
    if |s| > 1 {
      NoSmallerKey(s[1..], key, k);
    }
  }

  /** The keys-`k` elements after an insertion at the front, before every larger key. */
  lemma InsertFrontStable<T>(s: seq<T>, x: T, key: T -> int, k: int)
    requires SortedBy(s, key) && s != [] && key(x) < key(s[0])
    ensures WithKey(Insert(s, x, key), key, k) == WithKey(s, key, k) + (if key(x) == k then [x] else [])
  {
    var tail := if key(x) == k then [x] else [];
    var ins := Insert(s, x, key);
    assert ins[1..] == s;
    assert WithKey(ins, key, k) == tail + WithKey(s, key, k);
    if key(x) == k {
      NoSmallerKey(s, key, k);
      assert tail + [] == [] + tail;
    } else {
      assert tail == [];
    }
  }

  /** An insertion past the first element adds to the keys-`k` elements what the insertion into
      the rest adds. */
  lemma InsertLaterStable<T>(s: seq<T>, x: T, key: T -> int, k: int)
    requires s != [] && key(s[0]) <= key(x)
    requires WithKey(Insert(s[1..], x, key), key, k) == WithKey(s[1..], key, k) + (if key(x) == k then [x] else [])
    ensures WithKey(Insert(s, x, key), key, k) == WithKey(s, key, k) + (if key(x) == k then [x] else [])
  {
    var tail := if key(x) == k then [x] else [];
    var head := if key(s[0]) == k then [s[0]] else [];
    var ins := Insert(s, x, key);
    assert ins[1..] == Insert(s[1..], x, key);
    assert WithKey(ins, key, k) == head + (WithKey(s[1..], key, k) + tail);
    assert WithKey(s, key, k) == head + WithKey(s[1..], key, k);
    AppendAssoc(head, WithKey(s[1..], key, k), tail);
  }

  /** Inserting `x` into a sorted sequence adds it after the elements with its key. */
  lemma {:induction false} InsertStable<T>(s: seq<T>, x: T, key: T -> int, k: int)
    requires SortedBy(s, key)
    ensures WithKey(Insert(s, x, key), key, k) == WithKey(s, key, k) + (if key(x) == k then [x] else [])
  {
    if s == [] {
    } else if key(x) < key(s[0]) {
      InsertFrontStable(s, x, key, k);
    } else {
      InsertStable(s[1..], x, key, k);
      InsertLaterStable(s, x, key, k);
    }
  }

  /** `sorted` is stable: the elements with one key keep their relative order. */
  lemma {:induction false} SortByStable<T>(xs: seq<T>, key: T -> int, k: int)
    ensures WithKey(SortBy(xs, key), key, k) == WithKey(xs, key, k)
  {
    if xs != [] {
      var init := xs[..|xs| - 1];
      var x := xs[|xs| - 1];
      InitLast(xs);
      SortByStable(init, key, k);
      SortBySorted(init, key);
      InsertStable(SortBy(init, key), x, key, k);
      WithKeyAppend(init, x, key, k);
    }
  }

  /** An element whose key is not below any key of `s` goes at its end. */
  lemma {:induction false} InsertLast<T>(s: seq<T>, x: T, key: T -> int)
    requires forall i :: 0 <= i < |s| ==> key(s[i]) <= key(x)
    ensures Insert(s, x, key) == s + [x]
  {
    if s != [] {
      InsertLast(s[1..], x, key);
      assert [s[0]] + (s[1..] + [x]) == s + [x];
    }
  }

  /** Sorting a sequence already in key order gives it back. */
  lemma {:induction false} SortBySortedInput<T>(xs: seq<T>, key: T -> int)
    requires SortedBy(xs, key)
    ensures SortBy(xs, key) == xs
  {
    if xs != [] {
      var init := xs[..|xs| - 1];
      InitLast(xs);
      SortBySortedInput(init, key);
      InsertLast(init, xs[|xs| - 1], key);
    }
  }

  /** `min(xs, key=key)`: a left fold that replaces the candidate only on a strictly smaller key,
      so the first element with the least key is chosen. */
  function FirstMinIndex<T>(xs: seq<T>, key: T -> int): (i: nat)
    requires xs != []
    ensures i < |xs|
    ensures forall j :: 0 <= j < |xs| ==> key(xs[i]) <= key(xs[j])
    ensures forall j :: 0 <= j < i ==> key(xs[i]) < key(xs[j])
  {
    if |xs| == 1 then 0
    else
      var i := FirstMinIndex(xs[..|xs| - 1], key);
      if key(xs[|xs| - 1]) < key(xs[i]) then |xs| - 1 else i
  }

  /** `max(xs, key=key)`: the first element with the greatest key. */
  function FirstMaxIndex<T>(xs: seq<T>, key: T -> int): (i: nat)
    requires xs != []
    ensures i < |xs|
    ensures forall j :: 0 <= j < |xs| ==> key(xs[j]) <= key(xs[i])
    ensures forall j :: 0 <= j < i ==> key(xs[j]) < key(xs[i])
  {
    if |xs| == 1 then 0
    else
      var i := FirstMaxIndex(xs[..|xs| - 1], key);
      if key(xs[|xs| - 1]) > key(xs[i]) then |xs| - 1 else i
  }

  /** `[f(x) for x in xs]` where `f` may raise: the first failure ends the whole comprehension
      with its error; otherwise every result, in order. */
  function MapAll<A, T, E>(xs: seq<A>, f: A -> Result<T, E>): (r: Result<seq<T>, E>)
    ensures r.Ok? <==> forall i :: 0 <= i < |xs| ==> f(xs[i]).Ok?
    ensures r.Ok? ==> |r.value| == |xs| && forall i :: 0 <= i < |xs| ==> f(xs[i]) == Ok(r.value[i])
  {
    if xs == [] then Ok([])
    else
      match f(xs[0])
      case Err(e) => Err(e)
      case Ok(first) =>
        match MapAll(xs[1..], f)
        case Err(e) => Err(e)
        case Ok(rest) => Ok([first] + rest)
  }

  /** The error of a failed comprehension is that of its first failing element. */
  lemma {:induction false} MapAllFirstError<A, T, E>(xs: seq<A>, f: A -> Result<T, E>)
    requires MapAll(xs, f).Err?
    ensures exists i :: 0 <= i < |xs| && f(xs[i]) == Err(MapAll(xs, f).error)
                        && forall j :: 0 <= j < i ==> f(xs[j]).Ok?
  {
    if f(xs[0]).Ok? {
      MapAllFirstError(xs[1..], f);
      var i :| 0 <= i < |xs[1..]| && f(xs[1..][i]) == Err(MapAll(xs[1..], f).error)
               && forall j :: 0 <= j < i ==> f(xs[1..][j]).Ok?;
      assert f(xs[i + 1]) == Err(MapAll(xs, f).error);
      forall j | 0 <= j < i + 1
        ensures f(xs[j]).Ok?
      {
        if j > 0 {
          assert xs[j] == xs[1..][j - 1];
        }
      }
    } else {
      assert f(xs[0]) == Err(MapAll(xs, f).error);
    }
  }

  /** A comprehension over two sequences is the one over the first followed by the one over the
      second, when the first succeeds. */
  lemma {:induction false} MapAllJoin<A, T, E>(xs: seq<A>, ys: seq<A>, f: A -> Result<T, E>)
    requires MapAll(xs, f).Ok?
    ensures MapAll(xs + ys, f) == (match MapAll(ys, f)
                                   case Ok(rest) => Ok(MapAll(xs, f).value + rest)
                                   case Err(e) => Err(e))
  {
    if xs == [] {
      assert xs + ys == ys;
      if MapAll(ys, f).Ok? {
        assert MapAll(xs, f).value + MapAll(ys, f).value == MapAll(ys, f).value;
      }
    } else {
      assert (xs + ys)[0] == xs[0];
      assert (xs + ys)[1..] == xs[1..] + ys;
      MapAllJoin(xs[1..], ys, f);
      if MapAll(ys, f).Ok? {
        AppendAssoc([MapAll(xs, f).value[0]], MapAll(xs[1..], f).value, MapAll(ys, f).value);
      }
    }
  }
}
