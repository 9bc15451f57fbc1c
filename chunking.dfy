/**
 * Cutting a range into consecutive chunks: from a start `t`, a chunk runs to `spanEnd(t)` while
 * that is before the end of the range, and the next chunk starts at `next(t)`; the last chunk runs
 * to the end of the range. Values are compared by an integer `key`.
 */
module Chunking {

  /** A chunk never ends before it starts, and the next start comes after the chunk's end. */
  ghost predicate Steps<T(!new)>(key: T -> int, spanEnd: T -> T, next: T -> T) {
    forall t {:trigger spanEnd(t)} :: key(t) <= key(spanEnd(t)) < key(next(t))
  }

  /** A set of values (`on`) closed under `next`, in which no value lies strictly between a
      chunk's end and the next start. */
  ghost predicate Grid<T(!new)>(on: T -> bool, key: T -> int, spanEnd: T -> T, next: T -> T) {
    && (forall t {:trigger next(t)} :: on(t) ==> on(next(t)))
    && (forall t, x :: on(t) && on(x) && key(spanEnd(t)) < key(x) ==> key(next(t)) <= key(x))
  }

  function Remaining<T>(dt: T, to: T, key: T -> int): nat {
    if key(dt) <= key(to) then key(to) - key(dt) + 1 else 0
  }

  /** The chunks from `dt` to `to`. */
  function Chunks<T(!new)>(dt: T, to: T, key: T -> int, spanEnd: T -> T, next: T -> T): (r: seq<(T, T)>)
    requires Steps(key, spanEnd, next)
    decreases Remaining(dt, to, key)
  {
    if key(spanEnd(dt)) < key(to) then [(dt, spanEnd(dt))] + Chunks(next(dt), to, key, spanEnd, next)
    else [(dt, to)]
  }

  /** One step of the chunking: a span that ends before `to` is a chunk and the chunks go on
      from the next start; otherwise the only chunk runs to `to`. */
  lemma ChunksStep<T(!new)>(dt: T, to: T, key: T -> int, spanEnd: T -> T, next: T -> T)
    requires Steps(key, spanEnd, next)
    ensures key(spanEnd(dt)) < key(to) ==> Chunks(dt, to, key, spanEnd, next) == [(dt, spanEnd(dt))] + Chunks(next(dt), to, key, spanEnd, next)
    ensures key(to) <= key(spanEnd(dt)) ==> Chunks(dt, to, key, spanEnd, next) == [(dt, to)]
  {
  }

  /** The loop that builds the chunks one at a time. */
  method ChunkLoop<T(!new)>(from: T, to: T, key: T -> int, spanEnd: T -> T, next: T -> T) returns (chunks: seq<(T, T)>)
    requires Steps(key, spanEnd, next)
    ensures chunks == Chunks(from, to, key, spanEnd, next)
  {
    var dt := from;
    chunks := [];
    while key(spanEnd(dt)) < key(to)
      invariant chunks + Chunks(dt, to, key, spanEnd, next) == Chunks(from, to, key, spanEnd, next)
      decreases Remaining(dt, to, key)
    {
      assert Chunks(dt, to, key, spanEnd, next) == [(dt, spanEnd(dt))] + Chunks(next(dt), to, key, spanEnd, next);
      chunks := chunks + [(dt, spanEnd(dt))];
      dt := next(dt);
    }
    chunks := chunks + [(dt, to)];
  }

  /** There is always a chunk; the first starts at `dt` and the last ends at `to`. */
  lemma {:induction false} ChunksEnds<T(!new)>(dt: T, to: T, key: T -> int, spanEnd: T -> T, next: T -> T)
    requires Steps(key, spanEnd, next)
    ensures Chunks(dt, to, key, spanEnd, next) != []
    ensures Chunks(dt, to, key, spanEnd, next)[0].0 == dt
    ensures Chunks(dt, to, key, spanEnd, next)[|Chunks(dt, to, key, spanEnd, next)| - 1].1 == to
    decreases Remaining(dt, to, key)
  {
    if key(spanEnd(dt)) < key(to) {
      ChunksEnds(next(dt), to, key, spanEnd, next);
    }
  }

  /** Chunk `i` before the last runs to its span end, which is before `to`, and the next chunk
      starts at `next` of its start; the last chunk ends at `to` and its span end is not before
      `to`. */
  lemma {:induction false} ChunkAt<T(!new)>(dt: T, to: T, key: T -> int, spanEnd: T -> T, next: T -> T, i: nat)
    requires Steps(key, spanEnd, next) && i < |Chunks(dt, to, key, spanEnd, next)|
    ensures var c := Chunks(dt, to, key, spanEnd, next);
            && (i < |c| - 1 ==> c[i].1 == spanEnd(c[i].0) && key(c[i].1) < key(to) && c[i + 1].0 == next(c[i].0))
            && (i == |c| - 1 ==> c[i].1 == to && key(to) <= key(spanEnd(c[i].0)))
    decreases Remaining(dt, to, key)
  {
    if key(spanEnd(dt)) < key(to) {
      var rest := Chunks(next(dt), to, key, spanEnd, next);
      assert Chunks(dt, to, key, spanEnd, next) == [(dt, spanEnd(dt))] + rest;
      if i == 0 {
        ChunksEnds(next(dt), to, key, spanEnd, next);
      } else {
        ChunkAt(next(dt), to, key, spanEnd, next, i - 1);
      }
    }
  }

  /** Every chunk starts on a grid the first start is on. */
  lemma {:induction false} ChunkStartOn<T(!new)>(dt: T, to: T, key: T -> int, spanEnd: T -> T, next: T -> T, on: T -> bool, i: nat)
    requires Steps(key, spanEnd, next) && Grid(on, key, spanEnd, next) && on(dt)
    requires i < |Chunks(dt, to, key, spanEnd, next)|
    ensures on(Chunks(dt, to, key, spanEnd, next)[i].0)
    decreases Remaining(dt, to, key)
  {
    if key(spanEnd(dt)) < key(to) {
      var rest := Chunks(next(dt), to, key, spanEnd, next);
      assert Chunks(dt, to, key, spanEnd, next) == [(dt, spanEnd(dt))] + rest;
      if i > 0 {
        ChunkStartOn(next(dt), to, key, spanEnd, next, on, i - 1);
      }
    }
  }

  /** Some chunk holds `x` between its ends. */
  predicate InSomeChunk<T>(c: seq<(T, T)>, key: T -> int, x: T) {
    exists i :: 0 <= i < |c| && key(c[i].0) <= key(x) <= key(c[i].1)
  }

  /** When the ends are on the grid and in order, the chunks hold exactly the grid values from
      `dt` to `to`. */
  lemma {:induction false} ChunksCover<T(!new)>(dt: T, to: T, key: T -> int, spanEnd: T -> T, next: T -> T, on: T -> bool, x: T)
    requires Steps(key, spanEnd, next) && Grid(on, key, spanEnd, next)
    requires on(dt) && on(to) && on(x) && key(dt) <= key(to)
    ensures InSomeChunk(Chunks(dt, to, key, spanEnd, next), key, x) <==> key(dt) <= key(x) <= key(to)
    decreases Remaining(dt, to, key)
  {
    var c := Chunks(dt, to, key, spanEnd, next);
    if key(spanEnd(dt)) < key(to) {
      var rest := Chunks(next(dt), to, key, spanEnd, next);
      assert c == [(dt, spanEnd(dt))] + rest;
      ChunksCover(next(dt), to, key, spanEnd, next, on, x);
      if InSomeChunk(c, key, x) {
        var i :| 0 <= i < |c| && key(c[i].0) <= key(x) <= key(c[i].1);
        if i > 0 {
          assert key(rest[i - 1].0) <= key(x) <= key(rest[i - 1].1);
        }
      }
      if key(dt) <= key(x) <= key(to) {
        if key(x) <= key(spanEnd(dt)) {
          assert key(c[0].0) <= key(x) <= key(c[0].1);
        } else {
          var j :| 0 <= j < |rest| && key(rest[j].0) <= key(x) <= key(rest[j].1);
          assert c[j + 1] == rest[j];
        }
      }
    } else {
      assert c == [(dt, to)];
      if key(dt) <= key(x) <= key(to) {
        assert key(c[0].0) <= key(x) <= key(c[0].1);
      }
    }
  }

  /** When the ends are on the grid and in order, no chunk ends before it starts. */
  lemma ChunkOrdered<T(!new)>(dt: T, to: T, key: T -> int, spanEnd: T -> T, next: T -> T, on: T -> bool, i: nat)
    requires Steps(key, spanEnd, next) && Grid(on, key, spanEnd, next)
    requires on(dt) && on(to) && key(dt) <= key(to)
    requires i < |Chunks(dt, to, key, spanEnd, next)|
    ensures key(Chunks(dt, to, key, spanEnd, next)[i].0) <= key(Chunks(dt, to, key, spanEnd, next)[i].1)
  {
    var c := Chunks(dt, to, key, spanEnd, next);
    ChunkAt(dt, to, key, spanEnd, next, i);
    if i == |c| - 1 {
      if i == 0 {
        ChunksEnds(dt, to, key, spanEnd, next);
      } else {
        ChunkAt(dt, to, key, spanEnd, next, i - 1);
        ChunkStartOn(dt, to, key, spanEnd, next, on, i - 1);
      }
    }
  }
}
