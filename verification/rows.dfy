/**
 * Sequence helpers for extracted table rows: Python's slice `xs[1:]` and the
 * "keep the rows that pass a test, in order" loops of the scrapers.
 */
module Rows {
  import opened Wrappers

  /** Python's `xs[1:]`: everything but the first element; empty for an empty list. */
  function Tail<T>(xs: seq<T>): (r: seq<T>)
    ensures |xs| > 0 ==> r == xs[1..]
    ensures |xs| == 0 ==> r == []
  {
    if |xs| == 0 then [] else xs[1..]
  }

  /** `[x for x in xs if keep(x)]`: the elements of `xs` that satisfy `keep`, in their original order. */
  function Filter<T(!new)>(keep: T -> bool, xs: seq<T>): (r: seq<T>)
    ensures |r| <= |xs|
    ensures forall x :: x in r <==> x in xs && keep(x)
    ensures forall k :: 0 <= k < |r| ==> keep(r[k])
  {
    if |xs| == 0 then []
    else (if keep(xs[0]) then [xs[0]] else []) + Filter(keep, xs[1..])
  }

  /** A single element is kept exactly when it passes. */
  lemma FilterOne<T(!new)>(keep: T -> bool, x: T)
    ensures Filter(keep, [x]) == if keep(x) then [x] else []
  {
    assert [x][1..] == [];
  }

  /** Filtering keeps the order: the kept elements of `xs` come before those of `ys`. */
  lemma {:induction false} FilterAppend<T(!new)>(keep: T -> bool, xs: seq<T>, ys: seq<T>)
    ensures Filter(keep, xs + ys) == Filter(keep, xs) + Filter(keep, ys)
    decreases |xs|
  {
    if |xs| == 0 {
      assert xs + ys == ys;
    } else {
      assert (xs + ys)[0] == xs[0];
      assert (xs + ys)[1..] == xs[1..] + ys;
      FilterAppend(keep, xs[1..], ys);
    }
  }

  /** `[f(x) for x in xs[i:]]`. */
  function Map<T, U>(f: T -> U, xs: seq<T>, i: nat): seq<U>
    requires i <= |xs|
    decreases |xs| - i
  {
    if i == |xs| then [] else [f(xs[i])] + Map(f, xs, i + 1)
  }

  /** The comprehension has one result per element, element k giving result k - i. */
  lemma {:induction false} MapAt<T, U>(f: T -> U, xs: seq<T>, i: nat)
    requires i <= |xs|
    ensures |Map(f, xs, i)| == |xs| - i
    ensures forall k :: i <= k < |xs| ==> Map(f, xs, i)[k - i] == f(xs[k])
    decreases |xs| - i
  {
    if i < |xs| {
      MapAt(f, xs, i + 1);
      var rest := Map(f, xs, i + 1);
      assert Map(f, xs, i) == [f(xs[i])] + rest;
      forall k | i < k < |xs| ensures Map(f, xs, i)[k - i] == f(xs[k]) {
        assert rest[k - (i + 1)] == f(xs[k]);
      }
    }
  }

  /** `[f(x) for x in xs[i:] if keep(x)]`: f of every element from index i on that passes `keep`, in order. */
  function MapKept<T, U>(keep: T -> bool, f: T --> U, xs: seq<T>, i: nat): seq<U>
    requires i <= |xs|
    requires forall k :: i <= k < |xs| && keep(xs[k]) ==> f.requires(xs[k])
    decreases |xs| - i
  {
    if i == |xs| then []
    else (if keep(xs[i]) then [f(xs[i])] else []) + MapKept(keep, f, xs, i + 1)
  }

  /** Each result comes from an element that passes `keep`; there are at most as many results as elements. */
  lemma {:induction false} MapKeptFrom<T, U>(keep: T -> bool, f: T --> U, xs: seq<T>, i: nat)
    requires i <= |xs|
    requires forall k :: i <= k < |xs| && keep(xs[k]) ==> f.requires(xs[k])
    ensures |MapKept(keep, f, xs, i)| <= |xs| - i
    ensures forall y :: y in MapKept(keep, f, xs, i) ==>
      exists k :: i <= k < |xs| && keep(xs[k]) && y == f(xs[k])
    decreases |xs| - i
  {
    if i < |xs| {
      MapKeptFrom(keep, f, xs, i + 1);
      var head := if keep(xs[i]) then [f(xs[i])] else [];
      var rest := MapKept(keep, f, xs, i + 1);
      assert MapKept(keep, f, xs, i) == head + rest;
      forall y | y in MapKept(keep, f, xs, i)
        ensures exists k :: i <= k < |xs| && keep(xs[k]) && y == f(xs[k])
      {
        if y !in head {
          assert y in rest;
        }
      }
    }
  }

  /** When every element from index i on passes, result k - i is f of element k. */
  lemma {:induction false} MapKeptAll<T, U>(keep: T -> bool, f: T --> U, xs: seq<T>, i: nat)
    requires i <= |xs|
    requires forall k :: i <= k < |xs| ==> keep(xs[k]) && f.requires(xs[k])
    ensures |MapKept(keep, f, xs, i)| == |xs| - i
    ensures forall k :: i <= k < |xs| ==> MapKept(keep, f, xs, i)[k - i] == f(xs[k])
    decreases |xs| - i
  {
    if i < |xs| {
      MapKeptAll(keep, f, xs, i + 1);
      var rest := MapKept(keep, f, xs, i + 1);
      assert MapKept(keep, f, xs, i) == [f(xs[i])] + rest;
      forall k | i < k < |xs| ensures MapKept(keep, f, xs, i)[k - i] == f(xs[k]) {
        assert MapKept(keep, f, xs, i)[k - i] == rest[k - (i + 1)];
      }
    }
  }

  /**
   * The elements a loop has already appended, in front of what the rest of the
   * loop produces: an error raised later in the loop discards them.
   */
  function Prepend<T, E>(done: seq<T>, rest: Result<seq<T>, E>): (r: Result<seq<T>, E>)
    ensures r.Ok? <==> rest.Ok?
  {
    match rest
    case Err(e) => Err(e)
    case Ok(xs) => Ok(done + xs)
  }

  /** Nothing appended yet. */
  lemma PrependNothing<T, E>(rest: Result<seq<T>, E>)
    ensures Prepend([], rest) == rest
  {
    if rest.Ok? {
      assert [] + rest.value == rest.value;
    }
  }

  /** Appending x moves it from the front of the rest of the loop to the elements done. */
  lemma PrependOne<T, E>(done: seq<T>, x: T, rest: Result<seq<T>, E>)
    ensures Prepend(done, Prepend([x], rest)) == Prepend(done + [x], rest)
  {
    if rest.Ok? {
      assert done + ([x] + rest.value) == (done + [x]) + rest.value;
    }
  }

  /**
   * `[f(x) for x in xs[i:]]` written as a loop that raises `failure` at the
   * first element that does not pass `ok`.
   */
  function MapAll<T, U, E>(ok: T -> bool, f: T --> U, failure: E, xs: seq<T>, i: nat): Result<seq<U>, E>
    requires i <= |xs|
    requires forall k :: i <= k < |xs| && ok(xs[k]) ==> f.requires(xs[k])
    decreases |xs| - i
  {
    if i == |xs| then Ok([])
    else if !ok(xs[i]) then Err(failure)
    else Prepend([f(xs[i])], MapAll(ok, f, failure, xs, i + 1))
  }

  /**
   * The loop succeeds exactly when every element from index i on passes, and
   * then result k - i is f of element k; otherwise it fails with `failure`.
   */
  lemma {:induction false} MapAllSucceeds<T, U, E>(ok: T -> bool, f: T --> U, failure: E, xs: seq<T>, i: nat)
    requires i <= |xs|
    requires forall k :: i <= k < |xs| && ok(xs[k]) ==> f.requires(xs[k])
    ensures MapAll(ok, f, failure, xs, i).Ok? <==> forall k :: i <= k < |xs| ==> ok(xs[k])
    ensures MapAll(ok, f, failure, xs, i).Err? ==> MapAll(ok, f, failure, xs, i).error == failure
    ensures MapAll(ok, f, failure, xs, i).Ok? ==>
      |MapAll(ok, f, failure, xs, i).value| == |xs| - i &&
      forall k :: i <= k < |xs| ==> MapAll(ok, f, failure, xs, i).value[k - i] == f(xs[k])
    decreases |xs| - i
  {
    if i < |xs| && ok(xs[i]) {
      MapAllSucceeds(ok, f, failure, xs, i + 1);
      var rest := MapAll(ok, f, failure, xs, i + 1);
      if rest.Ok? {
        assert MapAll(ok, f, failure, xs, i).value == [f(xs[i])] + rest.value;
      }
    }
  }

  /**
   * `ys` is f of exactly the elements of `xs` from index i on that pass `keep`,
   * in their order: `idx` lists their positions, increasing, and every
   * passing position is listed.
   */
  predicate ComesFromPositions<T, U(==)>(keep: T -> bool, f: T --> U, xs: seq<T>, i: nat, ys: seq<U>, idx: seq<nat>)
    requires forall k :: i <= k < |xs| && keep(xs[k]) ==> f.requires(xs[k])
  {
    |idx| == |ys| &&
    (forall a, b :: 0 <= a < b < |idx| ==> idx[a] < idx[b]) &&
    (forall k :: 0 <= k < |idx| ==> i <= idx[k] < |xs| && keep(xs[idx[k]]) && ys[k] == f(xs[idx[k]])) &&
    (forall j :: i <= j < |xs| && keep(xs[j]) ==> j in idx)
  }

  /** A passing element at index i goes in front, with its position. */
  lemma PositionsTake<T, U>(keep: T -> bool, f: T --> U, xs: seq<T>, i: nat, ys: seq<U>, rest: seq<nat>)
    requires i < |xs| && keep(xs[i])
    requires forall k :: i <= k < |xs| && keep(xs[k]) ==> f.requires(xs[k])
    requires ComesFromPositions(keep, f, xs, i + 1, ys, rest)
    ensures ComesFromPositions(keep, f, xs, i, [f(xs[i])] + ys, [i] + rest)
  {
    var zs, idx := [f(xs[i])] + ys, [i] + rest;
    forall a, b | 0 <= a < b < |idx| ensures idx[a] < idx[b] {
      assert idx[b] == rest[b - 1];
      if a > 0 {
        assert idx[a] == rest[a - 1];
      }
    }
    forall k | 0 < k < |idx| ensures i <= idx[k] < |xs| && keep(xs[idx[k]]) && zs[k] == f(xs[idx[k]]) {
      assert idx[k] == rest[k - 1] && zs[k] == ys[k - 1];
    }
    forall j | i <= j < |xs| && keep(xs[j]) ensures j in idx {
      if j > i {
        assert j in rest;
      }
    }
  }

  /** A failing element at index i adds nothing. */
  lemma PositionsSkip<T, U>(keep: T -> bool, f: T --> U, xs: seq<T>, i: nat, ys: seq<U>, rest: seq<nat>)
    requires i < |xs| && !keep(xs[i])
    requires forall k :: i <= k < |xs| && keep(xs[k]) ==> f.requires(xs[k])
    requires ComesFromPositions(keep, f, xs, i + 1, ys, rest)
    ensures ComesFromPositions(keep, f, xs, i, ys, rest)
  {
    forall j | i <= j < |xs| && keep(xs[j]) ensures j in rest {
      assert j != i;
    }
  }

  /** The positions from index i on of the elements that pass `keep`, in increasing order. */
  function KeptPositions<T>(keep: T -> bool, xs: seq<T>, i: nat): seq<nat>
    requires i <= |xs|
    decreases |xs| - i
  {
    if i == |xs| then [] else (if keep(xs[i]) then [i] else []) + KeptPositions(keep, xs, i + 1)
  }

  /** The filtered comprehension from index i on is f of the elements at `KeptPositions`. */
  lemma {:induction false} MapKeptAtPositions<T, U>(keep: T -> bool, f: T --> U, xs: seq<T>, i: nat)
    requires i <= |xs|
    requires forall k :: i <= k < |xs| && keep(xs[k]) ==> f.requires(xs[k])
    ensures ComesFromPositions(keep, f, xs, i, MapKept(keep, f, xs, i), KeptPositions(keep, xs, i))
    decreases |xs| - i
  {
    if i < |xs| {
      MapKeptAtPositions(keep, f, xs, i + 1);
      var ys, rest := MapKept(keep, f, xs, i + 1), KeptPositions(keep, xs, i + 1);
      if keep(xs[i]) {
        assert MapKept(keep, f, xs, i) == [f(xs[i])] + ys;
        assert KeptPositions(keep, xs, i) == [i] + rest;
        PositionsTake(keep, f, xs, i, ys, rest);
      } else {
        assert MapKept(keep, f, xs, i) == ys;
        assert KeptPositions(keep, xs, i) == rest;
        PositionsSkip(keep, f, xs, i, ys, rest);
      }
    }
  }

  /** The filtered comprehension from index i on takes every passing element, in order, and nothing else. */
  lemma MapKeptPositions<T, U>(keep: T -> bool, f: T --> U, xs: seq<T>, i: nat)
    requires i <= |xs|
    requires forall k :: i <= k < |xs| && keep(xs[k]) ==> f.requires(xs[k])
    ensures exists idx :: ComesFromPositions(keep, f, xs, i, MapKept(keep, f, xs, i), idx)
  {
    MapKeptAtPositions(keep, f, xs, i);
  }

  /** Dropping the first element only renumbers the positions. */
  lemma {:induction false} MapKeptShift<T, U>(keep: T -> bool, f: T --> U, xs: seq<T>, i: nat)
    requires 0 < |xs| && i < |xs|
    requires forall k :: i + 1 <= k < |xs| && keep(xs[k]) ==> f.requires(xs[k])
    ensures forall k :: i <= k < |xs[1..]| && keep(xs[1..][k]) ==> f.requires(xs[1..][k])
    ensures MapKept(keep, f, xs[1..], i) == MapKept(keep, f, xs, i + 1)
    decreases |xs| - i
  {
    var data := xs[1..];
    assert forall k :: i <= k < |data| ==> data[k] == xs[k + 1];
    if i < |data| {
      MapKeptShift(keep, f, xs, i + 1);
    }
  }

  /**
   * The same for the comprehension over `xs[1:]`, with positions counted in `xs`:
   * every element after the first that passes is taken, in order, and nothing else.
   */
  lemma MapKeptTailPositions<T, U>(keep: T -> bool, f: T --> U, xs: seq<T>)
    requires forall k :: 1 <= k < |xs| && keep(xs[k]) ==> f.requires(xs[k])
    ensures forall k :: 0 <= k < |Tail(xs)| && keep(Tail(xs)[k]) ==> f.requires(Tail(xs)[k])
    ensures exists idx :: ComesFromPositions(keep, f, xs, 1, MapKept(keep, f, Tail(xs), 0), idx)
  {
    if |xs| == 0 {
      var idx: seq<nat> := [];
      assert ComesFromPositions(keep, f, xs, 1, MapKept(keep, f, Tail(xs), 0), idx);
    } else {
      var ys := MapKept(keep, f, xs, 1);
      MapKeptShift(keep, f, xs, 0);
      assert Tail(xs) == xs[1..];
      assert MapKept(keep, f, Tail(xs), 0) == ys;
      MapKeptPositions(keep, f, xs, 1);
    }
  }
}
