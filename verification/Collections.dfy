/** Sequences without repetition, and walking a map whose order is not fixed. */
module Collections {
  import opened Wrappers

  predicate Unique<T(==)>(q: seq<T>) {
    forall i, j :: 0 <= i < j < |q| ==> q[i] != q[j]
  }

  /** Enumerates the keys of a map, in any order. */
  method KeysInAnyOrder(keys: set<string>) returns (ids: seq<string>)
    ensures Unique(ids) && forall c :: c in ids <==> c in keys
  {
    ids := [];
    var rest := keys;
    while rest != {}
      invariant rest <= keys && Unique(ids)
      invariant forall c :: c in ids ==> c in keys && c !in rest
      invariant forall c :: c in keys ==> c in rest || c in ids
      decreases |rest|
    {
      var c :| c in rest;
      assert c !in ids;
      rest := rest - {c};
      ids := ids + [c];
    }
  }

  /** Indexes below `n`, each once, in order. */
  predicate Increasing(at: seq<nat>, n: nat) {
    && (forall k :: 0 <= k < |at| ==> at[k] < n)
    && forall j, k :: 0 <= j < k < |at| ==> at[j] < at[k]
  }

  lemma NoIndexes()
    ensures Increasing([], 0)
  {
  }

  /** `at` and, if it is taken, index `n`. */
  function TakenToo(at: seq<nat>, n: nat, taken: bool): seq<nat> {
    if taken then at + [n] else at
  }

  lemma IncreasingOneMore(at: seq<nat>, n: nat, taken: bool)
    requires Increasing(at, n)
    ensures var more := TakenToo(at, n, taken);
            && Increasing(more, n + 1) && |more| == |at| + (if taken then 1 else 0)
            && (forall i: nat {:trigger i in more} :: i < n ==> (i in more <==> i in at))
            && (n in more <==> taken)
            && (forall k :: 0 <= k < |at| ==> more[k] == at[k]) && (taken ==> more[|at|] == n)
  {
  }

  predicate SortedBy<T>(q: seq<T>, less: (T, T) -> bool) {
    forall i, j :: 0 <= i < j < |q| ==> less(q[i], q[j])
  }

  /** `sorted` with `x` in front of the first element that it is less than. */
  function Inserted<T>(sorted: seq<T>, x: T, less: (T, T) -> bool): seq<T> {
    if sorted == [] || less(x, sorted[0]) then [x] + sorted else [sorted[0]] + Inserted(sorted[1..], x, less)
  }

  /** The library sort, by insertion. */
  function Sorted<T>(q: seq<T>, less: (T, T) -> bool): seq<T> {
    if q == [] then [] else Inserted(Sorted(q[..|q| - 1], less), q[|q| - 1], less)
  }

  lemma {:induction false} InsertedContents<T(!new)>(sorted: seq<T>, x: T, less: (T, T) -> bool)
    ensures |Inserted(sorted, x, less)| == |sorted| + 1
    ensures forall y :: y in Inserted(sorted, x, less) <==> y == x || y in sorted
  {
    if sorted != [] && !less(x, sorted[0]) {
      InsertedContents(sorted[1..], x, less);
      assert sorted == [sorted[0]] + sorted[1..];
    }
  }

  lemma {:induction false} SortedContents<T(!new)>(q: seq<T>, less: (T, T) -> bool)
    ensures |Sorted(q, less)| == |q|
    ensures forall y :: y in Sorted(q, less) <==> y in q
  {
    if q != [] {
      var n := |q| - 1;
      SortedContents(q[..n], less);
      InsertedContents(Sorted(q[..n], less), q[n], less);
      assert q == q[..n] + [q[n]];
    }
  }

  lemma {:induction false} InsertedAt<T>(sorted: seq<T>, x: T, less: (T, T) -> bool, at: nat)
    requires at <= |sorted| && (at < |sorted| ==> less(x, sorted[at]))
    requires forall j :: 0 <= j < at ==> !less(x, sorted[j])
    ensures Inserted(sorted, x, less) == sorted[..at] + [x] + sorted[at..]
  {
    if at > 0 {
      InsertedAt(sorted[1..], x, less, at - 1);
      assert sorted[..at] == [sorted[0]] + sorted[1..][..at - 1];
    }
  }

  /** Insertion keeps a sequence sorted, if `x` is comparable with its elements and less than
      all those behind one that it is less than. */
  lemma {:induction false} InsertedSorted<T>(sorted: seq<T>, x: T, less: (T, T) -> bool)
    requires SortedBy(sorted, less)
    requires forall i :: 0 <= i < |sorted| ==> less(x, sorted[i]) || less(sorted[i], x)
    requires forall i, j :: 0 <= i < j < |sorted| && less(x, sorted[i]) ==> less(x, sorted[j])
    ensures SortedBy(Inserted(sorted, x, less), less)
  {
    var at := 0;
    while at < |sorted| && !less(x, sorted[at])
      invariant at <= |sorted|
      invariant forall j :: 0 <= j < at ==> !less(x, sorted[j])
    {
      at := at + 1;
    }
    InsertedAt(sorted, x, less, at);
    var r := sorted[..at] + [x] + sorted[at..];
    forall i, j | 0 <= i < j < |r|
      ensures less(r[i], r[j])
    {
      assert r[i] == if i < at then sorted[i] else if i == at then x else sorted[i - 1];
      assert r[j] == if j < at then sorted[j] else if j == at then x else sorted[j - 1];
    }
  }

  /** Inserts in the order given by `less`. */
  method Insert<T(==, !new)>(sorted: seq<T>, x: T, less: (T, T) -> bool) returns (r: seq<T>)
    requires SortedBy(sorted, less)
    requires forall i :: 0 <= i < |sorted| ==> less(x, sorted[i]) || less(sorted[i], x)
    requires forall i, j :: 0 <= i < j < |sorted| && less(x, sorted[i]) ==> less(x, sorted[j])
    ensures r == Inserted(sorted, x, less)
    ensures SortedBy(r, less) && forall y :: y in r <==> y == x || y in sorted
  {
    var at := 0;
    while at < |sorted| && !less(x, sorted[at])
      invariant at <= |sorted|
      invariant forall j :: 0 <= j < at ==> !less(x, sorted[j])
    {
      at := at + 1;
    }
    r := sorted[..at] + [x] + sorted[at..];
    InsertedAt(sorted, x, less, at);
    InsertedSorted(sorted, x, less);
    InsertedContents(sorted, x, less);
  }

  // ----- looking names up -----

  /** The last element of that name. */
  function LastBy<T>(list: seq<T>, nameOf: T -> string, name: string): Option<T> {
    if list == [] then None else
      var last := list[|list| - 1];
      if nameOf(last) == name then Some(last) else LastBy(list[..|list| - 1], nameOf, name)
  }
}
