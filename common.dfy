/** Small shared vocabulary: optional values (a missing cell of a table),
    real minimum and maximum, substring search, and a sort by a real key. */
module Common {

  /** A table cell that may be missing (pandas' NaN / None). */
  datatype Option<T> = None | Some(value: T)

  /** The outcome of a step that the program can abort with an exception. */
  datatype Result<T, E> = Ok(value: T) | Err(error: E)

  function MinR(a: real, b: real): (r: real)
    ensures r <= a && r <= b
    ensures r == a || r == b
  {
    if a <= b then a else b
  }

  function MaxR(a: real, b: real): (r: real)
    ensures r >= a && r >= b
    ensures r == a || r == b
  {
    if a >= b then a else b
  }

  /** `sub` occurs at position `i` of `s`. */
  predicate OccursAt(s: string, sub: string, i: nat)
  {
    i + |sub| <= |s| && s[i..i + |sub|] == sub
  }

  /** Python's `sub in s` for strings: search from position `i` onwards. */
  function ContainsFrom(s: string, sub: string, i: nat): (r: bool)
    decreases |s| - i
    ensures r <==> exists k :: i <= k && OccursAt(s, sub, k)
  {
    if i + |sub| > |s| then
      false
    else if OccursAt(s, sub, i) then
      true
    else
      var rest := ContainsFrom(s, sub, i + 1);
      assert forall k :: i <= k && OccursAt(s, sub, k) ==> k == i || i + 1 <= k;
      rest
  }

  function Contains(s: string, sub: string): (r: bool)
    ensures r <==> exists k :: OccursAt(s, sub, k)
  {
    ContainsFrom(s, sub, 0)
  }

  /** `s` is in ascending order of `key`. */
  ghost predicate SortedBy<T>(s: seq<T>, key: T -> real)
  {
    forall i, j :: 0 <= i < j < |s| ==> key(s[i]) <= key(s[j])
  }

  /** Inserts `x` before the first element whose key is at least its own. */
  function InsertBy<T>(x: T, s: seq<T>, key: T -> real): (r: seq<T>)
    ensures |r| == |s| + 1
  {
    if s == [] then [x]
    else if key(x) <= key(s[0]) then [x] + s
    else [s[0]] + InsertBy(x, s[1..], key)
  }

  /** Insertion adds exactly `x`. */
  lemma {:induction false} InsertByPerm<T>(x: T, s: seq<T>, key: T -> real)
    ensures multiset(InsertBy(x, s, key)) == multiset(s) + multiset{x}
  {
    if s != [] && key(x) > key(s[0]) {
      InsertByPerm(x, s[1..], key);
      assert s == [s[0]] + s[1..];
    }
  }

  /** Insertion keeps a lower bound that `x` and every element respect. */
  lemma {:induction false} InsertByLowerBound<T>(x: T, s: seq<T>, key: T -> real, b: real)
    requires b <= key(x)
    requires forall k :: 0 <= k < |s| ==> b <= key(s[k])
    ensures forall k :: 0 <= k < |InsertBy(x, s, key)| ==> b <= key(InsertBy(x, s, key)[k])
  {
    if s != [] && key(x) > key(s[0]) {
      InsertByLowerBound(x, s[1..], key, b);
      var tail := InsertBy(x, s[1..], key);
      assert forall k :: 0 < k < |tail| + 1 ==> InsertBy(x, s, key)[k] == tail[k - 1];
    }
  }

  /** Insertion into a sorted sequence keeps it sorted. */
  lemma {:induction false} InsertBySorted<T>(x: T, s: seq<T>, key: T -> real)
    requires SortedBy(s, key)
    ensures SortedBy(InsertBy(x, s, key), key)
  {
    if s != [] && key(x) > key(s[0]) {
      var tail := InsertBy(x, s[1..], key);
      InsertBySorted(x, s[1..], key);
      InsertByLowerBound(x, s[1..], key, key(s[0]));
      var r := [s[0]] + tail;
      forall i, j | 0 <= i < j < |r|
        ensures key(r[i]) <= key(r[j])
      {
        assert r[j] == tail[j - 1];
        if i > 0 {
          assert r[i] == tail[i - 1];
        }
      }
    }
  }

  /** The rows of `s` re-ordered by ascending key, as a sort with no promise
      about the relative order of equal keys. */
  function SortBy<T>(s: seq<T>, key: T -> real): (r: seq<T>)
    ensures SortedBy(r, key)
    ensures multiset(r) == multiset(s)
    ensures |r| == |s|
  {
    if s == [] then
      []
    else
      var rest := SortBy(s[1..], key);
      InsertBySorted(s[0], rest, key);
      InsertByPerm(s[0], rest, key);
      assert multiset(s) == multiset(s[1..]) + multiset{s[0]} by {
        assert s == [s[0]] + s[1..];
      }
      InsertBy(s[0], rest, key)
  }

  /** `sort` orders every table by ascending `key` and keeps its rows. This is
      all a sort that is not stable promises: the order it gives to rows with
      equal keys is left open. */
  ghost predicate IsSort<T(!new)>(sort: seq<T> -> seq<T>, key: T -> real)
  {
    forall s :: SortedBy(sort(s), key) && multiset(sort(s)) == multiset(s)
  }

  /** The insertion sort above is one such sort. */
  lemma SortByIsSort<T(!new)>(key: T -> real)
    ensures IsSort(s => SortBy(s, key), key)
  {
  }

  /** Some element fails with `e` and every element before it succeeds. */
  predicate FailsFirstWith<A, B(==), E(==)>(xs: seq<A>, f: A -> Result<B, E>, e: E)
  {
    exists i :: 0 <= i < |xs| && f(xs[i]) == Err(e) &&
      forall j :: 0 <= j < i ==> f(xs[j]).Ok?
  }

  /** `f` applied to every element in order; the first failure aborts the
      whole run, as an exception raised inside a row-wise `apply` does. */
  function MapResult<A, B(==), E(==)>(xs: seq<A>, f: A -> Result<B, E>): (r: Result<seq<B>, E>)
    ensures r.Ok? <==> forall i :: 0 <= i < |xs| ==> f(xs[i]).Ok?
    ensures r.Ok? ==> |r.value| == |xs|
    ensures r.Ok? ==> forall i :: 0 <= i < |xs| ==> f(xs[i]) == Ok(r.value[i])
    ensures r.Err? ==> FailsFirstWith(xs, f, r.error)
  {
    if xs == [] then
      Ok([])
    else
      var first := f(xs[0]);
      if first.Err? then
        Err(first.error)
      else
        var rest := MapResult(xs[1..], f);
        assert forall i :: 1 <= i < |xs| ==> xs[1..][i - 1] == xs[i];
        if rest.Err? then
          var i :| 0 <= i < |xs[1..]| && f(xs[1..][i]) == Err(rest.error) &&
            forall j :: 0 <= j < i ==> f(xs[1..][j]).Ok?;
          assert f(xs[i + 1]) == Err(rest.error);
          assert forall j :: 1 <= j < i + 1 ==> f(xs[j]).Ok?;
          Err(rest.error)
        else
          var r := [first.value] + rest.value;
          assert forall i :: 1 <= i < |xs| ==> r[i] == rest.value[i - 1];
          Ok(r)
  }
}
