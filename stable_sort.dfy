/**
 * Python's sorting by a key: `sorted(xs, key=f)` and `xs.sort(key=f)` are
 * stable, so elements with equal keys keep their order. Sorting with
 * `reverse=True` is also stable, which makes it the same as sorting by the
 * negated key; both uses in the scrapers are modelled through one
 * ascending sort.
 */
module StableSort {

  predicate SortedBy<T>(s: seq<T>, key: T -> int) {
    forall i, j :: 0 <= i < j < |s| ==> key(s[i]) <= key(s[j])
  }

  /** The elements of `s` whose key is `k`, in their order in `s`. */
  function WithKey<T>(s: seq<T>, key: T -> int, k: int): seq<T> {
    if s == [] then []
    else WithKey(s[..|s| - 1], key, k) + (if key(s[|s| - 1]) == k then [s[|s| - 1]] else [])
  }

  /** `x` placed after every element whose key is not greater than its own. */
  function InsertAfterEqual<T>(s: seq<T>, x: T, key: T -> int): (r: seq<T>)
    ensures |r| == |s| + 1
  {
    if s == [] || key(s[|s| - 1]) <= key(x) then s + [x]
    else InsertAfterEqual(s[..|s| - 1], x, key) + [s[|s| - 1]]
  }

  /** Insertion sort, one element at a time from the front: the reference for every sort here. */
  function SortByKey<T>(s: seq<T>, key: T -> int): (r: seq<T>)
    ensures |r| == |s|
  {
    if s == [] then [] else InsertAfterEqual(SortByKey(s[..|s| - 1], key), s[|s| - 1], key)
  }

  lemma {:induction false} InsertKeepsSorted<T>(s: seq<T>, x: T, key: T -> int)
    requires SortedBy(s, key)
    ensures SortedBy(InsertAfterEqual(s, x, key), key)
    ensures forall i :: 0 <= i < |s| + 1 ==>
      InsertAfterEqual(s, x, key)[i] == x || InsertAfterEqual(s, x, key)[i] in s
  {
    if s != [] && key(s[|s| - 1]) > key(x) {
      var init := s[..|s| - 1];
      assert SortedBy(init, key);
      InsertKeepsSorted(init, x, key);
      var r := InsertAfterEqual(init, x, key);
      forall i | 0 <= i < |r| ensures key(r[i]) <= key(s[|s| - 1]) {
        if r[i] != x {
          var j :| 0 <= j < |init| && init[j] == r[i];
          assert init[j] == s[j];
        }
      }
    }
  }

  lemma {:induction false} InsertWithKey<T>(s: seq<T>, x: T, key: T -> int, k: int)
    ensures WithKey(InsertAfterEqual(s, x, key), key, k)
      == WithKey(s, key, k) + (if key(x) == k then [x] else [])
  {
    if s == [] || key(s[|s| - 1]) <= key(x) {
      assert (s + [x])[..|s|] == s;
    } else {
      var init, last := s[..|s| - 1], s[|s| - 1];
      var r := InsertAfterEqual(init, x, key);
      InsertWithKey(init, x, key, k);
      assert (r + [last])[..|r|] == r;
      if key(x) == k {
        assert key(last) != k;
      }
    }
  }

  /** The sort puts the keys in order. */
  lemma {:induction false} SortByKeySorted<T>(s: seq<T>, key: T -> int)
    ensures SortedBy(SortByKey(s, key), key)
  {
    if s != [] {
      SortByKeySorted(s[..|s| - 1], key);
      InsertKeepsSorted(SortByKey(s[..|s| - 1], key), s[|s| - 1], key);
    }
  }

  /**
   * The sort is stable and loses nothing: for every key, the elements with
   * that key come out exactly as they went in, same elements, same order.
   */
  lemma {:induction false} SortByKeyStable<T>(s: seq<T>, key: T -> int, k: int)
    ensures WithKey(SortByKey(s, key), key, k) == WithKey(s, key, k)
  {
    if s != [] {
      SortByKeyStable(s[..|s| - 1], key, k);
      InsertWithKey(SortByKey(s[..|s| - 1], key), s[|s| - 1], key, k);
    }
  }

  /** The sort only reorders. */
  lemma {:induction false} SortByKeyPermutes<T>(s: seq<T>, key: T -> int)
    ensures multiset(SortByKey(s, key)) == multiset(s)
  {
    if s != [] {
      SortByKeyPermutes(s[..|s| - 1], key);
      InsertPermutes(SortByKey(s[..|s| - 1], key), s[|s| - 1], key);
      assert s == s[..|s| - 1] + [s[|s| - 1]];
    }
  }

  lemma {:induction false} InsertPermutes<T>(s: seq<T>, x: T, key: T -> int)
    ensures multiset(InsertAfterEqual(s, x, key)) == multiset(s) + multiset{x}
  {
    if s != [] && key(s[|s| - 1]) > key(x) {
      InsertPermutes(s[..|s| - 1], x, key);
      assert s == s[..|s| - 1] + [s[|s| - 1]];
    }
  }

  /** One step back in the insertion: an element with a larger key stays behind `x`. */
  lemma InsertStepBack<T>(sorted: seq<T>, x: T, key: T -> int, j: nat)
    requires 0 < j <= |sorted| && key(sorted[j - 1]) > key(x)
    ensures InsertAfterEqual(sorted[..j], x, key) + sorted[j..]
      == InsertAfterEqual(sorted[..j - 1], x, key) + sorted[j - 1..]
  {
    assert sorted[..j][..j - 1] == sorted[..j - 1];
    assert sorted[j - 1..] == [sorted[j - 1]] + sorted[j..];
  }

  /**
   * The array during the insertion of `x`: the run before `j` untouched, the
   * gap at `j`, the run's elements from `j` on shifted one place right, and
   * everything after the run unchanged.
   */
  ghost predicate Shifted<T>(s: seq<T>, sorted: seq<T>, rest: seq<T>, j: nat) {
    |s| == |sorted| + 1 + |rest| && j <= |sorted| &&
    s[..j] == sorted[..j] && s[j + 1..|sorted| + 1] == sorted[j..] && s[|sorted| + 1..] == rest
  }

  /** Copying the element before the gap into it moves the gap one place left. */
  lemma ShiftBack<T>(s: seq<T>, sorted: seq<T>, rest: seq<T>, j: nat)
    requires Shifted(s, sorted, rest, j) && 0 < j
    ensures s[j - 1] == sorted[j - 1]
    ensures Shifted(s[j := s[j - 1]], sorted, rest, j - 1)
  {
    assert s[j - 1] == s[..j][j - 1];
    var t := s[j := s[j - 1]];
    assert t[..j - 1] == s[..j][..j - 1];
    assert t[j..|sorted| + 1] == [s[j - 1]] + s[j + 1..|sorted| + 1];
    assert sorted[j - 1..] == [sorted[j - 1]] + sorted[j..];
    assert t[|sorted| + 1..] == s[|sorted| + 1..];
  }

  /** Filling the gap with `x` where the loop stops completes the insertion. */
  lemma FillGap<T>(s: seq<T>, sorted: seq<T>, rest: seq<T>, j: nat, x: T, key: T -> int)
    requires Shifted(s, sorted, rest, j)
    requires j == 0 || key(s[j - 1]) <= key(x)
    ensures s[j := x][..|sorted| + 1] == InsertAfterEqual(sorted[..j], x, key) + sorted[j..]
    ensures s[j := x][|sorted| + 1..] == rest
  {
    var t := s[j := x];
    if j > 0 {
      assert s[j - 1] == s[..j][j - 1] == sorted[j - 1];
      assert sorted[..j][..j - 1] == sorted[..j - 1];
    }
    assert t[..|sorted| + 1] == s[..j] + [x] + s[j + 1..|sorted| + 1];
    assert t[|sorted| + 1..] == s[|sorted| + 1..];
  }

  /** Moves `a[i]` back into the sorted run `a[..i]`, shifting the larger keys right. */
  method InsertInto<T>(a: array<T>, i: nat, key: T -> int)
    requires i < a.Length
    modifies a
    ensures a[..i + 1] == InsertAfterEqual(old(a[..i]), old(a[i]), key)
    ensures a[i + 1..] == old(a[i + 1..])
  {
    ghost var sorted := a[..i];
    ghost var rest := a[i + 1..];
    var x := a[i];
    var j := i;
    StartGap(a[..], i);
    while j > 0 && key(a[j - 1]) > key(x)
      invariant 0 <= j <= i
      invariant Shifted(a[..], sorted, rest, j)
      invariant InsertAfterEqual(sorted, x, key) == InsertAfterEqual(sorted[..j], x, key) + sorted[j..]
    {
      ShiftBack(a[..], sorted, rest, j);
      InsertStepBack(sorted, x, key, j);
      a[j] := a[j - 1];
      j := j - 1;
    }
    ghost var shifted := a[..];
    FillGap(shifted, sorted, rest, j, x, key);
    a[j] := x;
    assert a[..] == shifted[j := x];
  }

  /** Before any shift, the gap is at `i` itself. */
  lemma StartGap<T>(s: seq<T>, i: nat)
    requires i < |s|
    ensures Shifted(s, s[..i], s[i + 1..], i)
  {
  }

  /**
   * `xs.sort(key=...)` on a list, in place: insertion sort, each element
   * moved back behind the last key not greater than its own.
   */
  method SortInPlace<T>(a: array<T>, key: T -> int)
    modifies a
    ensures a[..] == SortByKey(old(a[..]), key)
  {
    ghost var input := a[..];
    var i := 0;
    while i < a.Length
      invariant 0 <= i <= a.Length
      invariant a[..i] == SortByKey(input[..i], key)
      invariant a[i..] == input[i..]
    {
      assert input[..i + 1][..i] == input[..i];
      InsertInto(a, i, key);
      i := i + 1;
    }
    assert a[..] == a[..a.Length] && input[..a.Length] == input;
  }
}
