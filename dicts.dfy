/**
 * Python dictionaries as the scrapers use them: entries kept in insertion
 * order, and assigning to a key that is already present replaces its value
 * in place without moving it.
 */
module Dicts {
  import opened Wrappers

  /** Every dictionary of the scrapers is keyed by text. */
  type Dict<V> = seq<(string, V)>

  predicate Distinct<T(==)>(s: seq<T>) {
    forall i, j :: 0 <= i < j < |s| ==> s[i] != s[j]
  }

  /** The keys in iteration order (`list(d)`). */
  function Keys<V>(d: Dict<V>): (r: seq<string>)
    ensures |r| == |d|
    ensures forall i :: 0 <= i < |d| ==> r[i] == d[i].0
  {
    if d == [] then [] else [d[0].0] + Keys(d[1..])
  }

  /** The values in iteration order (`list(d.values())`). */
  function Values<V>(d: Dict<V>): (r: seq<V>)
    ensures |r| == |d|
    ensures forall i :: 0 <= i < |d| ==> r[i] == d[i].1
  {
    if d == [] then [] else [d[0].1] + Values(d[1..])
  }

  /** A well-formed dictionary has no key twice. */
  predicate Valid<V>(d: Dict<V>) {
    Distinct(Keys(d))
  }

  /** The position of the first `k` in `keys`. */
  function Find(keys: seq<string>, k: string): (r: Option<nat>)
    ensures r.None? <==> k !in keys
    ensures r.Some? ==> r.value < |keys| && keys[r.value] == k
    ensures r.Some? ==> forall j :: 0 <= j < r.value ==> keys[j] != k
  {
    if keys == [] then None
    else if keys[0] == k then Some(0)
    else match Find(keys[1..], k)
      case None => None
      case Some(i) => Some(i + 1)
  }

  /** `d.get(k)`. */
  function Get<V>(d: Dict<V>, k: string): (r: Option<V>)
    ensures r.None? <==> k !in Keys(d)
    ensures r.Some? ==> (k, r.value) in d
    ensures Valid(d) ==> forall i :: 0 <= i < |d| && d[i].0 == k ==> r == Some(d[i].1)
  {
    match Find(Keys(d), k)
    case None => None
    case Some(i) => Some(d[i].1)
  }

  /** `d[k] = v`: replaces the value of a present key where it stands, or appends a new entry. */
  function Put<V>(d: Dict<V>, k: string, v: V): (r: Dict<V>)
    ensures Keys(r) == if k in Keys(d) then Keys(d) else Keys(d) + [k]
    ensures forall i :: 0 <= i < |d| && d[i].0 != k ==> r[i] == d[i]
    ensures (k, v) in r
  {
    match Find(Keys(d), k)
    case None =>
      var r := d + [(k, v)];
      assert Keys(r) == Keys(d) + [k];
      r
    case Some(i) =>
      var r := d[i := (k, v)];
      assert Keys(r) == Keys(d);
      r
  }

  /** After `d[k] = v`, looking up `k` gives `v` and every other key reads as before. */
  lemma PutGet<V>(d: Dict<V>, k: string, v: V, k': string)
    requires Valid(d)
    ensures Valid(Put(d, k, v))
    ensures Get(Put(d, k, v), k') == if k' == k then Some(v) else Get(d, k')
  {
    var r := Put(d, k, v);
    var ks := Keys(d);
    if k !in ks {
      assert Keys(r) == ks + [k];
      assert r == d + [(k, v)];
    } else {
      assert Keys(r) == ks;
    }
  }

  /** The dictionary built by assigning the pairs one after another (`d[k] = v` in a loop, or a comprehension). */
  function FromPairs<V>(ps: seq<(string, V)>): Dict<V> {
    if ps == [] then []
    else
      var last := ps[|ps| - 1];
      Put(FromPairs(ps[..|ps| - 1]), last.0, last.1)
  }

  /** The index of the last pair with key `k`. */
  function LastIndex<V>(ps: seq<(string, V)>, k: string): (r: Option<nat>)
    ensures r.None? <==> forall i :: 0 <= i < |ps| ==> ps[i].0 != k
    ensures r.Some? ==> r.value < |ps| && ps[r.value].0 == k
    ensures r.Some? ==> forall j :: r.value < j < |ps| ==> ps[j].0 != k
  {
    if ps == [] then None
    else if ps[|ps| - 1].0 == k then Some(|ps| - 1)
    else
      assert forall i :: 0 <= i < |ps| - 1 ==> ps[..|ps| - 1][i] == ps[i];
      LastIndex(ps[..|ps| - 1], k)
  }

  /** Building from pairs gives at most one entry per pair. */
  lemma {:induction false} FromPairsSize<V>(ps: seq<(string, V)>)
    ensures |FromPairs(ps)| <= |ps|
  {
    if ps != [] {
      FromPairsSize(ps[..|ps| - 1]);
      var d := FromPairs(ps[..|ps| - 1]);
      assert |Keys(Put(d, ps[|ps| - 1].0, ps[|ps| - 1].1))| <= |Keys(d)| + 1;
    }
  }

  /** The value of the last pair with key `k`: the assignment that wins. */
  function LastValue<V>(ps: seq<(string, V)>, k: string): Option<V> {
    match LastIndex(ps, k)
    case None => None
    case Some(i) => Some(ps[i].1)
  }

  /** Building from pairs never duplicates a key, and every lookup finds the last assignment. */
  lemma {:induction false} FromPairsGet<V>(ps: seq<(string, V)>, k: string)
    ensures Valid(FromPairs(ps))
    ensures Get(FromPairs(ps), k) == LastValue(ps, k)
  {
    if ps != [] {
      var init, last := ps[..|ps| - 1], ps[|ps| - 1];
      FromPairsGet(init, k);
      PutGet(FromPairs(init), last.0, last.1, k);
    }
  }

  /** The keys of a dictionary built from pairs are exactly the keys of the pairs. */
  lemma FromPairsKeys<V>(ps: seq<(string, V)>, k: string)
    ensures k in Keys(FromPairs(ps)) <==> exists i :: 0 <= i < |ps| && ps[i].0 == k
  {
    FromPairsGet(ps, k);
  }

  /** A key carried by exactly one pair reads as that pair's value. */
  lemma LastValueUnique<V>(ps: seq<(string, V)>, i: nat)
    requires i < |ps|
    requires forall j :: 0 <= j < |ps| && j != i ==> ps[j].0 != ps[i].0
    ensures LastValue(ps, ps[i].0) == Some(ps[i].1)
  {
  }

  /** The pairs with keys and values exchanged. */
  function Swapped(d: Dict<string>): (r: seq<(string, string)>)
    ensures |r| == |d|
    ensures forall i :: 0 <= i < |d| ==> r[i] == (d[i].1, d[i].0)
  {
    if d == [] then [] else [(d[0].1, d[0].0)] + Swapped(d[1..])
  }

  /** `{v: k for k, v in d.items()}`. */
  function Invert(d: Dict<string>): Dict<string> {
    FromPairs(Swapped(d))
  }

  /**
   * When no two keys share a value, inverting is exact: each value leads
   * back to its key, and that key leads to the value again.
   */
  lemma InvertExact(d: Dict<string>, i: nat)
    requires Valid(d) && Distinct(Values(d)) && i < |d|
    ensures Get(Invert(d), d[i].1) == Some(d[i].0)
    ensures Get(d, Get(Invert(d), d[i].1).value) == Some(d[i].1)
  {
    var ps := Swapped(d);
    forall j | 0 <= j < |ps| && j != i ensures ps[j].0 != ps[i].0 {
      assert Values(d)[j] == ps[j].0 && Values(d)[i] == ps[i].0;
    }
    LastValueUnique(ps, i);
    FromPairsGet(ps, d[i].1);
    assert Get(d, d[i].0) == Some(d[i].1);
  }

  /** The keys of the inverse are exactly the values. */
  lemma InvertKeys(d: Dict<string>, v: string)
    ensures v in Keys(Invert(d)) <==> v in Values(d)
  {
    var ps := Swapped(d);
    FromPairsKeys(ps, v);
    if v in Values(d) {
      var j :| 0 <= j < |d| && Values(d)[j] == v;
      assert ps[j].0 == v;
    }
  }

  /** Both directions of an exact inversion, for any key and any value. */
  lemma InvertRoundTrip(d: Dict<string>, k: string, v: string)
    requires Valid(d) && Distinct(Values(d))
    ensures k in Keys(d) ==> Get(Invert(d), Get(d, k).value) == Some(k)
    ensures v in Keys(Invert(d)) ==> Get(d, Get(Invert(d), v).value) == Some(v)
    ensures v in Keys(Invert(d)) <==> v in Values(d)
  {
    InvertKeys(d, v);
    if k in Keys(d) {
      var i :| 0 <= i < |d| && Keys(d)[i] == k;
      InvertExact(d, i);
    }
    if v in Keys(Invert(d)) {
      var i :| 0 <= i < |d| && Values(d)[i] == v;
      InvertExact(d, i);
    }
  }
}
