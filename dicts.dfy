/** Python dictionaries keep their keys in insertion order; the slide tools
    rely on that order when they walk a slide's sections. A dictionary is
    modelled as a list of key/value pairs with distinct keys, and the JSON
    values of a slide as either a string or a list of strings. */
module Dicts {
  import opened Wrappers

  /** A value of the slide data: a JSON string or a JSON list of strings. */
  datatype Value = Text(text: string) | Lines(lines: seq<string>)

  /** `len(v)`. */
  function Len(v: Value): nat {
    match v
    case Text(s) => |s|
    case Lines(l) => |l|
  }

  /** `list(v)`: iterating a Python string yields its characters, each a string of length one. */
  function Items(v: Value): (r: seq<string>)
    ensures |r| == Len(v)
    ensures v.Lines? ==> r == v.lines
    ensures v.Text? ==> forall i :: 0 <= i < |r| ==> r[i] == [v.text[i]]
  {
    match v
    case Lines(l) => l
    case Text(s) => seq(|s|, i requires 0 <= i < |s| => [s[i]])
  }

  type Dict<K, V> = seq<(K, V)>

  function Keys<K, V>(d: Dict<K, V>): (ks: seq<K>)
    ensures |ks| == |d|
    ensures forall i :: 0 <= i < |d| ==> ks[i] == d[i].0
  {
    seq(|d|, i requires 0 <= i < |d| => d[i].0)
  }

  predicate HasKey<K(==, !new), V>(d: Dict<K, V>, k: K) {
    exists i :: 0 <= i < |d| && d[i].0 == k
  }

  /** No key is stored twice. */
  predicate UniqueKeys<K(==, !new), V>(d: Dict<K, V>) {
    forall i, j :: 0 <= i < j < |d| ==> d[i].0 != d[j].0
  }

  /** `d.get(k)`. */
  function Get<K(==, !new), V>(d: Dict<K, V>, k: K): (r: Option<V>)
    ensures r.Some? <==> HasKey(d, k)
    ensures UniqueKeys(d) ==> forall i :: 0 <= i < |d| && d[i].0 == k ==> r == Some(d[i].1)
  {
    if |d| == 0 then None
    else if d[0].0 == k then Some(d[0].1)
    else
      var r := Get(d[1..], k);
      assert forall i :: 1 <= i < |d| ==> d[1..][i - 1] == d[i];
      r
  }

  /** `d.get(k, default)`. */
  function GetOr<K(==, !new), V>(d: Dict<K, V>, k: K, default: V): V {
    match Get(d, k)
    case Some(v) => v
    case None => default
  }

  /** `d[k] = v`: an existing key keeps its place, a new key goes last. */
  function Put<K(==, !new), V>(d: Dict<K, V>, k: K, v: V): (r: Dict<K, V>)
    ensures HasKey(d, k) ==> |r| == |d|
    ensures !HasKey(d, k) ==> r == d + [(k, v)]
    ensures UniqueKeys(d) ==> forall i :: 0 <= i < |d| ==> r[i] == (if d[i].0 == k then (k, v) else d[i])
    ensures UniqueKeys(d) ==> UniqueKeys(r)
    ensures Get(r, k) == Some(v)
    ensures forall k' :: k' != k ==> Get(r, k') == Get(d, k')
  {
    var r := Assign(d, k, v);
    AssignUnique(d, k, v, r);
    r
  }

  /** The assignment itself, with what it does to the pairs and to lookups. */
  function Assign<K(==, !new), V>(d: Dict<K, V>, k: K, v: V): (r: Dict<K, V>)
    ensures HasKey(d, k) ==> |r| == |d|
    ensures !HasKey(d, k) ==> r == d + [(k, v)]
    ensures UniqueKeys(d) ==> forall i :: 0 <= i < |d| ==> r[i] == (if d[i].0 == k then (k, v) else d[i])
    ensures Get(r, k) == Some(v)
    ensures forall k' :: k' != k ==> Get(r, k') == Get(d, k')
  {
    if |d| == 0 then [(k, v)]
    else if d[0].0 == k then [(k, v)] + d[1..]
    else
      var rest := Assign(d[1..], k, v);
      assert HasKey(d, k) <==> HasKey(d[1..], k) by {
        if HasKey(d, k) {
          var i :| 0 <= i < |d| && d[i].0 == k;
          assert d[1..][i - 1] == d[i];
        }
      }
      assert forall k' :: Get(d, k') == (if d[0].0 == k' then Some(d[0].1) else Get(d[1..], k'));
      [d[0]] + rest
  }

  /** Assigning to a dictionary with distinct keys keeps them distinct. */
  lemma AssignUnique<K(!new), V>(d: Dict<K, V>, k: K, v: V, r: Dict<K, V>)
    requires HasKey(d, k) ==> |r| == |d|
    requires !HasKey(d, k) ==> r == d + [(k, v)]
    requires UniqueKeys(d) ==> forall i :: 0 <= i < |d| ==> r[i] == (if d[i].0 == k then (k, v) else d[i])
    ensures UniqueKeys(d) ==> UniqueKeys(r)
  {
  }

  /** A second assignment to a key overwrites the first. */
  lemma {:induction false} PutTwice<K(!new), V>(d: Dict<K, V>, k: K, a: V, b: V)
    ensures Put(Put(d, k, a), k, b) == Put(d, k, b)
    decreases |d|
  {
    if |d| > 0 && d[0].0 != k {
      PutTwice(d[1..], k, a, b);
      var rest := Put(d[1..], k, a);
      assert ([d[0]] + rest)[1..] == rest;
    }
  }

  /** Two new keys assigned one after the other go last, in that order. */
  lemma PutNewTwice<K(!new), V>(d: Dict<K, V>, k1: K, v1: V, k2: K, v2: V)
    requires !HasKey(d, k1) && !HasKey(d, k2) && k1 != k2
    ensures Put(Put(d, k1, v1), k2, v2) == d + [(k1, v1), (k2, v2)]
  {
    var d1 := Put(d, k1, v1);
    assert Get(d1, k2) == Get(d, k2);
    assert d1 + [(k2, v2)] == d + [(k1, v1), (k2, v2)];
  }

  /** The last pair of a dictionary with distinct keys answers for its key; the
      others answer as before it was added. */
  lemma {:induction false} GetLast<K(!new), V>(d: Dict<K, V>, k: K)
    requires UniqueKeys(d) && |d| > 0
    ensures Get(d, k) == if d[|d| - 1].0 == k then Some(d[|d| - 1].1) else Get(d[..|d| - 1], k)
    decreases |d|
  {
    var init := d[..|d| - 1];
    if |d| > 1 && d[0].0 != k {
      GetLast(d[1..], k);
      assert d[1..][..|d| - 2] == init[1..];
    }
  }
}
