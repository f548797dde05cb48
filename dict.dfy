/** Python dictionaries with string keys, as the class builder uses them: an
    insertion-ordered list of entries in which no key occurs twice. Assigning to
    a present key replaces its value in place; assigning to a new key appends it.
    `Merge(a, b)` is the literal `{**a, **b}`. */
module Dict {

  datatype Option<T> = None | Some(value: T)

  /** No key occurs twice. */
  predicate DistinctKeys<V>(d: seq<(string, V)>)
  {
    forall i, j :: 0 <= i < j < |d| ==> d[i].0 != d[j].0
  }

  type Dict<V> = d: seq<(string, V)> | DistinctKeys(d) witness []

  /** The keys, in insertion order. */
  function Keys<V>(d: seq<(string, V)>): (ks: seq<string>)
    ensures |ks| == |d| && forall i :: 0 <= i < |d| ==> ks[i] == d[i].0
  {
    if d == [] then [] else [d[0].0] + Keys(d[1..])
  }

  /** `d.get(k)`: the value stored under `k`, if any. */
  function Get<V>(d: seq<(string, V)>, k: string): (r: Option<V>)
    ensures r.Some? ==> exists i :: 0 <= i < |d| && d[i] == (k, r.value)
  {
    if d == [] then None
    else if d[0].0 == k then Some(d[0].1)
    else Get(d[1..], k)
  }

  /** A key that some entry has is found. */
  lemma {:induction false} GetPresent<V>(d: seq<(string, V)>, k: string, i: nat)
    requires i < |d| && d[i].0 == k
    ensures Get(d, k).Some?
  {
    if i > 0 && d[0].0 != k {
      GetPresent(d[1..], k, i - 1);
    }
  }

  /** In a dictionary, every entry is what `Get` finds under its key. */
  lemma {:induction false} GetAt<V>(d: Dict<V>, i: nat)
    requires i < |d|
    ensures Get(d, d[i].0) == Some(d[i].1)
  {
    if i > 0 {
      assert d[0].0 != d[i].0;
      var tail: Dict<V> := d[1..];
      assert tail[i - 1] == d[i];
      GetAt(tail, i - 1);
    }
  }

  /** A key that `Get` does not find is no entry's key. */
  lemma GetAbsent<V>(d: seq<(string, V)>, k: string)
    requires Get(d, k).None?
    ensures forall i :: 0 <= i < |d| ==> d[i].0 != k
  {
    forall i | 0 <= i < |d| ensures d[i].0 != k {
      if d[i].0 == k {
        GetPresent(d, k, i);
      }
    }
  }

  /** The first key of a dictionary does not occur in the rest of it. */
  lemma TailFresh<V>(d: Dict<V>)
    requires |d| > 0
    ensures Get(d[1..], d[0].0).None?
  {
    var tail := d[1..];
    assert forall i :: 0 <= i < |tail| ==> tail[i] == d[i + 1];
  }

  /** An entry whose key the dictionary lacks can be put in front of it. */
  lemma ConsDistinct<V>(e: (string, V), rest: Dict<V>)
    requires forall i :: 0 <= i < |rest| ==> rest[i].0 != e.0
    ensures DistinctKeys([e] + rest)
  {
    var r := [e] + rest;
    forall i, j | 0 <= i < j < |r| ensures r[i].0 != r[j].0 {
      assert r[j] == rest[j - 1];
      if i > 0 {
        assert r[i] == rest[i - 1];
      }
    }
  }

  /** `d[k] = v` */
  function Put<V>(d: Dict<V>, k: string, v: V): (r: Dict<V>)
    ensures forall j :: Get(r, j) == if j == k then Some(v) else Get(d, j)
    decreases |d|
  {
    if d == [] then [(k, v)]
    else if d[0].0 == k then
      var tail: Dict<V> := d[1..];
      TailFresh(d);
      GetAbsent(tail, k);
      ConsDistinct((k, v), tail);
      var r: Dict<V> := [(k, v)] + tail;
      assert r[1..] == tail;
      r
    else
      var tail: Dict<V> := d[1..];
      var rest := Put(tail, k, v);
      TailFresh(d);
      GetAbsent(rest, d[0].0);
      ConsDistinct(d[0], rest);
      var r: Dict<V> := [d[0]] + rest;
      assert r[1..] == rest;
      r
  }

  /** Assigning to a present key keeps the key order; assigning to a new key
      appends it at the end. */
  lemma {:induction false} PutKeys<V>(d: Dict<V>, k: string, v: V)
    ensures Get(d, k).Some? ==> Keys(Put(d, k, v)) == Keys(d)
    ensures Get(d, k).None? ==> Keys(Put(d, k, v)) == Keys(d) + [k]
    decreases |d|
  {
    if d != [] {
      var tail: Dict<V> := d[1..];
      if d[0].0 == k {
        assert Put(d, k, v)[1..] == tail;
      } else {
        PutKeys(tail, k, v);
        assert Put(d, k, v) == [d[0]] + Put(tail, k, v);
        assert Get(d, k) == Get(tail, k);
      }
    }
  }

  /** `{**a, **b}`: the entries of `b` assigned, in order, into a copy of `a`. */
  function Merge<V>(a: Dict<V>, b: Dict<V>): (r: Dict<V>)
    ensures forall k :: Get(r, k) == if Get(b, k).Some? then Get(b, k) else Get(a, k)
    decreases |b|
  {
    if b == [] then a
    else
      var tail: Dict<V> := b[1..];
      assert Get(tail, b[0].0).None?;
      Merge(Put(a, b[0].0, b[0].1), tail)
  }

  /** The dictionary as a Dafny map. */
  function AsMap<V>(d: seq<(string, V)>): (m: map<string, V>)
    ensures forall k :: k in m <==> Get(d, k).Some?
    ensures forall k :: k in m ==> Get(d, k) == Some(m[k])
  {
    if d == [] then map[] else AsMap(d[1..])[d[0].0 := d[0].1]
  }
}
