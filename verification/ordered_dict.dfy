/** Python's `dict` as the source uses it: a lookup table that remembers the
    order in which keys were first inserted. Assigning to a key that is
    already present replaces its value and keeps its position; iterating
    (`dict.items()`) visits the keys in insertion order. */
module OrderedDict {
  import opened Wrappers

  /** The entries in iteration order. */
  type Dict<K, V> = seq<(K, V)>

  /** The keys in iteration order (`list(d.keys())`). */
  function KeySeq<K, V>(d: Dict<K, V>): (r: seq<K>)
    ensures |r| == |d|
    ensures forall i :: 0 <= i < |d| ==> r[i] == d[i].0
  {
    if |d| == 0 then [] else [d[0].0] + KeySeq(d[1..])
  }

  /** No key appears twice. */
  predicate Valid<K(==), V>(d: Dict<K, V>) {
    forall i, j :: 0 <= i < j < |d| ==> d[i].0 != d[j].0
  }

  /** `d.get(k)`. */
  function Get<K(==), V>(d: Dict<K, V>, k: K): (r: Option<V>)
    ensures r.Some? <==> k in KeySeq(d)
  {
    if |d| == 0 then None
    else if d[0].0 == k then Some(d[0].1)
    else Get(d[1..], k)
  }

  /** Looking up in a dictionary with a given first entry. */
  lemma GetCons<K, V>(e: (K, V), t: Dict<K, V>, k: K)
    ensures Get([e] + t, k) == if e.0 == k then Some(e.1) else Get(t, k)
    ensures KeySeq([e] + t) == [e.0] + KeySeq(t)
  {
    assert ([e] + t)[1..] == t;
  }

  /** `r` is what assigning `v` to `k` in `d` gives: the keys stay distinct,
      `k` now maps to `v`, every other key keeps its value, and a present
      key keeps its place while a new one goes last. */
  ghost predicate Assigned<K(!new), V>(r: Dict<K, V>, d: Dict<K, V>, k: K, v: V) {
    && Valid(r)
    && Get(r, k) == Some(v)
    && (forall k' :: k' != k ==> Get(r, k') == Get(d, k'))
    && (k in KeySeq(d) ==> KeySeq(r) == KeySeq(d))
    && (k !in KeySeq(d) ==> KeySeq(r) == KeySeq(d) + [k])
  }

  /** Assigning to the first key replaces its entry in place. */
  lemma AssignHead<K(!new), V>(e: (K, V), t: Dict<K, V>, v: V)
    requires Valid([e] + t)
    ensures Assigned([(e.0, v)] + t, [e] + t, e.0, v)
  {
    var d := [e] + t;
    var r := [(e.0, v)] + t;
    GetCons(e, t, e.0);
    GetCons((e.0, v), t, e.0);
    HeadNotInTail(e, t);
    forall k' | k' != e.0
      ensures Get(r, k') == Get(d, k')
    {
      GetCons(e, t, k');
      GetCons((e.0, v), t, k');
    }
    assert forall i :: 0 < i < |r| ==> r[i] == d[i];
  }

  /** A key that is not in front stays out of the rest of the table. */
  lemma HeadNotInTail<K, V>(e: (K, V), t: Dict<K, V>)
    requires Valid([e] + t)
    ensures e.0 !in KeySeq(t)
  {
    var d := [e] + t;
    forall i | 0 <= i < |t|
      ensures t[i].0 != e.0
    {
      assert d[0] == e && d[i + 1] == t[i];
    }
  }

  /** Putting a key in front of a table that lacks it keeps keys distinct. */
  lemma ConsValid<K, V>(e: (K, V), t: Dict<K, V>)
    requires Valid(t) && e.0 !in KeySeq(t)
    ensures Valid([e] + t)
  {
    var r := [e] + t;
    forall i, j | 0 <= i < j < |r|
      ensures r[i].0 != r[j].0
    {
      if i == 0 {
        assert r[j].0 == KeySeq(t)[j - 1];
      } else {
        assert r[i] == t[i - 1] && r[j] == t[j - 1];
      }
    }
  }

  /** Assigning to a key behind the first entry keeps that entry in front. */
  lemma AssignBehind<K(!new), V>(e: (K, V), t: Dict<K, V>, k: K, v: V, rest: Dict<K, V>)
    requires Valid([e] + t) && e.0 != k
    requires Assigned(rest, t, k, v)
    ensures Assigned([e] + rest, [e] + t, k, v)
  {
    GetCons(e, t, k);
    GetCons(e, rest, k);
    HeadNotInTail(e, t);
    ConsValid(e, rest);
    forall k' | k' != k
      ensures Get([e] + rest, k') == Get([e] + t, k')
    {
      GetCons(e, t, k');
      GetCons(e, rest, k');
    }
  }

  /** `d[k] = v`. */
  function Put<K(==, !new), V>(d: Dict<K, V>, k: K, v: V): (r: Dict<K, V>)
    requires Valid(d)
    ensures Valid(r)
    ensures Get(r, k) == Some(v)
    ensures forall k' :: k' != k ==> Get(r, k') == Get(d, k')
    ensures k in KeySeq(d) ==> KeySeq(r) == KeySeq(d)
    ensures k !in KeySeq(d) ==> KeySeq(r) == KeySeq(d) + [k]
  {
    if |d| == 0 then [(k, v)]
    else
      var e := d[0];
      var t := d[1..];
      assert d == [e] + t;
      if e.0 == k then
        AssignHead(e, t, v);
        [(k, v)] + t
      else
        var rest := Put(t, k, v);
        AssignBehind(e, t, k, v, rest);
        [e] + rest
  }
}
