/** Python's insertion-ordered `dict` with string keys, as a sequence of
    entries. `Put` is `d[k] = v`: an existing key keeps its position, a new
    key is appended. Dicts built by Python have distinct keys (`Distinct`). */
module Dicts {
  import opened Results
  import Seqs

  type Dict<V> = seq<(string, V)>

  /** The set of keys, `d.keys()` as a set. */
  function KeySet<V>(d: Dict<V>): set<string>
  {
    if |d| == 0 then {} else {d[0].0} + KeySet(d[1..])
  }

  /** A key is present exactly when some entry carries it. */
  lemma {:induction false} KeySetIndex<V>(d: Dict<V>, k: string)
    ensures k in KeySet(d) <==> exists i :: 0 <= i < |d| && d[i].0 == k
  {
    if |d| > 0 {
      KeySetIndex(d[1..], k);
      if exists i :: 0 <= i < |d| && d[i].0 == k {
        var i :| 0 <= i < |d| && d[i].0 == k;
        if i > 0 { assert d[1..][i - 1] == d[i]; }
      }
      if exists i :: 0 <= i < |d[1..]| && d[1..][i].0 == k {
        var i :| 0 <= i < |d[1..]| && d[1..][i].0 == k;
        assert d[i + 1] == d[1..][i];
      }
    }
  }

  /** The keys of two dicts laid end to end. */
  lemma {:induction false} KeySetConcat<V>(a: Dict<V>, b: Dict<V>)
    ensures KeySet(a + b) == KeySet(a) + KeySet(b)
  {
    if |a| > 0 {
      assert (a + b)[1..] == a[1..] + b;
      KeySetConcat(a[1..], b);
    } else {
      assert a + b == b;
    }
  }

  /** `list(d.keys())`, in insertion order. */
  function Keys<V>(d: Dict<V>): seq<string>
  {
    seq(|d|, i requires 0 <= i < |d| => d[i].0)
  }

  /** No key occurs twice. */
  predicate Distinct<V>(d: Dict<V>)
  {
    |d| == 0 || (d[0].0 !in KeySet(d[1..]) && Distinct(d[1..]))
  }

  /** `Distinct` says that no two entries share a key. */
  lemma {:induction false} DistinctIndex<V>(d: Dict<V>)
    ensures Distinct(d) <==> forall i, j :: 0 <= i < j < |d| ==> d[i].0 != d[j].0
  {
    if |d| > 0 {
      DistinctIndex(d[1..]);
      KeySetIndex(d[1..], d[0].0);
      assert forall i :: 0 < i < |d| ==> d[i] == d[1..][i - 1];
    }
  }

  /** A prefix of a dict with distinct keys has distinct keys. */
  lemma DistinctPrefix<V>(d: Dict<V>, n: nat)
    requires n <= |d|
    ensures Distinct(d) ==> Distinct(d[..n])
  {
    DistinctIndex(d);
    DistinctIndex(d[..n]);
    assert forall i :: 0 <= i < n ==> d[..n][i] == d[i];
  }

  /** `d.get(k)`. */
  function Get<V>(d: Dict<V>, k: string): (r: Option<V>)
    ensures r.Some? <==> k in KeySet(d)
    ensures r.Some? ==> exists i :: 0 <= i < |d| && d[i] == (k, r.value)
  {
    if |d| == 0 then None
    else if d[0].0 == k then Some(d[0].1)
    else
      var r := Get(d[1..], k);
      assert r.Some? ==> exists i :: 0 <= i < |d[1..]| && d[1..][i] == (k, r.value);
      assert forall i :: 0 <= i < |d[1..]| ==> d[1..][i] == d[i + 1];
      r
  }

  /** With distinct keys, looking up an entry's key finds that entry's value. */
  lemma {:induction false} GetEntry<V>(d: Dict<V>, i: nat)
    requires Distinct(d)
    requires i < |d|
    ensures Get(d, d[i].0) == Some(d[i].1)
  {
    if i > 0 {
      assert d[1..][i - 1] == d[i];
      KeySetIndex(d[1..], d[i].0);
      GetEntry(d[1..], i - 1);
    }
  }

  /** An entry with another key does not affect a lookup. */
  lemma {:induction false} GetSkip<V>(a: Dict<V>, x: (string, V), b: Dict<V>, k: string)
    requires x.0 != k
    ensures Get(a + [x] + b, k) == Get(a + b, k)
  {
    if |a| > 0 {
      assert (a + [x] + b)[1..] == a[1..] + [x] + b;
      assert (a + b)[1..] == a[1..] + b;
      GetSkip(a[1..], x, b, k);
    } else {
      assert a + [x] + b == [x] + b && a + b == b;
      assert ([x] + b)[1..] == b;
    }
  }

  /** `d[k] = v`. */
  function Put<V>(d: Dict<V>, k: string, v: V): (r: Dict<V>)
    ensures Get(r, k) == Some(v)
    ensures forall k' :: k' != k ==> Get(r, k') == Get(d, k')
    ensures KeySet(r) == KeySet(d) + {k}
    ensures k !in KeySet(d) ==> r == d + [(k, v)]
    ensures Distinct(d) ==> Distinct(r)
  {
    if |d| == 0 then [(k, v)]
    else if d[0].0 == k then
      Seqs.TailOfCons((k, v), d[1..]);
      [(k, v)] + d[1..]
    else
      var rest := Put(d[1..], k, v);
      Seqs.TailOfCons(d[0], rest);
      Seqs.ConsAppend(d, (k, v));
      [d[0]] + rest
  }

  /** `d.update(e)`: the entries of `e` are put into `d` in order. */
  function Update<V>(d: Dict<V>, e: Dict<V>): (r: Dict<V>)
    ensures KeySet(r) == KeySet(d) + KeySet(e)
    ensures forall k :: k !in KeySet(e) ==> Get(r, k) == Get(d, k)
    ensures Distinct(e) ==> forall k :: k in KeySet(e) ==> Get(r, k) == Get(e, k)
    ensures Distinct(d) ==> Distinct(r)
    decreases |e|
  {
    if |e| == 0 then d
    else Update(Put(d, e[0].0, e[0].1), e[1..])
  }

  /** `{k: f(v) for k, v in d.items()}`. */
  function MapValues<V, W>(d: Dict<V>, f: V -> W): (r: Dict<W>)
    ensures |r| == |d|
    ensures forall i :: 0 <= i < |d| ==> r[i] == (d[i].0, f(d[i].1))
  {
    seq(|d|, i requires 0 <= i < |d| => (d[i].0, f(d[i].1)))
  }
}
