/** A Python `dict` with string keys, as an association list in insertion order.
    Assigning `d[k] = v` overwrites the value of an existing key where it stands
    and appends a new key at the end. */
module PyDict {

  datatype Option<T> = None | Some(value: T)

  type Dict<V> = seq<(string, V)>

  function Keys<V>(d: Dict<V>): seq<string> {
    seq(|d|, i requires 0 <= i < |d| => d[i].0)
  }

  /** A `dict` never holds a key twice. */
  predicate UniqueKeys<V>(d: Dict<V>) {
    forall i, j :: 0 <= i < j < |d| ==> d[i].0 != d[j].0
  }

  /** `d.get(k)`: the value stored under `k`, or `None`. */
  function Get<V>(d: Dict<V>, k: string): Option<V> {
    if d == [] then None
    else if d[0].0 == k then Some(d[0].1)
    else Get(d[1..], k)
  }

  /** `d.get(k)` finds a value exactly when `k` is a key of `d`, and the value it
      finds is stored under `k`. */
  lemma {:induction false} GetFindsKey<V>(d: Dict<V>, k: string)
    ensures Get(d, k).None? <==> k !in Keys(d)
    ensures Get(d, k).Some? ==> (k, Get(d, k).value) in d
  {
    if d != [] {
      assert Keys(d) == [d[0].0] + Keys(d[1..]);
      if d[0].0 != k {
        GetFindsKey(d[1..], k);
      }
    }
  }

  /** `d[k] = v`. */
  function Put<V>(d: Dict<V>, k: string, v: V): Dict<V> {
    if d == [] then [(k, v)]
    else if d[0].0 == k then [(k, v)] + d[1..]
    else [d[0]] + Put(d[1..], k, v)
  }

  /** `d[k] = v` keeps the keys where they are and appends `k` if it is new. */
  lemma {:induction false} PutKeys<V>(d: Dict<V>, k: string, v: V)
    ensures Keys(Put(d, k, v)) == if k in Keys(d) then Keys(d) else Keys(d) + [k]
  {
    if d != [] {
      assert Keys(d) == [d[0].0] + Keys(d[1..]);
      if d[0].0 == k {
        assert Keys(Put(d, k, v)) == Keys(d);
      } else {
        PutKeys(d[1..], k, v);
        assert Keys(Put(d, k, v)) == [d[0].0] + Keys(Put(d[1..], k, v));
      }
    }
  }

  /** After `d[k] = v`, looking up `k` gives `v` and every other key is as before. */
  lemma {:induction false} PutThenGet<V>(d: Dict<V>, k: string, v: V, k': string)
    ensures Get(Put(d, k, v), k') == if k' == k then Some(v) else Get(d, k')
  {
    if d != [] && d[0].0 != k {
      PutThenGet(d[1..], k, v, k');
    }
  }

  /** `d[k] = v` brings in no entry other than `(k, v)`. */
  lemma {:induction false} PutEntries<V>(d: Dict<V>, k: string, v: V)
    ensures forall i :: 0 <= i < |Put(d, k, v)| ==> Put(d, k, v)[i] == (k, v) || Put(d, k, v)[i] in d
  {
    if d != [] && d[0].0 != k {
      PutEntries(d[1..], k, v);
      var r := Put(d, k, v);
      forall i | 0 <= i < |r| ensures r[i] == (k, v) || r[i] in d {
        if i > 0 {
          assert r[i] == Put(d[1..], k, v)[i - 1];
        }
      }
    }
  }

  /** `d[k] = v` keeps the keys of a dict distinct. */
  lemma PutKeepsKeysUnique<V>(d: Dict<V>, k: string, v: V)
    requires UniqueKeys(d)
    ensures UniqueKeys(Put(d, k, v))
  {
    PutKeys(d, k, v);
    var r := Put(d, k, v);
    forall i, j | 0 <= i < j < |r| ensures r[i].0 != r[j].0 {
      assert Keys(r)[i] == r[i].0 && Keys(r)[j] == r[j].0;
      if k !in Keys(d) && j == |d| {
        assert Keys(d)[i] == d[i].0;
      } else {
        assert Keys(d)[i] == d[i].0 && Keys(d)[j] == d[j].0;
      }
    }
  }

  /** On a key the dict does not hold yet, `d[k] = v` appends one entry. */
  lemma {:induction false} PutNewKeyAppends<V>(d: Dict<V>, k: string, v: V)
    requires k !in Keys(d)
    ensures Put(d, k, v) == d + [(k, v)]
  {
    if d != [] {
      assert Keys(d)[0] == d[0].0 && Keys(d[1..]) == Keys(d)[1..];
      PutNewKeyAppends(d[1..], k, v);
      assert d == [d[0]] + d[1..];
    }
  }

  /** The dict built by starting from `{}` and doing `d[k] = v` for every pair
      in order. */
  function FromPairs<V>(pairs: seq<(string, V)>): Dict<V> {
    if pairs == [] then []
    else
      var last := pairs[|pairs| - 1];
      Put(FromPairs(pairs[..|pairs| - 1]), last.0, last.1)
  }

  /** One more pair is one more `d[k] = v`. */
  lemma FromPairsSnoc<V>(pairs: seq<(string, V)>, k: string, v: V)
    ensures FromPairs(pairs + [(k, v)]) == Put(FromPairs(pairs), k, v)
  {
    assert (pairs + [(k, v)])[..|pairs|] == pairs;
  }

  /** The keys held are exactly the keys of the pairs, each once. */
  lemma {:induction false} FromPairsKeys<V>(pairs: seq<(string, V)>)
    ensures UniqueKeys(FromPairs(pairs))
    ensures forall k :: k in Keys(FromPairs(pairs)) <==> exists i :: 0 <= i < |pairs| && pairs[i].0 == k
  {
    if pairs != [] {
      var n := |pairs| - 1;
      var prefix := pairs[..n];
      FromPairsKeys(prefix);
      PutKeys(FromPairs(prefix), pairs[n].0, pairs[n].1);
      PutKeepsKeysUnique(FromPairs(prefix), pairs[n].0, pairs[n].1);
      forall k | exists i :: 0 <= i < |pairs| && pairs[i].0 == k
        ensures k in Keys(FromPairs(pairs))
      {
        var i :| 0 <= i < |pairs| && pairs[i].0 == k;
        if i < n {
          assert prefix[i].0 == k;
        }
      }
    }
  }

  /** Every entry held is one of the pairs. */
  lemma {:induction false} FromPairsEntries<V>(pairs: seq<(string, V)>)
    ensures forall i :: 0 <= i < |FromPairs(pairs)| ==> FromPairs(pairs)[i] in pairs
  {
    if pairs != [] {
      var n := |pairs| - 1;
      FromPairsEntries(pairs[..n]);
      PutEntries(FromPairs(pairs[..n]), pairs[n].0, pairs[n].1);
      assert forall e :: e in pairs[..n] ==> e in pairs;
    }
  }

  /** When a key occurs more than once, the last pair with that key decides its value. */
  lemma {:induction false} FromPairsLastWins<V>(pairs: seq<(string, V)>, j: nat)
    requires j < |pairs|
    requires forall i :: j < i < |pairs| ==> pairs[i].0 != pairs[j].0
    ensures Get(FromPairs(pairs), pairs[j].0) == Some(pairs[j].1)
  {
    var n := |pairs| - 1;
    var prefix := pairs[..n];
    var (k, v) := pairs[n];
    assert FromPairs(pairs) == Put(FromPairs(prefix), k, v);
    PutThenGet(FromPairs(prefix), k, v, pairs[j].0);
    if j < n {
      assert pairs[j].0 != k;
      assert forall i :: j <= i < n ==> prefix[i] == pairs[i];
      FromPairsLastWins(prefix, j);
    }
  }

  /** A key's position is that of its first insertion: later writes to the same
      key do not move it. */
  function FirstOccurrences(ks: seq<string>): seq<string> {
    if ks == [] then []
    else
      var earlier := FirstOccurrences(ks[..|ks| - 1]);
      if ks[|ks| - 1] in earlier then earlier else earlier + [ks[|ks| - 1]]
  }

  lemma {:induction false} FromPairsKeyOrder<V>(pairs: seq<(string, V)>)
    ensures Keys(FromPairs(pairs)) == FirstOccurrences(Keys(pairs))
  {
    if pairs != [] {
      var n := |pairs| - 1;
      FromPairsKeyOrder(pairs[..n]);
      PutKeys(FromPairs(pairs[..n]), pairs[n].0, pairs[n].1);
      assert Keys(pairs)[..n] == Keys(pairs[..n]);
    }
  }

  /** Pairs with distinct keys give back exactly themselves, in order. */
  lemma {:induction false} FromPairsDistinct<V>(pairs: seq<(string, V)>)
    requires UniqueKeys(pairs)
    ensures FromPairs(pairs) == pairs
  {
    if pairs != [] {
      var n := |pairs| - 1;
      var prefix := pairs[..n];
      FromPairsDistinct(prefix);
      assert pairs[n].0 !in Keys(prefix) by {
        forall i | 0 <= i < n ensures Keys(prefix)[i] != pairs[n].0 {
          assert Keys(prefix)[i] == pairs[i].0;
        }
      }
      PutNewKeyAppends(prefix, pairs[n].0, pairs[n].1);
      assert prefix + [pairs[n]] == pairs;
    }
  }
}
