/**
 * A JavaScript object used as a dictionary (`Record<string, V>`): a list of
 * properties with distinct keys, kept in insertion order, which is the order
 * in which `Object.entries` and the spread operator `{ ...r }` visit them.
 * Assigning an existing key keeps its position; a new key is appended.
 */
module Records {
  import opened JsValues

  predicate DistinctKeys<V>(r: seq<(string, V)>)
  {
    forall i, j :: 0 <= i < j < |r| ==> r[i].0 != r[j].0
  }

  type Record<V> = r: seq<(string, V)> | DistinctKeys(r) witness []

  /** The keys, in property order (what `Object.keys` returns). */
  function Keys<V>(r: seq<(string, V)>): (ks: seq<string>)
    ensures |ks| == |r|
    ensures forall i :: 0 <= i < |r| ==> ks[i] == r[i].0
  {
    if r == [] then [] else [r[0].0] + Keys(r[1..])
  }

  lemma TailDistinct<V>(r: Record<V>)
    requires r != []
    ensures DistinctKeys(r[1..])
    ensures r[0].0 !in Keys(r[1..])
  {
    forall i, j | 0 <= i < j < |r[1..]|
      ensures r[1..][i].0 != r[1..][j].0
    {
      assert r[1..][i] == r[i + 1] && r[1..][j] == r[j + 1];
    }
  }

  /** Property lookup `r[k]`: the value stored under `k`, if any. */
  function Get<V>(r: Record<V>, k: string): (o: Option<V>)
    ensures o.None? <==> k !in Keys(r)
    ensures o.Some? ==> (k, o.value) in r
    ensures forall i :: 0 <= i < |r| && r[i].0 == k ==> o == Some(r[i].1)
  {
    if r == [] then None
    else
      TailDistinct(r);
      if r[0].0 == k then Some(r[0].1) else Get(r[1..], k)
  }

  /** The position of key `k`. */
  function IndexOfKey<V>(r: seq<(string, V)>, k: string): (i: nat)
    requires k in Keys(r)
    ensures i < |r| && r[i].0 == k
  {
    if r[0].0 == k then 0 else 1 + IndexOfKey(r[1..], k)
  }

  /** Two lists of properties with the same keys position by position have the same `Keys`. */
  lemma SameKeys<V>(a: seq<(string, V)>, b: seq<(string, V)>)
    requires |a| == |b| && forall i :: 0 <= i < |a| ==> a[i].0 == b[i].0
    ensures Keys(a) == Keys(b)
  {
  }

  /** Appending a property with a new key keeps the keys distinct. */
  lemma AppendNewKey<V>(r: Record<V>, x: (string, V))
    requires x.0 !in Keys(r)
    ensures DistinctKeys(r + [x])
    ensures Keys(r + [x]) == Keys(r) + [x.0]
  {
    var r' := r + [x];
    forall i, j | 0 <= i < j < |r'|
      ensures r'[i].0 != r'[j].0
    {
      assert r'[i] == r[i];
      if j < |r| {
        assert r'[j] == r[j];
      } else {
        assert r'[j] == x && Keys(r)[i] == r[i].0;
      }
    }
    KeysAppend(r, x);
  }

  lemma KeysAppend<V>(r: seq<(string, V)>, x: (string, V))
    ensures Keys(r + [x]) == Keys(r) + [x.0]
  {
    var r', ks := r + [x], Keys(r) + [x.0];
    assert |Keys(r')| == |ks|;
    forall i | 0 <= i < |r'|
      ensures Keys(r')[i] == ks[i]
    {
      if i < |r| {
        assert r'[i] == r[i] && ks[i] == Keys(r)[i];
      } else {
        assert r'[i] == x && ks[i] == x.0;
      }
    }
  }

  /**
   * `{ ...r, [k]: v }`: the record with `k` bound to `v`, every other
   * property unchanged and in its place, and `k` appended if it was new.
   */
  function Set<V>(r: Record<V>, k: string, v: V): (r': Record<V>)
    ensures Keys(r') == if k in Keys(r) then Keys(r) else Keys(r) + [k]
    ensures forall i :: 0 <= i < |r| && r[i].0 != k ==> r'[i] == r[i]
    ensures (k, v) in r'
  {
    if k in Keys(r) then
      var i := IndexOfKey(r, k);
      SameKeys(r[i := (k, v)], r);
      r[i := (k, v)]
    else
      AppendNewKey(r, (k, v));
      r + [(k, v)]
  }

  lemma GetSetOther<V>(r: Record<V>, k: string, v: V, k': string)
    requires k' != k
    ensures Get(Set(r, k, v), k') == Get(r, k')
  {
    var r' := Set(r, k, v);
    if k' in Keys(r) {
      var j :| 0 <= j < |r| && Keys(r)[j] == k';
      assert r'[j] == r[j];
      assert Get(r, k') == Some(r[j].1);
      assert Get(r', k') == Some(r'[j].1);
    } else {
      assert k' !in Keys(r');
    }
  }

  /** After `{ ...r, [k]: v }`, reading `k` gives `v` and every other key reads as before. */
  lemma GetSet<V>(r: Record<V>, k: string, v: V)
    ensures Get(Set(r, k, v), k) == Some(v)
    ensures forall k' :: k' != k ==> Get(Set(r, k, v), k') == Get(r, k')
  {
    var r' := Set(r, k, v);
    var i :| 0 <= i < |r'| && r'[i] == (k, v);
    forall k' | k' != k
      ensures Get(r', k') == Get(r, k')
    {
      GetSetOther(r, k, v, k');
    }
  }
}
