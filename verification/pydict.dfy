/** Python dictionaries as ordered association lists: iteration follows
    insertion order, assigning to an existing key keeps its position. */
module PyDict {
  import opened Results

  /** The items of a dict, in iteration order. */
  type Dict<K, V> = seq<(K, V)>

  predicate HasKey<K(==, !new), V>(d: Dict<K, V>, k: K) {
    exists i :: 0 <= i < |d| && d[i].0 == k
  }

  /** No key occurs twice: every value built by `Put` has this shape. */
  predicate DistinctKeys<K(==, !new), V>(d: Dict<K, V>) {
    forall i, j :: 0 <= i < j < |d| ==> d[i].0 != d[j].0
  }

  /** Position of the first item with key `k`, or `|d|` when there is none. */
  function Find<K(==, !new), V>(d: Dict<K, V>, k: K): (i: nat)
    ensures i <= |d|
    ensures i < |d| ==> d[i].0 == k
    ensures forall j :: 0 <= j < i ==> d[j].0 != k
  {
    if |d| == 0 then 0
    else if d[0].0 == k then 0
    else 1 + Find(d[1..], k)
  }

  /** `d[k]`, with `None` standing for the `KeyError` case. */
  function Get<K(==, !new), V>(d: Dict<K, V>, k: K): (r: Option<V>)
    ensures r.Some? <==> HasKey(d, k)
    ensures r.Some? ==> (k, r.value) in d
  {
    var i := Find(d, k);
    if i < |d| then Some(d[i].1) else None
  }

  /** Two dicts with the same keys at every position agree on where each key is found. */
  lemma FindSameKeys<K(!new), V>(d: Dict<K, V>, e: Dict<K, V>, k: K)
    requires |d| == |e|
    requires forall j :: 0 <= j < |d| ==> d[j].0 == e[j].0
    ensures Find(d, k) == Find(e, k)
  {
    if |d| > 0 && d[0].0 != k {
      FindSameKeys(d[1..], e[1..], k);
    }
  }

  /** `d[k] = v`. */
  function Put<K(==, !new), V>(d: Dict<K, V>, k: K, v: V): (r: Dict<K, V>)
    ensures Get(r, k) == Some(v)
    ensures forall k' :: k' != k ==> Get(r, k') == Get(d, k')
    ensures DistinctKeys(d) ==> DistinctKeys(r)
    ensures HasKey(d, k) ==> |r| == |d| && forall j :: 0 <= j < |d| ==> r[j].0 == d[j].0
    ensures !HasKey(d, k) ==> r == d + [(k, v)]
  {
    var i := Find(d, k);
    if i < |d| then
      var r := d[i := (k, v)];
      assert forall j :: 0 <= j < |d| ==> r[j].0 == d[j].0;
      assert Find(r, k) == i;
      forall k' | k' != k
        ensures Get(r, k') == Get(d, k')
      {
        FindSameKeys(r, d, k');
      }
      r
    else
      var r := d + [(k, v)];
      assert r[|d|].0 == k;
      assert Find(r, k) == |d|;
      forall k' | k' != k
        ensures Get(r, k') == Get(d, k')
      {
        var j := Find(d, k');
        if j < |d| {
          assert r[j] == d[j];
        }
      }
      r
  }

  /** The value of the last item of `es` with key `k`: the value a dict keeps
      when the items are assigned in order. */
  function LastValue<K(==, !new), V>(es: seq<(K, V)>, k: K): Option<V> {
    if |es| == 0 then None
    else if es[|es| - 1].0 == k then Some(es[|es| - 1].1)
    else LastValue(es[..|es| - 1], k)
  }

  /** The dict obtained by assigning the items of `es` one after another. */
  function FromList<K(==, !new), V>(es: seq<(K, V)>): (d: Dict<K, V>)
    ensures DistinctKeys(d)
    ensures forall k :: Get(d, k) == LastValue(es, k)
  {
    if |es| == 0 then []
    else
      var e := es[|es| - 1];
      Put(FromList(es[..|es| - 1]), e.0, e.1)
  }

  /** Under distinct keys the last item's key is absent from the others. */
  lemma LastKeyNew<K(!new), V>(es: seq<(K, V)>)
    requires DistinctKeys(es) && |es| > 0
    ensures Find(es[..|es| - 1], es[|es| - 1].0) == |es| - 1
  {
    var front := es[..|es| - 1];
    assert forall j :: 0 <= j < |front| ==> front[j] == es[j];
  }

  /** Assigning items whose keys are already distinct rebuilds the same list. */
  lemma {:induction false} FromListDistinct<K(!new), V>(es: seq<(K, V)>)
    requires DistinctKeys(es)
    ensures FromList(es) == es
  {
    if |es| > 0 {
      var front := es[..|es| - 1];
      var e := es[|es| - 1];
      assert DistinctKeys(front);
      FromListDistinct(front);
      LastKeyNew(es);
      assert front + [e] == es;
    }
  }

  /** `LastValue` picks the item at the last position holding `k`. */
  lemma {:induction false} LastValueSpec<K(!new), V>(es: seq<(K, V)>, k: K, v: V)
    ensures LastValue(es, k) == Some(v) <==>
      exists j :: 0 <= j < |es| && es[j] == (k, v) &&
        forall j' :: j < j' < |es| ==> es[j'].0 != k
  {
    if |es| > 0 {
      var front := es[..|es| - 1];
      LastValueSpec(front, k, v);
      if es[|es| - 1].0 == k {
        if LastValue(es, k) != Some(v) {
          forall j | 0 <= j < |es| && es[j] == (k, v)
            ensures exists j' :: j < j' < |es| && es[j'].0 == k
          {
            assert j != |es| - 1;
            assert es[|es| - 1].0 == k;
          }
        }
      } else {
        if LastValue(es, k) == Some(v) {
          var j :| 0 <= j < |front| && front[j] == (k, v) &&
            forall j' :: j < j' < |front| ==> front[j'].0 != k;
          assert es[j] == (k, v);
          assert forall j' :: j < j' < |es| ==> es[j'].0 != k;
        } else {
          forall j | 0 <= j < |es| && es[j] == (k, v)
            ensures exists j' :: j < j' < |es| && es[j'].0 == k
          {
            assert j < |front|;
            assert front[j] == (k, v);
            var j' :| j < j' < |front| && front[j'].0 == k;
            assert es[j'] == front[j'];
          }
        }
      }
    }
  }

  /** The keys present after assigning `es` are exactly the keys of its items. */
  lemma {:induction false} FromListKeys<K(!new), V>(es: seq<(K, V)>, k: K)
    ensures HasKey(FromList(es), k) <==> exists j :: 0 <= j < |es| && es[j].0 == k
  {
    LastValueSome(es, k);
  }

  lemma {:induction false} LastValueSome<K(!new), V>(es: seq<(K, V)>, k: K)
    ensures LastValue(es, k).Some? <==> exists j :: 0 <= j < |es| && es[j].0 == k
  {
    if |es| > 0 {
      var front := es[..|es| - 1];
      LastValueSome(front, k);
      if es[|es| - 1].0 != k {
        assert forall j :: 0 <= j < |front| ==> front[j] == es[j];
      }
    }
  }

  /** Two item lists with the same keys position by position have the same
      key set, and one repeats no key when the other does not. */
  lemma SameKeys<K(!new), V, W>(d: Dict<K, V>, e: Dict<K, W>)
    requires |d| == |e|
    requires forall m :: 0 <= m < |d| ==> d[m].0 == e[m].0
    ensures DistinctKeys(d) ==> DistinctKeys(e)
    ensures forall k :: HasKey(d, k) <==> HasKey(e, k)
  {
    forall k
      ensures HasKey(d, k) <==> HasKey(e, k)
    {
      if HasKey(d, k) {
        var i :| 0 <= i < |d| && d[i].0 == k;
        assert e[i].0 == k;
      }
      if HasKey(e, k) {
        var i :| 0 <= i < |e| && e[i].0 == k;
        assert d[i].0 == k;
      }
    }
  }

  /** In a dict without repeated keys, an item's key finds that item's value. */
  lemma GetDistinct<K(!new), V>(d: Dict<K, V>, k: K, v: V)
    requires DistinctKeys(d) && (k, v) in d
    ensures Get(d, k) == Some(v)
  {
    var j :| 0 <= j < |d| && d[j] == (k, v);
    var i := Find(d, k);
    assert i == j;
  }
}
