/** `collections.defaultdict(list)` as the downloader uses it: a dictionary
    whose keys keep their insertion order and whose values are lists that
    `d[k].append(v)` extends, inserting a missing key with an empty list
    first. */
module ListDicts {
  import opened Sequences

  datatype ListDict<K, V> = ListDict(keys: seq<K>, lists: map<K, seq<V>>)

  /** The keys list holds each key of the dictionary once. */
  ghost predicate Coherent<K(!new), V>(d: ListDict<K, V>)
  {
    Distinct(d.keys) && forall k :: k in d.lists <==> k in d.keys
  }

  /** `d[k].append(v)`. */
  function Append<K(!new), V>(d: ListDict<K, V>, k: K, v: V): (r: ListDict<K, V>)
    ensures Coherent(d) ==> Coherent(r)
    ensures r.keys == if k in d.lists then d.keys else d.keys + [k]
    ensures k in r.lists && r.lists[k] == (if k in d.lists then d.lists[k] else []) + [v]
    ensures forall k' :: k' != k ==> (k' in r.lists <==> k' in d.lists)
    ensures forall k' :: k' != k && k' in d.lists ==> r.lists[k'] == d.lists[k']
  {
    if k in d.lists then ListDict(d.keys, d.lists[k := d.lists[k] + [v]])
    else ListDict(d.keys + [k], d.lists[k := [v]])
  }

  /** Appending every pair in order to a fresh dictionary; the result holds
      each of its keys once. */
  function AppendAll<K(!new), V>(pairs: seq<(K, V)>): (d: ListDict<K, V>)
    ensures Coherent(d)
  {
    if pairs == [] then ListDict([], map[])
    else
      var n := |pairs| - 1;
      Append(AppendAll(pairs[..n]), pairs[n].0, pairs[n].1)
  }

  /** Appending one more pair extends the dictionary by that pair. */
  lemma AppendAllSnoc<K(!new), V>(pairs: seq<(K, V)>, i: nat)
    requires i < |pairs|
    ensures AppendAll(pairs[..i + 1]) == Append(AppendAll(pairs[..i]), pairs[i].0, pairs[i].1)
  {
    assert pairs[..i + 1][..i] == pairs[..i];
  }

  /** The last pair is appended after all the others. */
  lemma AppendAllLast<K(!new), V>(front: seq<(K, V)>, p: (K, V), all: seq<(K, V)>, g: ListDict<K, V>)
    requires all == front + [p] && AppendAll(front) == g
    ensures AppendAll(all) == Append(g, p.0, p.1)
  {
    assert all[..|front|] == front;
  }

  /** The values paired with `k`, in order. */
  function ValuesOf<K(==), V>(pairs: seq<(K, V)>, k: K): seq<V>
  {
    if pairs == [] then []
    else
      var n := |pairs| - 1;
      ValuesOf(pairs[..n], k) + (if pairs[n].0 == k then [pairs[n].1] else [])
  }

  /** Some pair has key `k`. */
  predicate HasKey<K(==), V>(pairs: seq<(K, V)>, k: K)
  {
    exists i :: 0 <= i < |pairs| && pairs[i].0 == k
  }

  /** After appending every pair, its keys are exactly the keys of the
      pairs ... */
  lemma {:induction false} AppendAllKeys<K(!new), V>(pairs: seq<(K, V)>)
    ensures forall k :: k in AppendAll(pairs).lists <==> HasKey(pairs, k)
    decreases |pairs|
  {
    if pairs != [] {
      var n := |pairs| - 1;
      var prefix := pairs[..n];
      AppendAllKeys(prefix);
      forall k
        ensures HasKey(pairs, k) <==> HasKey(prefix, k) || pairs[n].0 == k
      {
        if HasKey(pairs, k) && pairs[n].0 != k {
          var i :| 0 <= i < |pairs| && pairs[i].0 == k;
          assert i < n && prefix[i].0 == k;
        }
        if HasKey(prefix, k) {
          var i :| 0 <= i < n && prefix[i].0 == k;
          assert pairs[i] == prefix[i];
        }
      }
    }
  }

  /** ... and each key's list holds its values in order. */
  lemma {:induction false} AppendAllValues<K(!new), V>(pairs: seq<(K, V)>)
    ensures forall k :: k in AppendAll(pairs).lists ==> AppendAll(pairs).lists[k] == ValuesOf(pairs, k)
    decreases |pairs|
  {
    if pairs != [] {
      var n := |pairs| - 1;
      var prefix := pairs[..n];
      AppendAllValues(prefix);
      AppendAllKeys(prefix);
      var d := AppendAll(prefix);
      forall k | k in AppendAll(pairs).lists
        ensures AppendAll(pairs).lists[k] == ValuesOf(pairs, k)
      {
        if k !in d.lists {
          ValuesOfMissing(prefix, k);
        }
      }
    }
  }

  /** A key no pair has collects no values. */
  lemma {:induction false} ValuesOfMissing<K, V>(pairs: seq<(K, V)>, k: K)
    requires !HasKey(pairs, k)
    ensures ValuesOf(pairs, k) == []
    decreases |pairs|
  {
    if pairs != [] {
      var n := |pairs| - 1;
      assert forall i :: 0 <= i < n ==> pairs[..n][i] == pairs[i];
      ValuesOfMissing(pairs[..n], k);
    }
  }

  /** With distinct keys, the dictionary lists the keys in order, each with
      its single value. */
  lemma {:induction false} AppendAllDistinct<K(!new), V>(pairs: seq<(K, V)>)
    requires forall a, b :: 0 <= a < b < |pairs| ==> pairs[a].0 != pairs[b].0
    ensures |AppendAll(pairs).keys| == |pairs|
    ensures forall i :: 0 <= i < |pairs| ==>
              AppendAll(pairs).keys[i] == pairs[i].0
              && pairs[i].0 in AppendAll(pairs).lists
              && AppendAll(pairs).lists[pairs[i].0] == [pairs[i].1]
    decreases |pairs|
  {
    if pairs != [] {
      var n := |pairs| - 1;
      var prefix := pairs[..n];
      assert forall i :: 0 <= i < n ==> prefix[i] == pairs[i];
      AppendAllDistinct(prefix);
      var d := AppendAll(prefix);
      assert pairs[n].0 !in d.lists by {
        AppendAllKeys(prefix);
        assert !HasKey(prefix, pairs[n].0);
      }
      assert pairs == prefix + [pairs[n]];
      AppendAllLast(prefix, pairs[n], pairs, d);
      AppendFreshExtends(d, prefix, pairs[n]);
    }
  }

  /** Appending a new key to a dictionary that lists distinct pairs one by
      one lists one more pair. */
  lemma AppendFreshExtends<K(!new), V>(d: ListDict<K, V>, ps: seq<(K, V)>, p: (K, V))
    requires p.0 !in d.lists && |d.keys| == |ps|
    requires forall i :: 0 <= i < |ps| ==>
               d.keys[i] == ps[i].0 && ps[i].0 in d.lists && d.lists[ps[i].0] == [ps[i].1]
    ensures var r := Append(d, p.0, p.1);
            var all := ps + [p];
            && |r.keys| == |all|
            && forall i :: 0 <= i < |all| ==>
                 r.keys[i] == all[i].0 && all[i].0 in r.lists && r.lists[all[i].0] == [all[i].1]
  {
    var r := Append(d, p.0, p.1);
    var all := ps + [p];
    forall i | 0 <= i < |all|
      ensures r.keys[i] == all[i].0 && all[i].0 in r.lists && r.lists[all[i].0] == [all[i].1]
    {
      if i < |ps| {
        assert all[i] == ps[i];
      }
    }
  }
}
