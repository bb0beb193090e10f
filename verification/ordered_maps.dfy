/** Python dictionaries as association lists in insertion order: assigning to
    a present key replaces its value where it stands, assigning to a new key
    appends it. */
module OrderedMaps {
  import opened Wrappers

  type OMap<K, V> = seq<(K, V)>

  function Keys<K, V>(m: OMap<K, V>): (ks: seq<K>)
    ensures |ks| == |m|
    ensures forall i :: 0 <= i < |m| ==> ks[i] == m[i].0
  {
    seq(|m|, i requires 0 <= i < |m| => m[i].0)
  }

  function Values<K, V>(m: OMap<K, V>): (vs: seq<V>)
    ensures |vs| == |m|
    ensures forall i :: 0 <= i < |m| ==> vs[i] == m[i].1
  {
    seq(|m|, i requires 0 <= i < |m| => m[i].1)
  }

  /** No key is bound twice, as in every Python dict. */
  predicate UniqueKeys<K(==), V>(m: OMap<K, V>) {
    forall i, j :: 0 <= i < j < |m| ==> m[i].0 != m[j].0
  }

  /** The position at which `k` is bound, searching from `from`. */
  function IndexFrom<K(==), V>(m: OMap<K, V>, k: K, from: nat): (r: Option<nat>)
    requires from <= |m|
    ensures r.Some? ==> from <= r.value < |m| && m[r.value].0 == k
    ensures forall j :: from <= j < |m| && (r.None? || j < r.value) ==> m[j].0 != k
    decreases |m| - from
  {
    if from == |m| then None
    else if m[from].0 == k then Some(from)
    else IndexFrom(m, k, from + 1)
  }

  function IndexOf<K(==), V>(m: OMap<K, V>, k: K): (r: Option<nat>)
    ensures r.Some? ==> r.value < |m| && m[r.value].0 == k
    ensures forall j :: 0 <= j < |m| && (r.None? || j < r.value) ==> m[j].0 != k
  {
    IndexFrom(m, k, 0)
  }

  /** The search for a key only looks at keys: it finds the same position in
      a map whose keys agree on a prefix holding it, or holding no later copy. */
  lemma IndexOfAgree<K, V>(m: OMap<K, V>, r: OMap<K, V>, k: K)
    requires |m| <= |r|
    requires forall j :: 0 <= j < |m| ==> r[j].0 == m[j].0 || (m[j].0 != k && r[j].0 != k)
    requires forall j :: |m| <= j < |r| ==> r[j].0 != k
    ensures IndexOf(r, k) == IndexOf(m, k)
  {
    match IndexOf(m, k)
    case Some(i) => IndexOfIs(r, k, i);
    case None =>
  }

  /** A key is found at the first position that binds it. */
  lemma IndexOfIs<K, V>(m: OMap<K, V>, k: K, i: nat)
    requires i < |m| && m[i].0 == k
    requires forall j :: 0 <= j < i ==> m[j].0 != k
    ensures IndexOf(m, k) == Some(i)
  {
  }

  /** `d.get(k)`: the value bound to `k`, if any. */
  function Get<K(==), V>(m: OMap<K, V>, k: K): (r: Option<V>)
    ensures r.None? <==> k !in Keys(m)
    ensures r.Some? ==> (k, r.value) in m
  {
    match IndexOf(m, k)
    case None => None
    case Some(i) => Some(m[i].1)
  }

  /** `d[k] = v` */
  function Put<K(==, !new), V>(m: OMap<K, V>, k: K, v: V): (r: OMap<K, V>)
    ensures Get(r, k) == Some(v)
    ensures forall k' :: k' != k ==> Get(r, k') == Get(m, k')
    ensures k in Keys(m) ==> Keys(r) == Keys(m)
    ensures k !in Keys(m) ==> Keys(r) == Keys(m) + [k]
    ensures UniqueKeys(m) ==> UniqueKeys(r)
  {
    match IndexOf(m, k)
    case None =>
      var r := m + [(k, v)];
      assert forall k' :: k' != k ==> IndexOf(r, k') == IndexOf(m, k') by {
        forall k' | k' != k { IndexOfAgree(m, r, k'); }
      }
      IndexOfIs(r, k, |m|);
      r
    case Some(i) =>
      var r := m[i := (k, v)];
      assert forall k' :: k' != k ==> IndexOf(r, k') == IndexOf(m, k') by {
        forall k' | k' != k { IndexOfAgree(m, r, k'); }
      }
      IndexOfIs(r, k, i);
      r
  }

  /** `{k: v for (k, v) in pairs}`: later pairs overwrite earlier ones. */
  function FromPairs<K(==, !new), V>(pairs: seq<(K, V)>): (r: OMap<K, V>)
    ensures UniqueKeys(r)
  {
    if |pairs| == 0 then []
    else Put(FromPairs(pairs[..|pairs| - 1]), pairs[|pairs| - 1].0, pairs[|pairs| - 1].1)
  }

  /** Some pair carries key `k`. */
  ghost predicate Carried<K, V>(pairs: seq<(K, V)>, k: K) {
    exists i :: 0 <= i < |pairs| && pairs[i].0 == k
  }

  /** A key is bound exactly when some pair carries it. */
  lemma {:induction false} FromPairsKeys<K(!new), V>(pairs: seq<(K, V)>, k: K)
    ensures Get(FromPairs(pairs), k).Some? <==> Carried(pairs, k)
  {
    if |pairs| > 0 {
      var n := |pairs| - 1;
      var init := pairs[..n];
      FromPairsKeys(init, k);
      CarriedSnoc(pairs, k);
      assert FromPairs(pairs) == Put(FromPairs(init), pairs[n].0, pairs[n].1);
    }
  }

  lemma CarriedSnoc<K, V>(pairs: seq<(K, V)>, k: K)
    requires |pairs| > 0
    ensures Carried(pairs, k) <==> Carried(pairs[..|pairs| - 1], k) || pairs[|pairs| - 1].0 == k
  {
    var n := |pairs| - 1;
    if Carried(pairs, k) && pairs[n].0 != k {
      var i :| 0 <= i < |pairs| && pairs[i].0 == k;
      assert pairs[..n][i].0 == k;
    }
    if Carried(pairs[..n], k) {
      var i :| 0 <= i < n && pairs[..n][i].0 == k;
      assert pairs[i].0 == k;
    }
  }

  /** Building a dict from pairs: a key ends up bound to the value of the
      last pair that carries it. */
  lemma {:induction false} FromPairsLast<K(!new), V>(pairs: seq<(K, V)>, i: nat)
    requires i < |pairs|
    requires forall j :: i < j < |pairs| ==> pairs[j].0 != pairs[i].0
    ensures Get(FromPairs(pairs), pairs[i].0) == Some(pairs[i].1)
  {
    var n := |pairs| - 1;
    if i < n {
      var init := pairs[..n];
      assert Get(FromPairs(init), pairs[i].0) == Some(pairs[i].1) by {
        assert init[i] == pairs[i];
        FromPairsLast(init, i);
      }
      FromPairsSnoc(pairs, pairs[i].0);
    } else {
      FromPairsSnoc(pairs, pairs[i].0);
    }
  }

  /** The last pair decides the binding of its key and leaves the others
      as the earlier pairs bound them. */
  lemma FromPairsSnoc<K(!new), V>(pairs: seq<(K, V)>, k: K)
    requires |pairs| > 0
    ensures Get(FromPairs(pairs), k) ==
      if k == pairs[|pairs| - 1].0 then Some(pairs[|pairs| - 1].1) else Get(FromPairs(pairs[..|pairs| - 1]), k)
  {
    var n := |pairs| - 1;
    assert FromPairs(pairs) == Put(FromPairs(pairs[..n]), pairs[n].0, pairs[n].1);
  }

  /** Every binding of a dict built from pairs is one of the pairs. */
  lemma {:induction false} FromPairsFrom<K(!new), V>(pairs: seq<(K, V)>, k: K)
    ensures Get(FromPairs(pairs), k).Some? ==> (k, Get(FromPairs(pairs), k).value) in pairs
  {
    if |pairs| > 0 {
      var n := |pairs| - 1;
      var init := pairs[..n];
      FromPairsFrom(init, k);
      assert forall x :: x in init ==> x in pairs;
      assert pairs[n] in pairs;
    }
  }

  /** In a dict the binding stored at a position is the one a lookup of its
      key finds. */
  lemma GetAt<K, V>(m: OMap<K, V>, i: nat)
    requires UniqueKeys(m) && i < |m|
    ensures Get(m, m[i].0) == Some(m[i].1)
  {
    IndexOfIs(m, m[i].0, i);
  }

  /** A dict is empty exactly when it binds no key. */
  lemma NothingBound<K, V>(m: OMap<K, V>)
    ensures m == [] <==> forall k :: Get(m, k).None?
  {
    if m != [] {
      assert Get(m, m[0].0).Some?;
    }
  }
}
