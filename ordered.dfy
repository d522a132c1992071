/**
 * The insertion-ordered dictionary the download registry is kept in. Its
 * implementation lives in a library that is not part of this model; what the
 * registry relies on is stated here: entries are pairs with pairwise distinct
 * keys, a position is an index into the entry sequence, assigning to a key that
 * is present replaces its value where it stands, assigning to a new key appends,
 * and removing an entry shifts the later ones down by one.
 */
module OrderedDictionary {
  import opened Options

  type Dict<K, V> = seq<(K, V)>

  ghost predicate DistinctKeys<K, V>(d: Dict<K, V>)
  {
    forall i, j :: 0 <= i < j < |d| ==> d[i].0 != d[j].0
  }

  /** `keys.index(of: k)`: the position of `k`, or `None` when it is absent. */
  function IndexOf<K(==), V>(d: Dict<K, V>, k: K): (r: Option<nat>)
    ensures r.Some? ==> r.value < |d| && d[r.value].0 == k
    ensures r.Some? ==> forall j :: 0 <= j < r.value ==> d[j].0 != k
    ensures r.None? <==> forall j :: 0 <= j < |d| ==> d[j].0 != k
  {
    if d == [] then None
    else if d[0].0 == k then Some(0)
    else
      match IndexOf(d[1..], k)
      case Some(i) => Some(i + 1)
      case None => None
  }

  /** `keys.contains(k)`. */
  predicate HasKey<K(==), V>(d: Dict<K, V>, k: K)
  {
    IndexOf(d, k).Some?
  }

  /** The subscript read `d[k]`. */
  function Lookup<K(==), V>(d: Dict<K, V>, k: K): (r: Option<V>)
    ensures r.Some? <==> HasKey(d, k)
    ensures DistinctKeys(d) ==> forall i :: 0 <= i < |d| && d[i].0 == k ==> r == Some(d[i].1)
  {
    match IndexOf(d, k)
    case Some(i) => Some(d[i].1)
    case None => None
  }

  /** With distinct keys, the entry at position `i` is found at position `i`. */
  lemma IndexOfDistinct<K, V>(d: Dict<K, V>, i: nat)
    requires DistinctKeys(d) && i < |d|
    ensures IndexOf(d, d[i].0) == Some(i)
  {
  }

  /** The position of a key is the first index that holds it. */
  lemma FirstIndex<K, V>(d: Dict<K, V>, k: K, i: nat)
    requires i < |d| && d[i].0 == k
    requires forall j :: 0 <= j < i ==> d[j].0 != k
    ensures IndexOf(d, k) == Some(i)
  {
  }

  /** Positions depend on the keys alone. */
  lemma SameKeysSameIndex<K, V>(d: Dict<K, V>, e: Dict<K, V>, k: K)
    requires |d| == |e| && forall j :: 0 <= j < |d| ==> d[j].0 == e[j].0
    ensures IndexOf(d, k) == IndexOf(e, k)
  {
    if HasKey(d, k) {
      FirstIndex(e, k, IndexOf(d, k).value);
    }
  }

  /** The subscript write `d[k] = v`. */
  function Assign<K(==, !new), V>(d: Dict<K, V>, k: K, v: V): (r: Dict<K, V>)
    ensures DistinctKeys(d) ==> DistinctKeys(r)
    ensures Lookup(r, k) == Some(v)
    ensures forall k' :: k' != k ==> Lookup(r, k') == Lookup(d, k')
    ensures HasKey(d, k) ==> |r| == |d| && IndexOf(r, k) == IndexOf(d, k)
    ensures HasKey(d, k) ==> forall j :: 0 <= j < |d| && j != IndexOf(d, k).value ==> r[j] == d[j]
    ensures !HasKey(d, k) ==> r == d + [(k, v)]
  {
    match IndexOf(d, k)
    case Some(i) =>
      var r := d[i := (k, v)];
      forall k' ensures IndexOf(r, k') == IndexOf(d, k') {
        SameKeysSameIndex(d, r, k');
      }
      r
    case None =>
      var r := d + [(k, v)];
      forall k' | k' != k ensures IndexOf(r, k') == IndexOf(d, k') {
        if HasKey(d, k') {
          FirstIndex(r, k', IndexOf(d, k').value);
        }
      }
      FirstIndex(r, k, |d|);
      r
  }

  /** Assigning to a present key replaces its entry where it stands. */
  lemma AssignInPlace<K(!new), V>(d: Dict<K, V>, k: K, v: V)
    requires HasKey(d, k)
    ensures Assign(d, k, v) == d[IndexOf(d, k).value := (k, v)]
  {
  }

  /** `remove(at: i)`: the entry at `i` goes, the others keep their order. */
  function RemoveAt<K, V>(d: Dict<K, V>, i: nat): (r: Dict<K, V>)
    requires i < |d|
    ensures |r| == |d| - 1
    ensures forall j :: 0 <= j < i ==> r[j] == d[j]
    ensures forall j :: i <= j < |r| ==> r[j] == d[j + 1]
  {
    d[..i] + d[i + 1..]
  }

  /** Removing an entry keeps the keys distinct. */
  lemma RemoveAtDistinct<K, V>(d: Dict<K, V>, i: nat)
    requires DistinctKeys(d) && i < |d|
    ensures DistinctKeys(RemoveAt(d, i))
  {
    var r := RemoveAt(d, i);
    forall a, b | 0 <= a < b < |r|
      ensures r[a].0 != r[b].0
    {
      assert r[a] == d[if a < i then a else a + 1];
      assert r[b] == d[if b < i then b else b + 1];
    }
  }

  /** Removing an entry from a dictionary with distinct keys forgets that key and no other. */
  lemma {:induction false} RemoveAtLookup<K, V>(d: Dict<K, V>, i: nat)
    requires DistinctKeys(d) && i < |d|
    ensures DistinctKeys(RemoveAt(d, i))
    ensures Lookup(RemoveAt(d, i), d[i].0) == None
    ensures forall k :: k != d[i].0 ==> Lookup(RemoveAt(d, i), k) == Lookup(d, k)
    ensures forall k :: k != d[i].0 && HasKey(d, k) ==>
      IndexOf(RemoveAt(d, i), k) == Some(if IndexOf(d, k).value < i then IndexOf(d, k).value else IndexOf(d, k).value - 1)
  {
    var r := RemoveAt(d, i);
    RemoveAtDistinct(d, i);
    forall k
      ensures k != d[i].0 && HasKey(d, k) ==>
        IndexOf(r, k) == Some(if IndexOf(d, k).value < i then IndexOf(d, k).value else IndexOf(d, k).value - 1)
      ensures k != d[i].0 ==> Lookup(r, k) == Lookup(d, k)
      ensures k == d[i].0 ==> Lookup(r, k) == None
    {
      if k != d[i].0 && HasKey(d, k) {
        var p := IndexOf(d, k).value;
        var q := if p < i then p else p - 1;
        assert r[q] == d[p];
        IndexOfDistinct(r, q);
      } else {
        forall j | 0 <= j < |r|
          ensures r[j].0 != k
        {
          assert r[j] == d[if j < i then j else j + 1];
        }
      }
    }
  }

  /**
   * `removeValue(forKey: k)`: the position and value of the removed entry, or
   * `None` with the dictionary unchanged when `k` is absent.
   */
  function RemoveValue<K(==, !new), V>(d: Dict<K, V>, k: K): (r: (Option<(nat, V)>, Dict<K, V>))
    requires DistinctKeys(d)
    ensures r.0.None? <==> !HasKey(d, k)
    ensures r.0.None? ==> r.1 == d
    ensures r.0.Some? ==> r.0.value.0 < |d| && d[r.0.value.0] == (k, r.0.value.1)
    ensures r.0.Some? ==> r.1 == RemoveAt(d, r.0.value.0)
    ensures DistinctKeys(r.1) && !HasKey(r.1, k)
    ensures forall k' :: k' != k ==> Lookup(r.1, k') == Lookup(d, k')
  {
    match IndexOf(d, k)
    case Some(i) =>
      RemoveAtLookup(d, i);
      (Some((i, d[i].1)), RemoveAt(d, i))
    case None => (None, d)
  }
}
