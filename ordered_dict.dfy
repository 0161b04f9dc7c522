/**
 * A Python `dict` with string-like keys, as the bot uses it: its items in
 * insertion order. Assigning to a key that is present replaces the value in
 * place (the key keeps its position); assigning to a new key appends it.
 */
module OrderedDict {

  /** The items of a dict, in iteration order (`d.items()`). */
  type Dict<K, V> = seq<(K, V)>

  /** The keys of a dict, in iteration order (`d.keys()`). */
  function Keys<K, V>(d: Dict<K, V>): seq<K>
  {
    seq(|d|, i requires 0 <= i < |d| => d[i].0)
  }

  /** The invariant every Python dict keeps: no key occurs twice. */
  ghost predicate UniqueKeys<K, V>(d: Dict<K, V>)
  {
    forall i, j :: 0 <= i < j < |d| ==> d[i].0 != d[j].0
  }

  /** Position of the first item whose key is `k`, or `|d|` when there is none. */
  function Find<K(==), V>(d: Dict<K, V>, k: K): (i: nat)
    ensures i <= |d|
    ensures i < |d| ==> d[i].0 == k
    ensures forall j :: 0 <= j < i ==> d[j].0 != k
    ensures i == |d| <==> k !in Keys(d)
  {
    if d == [] then 0
    else if d[0].0 == k then
      assert Keys(d)[0] == k;
      0
    else
      var i := 1 + Find(d[1..], k);
      assert forall j :: 0 <= j < |d| ==> Keys(d)[j] == d[j].0;
      i
  }

  /** The mapping a dict stands for: each key to the value of its item. */
  function ToMap<K(==), V>(d: Dict<K, V>): map<K, V>
  {
    map k | k in Keys(d) :: d[Find(d, k)].1
  }

  /** `d[k] = v`: overwrite the value of `k` in place, or append a new item. */
  function Put<K(==), V>(d: Dict<K, V>, k: K, v: V): (r: Dict<K, V>)
    ensures Keys(r) == if k in Keys(d) then Keys(d) else Keys(d) + [k]
    ensures (k, v) in r
  {
    var i := Find(d, k);
    if i < |d| then
      assert d[i := (k, v)][i] == (k, v);
      d[i := (k, v)]
    else
      assert (d + [(k, v)])[|d|] == (k, v);
      d + [(k, v)]
  }

  /** In a dict, the item at position `j` is the one `Find` returns for its key. */
  lemma FindUnique<K, V>(d: Dict<K, V>, j: int)
    requires UniqueKeys(d) && 0 <= j < |d|
    ensures Find(d, d[j].0) == j
  {
    assert Keys(d)[j] == d[j].0;
  }

  /** Looking a key up in a dict gives the value stored beside it. */
  lemma LookupItem<K, V>(d: Dict<K, V>, j: int)
    requires UniqueKeys(d) && 0 <= j < |d|
    ensures d[j].0 in ToMap(d) && ToMap(d)[d[j].0] == d[j].1
  {
    assert Keys(d)[j] == d[j].0;
    FindUnique(d, j);
  }

  /** `d[k] = v` keeps the keys of a dict unique. */
  lemma PutUnique<K, V>(d: Dict<K, V>, k: K, v: V)
    requires UniqueKeys(d)
    ensures UniqueKeys(Put(d, k, v))
  {
    var r := Put(d, k, v);
    var i := Find(d, k);
    forall a, b | 0 <= a < b < |r| ensures r[a].0 != r[b].0 {
      assert Keys(r)[a] == r[a].0 && Keys(r)[b] == r[b].0;
      if i == |d| && b == |d| {
        assert Keys(d)[a] == d[a].0;
      }
    }
  }

  /** After `d[k] = v`, looking `k` up gives `v`, whether or not `k` was present. */
  lemma PutSameKey<K, V>(d: Dict<K, V>, k: K, v: V)
    requires UniqueKeys(d)
    ensures k in ToMap(Put(d, k, v)) && ToMap(Put(d, k, v))[k] == v
  {
    var r := Put(d, k, v);
    PutUnique(d, k, v);
    var i := Find(d, k);
    assert r[i] == (k, v);
    LookupItem(r, i);
  }

  /** After `d[k] = v`, every other key is present exactly as before, with its old value. */
  lemma PutOtherKey<K, V>(d: Dict<K, V>, k: K, v: V, x: K)
    requires UniqueKeys(d) && x != k
    ensures x in ToMap(Put(d, k, v)) <==> x in ToMap(d)
    ensures x in ToMap(d) ==> ToMap(Put(d, k, v))[x] == ToMap(d)[x]
  {
    var r := Put(d, k, v);
    assert x in Keys(r) <==> x in Keys(d);
    if x in Keys(d) {
      var j := Find(d, x);
      assert r[j] == d[j];
      PutUnique(d, k, v);
      LookupItem(r, j);
      LookupItem(d, j);
    }
  }

  /**
   * `d[k] = v` keeps the keys unique, maps `k` to `v` whether or not `k` was
   * present, and leaves every other key's value unchanged.
   */
  lemma PutValue<K, V>(d: Dict<K, V>, k: K, v: V)
    requires UniqueKeys(d)
    ensures UniqueKeys(Put(d, k, v))
    ensures ToMap(Put(d, k, v)) == ToMap(d)[k := v]
  {
    var r := Put(d, k, v);
    var m := ToMap(d)[k := v];
    PutUnique(d, k, v);
    PutSameKey(d, k, v);
    forall x | x != k
      ensures (x in ToMap(r) <==> x in m) && (x in m ==> ToMap(r)[x] == m[x])
    {
      PutOtherKey(d, k, v, x);
    }
    assert ToMap(r).Keys == m.Keys;
  }
}
