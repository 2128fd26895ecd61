/**
 A JavaScript Map as the server uses it: its entries in insertion order, one
 per key. `set` on a present key replaces the value where it stands, `set` on
 a new key appends, `delete` removes the entry and says whether there was one,
 and `values()` lists the values in insertion order.
 */
module JsMap {
  import opened Js

  datatype OrderedMap<K, V> = OrderedMap(entries: seq<(K, V)>)

  /** No key occurs twice. */
  predicate Valid<K(==), V>(m: OrderedMap<K, V>)
  {
    forall i, j :: 0 <= i < j < |m.entries| ==> m.entries[i].0 != m.entries[j].0
  }

  function Keys<K, V>(m: OrderedMap<K, V>): (r: seq<K>)
    ensures |r| == |m.entries|
    ensures forall i :: 0 <= i < |r| ==> r[i] == m.entries[i].0
  {
    seq(|m.entries|, i requires 0 <= i < |m.entries| => m.entries[i].0)
  }

  /** `Array.from(m.values())`. */
  function Values<K, V>(m: OrderedMap<K, V>): (r: seq<V>)
    ensures |r| == |m.entries|
    ensures forall i :: 0 <= i < |r| ==> r[i] == m.entries[i].1
  {
    seq(|m.entries|, i requires 0 <= i < |m.entries| => m.entries[i].1)
  }

  /** The position of the first entry with key k. */
  function IndexOf<K(==), V>(entries: seq<(K, V)>, k: K): (r: Option<nat>)
    ensures r.Some? ==> r.value < |entries| && entries[r.value].0 == k
    ensures r.Some? ==> forall j :: 0 <= j < r.value ==> entries[j].0 != k
    ensures r.None? ==> forall j :: 0 <= j < |entries| ==> entries[j].0 != k
  {
    if |entries| == 0 then None
    else if entries[0].0 == k then Some(0)
    else
      match IndexOf(entries[1..], k)
      case None => None
      case Some(i) => Some(i + 1)
  }

  /** Whatever the entries, the first position holding key k is the one IndexOf gives. */
  lemma IndexOfFirst<K, V>(entries: seq<(K, V)>, k: K, i: nat)
    requires i < |entries| && entries[i].0 == k
    requires forall j :: 0 <= j < i ==> entries[j].0 != k
    ensures IndexOf(entries, k) == Some(i)
  {
    match IndexOf(entries, k)
    case None =>
    case Some(j) =>
      if j < i {
      } else if i < j {
      }
  }

  /** Two entry lists with the same key at every position find every key at the same
      position. */
  lemma IndexOfSameKeys<K, V>(a: seq<(K, V)>, b: seq<(K, V)>, k: K)
    requires |a| == |b| && forall j :: 0 <= j < |a| ==> a[j].0 == b[j].0
    ensures IndexOf(a, k) == IndexOf(b, k)
  {
    if IndexOf(a, k).Some? {
      IndexOfFirst(b, k, IndexOf(a, k).value);
    } else if IndexOf(b, k).Some? {
      IndexOfFirst(a, k, IndexOf(b, k).value);
    }
  }

  /** `m.has(k)`. */
  predicate Has<K(==), V>(m: OrderedMap<K, V>, k: K)
  {
    IndexOf(m.entries, k).Some?
  }

  /** `m.get(k)`: None stands for undefined. */
  function Get<K(==), V>(m: OrderedMap<K, V>, k: K): Option<V>
  {
    match IndexOf(m.entries, k)
    case None => None
    case Some(i) => Some(m.entries[i].1)
  }

  /** `m.set(k, v)`. */
  function Set<K(==), V>(m: OrderedMap<K, V>, k: K, v: V): OrderedMap<K, V>
  {
    match IndexOf(m.entries, k)
    case None => OrderedMap(m.entries + [(k, v)])
    case Some(i) => OrderedMap(m.entries[i := (k, v)])
  }

  /** `m.delete(k)`: the map without k's entry, and whether there was one. */
  function Delete<K(==), V>(m: OrderedMap<K, V>, k: K): (OrderedMap<K, V>, bool)
  {
    match IndexOf(m.entries, k)
    case None => (m, false)
    case Some(i) => (OrderedMap(m.entries[..i] + m.entries[i + 1..]), true)
  }

  /** `m.clear()`. */
  function Clear<K, V>(): OrderedMap<K, V>
  {
    OrderedMap([])
  }

  /** The key has an entry exactly when it is among the keys. */
  lemma HasKeys<K, V>(m: OrderedMap<K, V>, k: K)
    ensures Has(m, k) <==> k in Keys(m)
  {
    if k in Keys(m) {
      var i :| 0 <= i < |Keys(m)| && Keys(m)[i] == k;
      assert m.entries[i].0 == k;
    }
  }

  /** After a set, the key reads back the value just stored and every other key reads
      what it read before. */
  lemma GetSet<K, V>(m: OrderedMap<K, V>, k: K, v: V, other: K)
    ensures Get(Set(m, k, v), k) == Some(v)
    ensures other != k ==> Get(Set(m, k, v), other) == Get(m, other)
  {
    var e := Set(m, k, v).entries;
    match IndexOf(m.entries, k)
    case None =>
      IndexOfFirst(e, k, |m.entries|);
      if other != k {
        match IndexOf(m.entries, other)
        case None =>
        case Some(j) => IndexOfFirst(e, other, j);
      }
    case Some(i) =>
      IndexOfSameKeys(m.entries, e, k);
      IndexOfSameKeys(m.entries, e, other);
  }

  /** A set keeps every key where it is and appends a new key at the end; a present key
      keeps its position. */
  lemma SetKeys<K, V>(m: OrderedMap<K, V>, k: K, v: V)
    ensures Keys(Set(m, k, v)) == if Has(m, k) then Keys(m) else Keys(m) + [k]
  {
  }

  /** Setting the same value again changes nothing. */
  lemma SetIdempotent<K, V>(m: OrderedMap<K, V>, k: K, v: V)
    ensures Set(Set(m, k, v), k, v) == Set(m, k, v)
  {
    GetSet(m, k, v, k);
    var e := Set(m, k, v).entries;
    var i := IndexOf(e, k).value;
    assert e[i] == (k, v);
    assert e[i := (k, v)] == e;
  }

  /** A set keeps the keys distinct. */
  lemma SetValid<K, V>(m: OrderedMap<K, V>, k: K, v: V)
    requires Valid(m)
    ensures Valid(Set(m, k, v))
  {
  }

  /** The entries without the one at position i. */
  function Without<K, V>(entries: seq<(K, V)>, i: nat): (r: seq<(K, V)>)
    requires i < |entries|
    ensures |r| == |entries| - 1
    ensures forall j :: 0 <= j < |r| ==> r[j] == if j < i then entries[j] else entries[j + 1]
  {
    entries[..i] + entries[i + 1..]
  }

  /** On distinct keys, delete reports whether the key had an entry, leaves it without
      one, keeps every other key's value and the order of the remaining keys. */
  lemma DeleteSpec<K, V>(m: OrderedMap<K, V>, k: K, other: K)
    requires Valid(m)
    ensures var (n, found) := Delete(m, k);
            && found == Has(m, k)
            && Valid(n)
            && Get(n, k).None?
            && (other != k ==> Get(n, other) == Get(m, other))
            && (found ==> Keys(n) == Keys(m)[..IndexOf(m.entries, k).value] + Keys(m)[IndexOf(m.entries, k).value + 1..])
            && (!found ==> n == m)
  {
    match IndexOf(m.entries, k)
    case None =>
    case Some(i) =>
      var e := Without(m.entries, i);
      assert Delete(m, k).0 == OrderedMap(e);
      WithoutKey(m.entries, i);
      WithoutKeys(m, i);
      if other != k {
        WithoutOther(m.entries, i, other);
      }
  }

  /** Removing the entry at position i removes the i-th key and keeps the others in order. */
  lemma WithoutKeys<K, V>(m: OrderedMap<K, V>, i: nat)
    requires i < |m.entries|
    ensures Keys(OrderedMap(Without(m.entries, i))) == Keys(m)[..i] + Keys(m)[i + 1..]
  {
  }

  /** On distinct keys, removing the entry of key k leaves no entry with key k. */
  lemma WithoutKey<K, V>(entries: seq<(K, V)>, i: nat)
    requires Valid(OrderedMap(entries)) && i < |entries|
    ensures IndexOf(Without(entries, i), entries[i].0).None?
    ensures Valid(OrderedMap(Without(entries, i)))
  {
    var e := Without(entries, i);
    var k := entries[i].0;
    assert forall j :: 0 <= j < |e| ==> e[j].0 != k;
  }

  /** Removing the entry at position i moves every other key's first position down by
      one if it lay after i, and leaves it otherwise. */
  lemma WithoutOther<K, V>(entries: seq<(K, V)>, i: nat, other: K)
    requires i < |entries| && entries[i].0 != other
    ensures Get(OrderedMap(Without(entries, i)), other) == Get(OrderedMap(entries), other)
  {
    var e := Without(entries, i);
    match IndexOf(entries, other)
    case None =>
      assert forall j :: 0 <= j < |e| ==> e[j].0 != other;
    case Some(j) =>
      if j < i {
        IndexOfFirst(e, other, j);
      } else {
        assert e[j - 1] == entries[j];
        IndexOfFirst(e, other, j - 1);
      }
  }

  /** On distinct keys, the values are listed in the order of the keys: the i-th value is
      what the i-th key reads. */
  lemma ValuesInKeyOrder<K, V>(m: OrderedMap<K, V>, i: nat)
    requires Valid(m) && i < |m.entries|
    ensures Get(m, Keys(m)[i]) == Some(Values(m)[i])
  {
    IndexOfFirst(m.entries, m.entries[i].0, i);
  }

  /** A cleared map has no entries and no key reads a value. */
  lemma ClearEmpty<K, V>(k: K)
    ensures Keys(Clear<K, V>()) == [] && Values(Clear<K, V>()) == [] && Get(Clear<K, V>(), k).None?
  {
  }
}
