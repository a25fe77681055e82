/**
  A value model of the insertion-ordered key/value map that the cache keeps
  its entries in. Iteration order is insertion order: `delete` removes a key
  from the order, `set` of a new key appends it, and `set` of a key that is
  already present replaces its value but keeps its position. Keys are
  compared by raw equality.
 */
module OrderedMaps {

  datatype Option<T> = None | Some(value: T)

  /** The keys in insertion order, and the value stored under each key. */
  datatype OrderedMap<K(==), V> = OrderedMap(order: seq<K>, values: map<K, V>)

  predicate Distinct<K(==)>(s: seq<K>) {
    forall i, j :: 0 <= i < j < |s| ==> s[i] != s[j]
  }

  /** Every key appears once in the order, and exactly the ordered keys have a value. */
  predicate WellFormed<K(==), V>(m: OrderedMap<K, V>) {
    && Distinct(m.order)
    && (forall k :: k in m.values ==> k in m.order)
    && (forall k :: k in m.order ==> k in m.values)
  }

  /** A new, empty map. */
  function Empty<K(==), V>(): (m: OrderedMap<K, V>)
    ensures WellFormed(m) && |m.order| == 0
    ensures forall k :: k !in m.values
  {
    OrderedMap([], map[])
  }

  /** `has`: membership, answered by the value index. */
  function Has<K(==), V>(m: OrderedMap<K, V>, k: K): (b: bool)
    ensures WellFormed(m) ==> (b <==> k in m.order)
  {
    k in m.values
  }

  /** The position of `k` in `s`: its first (for distinct `s`, its only) occurrence. */
  function IndexOf<K(==)>(s: seq<K>, k: K): (i: nat)
    requires k in s
    ensures i < |s| && s[i] == k && k !in s[..i]
  {
    if s[0] == k then 0 else 1 + IndexOf(s[1..], k)
  }

  /** `s` without the element at position `i`, the others in their order. */
  function RemoveAt<K>(s: seq<K>, i: nat): (r: seq<K>)
    requires i < |s|
    ensures |r| == |s| - 1
    ensures forall j :: 0 <= j < i ==> r[j] == s[j]
    ensures forall j :: i <= j < |r| ==> r[j] == s[j + 1]
  {
    s[..i] + s[i + 1..]
  }

  /** Cutting one slot out of a sequence without repeats removes exactly that element. */
  lemma RemoveAtDistinct<K>(s: seq<K>, i: nat)
    requires Distinct(s) && i < |s|
    ensures Distinct(RemoveAt(s, i))
    ensures forall x :: x in RemoveAt(s, i) ==> x in s && x != s[i]
    ensures forall x :: x in s && x != s[i] ==> x in RemoveAt(s, i)
  {
    var r := RemoveAt(s, i);
    forall a, b | 0 <= a < b < |r| ensures r[a] != r[b] {
      var a' := if a < i then a else a + 1;
      var b' := if b < i then b else b + 1;
      assert r[a] == s[a'] && r[b] == s[b'];
    }
    forall x | x in r ensures x in s && x != s[i] {
      var j :| 0 <= j < |r| && r[j] == x;
      assert r[j] == s[if j < i then j else j + 1];
    }
    forall x | x in s && x != s[i] ensures x in r {
      var j :| 0 <= j < |s| && s[j] == x;
      assert r[if j < i then j else j - 1] == x;
    }
  }

  /** `s` with every occurrence of `k` filtered out, the others in their order. */
  function Without<K(==)>(s: seq<K>, k: K): (r: seq<K>)
    ensures forall x :: x in r ==> x in s && x != k
    ensures forall x :: x in s && x != k ==> x in r
  {
    if s == [] then []
    else if s[0] == k then Without(s[1..], k)
    else [s[0]] + Without(s[1..], k)
  }

  lemma {:induction false} WithoutAbsent<K>(s: seq<K>, k: K)
    requires k !in s
    ensures Without(s, k) == s
  {
    if s != [] {
      WithoutAbsent(s[1..], k);
      assert s == [s[0]] + s[1..];
    }
  }

  /** In a sequence without repeats, cutting out the slot of `k` is filtering `k` out. */
  lemma {:induction false} RemoveAtIsWithout<K>(s: seq<K>, k: K)
    requires Distinct(s) && k in s
    ensures RemoveAt(s, IndexOf(s, k)) == Without(s, k)
  {
    var i := IndexOf(s, k);
    var t := s[1..];
    if i == 0 {
      assert k !in t by {
        forall j | 0 <= j < |t| ensures t[j] != k {
          assert t[j] == s[j + 1];
        }
      }
      WithoutAbsent(t, k);
    } else {
      assert Distinct(t) by {
        forall a, b | 0 <= a < b < |t| ensures t[a] != t[b] {
          assert t[a] == s[a + 1] && t[b] == s[b + 1];
        }
      }
      RemoveAtIsWithout(t, k);
      assert RemoveAt(s, i) == [s[0]] + RemoveAt(t, i - 1) by {
        assert s[..i] == [s[0]] + t[..i - 1];
        assert s[i + 1..] == t[i..];
      }
    }
  }

  /** `delete`: the key leaves both the order and the index; the rest keep their order. */
  function Delete<K(==), V>(m: OrderedMap<K, V>, k: K): (r: OrderedMap<K, V>)
    requires WellFormed(m)
    ensures WellFormed(r) && k !in r.values
    ensures k in m.order ==> r.order == RemoveAt(m.order, IndexOf(m.order, k))
    ensures r.values == m.values - {k}
    ensures k !in m.order ==> r == m
  {
    if k in m.values then
      var i := IndexOf(m.order, k);
      RemoveAtDistinct(m.order, i);
      OrderedMap(RemoveAt(m.order, i), m.values - {k})
    else
      assert m.values - {k} == m.values;
      m
  }

  /** `set`: a new key is appended; a present key gets the new value in its old place. */
  function Set<K(==), V>(m: OrderedMap<K, V>, k: K, v: V): (r: OrderedMap<K, V>)
    requires WellFormed(m)
    ensures WellFormed(r)
    ensures r.values == m.values[k := v]
    ensures k in m.order ==> r.order == m.order
    ensures k !in m.order ==> r.order == m.order + [k]
  {
    if k in m.values then OrderedMap(m.order, m.values[k := v])
    else OrderedMap(m.order + [k], m.values[k := v])
  }

  /** `keys().next().value`: the earliest inserted key, or nothing when empty. */
  function FirstKey<K(==), V>(m: OrderedMap<K, V>): (r: Option<K>)
    ensures r.None? <==> |m.order| == 0
    ensures r.Some? ==> r.value in m.order && IndexOf(m.order, r.value) == 0
  {
    if |m.order| == 0 then None else Some(m.order[0])
  }
}
