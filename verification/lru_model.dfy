/** The behaviour an LRU cache promises, without the linked arena: the cached
    keys in recency order (most recent first) and the value of each. */
module LruModel {
  import opened Wrappers

  datatype Model<K, V> = Model(capacity: nat, order: seq<K>, values: map<K, V>)

  predicate Distinct<T(==)>(s: seq<T>) {
    forall p, q :: 0 <= p < q < |s| ==> s[p] != s[q]
  }

  /** The recency order lists each cached key exactly once. */
  predicate ModelInv<K(==), V>(m: Model<K, V>) {
    && Distinct(m.order)
    && (forall p :: 0 <= p < |m.order| ==> m.order[p] in m.values)
    && (forall k :: k in m.values ==> k in m.order)
  }

  /** `s` with every occurrence of `x` dropped, the rest kept in order. */
  function Without<T(==)>(s: seq<T>, x: T): (r: seq<T>)
    ensures forall p :: 0 <= p < |r| ==> r[p] in s && r[p] != x
    ensures forall y :: y in r ==> y in s && y != x
    ensures forall y :: y in s && y != x ==> y in r
    ensures x !in s ==> r == s
    ensures Distinct(s) ==> Distinct(r)
    ensures Distinct(s) && x in s ==> |r| == |s| - 1
  {
    if |s| == 0 then []
    else
      var rest := Without(s[1..], x);
      assert Distinct(s) ==> Distinct(s[1..]) && s[0] !in s[1..] by {
        if Distinct(s) {
          DistinctTail(s);
        }
      }
      assert s == [s[0]] + s[1..];
      if s[0] == x then rest
      else
        assert Distinct(s) ==> Distinct([s[0]] + rest) by {
          if Distinct(s) {
            PrependDistinct(s[0], rest);
          }
        }
        [s[0]] + rest
  }

  /** A list without repeats has a tail without repeats, which lacks its
      head. */
  lemma DistinctTail<T>(s: seq<T>)
    requires Distinct(s) && |s| > 0
    ensures Distinct(s[1..]) && s[0] !in s[1..]
  {
    var t := s[1..];
    forall a, b | 0 <= a < b < |t|
      ensures t[a] != t[b]
    {
      assert t[a] == s[a + 1] && t[b] == s[b + 1];
    }
    forall q | 0 <= q < |t|
      ensures t[q] != s[0]
    {
      assert t[q] == s[q + 1];
    }
  }

  /** The cached keys, and their number. */
  function Size<K, V>(m: Model<K, V>): nat {
    |m.order|
  }

  /** Inserting a new key into a full cache first drops the least recently
      used key; a zero capacity never drops anything, as nothing is cached
      when the count equals it. */
  function MakeRoom<K(==), V>(m: Model<K, V>): (r: Model<K, V>)
    ensures r.capacity == m.capacity
    ensures |m.order| == m.capacity && |m.order| > 0 ==>
      r.order == m.order[..|m.order| - 1] && r.values == m.values - {m.order[|m.order| - 1]}
    ensures !(|m.order| == m.capacity && |m.order| > 0) ==> r == m
  {
    if |m.order| == m.capacity && |m.order| > 0 then
      var lru := m.order[|m.order| - 1];
      Model(m.capacity, m.order[..|m.order| - 1], m.values - {lru})
    else m
  }

  /** `insert`: the key becomes the most recent and maps to `value`; the
      previous value is returned. A new key may first evict. */
  function ModelInsert<K(==), V>(m: Model<K, V>, key: K, value: V): (r: (Model<K, V>, Option<V>))
    ensures r.0.capacity == m.capacity
    ensures |r.0.order| > 0 && r.0.order[0] == key
    ensures key in r.0.values && r.0.values[key] == value
    ensures r.1 == if key in m.values then Some(m.values[key]) else None
  {
    if key in m.values then
      (Model(m.capacity, [key] + Without(m.order, key), m.values[key := value]), Some(m.values[key]))
    else
      var room := MakeRoom(m);
      (Model(m.capacity, [key] + room.order, room.values[key := value]), None)
  }

  /** `get`: a hit makes the key the most recent and yields its value. */
  function ModelGet<K(==), V>(m: Model<K, V>, key: K): (r: (Model<K, V>, Option<V>))
    ensures r.0.capacity == m.capacity && r.0.values == m.values
    ensures r.1 == if key in m.values then Some(m.values[key]) else None
    ensures key in m.values ==> |r.0.order| > 0 && r.0.order[0] == key
    ensures key !in m.values ==> r.0 == m
  {
    if key in m.values then (Model(m.capacity, [key] + Without(m.order, key), m.values), Some(m.values[key]))
    else (m, None)
  }

  /** `remove`: the key leaves the cache; the others keep their order. */
  function ModelRemove<K(==), V>(m: Model<K, V>, key: K): (r: (Model<K, V>, Option<V>))
    ensures r.0.capacity == m.capacity && key !in r.0.values
    ensures r.1 == if key in m.values then Some(m.values[key]) else None
  {
    (Model(m.capacity, Without(m.order, key), m.values - {key}),
     if key in m.values then Some(m.values[key]) else None)
  }

  /* ---------------- properties of the model ---------------- */

  lemma MakeRoomKeepsInv<K, V>(m: Model<K, V>)
    requires ModelInv(m)
    ensures ModelInv(MakeRoom(m))
  {
    if |m.order| == m.capacity && |m.order| > 0 {
      var r := MakeRoom(m);
      var n := |m.order|;
      forall k | k in r.values
        ensures k in r.order
      {
        var p :| 0 <= p < n && m.order[p] == k;
        assert p != n - 1;
        assert r.order[p] == k;
      }
    }
  }

  lemma PrependDistinct<T>(x: T, s: seq<T>)
    requires Distinct(s) && x !in s
    ensures Distinct([x] + s)
  {
    var t := [x] + s;
    forall p, q | 0 <= p < q < |t|
      ensures t[p] != t[q]
    {
      assert t[q] == s[q - 1];
      if p > 0 {
        assert t[p] == s[p - 1];
      }
    }
  }

  /** Putting `key` at the front of `s` lists exactly the keys of `s`
      (with `key` dropped) and `key` itself. */
  lemma FrontKeepsInv<K, V>(capacity: nat, key: K, s: seq<K>, values: map<K, V>)
    requires Distinct(s) && key !in s && key in values
    requires forall p :: 0 <= p < |s| ==> s[p] in values
    requires forall k :: k in values && k != key ==> k in s
    ensures ModelInv(Model(capacity, [key] + s, values))
  {
    PrependDistinct(key, s);
    var t := [key] + s;
    forall p | 0 <= p < |t|
      ensures t[p] in values
    {
      if p > 0 {
        assert t[p] == s[p - 1];
      }
    }
    forall k | k in values
      ensures k in t
    {
      if k == key {
        assert t[0] == key;
      } else {
        assert k in s;
      }
    }
  }

  /** `insert` keeps each cached key listed exactly once. */
  lemma InsertKeepsInv<K, V>(m: Model<K, V>, key: K, value: V)
    requires ModelInv(m)
    ensures ModelInv(ModelInsert(m, key, value).0)
  {
    if key in m.values {
      var s := Without(m.order, key);
      forall p | 0 <= p < |s|
        ensures s[p] in m.values[key := value]
      {
        assert s[p] in s;
      }
      FrontKeepsInv(m.capacity, key, s, m.values[key := value]);
    } else {
      MakeRoomKeepsInv(m);
      var room := MakeRoom(m);
      FrontKeepsInv(m.capacity, key, room.order, room.values[key := value]);
    }
  }

  /** `get` keeps each cached key listed exactly once. */
  lemma GetKeepsInv<K, V>(m: Model<K, V>, key: K)
    requires ModelInv(m)
    ensures ModelInv(ModelGet(m, key).0)
  {
    if key in m.values {
      var s := Without(m.order, key);
      forall p | 0 <= p < |s|
        ensures s[p] in m.values
      {
        assert s[p] in s;
      }
      FrontKeepsInv(m.capacity, key, s, m.values);
    }
  }

  /** `remove` keeps each cached key listed exactly once. */
  lemma RemoveKeepsInv<K, V>(m: Model<K, V>, key: K)
    requires ModelInv(m)
    ensures ModelInv(ModelRemove(m, key).0)
  {
    var s := Without(m.order, key);
    forall p | 0 <= p < |s|
      ensures s[p] in m.values - {key}
    {
      assert s[p] in s;
    }
    forall k | k in m.values - {key}
      ensures k in s
    {
      assert k in m.order;
    }
  }

  /** Removing a key that is not cached changes nothing. */
  lemma RemoveAbsent<K, V>(m: Model<K, V>, key: K)
    requires key !in m.order && key !in m.values
    ensures ModelRemove(m, key) == (m, None)
  {
    assert m.values - {key} == m.values;
  }

  /** With a positive capacity, inserting never takes the cache over it. */
  lemma InsertWithinCapacity<K, V>(m: Model<K, V>, key: K, value: V)
    requires ModelInv(m) && 0 < m.capacity && Size(m) <= m.capacity
    ensures Size(ModelInsert(m, key, value).0) <= m.capacity
  {
  }

  /** Inserting a new key into a full cache evicts exactly the least
      recently used key and keeps every other entry. */
  lemma InsertEvictsLeastRecent<K, V>(m: Model<K, V>, key: K, value: V)
    requires ModelInv(m) && key !in m.values && 0 < Size(m) == m.capacity
    ensures var r := ModelInsert(m, key, value).0;
      var lru := m.order[|m.order| - 1];
      && lru !in r.values
      && Size(r) == Size(m)
      && forall k :: k in m.values && k != lru ==> k in r.values && r.values[k] == m.values[k]
  {
  }

  /** With capacity zero the count is never reached again once a key is
      cached, so every new key grows the cache. */
  lemma ZeroCapacityNeverEvicts<K, V>(m: Model<K, V>, key: K, value: V)
    requires ModelInv(m) && m.capacity == 0 && key !in m.values
    ensures Size(ModelInsert(m, key, value).0) == Size(m) + 1
    ensures forall k :: k in m.values ==> k in ModelInsert(m, key, value).0.values
  {
  }

  /** Inserting an existing key keeps the count and every other entry. */
  lemma UpdateKeepsOthers<K, V>(m: Model<K, V>, key: K, value: V)
    requires ModelInv(m) && key in m.values
    ensures var r := ModelInsert(m, key, value).0;
      && Size(r) == Size(m)
      && forall k :: k in m.values && k != key ==> k in r.values && r.values[k] == m.values[k]
  {
  }
}
