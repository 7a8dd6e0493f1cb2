/** Runs of the cache on concrete keys, each derived from the refinement
    lemmas: the model's answer is computed, and the cache is shown to give
    it, without unfolding the arena operations. */
module LruScenarios {
  import opened Wrappers
  import opened Lru
  import opened LruModel
  import opened LruProofs

  /* ---------------- the model's steps in closed form ---------------- */

  /** A new key joins the front, with no eviction while there is room. */
  lemma InsertWithRoom<K, V>(m: Model<K, V>, key: K, value: V)
    requires key !in m.values && !(|m.order| == m.capacity && |m.order| > 0)
    ensures ModelInsert(m, key, value) == (Model(m.capacity, [key] + m.order, m.values[key := value]), None)
  {
  }

  /** A new key in a full cache replaces the least recently used one. */
  lemma InsertWhenFull<K, V>(m: Model<K, V>, key: K, value: V)
    requires key !in m.values && |m.order| == m.capacity && |m.order| > 0
    ensures var n := |m.order|;
      ModelInsert(m, key, value) ==
        (Model(m.capacity, [key] + m.order[..n - 1], (m.values - {m.order[n - 1]})[key := value]), None)
  {
  }

  /** A cached key moves to the front with its new value. */
  lemma InsertCached<K, V>(m: Model<K, V>, key: K, value: V)
    requires key in m.values
    ensures ModelInsert(m, key, value) ==
      (Model(m.capacity, [key] + Without(m.order, key), m.values[key := value]), Some(m.values[key]))
  {
  }

  /** A read of a cached key moves it to the front. */
  lemma GetCached<K, V>(m: Model<K, V>, key: K)
    requires key in m.values
    ensures ModelGet(m, key) == (Model(m.capacity, [key] + Without(m.order, key), m.values), Some(m.values[key]))
  {
  }

  /** Dropping either key of a two-key order leaves the other. */
  lemma WithoutOfTwo<T>(a: T, b: T)
    requires a != b
    ensures Without([a, b], a) == [b] && Without([a, b], b) == [a]
  {
    assert [a, b][1..] == [b];
    assert [b][1..] == [];
    assert Without([b], b) == [];
    assert Without([b], a) == [b];
  }

  /* ---------------- one refinement step at a time ---------------- */

  /** The cache follows the model's `insert` from `m` to `m'`. */
  lemma InsertStep<K, V>(c: LRUCache<K, V>, order: seq<nat>, m: Model<K, V>, key: K, value: V,
                         m': Model<K, V>, out: Option<V>)
    returns (order': seq<nat>)
    requires Inv(c, order) && Abs(c, order) == m && ModelInsert(m, key, value) == (m', out)
    ensures Inv(Insert(c, key, value).0, order') && Abs(Insert(c, key, value).0, order') == m'
    ensures Insert(c, key, value).1 == out
  {
    InsertRefines(c, order, key, value);
    order' := InsertOrder(c, order, key);
  }

  /** The cache follows the model's `get` from `m` to `m'`. */
  lemma GetStep<K, V>(c: LRUCache<K, V>, order: seq<nat>, m: Model<K, V>, key: K,
                      m': Model<K, V>, out: Option<V>)
    returns (order': seq<nat>)
    requires Inv(c, order) && Abs(c, order) == m && ModelGet(m, key) == (m', out)
    ensures Inv(Get(c, key).0, order') && Abs(Get(c, key).0, order') == m'
    ensures Get(c, key).1 == out
  {
    GetRefines(c, order, key);
    order' := if key in c.index then Front(order, c.index[key]) else order;
  }

  /** What `get` reads from the cache is the model's value for the key. */
  lemma ReadStep<K, V>(c: LRUCache<K, V>, order: seq<nat>, m: Model<K, V>, key: K)
    requires Inv(c, order) && Abs(c, order) == m
    ensures Get(c, key).1 == if key in m.values then Some(m.values[key]) else None
  {
    GetRefines(c, order, key);
  }

  /** The cache follows the model's `remove` from `m` to `m'`. */
  lemma RemoveStep<K, V>(c: LRUCache<K, V>, order: seq<nat>, m: Model<K, V>, key: K,
                         m': Model<K, V>, out: Option<V>)
    returns (order': seq<nat>)
    requires Inv(c, order) && Abs(c, order) == m && ModelRemove(m, key) == (m', out)
    ensures Inv(Remove(c, key).0, order') && Abs(Remove(c, key).0, order') == m'
    ensures Remove(c, key).1 == out
  {
    RemoveRefines(c, order, key);
    order' := RemoveOrder(c, order, key);
  }

  /** Inserting 1 then 2 into an empty cache with room for both. */
  lemma TwoInserted(c0: LRUCache<int, int>, capacity: nat) returns (order: seq<nat>)
    requires 2 <= capacity
    requires Inv(c0, []) && Abs(c0, []) == Model(capacity, [], map[])
    ensures var c2 := Insert(Insert(c0, 1, 10).0, 2, 20).0;
      Inv(c2, order) && Abs(c2, order) == Model(capacity, [2, 1], map[1 := 10, 2 := 20])
  {
    var m0: Model<int, int> := Model(capacity, [], map[]);
    var m1 := Model(capacity, [1], map[1 := 10]);
    var m2 := Model(capacity, [2, 1], map[1 := 10, 2 := 20]);
    assert ModelInsert(m0, 1, 10) == (m1, None) by {
      InsertWithRoom(m0, 1, 10);
      assert [1] + [] == [1];
    }
    assert ModelInsert(m1, 2, 20) == (m2, None) by {
      InsertWithRoom(m1, 2, 20);
      assert [2] + [1] == [2, 1];
    }
    var o1 := InsertStep(c0, [], m0, 1, 10, m1, None);
    order := InsertStep(Insert(c0, 1, 10).0, o1, m1, 2, 20, m2, None);
  }

  /* ---------------- eviction order ---------------- */

  /** In the model: once 1 and 2 are cached with capacity two, reading 1
      makes 2 the least recently used key, so inserting 3 evicts 2. */
  lemma ModelReadProtects()
    ensures var m2 := Model(2, [2, 1], map[1 := 10, 2 := 20]);
      var m3 := Model(2, [1, 2], map[1 := 10, 2 := 20]);
      && ModelGet(m2, 1) == (m3, Some(10))
      && ModelInsert(m3, 3, 30) == (Model(2, [3, 1], map[1 := 10, 3 := 30]), None)
  {
    var m2 := Model(2, [2, 1], map[1 := 10, 2 := 20]);
    var m3 := Model(2, [1, 2], map[1 := 10, 2 := 20]);
    assert ModelGet(m2, 1) == (m3, Some(10)) by {
      GetCached(m2, 1);
      WithoutOfTwo(2, 1);
      assert [1] + [2] == [1, 2];
    }
    InsertWhenFull(m3, 3, 30);
    assert [1, 2][..1] == [1] && [1, 2][1] == 2;
    assert [3] + [1] == [3, 1];
    assert map[1 := 10, 2 := 20] - {2} == map[1 := 10];
  }

  /** Inserting 3 when 1 is the most recently used key evicts 2. */
  lemma InsertEvictsTwo(c3: LRUCache<int, int>, o3: seq<nat>)
    requires Inv(c3, o3) && Abs(c3, o3) == Model(2, [1, 2], map[1 := 10, 2 := 20])
    ensures var c4 := Insert(c3, 3, 30).0;
      && Get(c4, 2).1 == None && Get(c4, 1).1 == Some(10) && Get(c4, 3).1 == Some(30)
  {
    var m3 := Model(2, [1, 2], map[1 := 10, 2 := 20]);
    var m4 := Model(2, [3, 1], map[1 := 10, 3 := 30]);
    ModelReadProtects();
    var o4 := InsertStep(c3, o3, m3, 3, 30, m4, None);
    var c4 := Insert(c3, 3, 30).0;
    ReadStep(c4, o4, m4, 1);
    ReadStep(c4, o4, m4, 2);
    ReadStep(c4, o4, m4, 3);
  }

  /** The rest of the run once 1 and 2 are cached: read 1, insert 3. */
  lemma ReadProtectsAfterTwo(c2: LRUCache<int, int>, o2: seq<nat>)
    requires Inv(c2, o2) && Abs(c2, o2) == Model(2, [2, 1], map[1 := 10, 2 := 20])
    ensures var c4 := Insert(Get(c2, 1).0, 3, 30).0;
      && Get(c4, 2).1 == None && Get(c4, 1).1 == Some(10) && Get(c4, 3).1 == Some(30)
  {
    var m2 := Model(2, [2, 1], map[1 := 10, 2 := 20]);
    var m3 := Model(2, [1, 2], map[1 := 10, 2 := 20]);
    ModelReadProtects();
    var o3 := GetStep(c2, o2, m2, 1, m3, Some(10));
    InsertEvictsTwo(Get(c2, 1).0, o3);
  }

  /** `new(2)`; insert 1 and 2; read 1; insert 3: key 2 is evicted, keys 1
      and 3 keep their values. */
  lemma ReadProtectsFromEviction()
    ensures var c0 := New<int, int>(2);
      var c1 := Insert(c0, 1, 10).0;
      var c2 := Insert(c1, 2, 20).0;
      var c3 := Get(c2, 1).0;
      var c4 := Insert(c3, 3, 30).0;
      && Get(c4, 2).1 == None && Get(c4, 1).1 == Some(10) && Get(c4, 3).1 == Some(30)
  {
    NewRefines<int, int>(2);
    var o2 := TwoInserted(New<int, int>(2), 2);
    ReadProtectsAfterTwo(Insert(Insert(New<int, int>(2), 1, 10).0, 2, 20).0, o2);
  }

  /** In the model: reading 1 and then 2 leaves 1 least recently used, so
      inserting 3 evicts 1. */
  lemma ModelReadBoth()
    ensures var m2 := Model(2, [2, 1], map[1 := 10, 2 := 20]);
      var m3 := Model(2, [1, 2], map[1 := 10, 2 := 20]);
      && ModelGet(m3, 2) == (m2, Some(20))
      && ModelInsert(m2, 3, 30) == (Model(2, [3, 2], map[2 := 20, 3 := 30]), None)
  {
    var m2 := Model(2, [2, 1], map[1 := 10, 2 := 20]);
    var m3 := Model(2, [1, 2], map[1 := 10, 2 := 20]);
    assert ModelGet(m3, 2) == (m2, Some(20)) by {
      GetCached(m3, 2);
      WithoutOfTwo(1, 2);
      assert [2] + [1] == [2, 1];
    }
    InsertWhenFull(m2, 3, 30);
    assert [2, 1][..1] == [2] && [2, 1][1] == 1;
    assert [3] + [2] == [3, 2];
    assert map[1 := 10, 2 := 20] - {1} == map[2 := 20];
    assert map[2 := 20][3 := 30] == map[2 := 20, 3 := 30];
  }

  /** Inserting 3 when 2 is the most recently used key evicts 1. */
  lemma InsertEvictsOne(c4: LRUCache<int, int>, o4: seq<nat>)
    requires Inv(c4, o4) && Abs(c4, o4) == Model(2, [2, 1], map[1 := 10, 2 := 20])
    ensures var c5 := Insert(c4, 3, 30).0;
      && Get(c5, 1).1 == None && Get(c5, 2).1 == Some(20) && Get(c5, 3).1 == Some(30)
  {
    var m2 := Model(2, [2, 1], map[1 := 10, 2 := 20]);
    var m5 := Model(2, [3, 2], map[2 := 20, 3 := 30]);
    ModelReadBoth();
    var o5 := InsertStep(c4, o4, m2, 3, 30, m5, None);
    var c5 := Insert(c4, 3, 30).0;
    ReadStep(c5, o5, m5, 1);
    ReadStep(c5, o5, m5, 2);
    ReadStep(c5, o5, m5, 3);
  }

  /** The rest of the run once 1 and 2 are cached: read 1, read 2,
      insert 3. */
  lemma ReadBothAfterTwo(c2: LRUCache<int, int>, o2: seq<nat>)
    requires Inv(c2, o2) && Abs(c2, o2) == Model(2, [2, 1], map[1 := 10, 2 := 20])
    ensures var c5 := Insert(Get(Get(c2, 1).0, 2).0, 3, 30).0;
      && Get(c5, 1).1 == None && Get(c5, 2).1 == Some(20) && Get(c5, 3).1 == Some(30)
  {
    var m2 := Model(2, [2, 1], map[1 := 10, 2 := 20]);
    var m3 := Model(2, [1, 2], map[1 := 10, 2 := 20]);
    ModelReadProtects();
    ModelReadBoth();
    var o3 := GetStep(c2, o2, m2, 1, m3, Some(10));
    var c3 := Get(c2, 1).0;
    var o4 := GetStep(c3, o3, m3, 2, m2, Some(20));
    InsertEvictsOne(Get(c3, 2).0, o4);
  }

  /** `new(2)`; insert 1 and 2; read 1 then 2; insert 3: key 1, now the
      least recently used, is evicted. */
  lemma ReadBothThenEvict()
    ensures var c2 := Insert(Insert(New<int, int>(2), 1, 10).0, 2, 20).0;
      var c5 := Insert(Get(Get(c2, 1).0, 2).0, 3, 30).0;
      && Get(c5, 1).1 == None && Get(c5, 2).1 == Some(20) && Get(c5, 3).1 == Some(30)
  {
    NewRefines<int, int>(2);
    var o2 := TwoInserted(New<int, int>(2), 2);
    ReadBothAfterTwo(Insert(Insert(New<int, int>(2), 1, 10).0, 2, 20).0, o2);
  }

  /* ---------------- capacity one ---------------- */

  /** With capacity one every new key evicts the only cached key. */
  lemma CapacityOneFrom(c0: LRUCache<int, int>)
    requires Inv(c0, []) && Abs(c0, []) == Model(1, [], map[])
    ensures var c2 := Insert(Insert(c0, 1, 10).0, 2, 20).0;
      Get(c2, 1).1 == None && Get(c2, 2).1 == Some(20)
  {
    var m0: Model<int, int> := Model(1, [], map[]);
    var m1 := Model(1, [1], map[1 := 10]);
    var m2 := Model(1, [2], map[2 := 20]);
    assert ModelInsert(m0, 1, 10) == (m1, None) by {
      InsertWithRoom(m0, 1, 10);
      assert [1] + [] == [1];
    }
    assert ModelInsert(m1, 2, 20) == (m2, None) by {
      InsertWhenFull(m1, 2, 20);
      assert [2] + [1][..0] == [2];
      assert map[1 := 10] - {1} == map[];
    }
    var o1 := InsertStep(c0, [], m0, 1, 10, m1, None);
    var c1 := Insert(c0, 1, 10).0;
    var o2 := InsertStep(c1, o1, m1, 2, 20, m2, None);
    var c2 := Insert(c1, 2, 20).0;
    ReadStep(c2, o2, m2, 1);
    ReadStep(c2, o2, m2, 2);
  }

  /** `new(1)`; insert 1 then 2: only 2 is cached. */
  lemma CapacityOne()
    ensures var c2 := Insert(Insert(New<int, int>(1), 1, 10).0, 2, 20).0;
      Get(c2, 1).1 == None && Get(c2, 2).1 == Some(20)
  {
    NewRefines<int, int>(1);
    CapacityOneFrom(New<int, int>(1));
  }

  /* ---------------- updating a cached key ---------------- */

  /** Inserting a cached key returns its old value, stores the new one and
      keeps the count. */
  lemma UpdateFrom(c0: LRUCache<int, int>)
    requires Inv(c0, []) && Abs(c0, []) == Model(3, [], map[])
    ensures var c1 := Insert(c0, 1, 10).0;
      var r := Insert(c1, 1, 100);
      && r.1 == Some(10) && Get(r.0, 1).1 == Some(100) && Len(r.0) == 1
  {
    var m0: Model<int, int> := Model(3, [], map[]);
    var m1 := Model(3, [1], map[1 := 10]);
    var m2 := Model(3, [1], map[1 := 100]);
    assert ModelInsert(m0, 1, 10) == (m1, None) by {
      InsertWithRoom(m0, 1, 10);
      assert [1] + [] == [1];
    }
    assert ModelInsert(m1, 1, 100) == (m2, Some(10)) by {
      InsertCached(m1, 1, 100);
      assert [1][1..] == [];
      assert Without([1], 1) == [];
      assert [1] + [] == [1];
      assert map[1 := 10][1 := 100] == map[1 := 100];
    }
    var o1 := InsertStep(c0, [], m0, 1, 10, m1, None);
    var c1 := Insert(c0, 1, 10).0;
    var o2 := InsertStep(c1, o1, m1, 1, 100, m2, Some(10));
    var c2 := Insert(c1, 1, 100).0;
    ReadStep(c2, o2, m2, 1);
    QueriesRefine(c2, o2, 1);
  }

  /** `new(3)`; insert (1, 10); insert (1, 100) returns 10, and 1 now
      reads 100. */
  lemma UpdateReturnsOld()
    ensures var r := Insert(Insert(New<int, int>(3), 1, 10).0, 1, 100);
      && r.1 == Some(10) && Get(r.0, 1).1 == Some(100) && Len(r.0) == 1
  {
    NewRefines<int, int>(3);
    UpdateFrom(New<int, int>(3));
  }

  /* ---------------- removal ---------------- */

  /** In the model: removing 2 from 3, 2, 1 returns 20 and keeps the
      order of the others; removing a key that is not cached changes
      nothing. */
  lemma ModelRemoveRun()
    ensures var m3 := Model(3, [3, 2, 1], map[1 := 10, 2 := 20, 3 := 30]);
      var m4 := Model(3, [3, 1], map[1 := 10, 3 := 30]);
      && ModelRemove(m3, 2) == (m4, Some(20))
      && ModelRemove(m4, 99) == (m4, None)
  {
    assert Without([3, 2, 1], 2) == [3, 1];
    assert map[1 := 10, 2 := 20, 3 := 30] - {2} == map[1 := 10, 3 := 30];
    RemoveAbsent(Model(3, [3, 1], map[1 := 10, 3 := 30]), 99);
  }

  /** Inserting 1, 2, 3 into an empty cache of capacity three. */
  lemma ThreeInserted(c0: LRUCache<int, int>) returns (order: seq<nat>)
    requires Inv(c0, []) && Abs(c0, []) == Model(3, [], map[])
    ensures var c3 := Insert(Insert(Insert(c0, 1, 10).0, 2, 20).0, 3, 30).0;
      Inv(c3, order) && Abs(c3, order) == Model(3, [3, 2, 1], map[1 := 10, 2 := 20, 3 := 30])
  {
    var m2 := Model(3, [2, 1], map[1 := 10, 2 := 20]);
    var m3 := Model(3, [3, 2, 1], map[1 := 10, 2 := 20, 3 := 30]);
    assert ModelInsert(m2, 3, 30) == (m3, None) by {
      InsertWithRoom(m2, 3, 30);
      assert [3] + [2, 1] == [3, 2, 1];
    }
    var o2 := TwoInserted(c0, 3);
    order := InsertStep(Insert(Insert(c0, 1, 10).0, 2, 20).0, o2, m2, 3, 30, m3, None);
  }

  /** Removing a cached key returns its value and shrinks the count;
      removing a missing key returns nothing. */
  lemma RemoveFromThree(c3: LRUCache<int, int>, o3: seq<nat>)
    requires Inv(c3, o3) && Abs(c3, o3) == Model(3, [3, 2, 1], map[1 := 10, 2 := 20, 3 := 30])
    ensures var r := Remove(c3, 2);
      && r.1 == Some(20) && Len(r.0) == 2 && !Contains(r.0, 2)
      && Remove(r.0, 99).1 == None
  {
    var m3 := Model(3, [3, 2, 1], map[1 := 10, 2 := 20, 3 := 30]);
    var m4 := Model(3, [3, 1], map[1 := 10, 3 := 30]);
    ModelRemoveRun();
    var o4 := RemoveStep(c3, o3, m3, 2, m4, Some(20));
    var c4 := Remove(c3, 2).0;
    QueriesRefine(c4, o4, 2);
    var _ := RemoveStep(c4, o4, m4, 99, m4, None);
  }

  lemma RemoveFrom(c0: LRUCache<int, int>)
    requires Inv(c0, []) && Abs(c0, []) == Model(3, [], map[])
    ensures var c3 := Insert(Insert(Insert(c0, 1, 10).0, 2, 20).0, 3, 30).0;
      var r := Remove(c3, 2);
      && r.1 == Some(20) && Len(r.0) == 2 && !Contains(r.0, 2)
      && Remove(r.0, 99).1 == None
  {
    var o3 := ThreeInserted(c0);
    RemoveFromThree(Insert(Insert(Insert(c0, 1, 10).0, 2, 20).0, 3, 30).0, o3);
  }

  /** `new(3)`; insert 1, 2, 3; remove 2 returns 20 and leaves two keys;
      remove 99 returns nothing. */
  lemma RemoveReturnsValue()
    ensures var c3 := Insert(Insert(Insert(New<int, int>(3), 1, 10).0, 2, 20).0, 3, 30).0;
      var r := Remove(c3, 2);
      && r.1 == Some(20) && Len(r.0) == 2 && !Contains(r.0, 2)
      && Remove(r.0, 99).1 == None
  {
    NewRefines<int, int>(3);
    RemoveFrom(New<int, int>(3));
  }

  /* ---------------- writing through get_mut ---------------- */

  /** When `get_mut` finds the key, a write through its slot leaves the
      cache as the model's `get` followed by setting the key's value. */
  lemma GetMutStep<K, V>(c: LRUCache<K, V>, order: seq<nat>, m: Model<K, V>, key: K, value: V,
                         m': Model<K, V>)
    returns (order': seq<nat>)
    requires Inv(c, order) && Abs(c, order) == m && key in m.values
    requires m' == ModelGet(m, key).0.(values := m.values[key := value])
    ensures GetMut(c, key).1.Some?
    ensures var g := GetMut(c, key);
      Inv(SetAt(g.0, g.1.value, value), order') && Abs(SetAt(g.0, g.1.value, value), order') == m'
  {
    GetMutRefines(c, order, key, value);
    order' := Front(order, c.index[key]);
  }

  /** A value written through the slot `get_mut` hands out is what `get`
      reads next. */
  lemma GetMutWriteFrom(c0: LRUCache<int, int>)
    requires Inv(c0, []) && Abs(c0, []) == Model(3, [], map[])
    ensures var c1 := Insert(c0, 1, 10).0;
      var g := GetMut(c1, 1);
      && g.1.Some?
      && Get(SetAt(g.0, g.1.value, 100), 1).1 == Some(100)
  {
    var m0: Model<int, int> := Model(3, [], map[]);
    var m1 := Model(3, [1], map[1 := 10]);
    assert ModelInsert(m0, 1, 10) == (m1, None) by {
      InsertWithRoom(m0, 1, 10);
      assert [1] + [] == [1];
    }
    var o1 := InsertStep(c0, [], m0, 1, 10, m1, None);
    var c1 := Insert(c0, 1, 10).0;
    var m2 := ModelGet(m1, 1).0.(values := m1.values[1 := 100]);
    var o2 := GetMutStep(c1, o1, m1, 1, 100, m2);
    var g := GetMut(c1, 1);
    ReadStep(SetAt(g.0, g.1.value, 100), o2, m2, 1);
  }

  /** `new(3)`; insert (1, 10); write 100 through `get_mut(1)`: `get(1)`
      reads 100. */
  lemma GetMutWrite()
    ensures var c1 := Insert(New<int, int>(3), 1, 10).0;
      var g := GetMut(c1, 1);
      && g.1.Some?
      && Get(SetAt(g.0, g.1.value, 100), 1).1 == Some(100)
  {
    NewRefines<int, int>(3);
    GetMutWriteFrom(New<int, int>(3));
  }
}
