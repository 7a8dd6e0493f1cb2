/** `find_slot` stops at the first tombstone it meets, so an `insert` of a key
    that sits further along its probe chain writes a second copy of the key
    into the tombstone. This module exhibits that behaviour on a concrete
    table and gives the evidently intended probe: remember the first
    tombstone, keep scanning until an empty bucket or the key itself, and
    only then choose where to write. */
module HashTableIntended {
  import opened Wrappers
  import opened HashTable
  import opened HashTableProofs

  /* ---------------- the code as written ---------------- */

  /** A hash that sends every key to bucket 0, so all keys share one chain. */
  function Collide(k: int): bv32 { 0 }

  /** An occupied bucket of the scenario below. */
  function Occ(k: int, v: int): Slot<int, int> { Some(Occupied(k, v)) }

  lemma FourBuckets()
    ensures WithCapacity<int, int>(4) == CustomHashMap([None, None, None, None], 0)
  {
    assert NextPowerOfTwo(4) == 4 by {
      assert NextPow2From(4, 4) == 4;
    }
    var empty: seq<Slot<int, int>> := [None, None, None, None];
    assert seq(4, _ => None) == empty;
  }

  lemma InsertAt(m: CustomHashMap<int, int>, key: int, value: int, idx: nat)
    requires WellFormed(m) && !Overloaded(m)
    requires FirstStop(m.buckets, key, 0, idx) && !IsOccupied(m.buckets[idx])
    requires BucketIndex(|m.buckets|, Collide, key) == 0
    ensures Insert(m, Collide, key, value).0
         == CustomHashMap(m.buckets[idx := Occ(key, value)], m.len + 1)
  {
    FreeSlotExists(m.buckets);
    var r := InsertProbed(m, Collide, key, value);
    var idx': nat :| FirstStop(m.buckets, key, 0, idx') && r.0.buckets == m.buckets[idx' := Occ(key, value)]
      && (r.1.Some? <==> IsOccupied(m.buckets[idx']))
      && (r.1.None? ==> r.0.len == m.len + 1);
    assert Offset(0, idx, |m.buckets|) == idx && Offset(0, idx', |m.buckets|) == idx';
    assert idx' == idx;
  }

  lemma FirstInsert()
    ensures Insert(CustomHashMap([None, None, None, None], 0), Collide, 1, 10).0
         == CustomHashMap([Occ(1, 10), None, None, None], 1)
  {
    var m0: CustomHashMap<int, int> := CustomHashMap([None, None, None, None], 0);
    InsertAt(m0, 1, 10, 0);
    assert m0.buckets[0 := Occ(1, 10)] == [Occ(1, 10), None, None, None];
  }

  lemma SecondInsert()
    ensures Insert(CustomHashMap([Occ(1, 10), None, None, None], 1), Collide, 2, 20).0
         == CustomHashMap([Occ(1, 10), Occ(2, 20), None, None], 2)
  {
    var m1 := CustomHashMap([Occ(1, 10), None, None, None], 1);
    assert CountOccupied(m1.buckets) == 1;
    assert FirstStop(m1.buckets, 2, 0, 1) by {
      assert Offset(0, 1, 4) == 1 && Pos(0, 0, 4) == 0;
    }
    InsertAt(m1, 2, 20, 1);
    assert m1.buckets[1 := Occ(2, 20)] == [Occ(1, 10), Occ(2, 20), None, None];
  }

  lemma FirstRemove()
    ensures Remove(CustomHashMap([Occ(1, 10), Occ(2, 20), None, None], 2), Collide, 1).0
         == CustomHashMap([Some(Removed), Occ(2, 20), None, None], 1)
  {
    var m2 := CustomHashMap([Occ(1, 10), Occ(2, 20), None, None], 2);
    assert CountOccupied(m2.buckets) == 2;
    assert Probe(m2, Collide, 1) == Some(0);
    assert m2.buckets[0 := Some(Removed)] == [Some(Removed), Occ(2, 20), None, None];
  }

  /** The step that goes wrong: the probe for key 2 stops at the tombstone
      in bucket 0 before it reaches the copy in bucket 1. */
  lemma InsertOverTombstone()
    ensures Insert(CustomHashMap([Some(Removed), Occ(2, 20), None, None], 1), Collide, 2, 30).0
         == CustomHashMap([Occ(2, 30), Occ(2, 20), None, None], 2)
  {
    var m3 := CustomHashMap([Some(Removed), Occ(2, 20), None, None], 1);
    assert CountOccupied(m3.buckets) == 1;
    InsertAt(m3, 2, 30, 0);
    assert m3.buckets[0 := Occ(2, 30)] == [Occ(2, 30), Occ(2, 20), None, None];
  }

  /** insert(1, 10), insert(2, 20), remove(1), insert(2, 30) on a table of
      four buckets leaves key 2 in two buckets, counted twice in `len`. */
  lemma TombstoneDuplicatesKey()
    ensures var m0 := WithCapacity<int, int>(4);
      var m1 := Insert(m0, Collide, 1, 10).0;
      var m2 := Insert(m1, Collide, 2, 20).0;
      var m3 := Remove(m2, Collide, 1).0;
      var m4 := Insert(m3, Collide, 2, 30).0;
      && m4 == CustomHashMap([Occ(2, 30), Occ(2, 20), None, None], 2)
      && !NoDup(m4.buckets)
  {
    FourBuckets();
    FirstInsert();
    SecondInsert();
    FirstRemove();
    InsertOverTombstone();
    var b4 := [Occ(2, 30), Occ(2, 20), None, None];
    assert IsOccupied(b4[0]) && IsOccupied(b4[1]) && b4[0].value.key == b4[1].value.key;
  }

  /** Removing key 2 from that table clears only the first copy, so `get(2)`
      still returns the stale 20. */
  lemma RemoveLeavesStaleCopy()
    ensures var m4 := CustomHashMap([Occ(2, 30), Occ(2, 20), None, None], 2);
      var m5 := Remove(m4, Collide, 2).0;
      m5.buckets == [Some(Removed), Occ(2, 20), None, None] && Get(m5, Collide, 2) == Some(20)
  {
    var m4 := CustomHashMap([Occ(2, 30), Occ(2, 20), None, None], 2);
    assert CountOccupied(m4.buckets) == 2;
    assert Probe(m4, Collide, 2) == Some(0);
    var b5 := [Some(Removed), Occ(2, 20), None, None];
    assert m4.buckets[0 := Some(Removed)] == b5;
    assert ProbeFrom(b5, 2, 0, 0) == Some(1);
  }

  /* ---------------- the evidently intended probe ---------------- */

  /** Where a scan of the probe path from step `j` stops when it steps over
      tombstones: the first empty bucket or bucket holding `key`, or `None`
      after a full wrap. */
  function ScanStop<K(==), V>(b: seq<Slot<K, V>>, key: K, h: nat, j: nat): (r: Option<nat>)
    requires h < |b| && j <= |b|
    ensures r.Some? ==>
      && r.value < |b| && j <= Offset(h, r.value, |b|)
      && (b[r.value].None? || HoldsKey(b[r.value], key))
      && forall k :: j <= k < Offset(h, r.value, |b|) ==>
           b[Pos(h, k, |b|)].Some? && !HoldsKey(b[Pos(h, k, |b|)], key)
    ensures r.None? ==>
      forall k :: j <= k < |b| ==> b[Pos(h, k, |b|)].Some? && !HoldsKey(b[Pos(h, k, |b|)], key)
    decreases |b| - j
  {
    if j == |b| then None
    else
      var p := Pos(h, j, |b|);
      if b[p].None? || HoldsKey(b[p], key) then Some(p) else ScanStop(b, key, h, j + 1)
  }

  /** The first tombstone that scan passes before it stops, if any. */
  function FirstTombstone<K(==), V>(b: seq<Slot<K, V>>, key: K, h: nat, j: nat): (r: Option<nat>)
    requires h < |b| && j <= |b|
    ensures r.Some? ==>
      && r.value < |b| && IsRemoved(b[r.value]) && j <= Offset(h, r.value, |b|)
      && forall k :: j <= k < Offset(h, r.value, |b|) ==>
           b[Pos(h, k, |b|)].Some? && !HoldsKey(b[Pos(h, k, |b|)], key)
    ensures r.None? ==>
      forall k :: j <= k < |b| && IsRemoved(b[Pos(h, k, |b|)]) ==>
        exists k' :: j <= k' < k && (b[Pos(h, k', |b|)].None? || HoldsKey(b[Pos(h, k', |b|)], key))
    decreases |b| - j
  {
    if j == |b| then None
    else
      var p := Pos(h, j, |b|);
      if b[p].None? || HoldsKey(b[p], key) then None
      else if IsRemoved(b[p]) then Some(p)
      else FirstTombstone(b, key, h, j + 1)
  }

  /** Where the intended insertion writes, once the load check has left a
      free bucket: the bucket holding `key` if the scan met it, else the
      first tombstone passed, else the empty bucket the scan stopped at. */
  function WriteSlot<K(==), V>(m: CustomHashMap<K, V>, hash: K -> bv32, key: K): (idx: nat)
    requires |m.buckets| > 0
    requires exists i :: 0 <= i < |m.buckets| && !IsOccupied(m.buckets[i])
    ensures idx < |m.buckets|
    ensures IsStop(m.buckets[idx], key)
    ensures var h := BucketIndex(|m.buckets|, hash, key);
      forall k :: 0 <= k < Offset(h, idx, |m.buckets|) ==>
        m.buckets[Pos(h, k, |m.buckets|)].Some? && !HoldsKey(m.buckets[Pos(h, k, |m.buckets|)], key)
  {
    var b := m.buckets;
    var h := BucketIndex(|b|, hash, key);
    var stop := ScanStop(b, key, h, 0);
    var tomb := FirstTombstone(b, key, h, 0);
    ScanFindsRoom(b, key, h);
    if stop.Some? && IsOccupied(b[stop.value]) then stop.value
    else if tomb.Some? then tomb.value
    else stop.value
  }

  /** With a free bucket somewhere, the scan stops or passes a tombstone. */
  lemma ScanFindsRoom<K, V>(b: seq<Slot<K, V>>, key: K, h: nat)
    requires h < |b|
    requires exists i :: 0 <= i < |b| && !IsOccupied(b[i])
    ensures ScanStop(b, key, h, 0).Some? || FirstTombstone(b, key, h, 0).Some?
  {
    var i :| 0 <= i < |b| && !IsOccupied(b[i]);
    assert Pos(h, Offset(h, i, |b|), |b|) == i;
  }

  /** `insert` with the intended probe: grow as the code does, then write at
      `WriteSlot`, returning the previous value when the key was there. */
  function InsertIntended<K(==), V>(m: CustomHashMap<K, V>, hash: K -> bv32, key: K, value: V)
    : (r: (CustomHashMap<K, V>, Option<V>))
    requires WellFormed(m)
    ensures WellFormed(r.0) && Stored(r.0.buckets, key, value)
    ensures |r.0.buckets| == |EnsureCapacity(m, hash).buckets|
    ensures r.1.Some? <==> r.0.len == EnsureCapacity(m, hash).len
  {
    var grown := EnsureCapacity(m, hash);
    FreeSlotExists(grown.buckets);
    var idx := WriteSlot(grown, hash, key);
    CountUpdate(grown.buckets, idx, Some(Occupied(key, value)));
    var b' := grown.buckets[idx := Some(Occupied(key, value))];
    assert b'[idx] == Some(Occupied(key, value));
    if IsOccupied(grown.buckets[idx]) then
      (CustomHashMap(b', grown.len), Some(grown.buckets[idx].value.val))
    else
      (CustomHashMap(b', grown.len + 1), None)
  }

  /** When the table holds `key`, the intended scan writes to that bucket. */
  lemma WriteSlotFindsKey<K, V>(g: CustomHashMap<K, V>, hash: K -> bv32, key: K, i: nat)
    requires |g.buckets| > 0 && ChainsIntact(g.buckets, hash) && NoDup(g.buckets)
    requires exists i :: 0 <= i < |g.buckets| && !IsOccupied(g.buckets[i])
    requires i < |g.buckets| && HoldsKey(g.buckets[i], key)
    ensures WriteSlot(g, hash, key) == i
  {
    var b := g.buckets;
    var n := |b|;
    var h := BucketIndex(n, hash, key);
    assert PathFilled(b, h, i);
    assert Pos(h, Offset(h, i, n), n) == i;
  }

  /** The intended insertion keeps every entry reachable and never stores a
      key twice, whatever tombstones the table holds; it returns what `get`
      gave before, and afterwards the table holds exactly the previous pairs
      with `key` mapped to `value`. */
  lemma InsertIntendedUpdatesEntries<K, V>(m: CustomHashMap<K, V>, hash: K -> bv32, key: K, value: V)
    requires Valid(m, hash) && NoDup(m.buckets)
    ensures var r := InsertIntended(m, hash, key, value);
      && Valid(r.0, hash) && NoDup(r.0.buckets)
      && r.1 == Get(m, hash, key)
      && forall k, v :: Stored(r.0.buckets, k, v) <==> if k == key then v == value else Stored(m.buckets, k, v)
  {
    var grown := EnsureCapacity(m, hash);
    var r := InsertIntended(m, hash, key, value);
    assert Valid(grown, hash) && NoDup(grown.buckets)
        && forall k, v :: Stored(grown.buckets, k, v) <==> Stored(m.buckets, k, v) by {
      EnsureCapacityEntries(m, hash);
    }
    FreeSlotExists(grown.buckets);
    var b := grown.buckets;
    var idx := WriteSlot(grown, hash, key);
    assert r.0.buckets == b[idx := Some(Occupied(key, value))];
    assert r.1 == if IsOccupied(b[idx]) then Some(b[idx].value.val) else None;
    WriteSlotUpdates(grown, hash, key, value);
    assert Get(grown, hash, key) == Get(m, hash, key) by {
      GetSameEntries(m, grown, hash, key);
    }
  }

  /** The write at `WriteSlot` on a table without duplicate keys keeps
      every entry reachable, stores no key twice, replaces exactly the entry
      of `key`, and overwrites a live entry exactly when `get` finds one. */
  lemma WriteSlotUpdates<K, V>(g: CustomHashMap<K, V>, hash: K -> bv32, key: K, value: V)
    requires Valid(g, hash) && NoDup(g.buckets)
    requires exists i :: 0 <= i < |g.buckets| && !IsOccupied(g.buckets[i])
    ensures var b := g.buckets; var idx := WriteSlot(g, hash, key);
      var b' := b[idx := Some(Occupied(key, value))];
      && ChainsIntact(b', hash) && NoDup(b')
      && (forall k, v :: Stored(b', k, v) <==> if k == key then v == value else Stored(b, k, v))
      && Get(g, hash, key) == (if IsOccupied(b[idx]) then Some(b[idx].value.val) else None)
  {
    var b := g.buckets;
    var n := |b|;
    var idx := WriteSlot(g, hash, key);
    var b' := b[idx := Some(Occupied(key, value))];
    assert KeyStored(b, key) ==> HoldsKey(b[idx], key) by {
      if KeyStored(b, key) {
        var i :| 0 <= i < n && IsOccupied(b[i]) && b[i].value.key == key;
        WriteSlotFindsKey(g, hash, key, i);
      }
    }
    WriteAtKeyKeepsNoDup(b, idx, key, value);
    WriteOnPathKeepsChains(b, hash, idx, key, value);
    assert forall k, v :: Stored(b', k, v) <==> if k == key then v == value else Stored(b, k, v) by {
      OverwriteEntries(b, idx, key, value);
      forall k, v | k == key && Stored(b', k, v)
        ensures v == value
      {
        var i :| 0 <= i < n && b'[i] == Some(Occupied(k, v));
        var j :| 0 <= j < n && b'[j] == Some(Occupied(key, value));
        assert i == j;
      }
    }
    GetAgreesWithStored(g, hash, key);
    if IsOccupied(b[idx]) {
      assert Stored(b, key, b[idx].value.val);
    }
  }

  /** After the intended insertion, `get(key)` returns the new value. */
  lemma GetAfterInsertIntended<K, V>(m: CustomHashMap<K, V>, hash: K -> bv32, key: K, value: V)
    requires WellFormed(m)
    ensures Get(InsertIntended(m, hash, key, value).0, hash, key) == Some(value)
  {
    var grown := EnsureCapacity(m, hash);
    FreeSlotExists(grown.buckets);
    var b := grown.buckets;
    var n := |b|;
    var h := BucketIndex(n, hash, key);
    var idx := WriteSlot(grown, hash, key);
    var b' := b[idx := Some(Occupied(key, value))];
    assert InsertIntended(m, hash, key, value).0.buckets == b';
    forall k | 0 <= k < Offset(h, idx, n)
      ensures b'[Pos(h, k, n)].Some? && !HoldsKey(b'[Pos(h, k, n)], key)
    {
      assert Pos(h, k, n) != idx;
    }
    ProbeReaches(b', key, h, 0, Offset(h, idx, n));
  }

  /** Only one bucket can be the first stop of a probe. */
  lemma FirstStopUnique<K, V>(b: seq<Slot<K, V>>, key: K, h: nat, x: nat, y: nat)
    requires h < |b| && FirstStop(b, key, h, x) && FirstStop(b, key, h, y)
    ensures x == y
  {
    var ox, oy := Offset(h, x, |b|), Offset(h, y, |b|);
    assert Pos(h, ox, |b|) == x && Pos(h, oy, |b|) == y;
  }

  /** On a table without tombstones the intended scan stops where
      `find_slot` does. */
  lemma WriteSlotIsFirstStop<K, V>(g: CustomHashMap<K, V>, hash: K -> bv32, key: K)
    requires |g.buckets| > 0 && NoRemoved(g.buckets)
    requires exists i :: 0 <= i < |g.buckets| && !IsOccupied(g.buckets[i])
    ensures FirstStop(g.buckets, key, BucketIndex(|g.buckets|, hash, key), WriteSlot(g, hash, key))
  {
    var b := g.buckets;
    var n := |b|;
    var h := BucketIndex(n, hash, key);
    var idx := WriteSlot(g, hash, key);
    forall j | 0 <= j < Offset(h, idx, n)
      ensures !IsStop(b[Pos(h, j, n)], key)
    {
      assert !IsRemoved(b[Pos(h, j, n)]);
    }
  }

  /** On a table without tombstones the intended insertion and the code as
      written agree: the defect needs a tombstone on the probe path. */
  lemma AgreesWithoutTombstones<K, V>(m: CustomHashMap<K, V>, hash: K -> bv32, key: K, value: V)
    requires WellFormed(m) && NoRemoved(m.buckets)
    ensures InsertIntended(m, hash, key, value) == Insert(m, hash, key, value)
  {
    var grown := EnsureCapacity(m, hash);
    FreeSlotExists(grown.buckets);
    var b := grown.buckets;
    var h := BucketIndex(|b|, hash, key);
    var idx := WriteSlot(grown, hash, key);
    WriteSlotIsFirstStop(grown, hash, key);
    var r := InsertProbed(grown, hash, key, value);
    assert Insert(m, hash, key, value) == r;
    var idx': nat :| FirstStop(b, key, h, idx') && r.0.buckets == b[idx' := Some(Occupied(key, value))]
      && (r.1.Some? <==> IsOccupied(b[idx']))
      && (r.1.Some? ==> b[idx'] == Some(Occupied(key, r.1.value)) && r.0.len == grown.len)
      && (r.1.None? ==> r.0.len == grown.len + 1);
    FirstStopUnique(b, key, h, idx, idx');
  }
}
