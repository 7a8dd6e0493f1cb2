/** Properties of `CustomHashMap`: the invariant every operation keeps, the
    lookups it guarantees, and how the table refines a key-value map when no
    key is held twice. */
module HashTableProofs {
  import opened Wrappers
  import opened HashTable

  /** The buckets of `t` and the pending buckets hold disjoint key sets. */
  ghost predicate KeysDisjoint<K, V>(b: seq<Slot<K, V>>, c: seq<Slot<K, V>>) {
    forall x, y :: 0 <= x < |c| && 0 <= y < |b| && IsOccupied(c[x]) && IsOccupied(b[y]) ==>
      c[x].value.key != b[y].value.key
  }

  /* ---------------- construction ---------------- */

  /** `with_capacity` builds a valid, empty table. */
  lemma WithCapacityIsValid<K, V>(capacity: nat, hash: K -> bv32)
    ensures var m := WithCapacity<K, V>(capacity);
      Valid(m, hash) && NoDup(m.buckets) && NoRemoved(m.buckets)
      && forall k, v :: !Stored(m.buckets, k, v)
  {
  }

  /* ---------------- lookups ---------------- */

  /** A probe walks over filled buckets holding other keys and stops at the
      first bucket holding `key`. */
  lemma {:induction false} ProbeReaches<K, V>(b: seq<Slot<K, V>>, key: K, h: nat, j: nat, last: nat)
    requires h < |b| && j <= last < |b|
    requires forall k :: j <= k < last ==> b[Pos(h, k, |b|)].Some? && !HoldsKey(b[Pos(h, k, |b|)], key)
    requires HoldsKey(b[Pos(h, last, |b|)], key)
    ensures ProbeFrom(b, key, h, j) == Some(Pos(h, last, |b|))
    decreases last - j
  {
    if j < last {
      ProbeReaches(b, key, h, j + 1, last);
    }
  }

  /** Under the chain invariant, `get` finds every stored key. */
  lemma ProbeFindsStoredKey<K, V>(m: CustomHashMap<K, V>, hash: K -> bv32, key: K, i: nat)
    requires |m.buckets| > 0 && ChainsIntact(m.buckets, hash)
    requires i < |m.buckets| && HoldsKey(m.buckets[i], key)
    ensures Probe(m, hash, key).Some?
  {
    var b := m.buckets;
    var h := BucketIndex(|b|, hash, key);
    var k := Offset(h, i, |b|);
    assert PathFilled(b, h, i);
    assert HoldsKey(b[Pos(h, k, |b|)], key);
  }

  /** `contains_key` answers whether the key is held by some bucket. */
  lemma ContainsKeyIffStored<K, V>(m: CustomHashMap<K, V>, hash: K -> bv32, key: K)
    requires Valid(m, hash)
    ensures ContainsKey(m, hash, key) <==> KeyStored(m.buckets, key)
  {
    if KeyStored(m.buckets, key) {
      var i :| 0 <= i < |m.buckets| && IsOccupied(m.buckets[i]) && m.buckets[i].value.key == key;
      ProbeFindsStoredKey(m, hash, key, i);
    }
  }

  /** With no key held twice, `get` returns exactly the stored value, and
      misses exactly the keys that are not stored. */
  lemma GetAgreesWithStored<K, V>(m: CustomHashMap<K, V>, hash: K -> bv32, key: K)
    requires Valid(m, hash) && NoDup(m.buckets)
    ensures forall v :: Get(m, hash, key) == Some(v) <==> Stored(m.buckets, key, v)
    ensures Get(m, hash, key).None? <==> !KeyStored(m.buckets, key)
  {
    var b := m.buckets;
    forall v | Stored(b, key, v)
      ensures Get(m, hash, key) == Some(v)
    {
      var i :| 0 <= i < |b| && b[i] == Some(Occupied(key, v));
      ProbeFindsStoredKey(m, hash, key, i);
      var r := Probe(m, hash, key).value;
      assert HoldsKey(b[r], key);
      assert r == i;
    }
    if KeyStored(b, key) {
      var i :| 0 <= i < |b| && IsOccupied(b[i]) && b[i].value.key == key;
      assert Stored(b, key, b[i].value.val);
    }
  }

  /* ---------------- insertion after the load check ---------------- */

  /** Writing `key -> value` over a bucket that is free or already holds
      `key` stores the pair, keeps the other keys' entries, and adds nothing
      else. */
  lemma OverwriteEntries<K, V>(b: seq<Slot<K, V>>, idx: nat, key: K, value: V)
    requires idx < |b| && IsStop(b[idx], key)
    ensures var b' := b[idx := Some(Occupied(key, value))];
      && Stored(b', key, value)
      && (forall k, v :: k != key ==> (Stored(b', k, v) <==> Stored(b, k, v)))
      && (forall k, v :: Stored(b', k, v) ==> (k == key && v == value) || Stored(b, k, v))
      && (forall k :: KeyStored(b', k) <==> k == key || KeyStored(b, k))
  {
    var b' := b[idx := Some(Occupied(key, value))];
    assert b'[idx] == Some(Occupied(key, value));
    forall k, v | k != key
      ensures Stored(b', k, v) <==> Stored(b, k, v)
    {
      if Stored(b', k, v) {
        var i :| 0 <= i < |b'| && b'[i] == Some(Occupied(k, v));
        assert i != idx && b[i] == b'[i];
      }
      if Stored(b, k, v) {
        var i :| 0 <= i < |b| && b[i] == Some(Occupied(k, v));
        assert i != idx && b[i] == b'[i];
      }
    }
    forall k, v | Stored(b', k, v)
      ensures (k == key && v == value) || Stored(b, k, v)
    {
      var i :| 0 <= i < |b'| && b'[i] == Some(Occupied(k, v));
      if i != idx {
        assert b[i] == b'[i];
      }
    }
    forall k | KeyStored(b, k)
      ensures KeyStored(b', k)
    {
      var i :| 0 <= i < |b| && IsOccupied(b[i]) && b[i].value.key == k;
      if i == idx {
        assert IsOccupied(b'[idx]) && b'[idx].value.key == key;
      } else {
        assert b'[i] == b[i];
      }
    }
    forall k | KeyStored(b', k)
      ensures k == key || KeyStored(b, k)
    {
      var i :| 0 <= i < |b'| && IsOccupied(b'[i]) && b'[i].value.key == k;
      if i != idx {
        assert b[i] == b'[i];
      }
    }
    assert KeyStored(b', key);
  }

  /** What the probed insertion adds and keeps: `key -> value` is stored,
      other keys keep their entries, and no other pair appears. */
  lemma InsertProbedEntries<K, V>(m: CustomHashMap<K, V>, hash: K -> bv32, key: K, value: V)
    requires |m.buckets| > 0
    requires exists i :: 0 <= i < |m.buckets| && IsStop(m.buckets[i], key)
    ensures var b' := InsertProbed(m, hash, key, value).0.buckets;
      && Stored(b', key, value)
      && (forall k, v :: k != key ==> (Stored(b', k, v) <==> Stored(m.buckets, k, v)))
      && (forall k, v :: Stored(b', k, v) ==> (k == key && v == value) || Stored(m.buckets, k, v))
      && (forall k :: KeyStored(b', k) <==> k == key || KeyStored(m.buckets, k))
  {
    var b := m.buckets;
    var r := InsertProbed(m, hash, key, value);
    var h := BucketIndex(|b|, hash, key);
    var idx: nat :| FirstStop(b, key, h, idx) && r.0.buckets == b[idx := Some(Occupied(key, value))];
    OverwriteEntries(b, idx, key, value);
  }

  /** Writing `key` into a bucket whose probe path from `key`'s home bucket
      is filled keeps every entry reachable. */
  lemma WriteOnPathKeepsChains<K, V>(b: seq<Slot<K, V>>, hash: K -> bv32, idx: nat, key: K, value: V)
    requires idx < |b| && ChainsIntact(b, hash)
    requires PathFilled(b, BucketIndex(|b|, hash, key), idx)
    ensures ChainsIntact(b[idx := Some(Occupied(key, value))], hash)
  {
    var n := |b|;
    var b' := b[idx := Some(Occupied(key, value))];
    forall i | 0 <= i < n && IsOccupied(b'[i])
      ensures PathFilled(b', BucketIndex(n, hash, b'[i].value.key), i)
    {
      var hi := BucketIndex(n, hash, b'[i].value.key);
      if i != idx {
        assert b[i] == b'[i];
        assert PathFilled(b, hi, i);
      }
      forall j | 0 <= j < Offset(hi, i, n)
        ensures b'[Pos(hi, j, n)].Some?
      {
        assert b[Pos(hi, j, n)].Some?;
      }
    }
  }

  /** Writing `key` into a bucket that is the key's only holder, or into a
      free bucket when the key is absent, stores no key twice. */
  lemma WriteAtKeyKeepsNoDup<K, V>(b: seq<Slot<K, V>>, idx: nat, key: K, value: V)
    requires idx < |b| && NoDup(b) && IsStop(b[idx], key)
    requires KeyStored(b, key) ==> HoldsKey(b[idx], key)
    ensures NoDup(b[idx := Some(Occupied(key, value))])
  {
    var b' := b[idx := Some(Occupied(key, value))];
    forall x, y | 0 <= x < |b| && 0 <= y < |b| && IsOccupied(b'[x]) && IsOccupied(b'[y]) && x != y
      ensures b'[x].value.key != b'[y].value.key
    {
      if x != idx && y != idx {
        assert b'[x] == b[x] && b'[y] == b[y];
      } else if x == idx {
        assert b'[y] == b[y];
      } else {
        assert b'[x] == b[x];
      }
    }
  }

  /** The probed insertion keeps every entry reachable. */
  lemma InsertProbedKeepsChains<K, V>(m: CustomHashMap<K, V>, hash: K -> bv32, key: K, value: V)
    requires |m.buckets| > 0
    requires exists i :: 0 <= i < |m.buckets| && IsStop(m.buckets[i], key)
    requires ChainsIntact(m.buckets, hash)
    ensures ChainsIntact(InsertProbed(m, hash, key, value).0.buckets, hash)
  {
    var b := m.buckets;
    var n := |b|;
    var r := InsertProbed(m, hash, key, value);
    var h := BucketIndex(n, hash, key);
    var idx: nat :| FirstStop(b, key, h, idx) && r.0.buckets == b[idx := Some(Occupied(key, value))];
    forall j | 0 <= j < Offset(h, idx, n)
      ensures b[Pos(h, j, n)].Some?
    {
      assert !IsStop(b[Pos(h, j, n)], key);
    }
    WriteOnPathKeepsChains(b, hash, idx, key, value);
  }

  /** The probed insertion stores no key twice when the key is absent, or
      when there are no tombstones: then the probe reaches the bucket that
      already holds the key and the insertion overwrites it. */
  lemma InsertProbedKeepsNoDup<K, V>(m: CustomHashMap<K, V>, hash: K -> bv32, key: K, value: V)
    requires |m.buckets| > 0
    requires exists i :: 0 <= i < |m.buckets| && IsStop(m.buckets[i], key)
    requires ChainsIntact(m.buckets, hash) && NoDup(m.buckets)
    requires NoRemoved(m.buckets) || !KeyStored(m.buckets, key)
    ensures NoDup(InsertProbed(m, hash, key, value).0.buckets)
    ensures KeyStored(m.buckets, key) <==> InsertProbed(m, hash, key, value).1.Some?
  {
    var b := m.buckets;
    var n := |b|;
    var r := InsertProbed(m, hash, key, value);
    var h := BucketIndex(n, hash, key);
    var idx: nat :| FirstStop(b, key, h, idx) && r.0.buckets == b[idx := Some(Occupied(key, value))]
      && (r.1.Some? <==> IsOccupied(b[idx]));
    assert KeyStored(b, key) ==> HoldsKey(b[idx], key) by {
      if KeyStored(b, key) {
        var i :| 0 <= i < n && IsOccupied(b[i]) && b[i].value.key == key;
        StoredKeyIsFirstStop(b, hash, key, i, idx);
      }
    }
    WriteAtKeyKeepsNoDup(b, idx, key, value);
  }

  /** Without tombstones or duplicate keys, the first stop on a key's probe
      path is the bucket that holds the key, when one does. */
  lemma StoredKeyIsFirstStop<K, V>(b: seq<Slot<K, V>>, hash: K -> bv32, key: K, i: nat, idx: nat)
    requires |b| > 0 && ChainsIntact(b, hash) && NoRemoved(b) && NoDup(b)
    requires i < |b| && HoldsKey(b[i], key)
    requires FirstStop(b, key, BucketIndex(|b|, hash, key), idx)
    ensures idx == i
  {
    var n := |b|;
    var h := BucketIndex(n, hash, key);
    assert PathFilled(b, h, i);
    assert Pos(h, Offset(h, i, n), n) == i;
  }

  /* ---------------- resize ---------------- */

  lemma StoredTail<K, V>(c: seq<Slot<K, V>>, k: K, v: V)
    requires |c| > 0
    ensures Stored(c, k, v) <==> c[0] == Some(Occupied(k, v)) || Stored(c[1..], k, v)
    ensures KeyStored(c, k) <==> HoldsKey(c[0], k) || KeyStored(c[1..], k)
  {
    if Stored(c, k, v) {
      var i :| 0 <= i < |c| && c[i] == Some(Occupied(k, v));
      if i > 0 {
        assert c[1..][i - 1] == c[i];
      }
    }
    if Stored(c[1..], k, v) {
      var i :| 0 <= i < |c[1..]| && c[1..][i] == Some(Occupied(k, v));
      assert c[i + 1] == c[1..][i];
    }
    if KeyStored(c, k) {
      var i :| 0 <= i < |c| && IsOccupied(c[i]) && c[i].value.key == k;
      if i > 0 {
        assert c[1..][i - 1] == c[i];
      }
    }
    if KeyStored(c[1..], k) {
      var i :| 0 <= i < |c[1..]| && IsOccupied(c[1..][i]) && c[1..][i].value.key == k;
      assert c[i + 1] == c[1..][i];
    }
  }

  /** One step of re-insertion: the first pending entry goes into the
      table through `insert`, which then takes the probed path (the table
      is below the load threshold) and keeps the table's invariants. */
  lemma ReinsertStep<K, V>(t: CustomHashMap<K, V>, hash: K -> bv32, k0: K, v0: V)
    requires WellFormed(t) && 4 * (t.len + 1) <= 3 * |t.buckets|
    requires ChainsIntact(t.buckets, hash) && NoRemoved(t.buckets) && NoDup(t.buckets)
    ensures var t' := Insert(t, hash, k0, v0).0;
      && t' == InsertProbed(t, hash, k0, v0).0
      && ChainsIntact(t'.buckets, hash) && NoDup(t'.buckets)
      && Stored(t'.buckets, k0, v0)
      && (forall k, v :: k != k0 ==> (Stored(t'.buckets, k, v) <==> Stored(t.buckets, k, v)))
      && (forall k, v :: Stored(t'.buckets, k, v) ==> (k == k0 && v == v0) || Stored(t.buckets, k, v))
      && (forall k :: KeyStored(t'.buckets, k) <==> k == k0 || KeyStored(t.buckets, k))
  {
    assert !Overloaded(t);
    assert EnsureCapacity(t, hash) == t;
    FreeSlotExists(t.buckets);
    InsertProbedEntries(t, hash, k0, v0);
    InsertProbedKeepsChains(t, hash, k0, v0);
    InsertProbedKeepsNoDup(t, hash, k0, v0);
  }

  /** The pending buckets after the first hold each key once when the
      pending buckets did. */
  lemma NoDupTail<K, V>(pending: seq<Slot<K, V>>)
    requires |pending| > 0 && NoDup(pending)
    ensures NoDup(pending[1..])
  {
    var rest := pending[1..];
    forall x, y | 0 <= x < |rest| && 0 <= y < |rest| && IsOccupied(rest[x]) && IsOccupied(rest[y]) && x != y
      ensures rest[x].value.key != rest[y].value.key
    {
      assert rest[x] == pending[x + 1] && rest[y] == pending[y + 1];
    }
  }

  /** After the first pending entry is inserted, the rest still shares no
      key with the table. */
  lemma DisjointTail<K, V>(b: seq<Slot<K, V>>, b': seq<Slot<K, V>>, pending: seq<Slot<K, V>>)
    requires |pending| > 0 && IsOccupied(pending[0])
    requires NoDup(pending) && KeysDisjoint(b, pending)
    requires forall k :: KeyStored(b', k) <==> k == pending[0].value.key || KeyStored(b, k)
    ensures KeysDisjoint(b', pending[1..])
  {
    var rest := pending[1..];
    forall x, y | 0 <= x < |rest| && 0 <= y < |b'| && IsOccupied(rest[x]) && IsOccupied(b'[y])
      ensures rest[x].value.key != b'[y].value.key
    {
      var k := rest[x].value.key;
      assert pending[x + 1] == rest[x];
      assert k != pending[0].value.key;
      assert !KeyStored(b, k) by {
        forall z | 0 <= z < |b| && IsOccupied(b[z])
          ensures b[z].value.key != k
        {
          assert IsOccupied(pending[x + 1]);
        }
      }
      assert !KeyStored(b', k);
    }
  }

  /** The pairs and keys of the pending buckets are those of the first one
      and those of the rest. */
  lemma PendingTail<K, V>(pending: seq<Slot<K, V>>)
    requires |pending| > 0
    ensures forall k, v :: Stored(pending, k, v) <==> pending[0] == Some(Occupied(k, v)) || Stored(pending[1..], k, v)
    ensures forall k :: KeyStored(pending, k) <==> HoldsKey(pending[0], k) || KeyStored(pending[1..], k)
  {
    forall k, v
      ensures Stored(pending, k, v) <==> pending[0] == Some(Occupied(k, v)) || Stored(pending[1..], k, v)
      ensures KeyStored(pending, k) <==> HoldsKey(pending[0], k) || KeyStored(pending[1..], k)
    {
      StoredTail(pending, k, v);
    }
  }

  /** Re-insertion into a tombstone-free table keeps it reachable and free of
      duplicates, produces only pairs it was given, and loses none of them
      when the pending buckets hold each key once and share no key with the
      table. */
  lemma {:induction false} ReinsertEntries<K, V>(t: CustomHashMap<K, V>, hash: K -> bv32, pending: seq<Slot<K, V>>)
    requires WellFormed(t)
    requires 4 * (t.len + CountOccupied(pending)) <= 3 * |t.buckets|
    requires ChainsIntact(t.buckets, hash) && NoRemoved(t.buckets) && NoDup(t.buckets)
    ensures var r := Reinsert(t, hash, pending);
      && ChainsIntact(r.buckets, hash) && NoDup(r.buckets)
      && (forall k, v :: Stored(r.buckets, k, v) ==> Stored(t.buckets, k, v) || Stored(pending, k, v))
      && (NoDup(pending) && KeysDisjoint(t.buckets, pending) ==>
            forall k, v :: Stored(t.buckets, k, v) || Stored(pending, k, v) ==> Stored(r.buckets, k, v))
    decreases |pending|, 1
  {
    if |pending| == 0 {
      assert Reinsert(t, hash, pending) == t;
    } else if IsOccupied(pending[0]) {
      ReinsertOccupied(t, hash, pending);
    } else {
      var rest := pending[1..];
      assert Reinsert(t, hash, pending) == Reinsert(t, hash, rest);
      PendingTail(pending);
      if NoDup(pending) {
        NoDupTail(pending);
      }
      ReinsertEntries(t, hash, rest);
    }
  }

  /** `ReinsertEntries` when the first pending bucket holds an entry. */
  lemma {:induction false} ReinsertOccupied<K, V>(t: CustomHashMap<K, V>, hash: K -> bv32, pending: seq<Slot<K, V>>)
    requires WellFormed(t) && |pending| > 0 && IsOccupied(pending[0])
    requires 4 * (t.len + CountOccupied(pending)) <= 3 * |t.buckets|
    requires ChainsIntact(t.buckets, hash) && NoRemoved(t.buckets) && NoDup(t.buckets)
    ensures var r := Reinsert(t, hash, pending);
      && ChainsIntact(r.buckets, hash) && NoDup(r.buckets)
      && (forall k, v :: Stored(r.buckets, k, v) ==> Stored(t.buckets, k, v) || Stored(pending, k, v))
      && (NoDup(pending) && KeysDisjoint(t.buckets, pending) ==>
            forall k, v :: Stored(t.buckets, k, v) || Stored(pending, k, v) ==> Stored(r.buckets, k, v))
    decreases |pending|, 0
  {
    var rest := pending[1..];
    var k0, v0 := pending[0].value.key, pending[0].value.val;
    var t' := Insert(t, hash, k0, v0).0;
    var r := Reinsert(t', hash, rest);
    assert Reinsert(t, hash, pending) == r;
    ReinsertStep(t, hash, k0, v0);
    ReinsertEntries(t', hash, rest);
    PendingTail(pending);
    if NoDup(pending) && KeysDisjoint(t.buckets, pending) {
      NoDupTail(pending);
      DisjointTail(t.buckets, t'.buckets, pending);
      forall k, v | Stored(t.buckets, k, v) || Stored(pending, k, v)
        ensures Stored(r.buckets, k, v)
      {
        if Stored(t.buckets, k, v) {
          assert KeyStored(t.buckets, k);
          assert k != k0 by {
            assert HoldsKey(pending[0], k0);
          }
        }
      }
    }
  }

  /** `resize` keeps every entry reachable, stores no key twice, produces
      only pairs that were stored before, and, when no key was stored twice,
      keeps every pair. */
  lemma ResizeEntries<K, V>(m: CustomHashMap<K, V>, hash: K -> bv32, newCapacity: nat)
    requires WellFormed(m)
    requires newCapacity > 0 && 4 * m.len <= 3 * newCapacity
    ensures var r := Resize(m, hash, newCapacity);
      && ChainsIntact(r.buckets, hash) && NoDup(r.buckets)
      && (forall k, v :: Stored(r.buckets, k, v) ==> Stored(m.buckets, k, v))
      && (NoDup(m.buckets) ==> forall k, v :: Stored(m.buckets, k, v) ==> Stored(r.buckets, k, v))
  {
    var t: CustomHashMap<K, V> := CustomHashMap(seq(newCapacity, _ => None), 0);
    AllEmptyCount<K, V>(newCapacity);
    assert Resize(m, hash, newCapacity) == Reinsert(t, hash, m.buckets);
    assert forall k :: !KeyStored(t.buckets, k);
    assert forall k, v :: !Stored(t.buckets, k, v);
    ReinsertEntries(t, hash, m.buckets);
  }

  /** `ensure_capacity` keeps the invariant and, with no key stored twice,
      the stored pairs; when it grows the table it leaves no tombstone. */
  lemma EnsureCapacityEntries<K, V>(m: CustomHashMap<K, V>, hash: K -> bv32)
    requires Valid(m, hash)
    ensures var r := EnsureCapacity(m, hash);
      && Valid(r, hash)
      && (r == m || (NoRemoved(r.buckets) && NoDup(r.buckets)))
      && (NoDup(m.buckets) ==> NoDup(r.buckets) && forall k, v :: Stored(r.buckets, k, v) <==> Stored(m.buckets, k, v))
  {
    if Overloaded(m) {
      var n := |m.buckets|;
      assert IsPow2(n * 2) by {
        assert (n * 2) % 2 == 0 && (n * 2) / 2 == n;
      }
      ResizeEntries(m, hash, n * 2);
    }
  }

  /* ---------------- the public operations ---------------- */

  /** `insert` keeps the table invariant. */
  lemma InsertKeepsValid<K, V>(m: CustomHashMap<K, V>, hash: K -> bv32, key: K, value: V)
    requires Valid(m, hash)
    ensures Valid(Insert(m, hash, key, value).0, hash)
  {
    var grown := EnsureCapacity(m, hash);
    EnsureCapacityEntries(m, hash);
    FreeSlotExists(grown.buckets);
    InsertProbedKeepsChains(grown, hash, key, value);
  }

  /** After `insert(k, v)`, `get(k)` returns `v`, whatever else the table
      holds. */
  lemma GetAfterInsert<K, V>(m: CustomHashMap<K, V>, hash: K -> bv32, key: K, value: V)
    requires WellFormed(m)
    ensures Get(Insert(m, hash, key, value).0, hash, key) == Some(value)
  {
    var grown := EnsureCapacity(m, hash);
    FreeSlotExists(grown.buckets);
    var r := InsertProbed(grown, hash, key, value);
    var b := grown.buckets;
    var n := |b|;
    var h := BucketIndex(n, hash, key);
    var idx: nat :| FirstStop(b, key, h, idx) && r.0.buckets == b[idx := Some(Occupied(key, value))];
    var b' := r.0.buckets;
    forall k | 0 <= k < Offset(h, idx, n)
      ensures b'[Pos(h, k, n)].Some? && !HoldsKey(b'[Pos(h, k, n)], key)
    {
      assert Pos(h, k, n) != idx;
      assert !IsStop(b[Pos(h, k, n)], key);
    }
    ProbeReaches(b', key, h, 0, Offset(h, idx, n));
  }

  /** The probed insertion, on a table with no key stored twice, updates the
      entry of `key` and leaves the other entries alone. */
  lemma InsertProbedUpdates<K, V>(g: CustomHashMap<K, V>, hash: K -> bv32, key: K, value: V)
    requires Valid(g, hash) && NoDup(g.buckets)
    requires exists i :: 0 <= i < |g.buckets| && IsStop(g.buckets[i], key)
    requires NoRemoved(g.buckets) || !KeyStored(g.buckets, key)
    ensures var r := InsertProbed(g, hash, key, value);
      && NoDup(r.0.buckets)
      && r.1 == Get(g, hash, key)
      && forall k, v :: Stored(r.0.buckets, k, v) <==> if k == key then v == value else Stored(g.buckets, k, v)
  {
    var r := InsertProbed(g, hash, key, value);
    InsertProbedKeepsNoDup(g, hash, key, value);
    InsertProbedEntries(g, hash, key, value);
    GetAgreesWithStored(g, hash, key);
    if r.1.Some? {
      assert Stored(g.buckets, key, r.1.value);
    }
    forall k, v
      ensures Stored(r.0.buckets, k, v) <==> if k == key then v == value else Stored(g.buckets, k, v)
    {
      if k == key && Stored(r.0.buckets, k, v) {
        var i :| 0 <= i < |r.0.buckets| && r.0.buckets[i] == Some(Occupied(k, v));
        var j :| 0 <= j < |r.0.buckets| && r.0.buckets[j] == Some(Occupied(key, value));
        assert i == j;
      }
    }
  }

  /** With no key stored twice, and the key either absent or no tombstone
      present, `insert` behaves as a map update: it returns the previous
      value that `get` would have given, stores `key -> value`, and keeps
      every other pair. */
  lemma InsertUpdatesEntries<K, V>(m: CustomHashMap<K, V>, hash: K -> bv32, key: K, value: V)
    requires Valid(m, hash) && NoDup(m.buckets)
    requires NoRemoved(m.buckets) || !KeyStored(m.buckets, key)
    ensures var r := Insert(m, hash, key, value);
      && Valid(r.0, hash) && NoDup(r.0.buckets)
      && r.1 == Get(m, hash, key)
      && forall k, v :: Stored(r.0.buckets, k, v) <==> if k == key then v == value else Stored(m.buckets, k, v)
  {
    var grown := EnsureCapacity(m, hash);
    var r := Insert(m, hash, key, value);
    assert Valid(r.0, hash) by {
      InsertKeepsValid(m, hash, key, value);
    }
    assert Valid(grown, hash) && NoDup(grown.buckets) && (grown == m || NoRemoved(grown.buckets))
        && forall k, v :: Stored(grown.buckets, k, v) <==> Stored(m.buckets, k, v) by {
      EnsureCapacityEntries(m, hash);
    }
    assert r == InsertProbed(grown, hash, key, value) by {
      FreeSlotExists(grown.buckets);
    }
    assert KeyStored(grown.buckets, key) ==> KeyStored(m.buckets, key) by {
      if KeyStored(grown.buckets, key) {
        var i :| 0 <= i < |grown.buckets| && IsOccupied(grown.buckets[i]) && grown.buckets[i].value.key == key;
        assert Stored(grown.buckets, key, grown.buckets[i].value.val);
      }
    }
    assert Get(grown, hash, key) == Get(m, hash, key) by {
      GetSameEntries(m, grown, hash, key);
    }
    FreeSlotExists(grown.buckets);
    InsertProbedUpdates(grown, hash, key, value);
  }

  /** Two valid tables without duplicate keys that store the same pairs
      answer `get` alike. */
  lemma GetSameEntries<K, V>(m: CustomHashMap<K, V>, g: CustomHashMap<K, V>, hash: K -> bv32, key: K)
    requires Valid(m, hash) && NoDup(m.buckets) && Valid(g, hash) && NoDup(g.buckets)
    requires forall k, v :: Stored(g.buckets, k, v) <==> Stored(m.buckets, k, v)
    ensures Get(g, hash, key) == Get(m, hash, key)
  {
    GetAgreesWithStored(m, hash, key);
    GetAgreesWithStored(g, hash, key);
    if Get(m, hash, key).None? {
      assert !KeyStored(m.buckets, key);
      if KeyStored(g.buckets, key) {
        var i :| 0 <= i < |g.buckets| && IsOccupied(g.buckets[i]) && g.buckets[i].value.key == key;
        assert Stored(g.buckets, key, g.buckets[i].value.val);
      }
    }
  }

  /** `remove` keeps the table invariant and adds no duplicate key. */
  lemma RemoveKeepsValid<K, V>(m: CustomHashMap<K, V>, hash: K -> bv32, key: K)
    requires Valid(m, hash)
    ensures Valid(Remove(m, hash, key).0, hash)
    ensures NoDup(m.buckets) ==> NoDup(Remove(m, hash, key).0.buckets)
  {
    var r := Remove(m, hash, key);
    if r.1.Some? {
      var i := Probe(m, hash, key).value;
      assert r.0.buckets == m.buckets[i := Some(Removed)];
      TombstoneKeepsChains(m.buckets, hash, i);
      if NoDup(m.buckets) {
        TombstoneKeepsNoDup(m.buckets, i);
      }
    }
  }

  /** A tombstone keeps every probe path filled. */
  lemma TombstoneKeepsChains<K, V>(b: seq<Slot<K, V>>, hash: K -> bv32, i: nat)
    requires ChainsIntact(b, hash) && i < |b|
    ensures ChainsIntact(b[i := Some(Removed)], hash)
  {
    var n := |b|;
    var b' := b[i := Some(Removed)];
    forall x | 0 <= x < n && IsOccupied(b'[x])
      ensures PathFilled(b', BucketIndex(n, hash, b'[x].value.key), x)
    {
      var hx := BucketIndex(n, hash, b'[x].value.key);
      assert b[x] == b'[x];
      assert PathFilled(b, hx, x);
      forall j | 0 <= j < Offset(hx, x, n)
        ensures b'[Pos(hx, j, n)].Some?
      {
        assert b[Pos(hx, j, n)].Some?;
      }
    }
  }

  /** A tombstone adds no duplicate key. */
  lemma TombstoneKeepsNoDup<K, V>(b: seq<Slot<K, V>>, i: nat)
    requires NoDup(b) && i < |b|
    ensures NoDup(b[i := Some(Removed)])
  {
    var b' := b[i := Some(Removed)];
    forall x, y | 0 <= x < |b'| && 0 <= y < |b'| && IsOccupied(b'[x]) && IsOccupied(b'[y]) && x != y
      ensures b'[x].value.key != b'[y].value.key
    {
      assert b'[x] == b[x] && b'[y] == b[y];
    }
  }

  /** With no key stored twice, `remove` behaves as a map deletion: it
      returns what `get` would have given, and afterwards exactly the other
      pairs remain. */
  lemma RemoveDeletesEntry<K, V>(m: CustomHashMap<K, V>, hash: K -> bv32, key: K)
    requires Valid(m, hash) && NoDup(m.buckets)
    ensures var r := Remove(m, hash, key);
      && Valid(r.0, hash) && NoDup(r.0.buckets)
      && forall k, v :: Stored(r.0.buckets, k, v) <==> k != key && Stored(m.buckets, k, v)
  {
    var r := Remove(m, hash, key);
    RemoveKeepsValid(m, hash, key);
    var b := m.buckets;
    if r.1.Some? {
      var i :| 0 <= i < |b| && b[i] == Some(Occupied(key, r.1.value)) && r.0.buckets == b[i := Some(Removed)];
      TombstoneEntries(b, i, key, r.1.value);
    } else {
      assert !KeyStored(b, key) by {
        GetAgreesWithStored(m, hash, key);
      }
      assert forall k, v :: Stored(b, k, v) ==> KeyStored(b, k);
    }
  }

  /** Turning the only holder of `key` into a tombstone removes exactly
      the pairs of `key`. */
  lemma TombstoneEntries<K, V>(b: seq<Slot<K, V>>, i: nat, key: K, val: V)
    requires i < |b| && b[i] == Some(Occupied(key, val)) && NoDup(b)
    ensures var b' := b[i := Some(Removed)];
      && NoDup(b')
      && forall k, v :: Stored(b', k, v) <==> k != key && Stored(b, k, v)
  {
    var b' := b[i := Some(Removed)];
    forall k, v
      ensures Stored(b', k, v) <==> k != key && Stored(b, k, v)
    {
      if Stored(b', k, v) {
        var x :| 0 <= x < |b'| && b'[x] == Some(Occupied(k, v));
        assert x != i && b[x] == b'[x];
      }
      if k != key && Stored(b, k, v) {
        var x :| 0 <= x < |b| && b[x] == Some(Occupied(k, v));
        assert x != i && b[x] == b'[x];
      }
    }
    forall x, y | 0 <= x < |b'| && 0 <= y < |b'| && IsOccupied(b'[x]) && IsOccupied(b'[y]) && x != y
      ensures b'[x].value.key != b'[y].value.key
    {
      assert b'[x] == b[x] && b'[y] == b[y];
    }
  }
}
