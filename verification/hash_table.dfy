/** `CustomHashMap`: an open-addressing table with linear probing, tombstones
    (`Removed`) and doubling growth. The table is a value: every operation
    returns the new table, and the key digest is a parameter `hash`.

    The model follows the code as written, in particular `find_slot`, which
    stops at the first tombstone on the probe path, and the load check,
    which counts live entries only. */
module HashTable {
  import opened Wrappers

  /** A filled bucket: a live entry or the tombstone left by `remove`. An
      empty bucket is `None`. */
  datatype Bucket<K, V> = Occupied(key: K, val: V) | Removed

  type Slot<K, V> = Option<Bucket<K, V>>

  datatype CustomHashMap<K, V> = CustomHashMap(buckets: seq<Slot<K, V>>, len: nat)

  /** Bucket count of `new()`. */
  const DEFAULT_CAPACITY: nat := 16

  /* ---------------- slots ---------------- */

  predicate IsOccupied<K, V>(s: Slot<K, V>) {
    s.Some? && s.value.Occupied?
  }

  predicate IsRemoved<K, V>(s: Slot<K, V>) {
    s.Some? && s.value.Removed?
  }

  predicate HoldsKey<K(==), V>(s: Slot<K, V>, key: K) {
    IsOccupied(s) && s.value.key == key
  }

  /** Where `find_slot` stops: any slot not taken by a different key. */
  predicate IsStop<K(==), V>(s: Slot<K, V>, key: K) {
    !IsOccupied(s) || s.value.key == key
  }

  /** Number of live entries in a bucket sequence. */
  function CountOccupied<K, V>(b: seq<Slot<K, V>>): (c: nat)
    ensures c <= |b|
  {
    if |b| == 0 then 0 else (if IsOccupied(b[0]) then 1 else 0) + CountOccupied(b[1..])
  }

  ghost predicate NoRemoved<K, V>(b: seq<Slot<K, V>>) {
    forall i :: 0 <= i < |b| ==> !IsRemoved(b[i])
  }

  /** `key -> val` is held by some bucket. */
  ghost predicate Stored<K, V>(b: seq<Slot<K, V>>, key: K, val: V) {
    exists i :: 0 <= i < |b| && b[i] == Some(Occupied(key, val))
  }

  ghost predicate KeyStored<K, V>(b: seq<Slot<K, V>>, key: K) {
    exists i :: 0 <= i < |b| && IsOccupied(b[i]) && b[i].value.key == key
  }

  /** No key is held by two buckets. */
  ghost predicate NoDup<K, V>(b: seq<Slot<K, V>>) {
    forall i, j :: 0 <= i < |b| && 0 <= j < |b| && IsOccupied(b[i]) && IsOccupied(b[j]) && i != j ==>
      b[i].value.key != b[j].value.key
  }

  /* ---------------- sizes ---------------- */

  predicate IsPow2(n: nat)
    decreases n
  {
    if n <= 1 then n == 1 else n % 2 == 0 && IsPow2(n / 2)
  }

  /** Doubling from the power of two `p` until `n` is reached. */
  function NextPow2From(n: nat, p: nat): (r: nat)
    requires IsPow2(p)
    ensures IsPow2(r) && n <= r && p <= r
    ensures r == p || r / 2 < n
    decreases n - p
  {
    if n <= p then p else NextPow2From(n, 2 * p)
  }

  /** Rust's `next_power_of_two`: the least power of two that is at least `n`. */
  function NextPowerOfTwo(n: nat): (r: nat)
    ensures IsPow2(r) && n <= r
    ensures r == 1 || r / 2 < n
  {
    NextPow2From(n, 1)
  }

  /** The table's own invariant: at least one bucket, and `len` counts the
      live entries. */
  ghost predicate WellFormed<K, V>(m: CustomHashMap<K, V>) {
    |m.buckets| > 0 && m.len == CountOccupied(m.buckets)
  }

  /** No empty bucket lies on the probe path from `h` up to bucket `i`. */
  ghost predicate PathFilled<K, V>(b: seq<Slot<K, V>>, h: nat, i: nat)
    requires h < |b| && i < |b|
  {
    forall j :: 0 <= j < Offset(h, i, |b|) ==> b[Pos(h, j, |b|)].Some?
  }

  /** Every live entry can be reached from its home bucket without crossing
      an empty bucket, which is what makes `get` find it. */
  ghost predicate ChainsIntact<K, V>(b: seq<Slot<K, V>>, hash: K -> bv32) {
    forall i :: 0 <= i < |b| && IsOccupied(b[i]) ==>
      PathFilled(b, BucketIndex(|b|, hash, b[i].value.key), i)
  }

  /** The invariant every operation keeps: well formed, a power-of-two
      bucket count, and reachable entries. */
  ghost predicate Valid<K, V>(m: CustomHashMap<K, V>, hash: K -> bv32) {
    WellFormed(m) && IsPow2(|m.buckets|) && ChainsIntact(m.buckets, hash)
  }

  /** The 75% load check of `ensure_capacity` (live entries only): the
      live entries reach three quarters of the buckets, rounded up. */
  predicate Overloaded<K, V>(m: CustomHashMap<K, V>)
    ensures Overloaded(m) <==> m.len >= (3 * |m.buckets| + 3) / 4
  {
    m.len * 4 >= |m.buckets| * 3
  }

  /* ---------------- construction ---------------- */

  /** `with_capacity`: `max(capacity, 1)` rounded up to a power of two, every
      bucket empty. */
  function WithCapacity<K, V>(capacity: nat): (m: CustomHashMap<K, V>)
    ensures WellFormed(m) && m.len == 0 && IsPow2(|m.buckets|)
    ensures capacity <= |m.buckets| && (|m.buckets| == 1 || |m.buckets| / 2 < capacity)
    ensures forall i :: 0 <= i < |m.buckets| ==> m.buckets[i].None?
  {
    var cap := NextPowerOfTwo(if capacity < 1 then 1 else capacity);
    AllEmptyCount<K, V>(cap);
    CustomHashMap(seq(cap, _ => None), 0)
  }

  /** `new`: sixteen empty buckets. */
  function New<K, V>(): (m: CustomHashMap<K, V>)
    ensures WellFormed(m) && m.len == 0 && |m.buckets| == DEFAULT_CAPACITY
    ensures forall i :: 0 <= i < |m.buckets| ==> m.buckets[i].None?
  {
    assert NextPowerOfTwo(16) == 16 by {
      assert NextPow2From(16, 16) == 16;
    }
    WithCapacity(DEFAULT_CAPACITY)
  }

  /* ---------------- probing ---------------- */

  /** `bucket_index`: the digest reduced modulo the bucket count. */
  function BucketIndex<K>(n: nat, hash: K -> bv32, key: K): (h: nat)
    requires n > 0
    ensures h < n
  {
    (hash(key) as nat) % n
  }

  /** A digest below the bucket count is its own home bucket. */
  lemma SmallDigestIsHome<K>(n: nat, hash: K -> bv32, key: K)
    requires hash(key) as nat < n
    ensures BucketIndex(n, hash, key) == hash(key) as nat
  {
    ModBelow(hash(key) as nat, n);
  }

  /** The bucket visited at step `j` of a probe that starts at `h`: the
      result of `j` times `idx = (idx + 1) % n`. */
  function Pos(h: nat, j: nat, n: nat): (p: nat)
    requires h < n && j < n
    ensures p < n
  {
    if h + j < n then h + j else h + j - n
  }

  /** The step at which a probe from `h` visits bucket `i`. */
  function Offset(h: nat, i: nat, n: nat): (j: nat)
    requires h < n && i < n
    ensures j < n && Pos(h, j, n) == i
  {
    if h <= i then i - h else i + n - h
  }

  /** `idx` is where a probe for `key` from `h` first meets a stop slot. */
  ghost predicate FirstStop<K, V>(b: seq<Slot<K, V>>, key: K, h: nat, idx: nat)
    requires h < |b|
  {
    && idx < |b| && IsStop(b[idx], key)
    && forall j :: 0 <= j < Offset(h, idx, |b|) ==> !IsStop(b[Pos(h, j, |b|)], key)
  }

  function FindSlotFrom<K(==), V>(b: seq<Slot<K, V>>, key: K, h: nat, j: nat): (idx: nat)
    requires h < |b|
    requires exists k :: j <= k < |b| && IsStop(b[Pos(h, k, |b|)], key)
    ensures idx < |b| && IsStop(b[idx], key) && j <= Offset(h, idx, |b|)
    ensures forall k :: j <= k < Offset(h, idx, |b|) ==> !IsStop(b[Pos(h, k, |b|)], key)
    decreases |b| - j
  {
    var p := Pos(h, j, |b|);
    if IsStop(b[p], key) then p else FindSlotFrom(b, key, h, j + 1)
  }

  /** `find_slot`: the first bucket on the probe path that is empty, a
      tombstone, or holds `key`. The second component is `Some(idx)` exactly
      when that bucket is a tombstone: `first_removed` is never updated
      during the scan, so no tombstone before `idx` is remembered. The loop
      ends only if some stop slot exists, which is what the precondition
      says. */
  function FindSlot<K(==), V>(m: CustomHashMap<K, V>, hash: K -> bv32, key: K): (r: (nat, Option<nat>))
    requires |m.buckets| > 0
    requires exists i :: 0 <= i < |m.buckets| && IsStop(m.buckets[i], key)
    ensures FirstStop(m.buckets, key, BucketIndex(|m.buckets|, hash, key), r.0)
    ensures r.1 == if IsRemoved(m.buckets[r.0]) then Some(r.0) else None
  {
    var h := BucketIndex(|m.buckets|, hash, key);
    StopOnProbePath(m.buckets, key, h);
    var idx := FindSlotFrom(m.buckets, key, h, 0);
    (idx, if IsRemoved(m.buckets[idx]) then Some(idx) else None)
  }

  /** The probe loop shared by `get`, `get_mut` and `remove`: skip
      tombstones and other keys, stop at an empty bucket or after a full
      turn, and answer the index of the bucket holding `key`. A miss means
      every copy of `key` on the path lies beyond an empty bucket. */
  function ProbeFrom<K(==), V>(b: seq<Slot<K, V>>, key: K, h: nat, j: nat): (r: Option<nat>)
    requires h < |b| && j <= |b|
    ensures r.Some? ==>
      && r.value < |b| && HoldsKey(b[r.value], key) && j <= Offset(h, r.value, |b|)
      && forall k :: j <= k < Offset(h, r.value, |b|) ==>
           b[Pos(h, k, |b|)].Some? && !HoldsKey(b[Pos(h, k, |b|)], key)
    ensures r.None? ==>
      forall k :: j <= k < |b| && HoldsKey(b[Pos(h, k, |b|)], key) ==>
        exists k' :: j <= k' < k && b[Pos(h, k', |b|)].None?
    decreases |b| - j
  {
    if j == |b| then None
    else
      var p := Pos(h, j, |b|);
      match b[p]
      case None => None
      case Some(Removed) => ProbeFrom(b, key, h, j + 1)
      case Some(Occupied(k, _)) => if k == key then Some(p) else ProbeFrom(b, key, h, j + 1)
  }

  /** The probe `get`, `get_mut` and `remove` share: from the key's home
      bucket, past tombstones and other keys, up to the key or an empty
      bucket. */
  function Probe<K(==), V>(m: CustomHashMap<K, V>, hash: K -> bv32, key: K): Option<nat>
    requires |m.buckets| > 0
  {
    ProbeFrom(m.buckets, key, BucketIndex(|m.buckets|, hash, key), 0)
  }

  /** A hit of the probe holds the key, and every bucket before it on the
      path from the home bucket is filled with another key or a tombstone;
      a miss means an empty bucket precedes every bucket on the path that
      holds the key. */
  lemma ProbeStops<K, V>(m: CustomHashMap<K, V>, hash: K -> bv32, key: K)
    requires |m.buckets| > 0
    ensures var b, h, r := m.buckets, BucketIndex(|m.buckets|, hash, key), Probe(m, hash, key);
      && (r.Some? ==>
            && r.value < |b| && HoldsKey(b[r.value], key)
            && forall k :: 0 <= k < Offset(h, r.value, |b|) ==>
                 b[Pos(h, k, |b|)].Some? && !HoldsKey(b[Pos(h, k, |b|)], key))
      && (r.None? ==>
            forall k :: 0 <= k < |b| && HoldsKey(b[Pos(h, k, |b|)], key) ==>
              exists k' :: 0 <= k' < k && b[Pos(h, k', |b|)].None?)
  {
  }

  /* ---------------- operations ---------------- */

  /** The part of `insert` after the load check: probe with `find_slot`,
      overwrite the value when the stop bucket holds `key`, otherwise write a
      new entry there and count it. */
  function InsertProbed<K(==), V>(m: CustomHashMap<K, V>, hash: K -> bv32, key: K, value: V)
    : (r: (CustomHashMap<K, V>, Option<V>))
    requires |m.buckets| > 0
    requires exists i :: 0 <= i < |m.buckets| && IsStop(m.buckets[i], key)
    ensures |r.0.buckets| == |m.buckets|
    ensures exists idx: nat :: (
      && FirstStop(m.buckets, key, BucketIndex(|m.buckets|, hash, key), idx)
      && r.0.buckets == m.buckets[idx := Some(Occupied(key, value))]
      && (r.1.Some? <==> IsOccupied(m.buckets[idx]))
      && (r.1.Some? ==> m.buckets[idx] == Some(Occupied(key, r.1.value)) && r.0.len == m.len)
      && (r.1.None? ==> r.0.len == m.len + 1))
    ensures m.len == CountOccupied(m.buckets) ==> r.0.len == CountOccupied(r.0.buckets)
  {
    var (idx, firstRemoved) := FindSlot(m, hash, key);
    CountUpdate(m.buckets, idx, Some(Occupied(key, value)));
    if IsOccupied(m.buckets[idx]) && m.buckets[idx].value.key == key then
      (m.(buckets := m.buckets[idx := Some(Occupied(m.buckets[idx].value.key, value))]),
       Some(m.buckets[idx].value.val))
    else
      var slot := firstRemoved.GetOr(idx);
      (CustomHashMap(m.buckets[slot := Some(Occupied(key, value))], m.len + 1), None)
  }

  /** `insert`: grow if the load check fires, then insert as above. Returns
      the previous value when the probe met `key`. */
  function Insert<K(==), V>(m: CustomHashMap<K, V>, hash: K -> bv32, key: K, value: V)
    : (r: (CustomHashMap<K, V>, Option<V>))
    requires WellFormed(m)
    ensures WellFormed(r.0) && Stored(r.0.buckets, key, value)
    ensures !Overloaded(m) ==> |r.0.buckets| == |m.buckets|
    ensures Overloaded(m) ==> |r.0.buckets| == 2 * |m.buckets|
    ensures r.0.len <= m.len + 1
    ensures NoRemoved(m.buckets) ==> NoRemoved(r.0.buckets)
    decreases if Overloaded(m) then 1 else 0, 3, 0
  {
    var grown := EnsureCapacity(m, hash);
    FreeSlotExists(grown.buckets);
    var r := InsertProbed(grown, hash, key, value);
    assert Stored(r.0.buckets, key, value) by {
      var idx: nat :| FirstStop(grown.buckets, key, BucketIndex(|grown.buckets|, hash, key), idx)
        && r.0.buckets == grown.buckets[idx := Some(Occupied(key, value))];
      assert r.0.buckets[idx] == Some(Occupied(key, value));
    }
    r
  }

  /** `ensure_capacity`: double the bucket count when live entries reach 75%
      of it. Afterwards the load is below 75%, so some bucket is free and
      `find_slot` terminates. */
  function EnsureCapacity<K(==), V>(m: CustomHashMap<K, V>, hash: K -> bv32): (r: CustomHashMap<K, V>)
    requires WellFormed(m)
    ensures WellFormed(r) && !Overloaded(r)
    ensures !Overloaded(m) ==> r == m
    ensures Overloaded(m) ==> |r.buckets| == 2 * |m.buckets| && NoRemoved(r.buckets) && r.len <= m.len
    decreases if Overloaded(m) then 1 else 0, 2, 0
  {
    if Overloaded(m) then Resize(m, hash, |m.buckets| * 2) else m
  }

  /** `resize`: a fresh table of `newCapacity` empty buckets into which every
      live entry is re-inserted in bucket order; tombstones are dropped.
      `newCapacity` must keep the re-inserted entries under the load
      threshold, which `ensure_capacity` guarantees. */
  function Resize<K(==), V>(m: CustomHashMap<K, V>, hash: K -> bv32, newCapacity: nat): (r: CustomHashMap<K, V>)
    requires WellFormed(m)
    requires newCapacity > 0 && 4 * m.len <= 3 * newCapacity
    ensures WellFormed(r) && |r.buckets| == newCapacity && NoRemoved(r.buckets) && r.len <= m.len
    decreases 1, 1, 0
  {
    AllEmptyCount<K, V>(newCapacity);
    Reinsert(CustomHashMap(seq(newCapacity, _ => None), 0), hash, m.buckets)
  }

  /** The re-insertion loop of `resize`, through the full `insert`: the load
      stays below the threshold, so the nested load check never fires. */
  function Reinsert<K(==), V>(t: CustomHashMap<K, V>, hash: K -> bv32, pending: seq<Slot<K, V>>)
    : (r: CustomHashMap<K, V>)
    requires WellFormed(t)
    requires 4 * (t.len + CountOccupied(pending)) <= 3 * |t.buckets|
    ensures WellFormed(r) && |r.buckets| == |t.buckets| && r.len <= t.len + CountOccupied(pending)
    ensures NoRemoved(t.buckets) ==> NoRemoved(r.buckets)
    decreases 1, 0, |pending|
  {
    if |pending| == 0 then t
    else if IsOccupied(pending[0]) then
      var t' := Insert(t, hash, pending[0].value.key, pending[0].value.val).0;
      Reinsert(t', hash, pending[1..])
    else
      Reinsert(t, hash, pending[1..])
  }

  /** `get`: the value of the bucket the probe finds. */
  function Get<K(==), V>(m: CustomHashMap<K, V>, hash: K -> bv32, key: K): (r: Option<V>)
    requires |m.buckets| > 0
    ensures r.Some? ==> Stored(m.buckets, key, r.value)
  {
    match Probe(m, hash, key)
    case Some(i) => Some(m.buckets[i].value.val)
    case None => None
  }

  /** `contains_key`: `get(key).is_some()`. */
  function ContainsKey<K(==), V>(m: CustomHashMap<K, V>, hash: K -> bv32, key: K): (r: bool)
    requires |m.buckets| > 0
    ensures r ==> KeyStored(m.buckets, key)
  {
    Get(m, hash, key).Some?
  }

  /** `remove`: turn the bucket the probe finds into a tombstone and return
      its value; a miss changes nothing. */
  function Remove<K(==), V>(m: CustomHashMap<K, V>, hash: K -> bv32, key: K): (r: (CustomHashMap<K, V>, Option<V>))
    requires WellFormed(m)
    ensures WellFormed(r.0) && |r.0.buckets| == |m.buckets|
    ensures r.1 == Get(m, hash, key)
    ensures r.1.None? ==> r.0 == m
    ensures r.1.Some? ==> r.0.len + 1 == m.len
    ensures r.1.Some? ==> exists i :: (
      && 0 <= i < |m.buckets| && m.buckets[i] == Some(Occupied(key, r.1.value))
      && r.0.buckets == m.buckets[i := Some(Removed)])
    ensures r.1.Some? <==> Probe(m, hash, key).Some?
    ensures r.1.Some? ==> r.0.buckets == m.buckets[Probe(m, hash, key).value := Some(Removed)]
  {
    match Probe(m, hash, key)
    case Some(i) =>
      CountUpdate(m.buckets, i, Some(Removed));
      (CustomHashMap(m.buckets[i := Some(Removed)], m.len - 1), Some(m.buckets[i].value.val))
    case None => (m, None)
  }

  /** `len`: the counter, which in a well-formed table is the number of
      live entries. */
  function Len<K, V>(m: CustomHashMap<K, V>): (r: nat)
    ensures WellFormed(m) ==> r == CountOccupied(m.buckets)
  {
    m.len
  }

  /** `is_empty`: in a well-formed table, no bucket holds a live entry. */
  function IsEmpty<K, V>(m: CustomHashMap<K, V>): (r: bool)
    ensures WellFormed(m) ==> (r <==> forall i :: 0 <= i < |m.buckets| ==> !IsOccupied(m.buckets[i]))
  {
    CountZeroIffEmpty(m.buckets);
    m.len == 0
  }

  lemma {:induction false} CountZeroIffEmpty<K, V>(b: seq<Slot<K, V>>)
    ensures CountOccupied(b) == 0 <==> forall i :: 0 <= i < |b| ==> !IsOccupied(b[i])
  {
    if |b| > 0 {
      CountZeroIffEmpty(b[1..]);
      if forall i :: 0 <= i < |b| ==> !IsOccupied(b[i]) {
        assert forall i :: 0 <= i < |b[1..]| ==> b[1..][i] == b[i + 1];
      }
    }
  }

  /** `get_mut`, with its own loop shape (a bounded `for` plus the
      wrap-around check); it answers the index of the bucket whose value the
      returned reference points into, and agrees with `get`'s probe. */
  method GetMut<K(==), V>(m: CustomHashMap<K, V>, hash: K -> bv32, key: K) returns (slot: Option<nat>)
    requires |m.buckets| > 0
    ensures slot == Probe(m, hash, key)
    ensures slot.Some? ==> slot.value < |m.buckets| && HoldsKey(m.buckets[slot.value], key)
  {
    var n := |m.buckets|;
    var idx := BucketIndex(n, hash, key);
    var start := idx;
    var t := 0;
    while t < n
      invariant 0 <= t <= n && idx < n
      invariant t < n ==> idx == Pos(start, t, n)
      invariant ProbeFrom(m.buckets, key, start, t) == ProbeFrom(m.buckets, key, start, 0)
      decreases n - t
    {
      ProbeAt(m.buckets, key, start, t);
      if IsOccupied(m.buckets[idx]) {
        if m.buckets[idx].value.key == key {
          return Some(idx);
        }
      } else if m.buckets[idx].None? {
        return None;
      }
      ProbeAdvance(m.buckets, key, start, t);
      idx := NextIndex(idx, n);
      t := t + 1;
      if idx == start {
        break;
      }
    }
    assert ProbeFrom(m.buckets, key, start, n) == None;
    return None;
  }

  /* ---------------- helper lemmas used by the operations ---------------- */

  lemma {:induction false} CountUpdate<K, V>(b: seq<Slot<K, V>>, i: nat, s: Slot<K, V>)
    requires i < |b|
    ensures CountOccupied(b[i := s]) + (if IsOccupied(b[i]) then 1 else 0)
         == CountOccupied(b) + (if IsOccupied(s) then 1 else 0)
    decreases |b|
  {
    if i == 0 {
      assert b[i := s][1..] == b[1..];
    } else {
      assert b[i := s][1..] == b[1..][i - 1 := s];
      CountUpdate(b[1..], i - 1, s);
    }
  }

  lemma {:induction false} AllEmptyCount<K, V>(n: nat)
    ensures CountOccupied<K, V>(seq(n, _ => None)) == 0
  {
    if n > 0 {
      assert seq<Slot<K, V>>(n, _ => None)[1..] == seq(n - 1, _ => None);
      AllEmptyCount<K, V>(n - 1);
    }
  }

  /** Fewer live entries than buckets leaves a bucket that is empty or a
      tombstone. */
  lemma {:induction false} FreeSlotExists<K, V>(b: seq<Slot<K, V>>)
    requires CountOccupied(b) < |b|
    ensures exists i :: 0 <= i < |b| && !IsOccupied(b[i])
  {
    if IsOccupied(b[0]) {
      FreeSlotExists(b[1..]);
      var i :| 0 <= i < |b[1..]| && !IsOccupied(b[1..][i]);
      assert !IsOccupied(b[i + 1]);
    }
  }

  /** What the probe does at position `j` of the path: stop on an empty
      bucket, answer a bucket holding the key, step past anything else. */
  lemma ProbeAt<K, V>(b: seq<Slot<K, V>>, key: K, h: nat, j: nat)
    requires h < |b| && j < |b|
    ensures var p := Pos(h, j, |b|);
      && (b[p].None? ==> ProbeFrom(b, key, h, j) == None)
      && (HoldsKey(b[p], key) ==> ProbeFrom(b, key, h, j) == Some(p))
      && (b[p].Some? && !HoldsKey(b[p], key) ==> ProbeFrom(b, key, h, j) == ProbeFrom(b, key, h, j + 1))
  {
  }

  /** `get_mut`'s loop step past a tombstone or another key: the next
      index is the next position of the path, it comes back to the start
      only after a full turn, and the probe's answer is unchanged. */
  lemma ProbeAdvance<K, V>(b: seq<Slot<K, V>>, key: K, h: nat, j: nat)
    requires h < |b| && j < |b|
    requires b[Pos(h, j, |b|)].Some? && !HoldsKey(b[Pos(h, j, |b|)], key)
    ensures var next := NextIndex(Pos(h, j, |b|), |b|);
      && (j + 1 < |b| ==> next == Pos(h, j + 1, |b|))
      && (next == h ==> j + 1 == |b|)
      && ProbeFrom(b, key, h, j + 1) == ProbeFrom(b, key, h, j)
  {
    PosStep(h, j, |b|);
    ProbeAt(b, key, h, j);
  }

  /** `(idx + 1) % n`: the next bucket, wrapping to 0 after the last. */
  function NextIndex(idx: nat, n: nat): (r: nat)
    requires idx < n
    ensures r == if idx + 1 < n then idx + 1 else 0
  {
    if idx + 1 < n then ModBelow(idx + 1, n); (idx + 1) % n
    else ModBelow(0, n); assert idx + 1 == n; (idx + 1) % n
  }

  /** One step of `idx = (idx + 1) % n` moves the probe one position on. */
  lemma PosStep(h: nat, j: nat, n: nat)
    requires h < n && j < n
    ensures j + 1 < n ==> (Pos(h, j, n) + 1) % n == Pos(h, j + 1, n)
    ensures j + 1 == n ==> (Pos(h, j, n) + 1) % n == h
  {
    var p := Pos(h, j, n);
    if p + 1 < n {
      ModBelow(p + 1, n);
    } else {
      assert p + 1 == n;
      ModBelow(0, n);
      assert (p + 1) % n == 0 % n;
    }
  }

  /** A value below the modulus is its own remainder. */
  lemma ModBelow(x: nat, n: nat)
    requires x < n
    ensures x % n == x
  {
  }

  /** Every bucket lies on every probe path. */
  lemma StopOnProbePath<K, V>(b: seq<Slot<K, V>>, key: K, h: nat)
    requires h < |b|
    requires exists i :: 0 <= i < |b| && IsStop(b[i], key)
    ensures exists k :: 0 <= k < |b| && IsStop(b[Pos(h, k, |b|)], key)
  {
    var i :| 0 <= i < |b| && IsStop(b[i], key);
    assert Pos(h, Offset(h, i, |b|), |b|) == i;
  }
}
