/** `LRUCache`: a doubly linked recency list threaded through an arena of
    entries, with a key index into the arena. The head is the most recently
    used entry and the tail the least recently used. Arena slots are never
    reclaimed: eviction and removal unlink an entry and clear its value, and
    every new key appends a fresh slot. */
module Lru {
  import opened Wrappers

  /** The capacity the crate exports for callers that want a default. */
  const CACHE_SIZE: nat := 128

  datatype Entry<K, V> = Entry(key: K, val: Option<V>, prev: Option<nat>, next: Option<nat>)

  /** `head` is the most recently used entry, `tail` the least recently used;
      `index` (the source's `map`) sends each cached key to its arena slot. */
  datatype LRUCache<K(==), V> = LRUCache(
    capacity: nat,
    head: Option<nat>,
    tail: Option<nat>,
    index: map<K, nat>,
    entries: seq<Entry<K, V>>)

  predicate InRange(o: Option<nat>, n: nat) {
    o.None? || o.value < n
  }

  /** Every link and every index in the key map names an arena slot: the
      condition under which the list operations never index out of bounds. */
  predicate LinksInRange<K(==), V>(c: LRUCache<K, V>) {
    && InRange(c.head, |c.entries|) && InRange(c.tail, |c.entries|)
    && (forall i :: 0 <= i < |c.entries| ==>
          InRange(c.entries[i].prev, |c.entries|) && InRange(c.entries[i].next, |c.entries|))
    && (forall k :: k in c.index ==> c.index[k] < |c.entries|)
  }

  /** No entry's key or value differs between the two arenas. */
  ghost predicate SamePayload<K, V>(a: seq<Entry<K, V>>, b: seq<Entry<K, V>>) {
    |a| == |b| && forall i :: 0 <= i < |a| ==> a[i].key == b[i].key && a[i].val == b[i].val
  }

  /** `new`: an empty cache; the capacity is taken as given, zero included. */
  function New<K(==), V>(capacity: nat): (c: LRUCache<K, V>)
    ensures LinksInRange(c) && c.capacity == capacity
    ensures |c.index| == 0 && c.head.None? && c.tail.None?
  {
    LRUCache(capacity, None, None, map[], [])
  }

  /* ---------------- internal list helpers ---------------- */

  /** `detach`: unlink slot `i` from its neighbours, moving the head or tail
      when `i` was at an end, and clear its own links. */
  function Detach<K(==), V>(c: LRUCache<K, V>, i: nat): (r: LRUCache<K, V>)
    requires LinksInRange(c) && i < |c.entries|
    ensures LinksInRange(r) && SamePayload(r.entries, c.entries)
    ensures r.capacity == c.capacity && r.index == c.index
    ensures r.entries[i].prev.None? && r.entries[i].next.None?
  {
    var e := c.entries[i];
    var es1 := if e.prev.Some? then c.entries[e.prev.value := c.entries[e.prev.value].(next := e.next)] else c.entries;
    var head := if e.prev.Some? then c.head else e.next;
    var es2 := if e.next.Some? then es1[e.next.value := es1[e.next.value].(prev := e.prev)] else es1;
    var tail := if e.next.Some? then c.tail else e.prev;
    var es3 := es2[i := es2[i].(prev := None, next := None)];
    c.(head := head, tail := tail, entries := es3)
  }

  /** `push_front`: make slot `i` the head, linking it before the old head
      (or making it the tail too when the list was empty). */
  function PushFront<K(==), V>(c: LRUCache<K, V>, i: nat): (r: LRUCache<K, V>)
    requires LinksInRange(c) && i < |c.entries|
    ensures LinksInRange(r) && SamePayload(r.entries, c.entries)
    ensures r.capacity == c.capacity && r.index == c.index
    ensures r.head == Some(i)
  {
    var es1 := c.entries[i := c.entries[i].(prev := None, next := c.head)];
    var es2 := if c.head.Some? then es1[c.head.value := es1[c.head.value].(prev := Some(i))] else es1;
    var tail := if c.head.Some? then c.tail else Some(i);
    c.(head := Some(i), tail := tail, entries := es2)
  }

  /** `access`: move the entry of a cached key to the front, unless it is
      already there. */
  function Access<K(==), V>(c: LRUCache<K, V>, key: K): (r: LRUCache<K, V>)
    requires LinksInRange(c) && key in c.index
    ensures LinksInRange(r) && SamePayload(r.entries, c.entries)
    ensures r.capacity == c.capacity && r.index == c.index
    ensures r.head == Some(c.index[key])
  {
    var i := c.index[key];
    if Some(i) == c.head then c else PushFront(Detach(c, i), i)
  }

  /** The eviction step of `insert` for a new key: a cache holding
      `capacity` keys first drops its least recently used entry; otherwise
      nothing changes. */
  function EvictIfFull<K(==), V>(c: LRUCache<K, V>): (r: LRUCache<K, V>)
    requires LinksInRange(c)
    ensures LinksInRange(r) && r.capacity == c.capacity && |r.entries| == |c.entries|
    ensures r.index.Keys <= c.index.Keys
    ensures Len(c) != c.capacity ==> r == c
    ensures Len(c) == c.capacity && c.tail.Some? ==> r.index == c.index - {c.entries[c.tail.value].key}
  {
    if Len(c) == c.capacity then RemoveTail(c) else c
  }

  /** `remove_tail`: evict the least recently used entry, if any: unlink it,
      drop its key from the index and clear its value. */
  function RemoveTail<K(==), V>(c: LRUCache<K, V>): (r: LRUCache<K, V>)
    requires LinksInRange(c)
    ensures LinksInRange(r) && r.capacity == c.capacity && |r.entries| == |c.entries|
    ensures c.tail.None? ==> r == c
    ensures c.tail.Some? ==> r.index == c.index - {c.entries[c.tail.value].key}
    ensures c.tail.Some? ==> r.entries[c.tail.value].val.None?
    ensures forall j :: 0 <= j < |c.entries| ==> r.entries[j].key == c.entries[j].key
    ensures forall j :: 0 <= j < |c.entries| && Some(j) != c.tail ==> r.entries[j].val == c.entries[j].val
  {
    match c.tail
    case None => c
    case Some(i) =>
      var key := c.entries[i].key;
      var d := Detach(c, i);
      d.(index := d.index - {key}, entries := d.entries[i := d.entries[i].(val := None)])
  }

  /* ---------------- public API ---------------- */

  /** `len`: the number of cached keys; zero exactly when no key is
      cached. */
  function Len<K(==), V>(c: LRUCache<K, V>): (r: nat)
    ensures r == 0 <==> c.index.Keys == {}
  {
    |c.index|
  }

  /** `insert`: a cached key gets the new value and moves to the front, and
      the old value is returned; a new key first evicts the least recently
      used entry when the cache is full, then takes a fresh arena slot at
      the front. */
  function Insert<K(==), V>(c: LRUCache<K, V>, key: K, value: V): (r: (LRUCache<K, V>, Option<V>))
    requires LinksInRange(c)
    ensures LinksInRange(r.0) && r.0.capacity == c.capacity
    ensures key in r.0.index && r.0.head == Some(r.0.index[key])
    ensures r.0.entries[r.0.index[key]].val == Some(value)
    ensures key in c.index ==> r.1 == c.entries[c.index[key]].val && r.0.index == c.index
    ensures key in c.index ==> |r.0.entries| == |c.entries|
    ensures key !in c.index ==> r.1.None? && |r.0.entries| == |c.entries| + 1 && r.0.index[key] == |c.entries|
    ensures key !in c.index ==> r.0.entries[|c.entries|].key == key
  {
    if key in c.index then
      var i := c.index[key];
      (PushFront(Detach(SetAt(c, i, value), i), i), c.entries[i].val)
    else
      var c1 := EvictIfFull(c);
      (AddFront(c1, key, value), None)
  }

  /** The new-key half of `insert` after any eviction: a fresh slot holding
      the key and value is appended, pushed to the front and indexed. */
  function AddFront<K(==), V>(c: LRUCache<K, V>, key: K, value: V): (r: LRUCache<K, V>)
    requires LinksInRange(c)
    ensures LinksInRange(r) && r.capacity == c.capacity
    ensures r.index == c.index[key := |c.entries|] && r.head == Some(|c.entries|)
    ensures |r.entries| == |c.entries| + 1
    ensures r.entries[|c.entries|].key == key && r.entries[|c.entries|].val == Some(value)
  {
    var i := |c.entries|;
    var c3 := PushFront(Append(c, Entry(key, Some(value), None, None)), i);
    c3.(index := c3.index[key := i])
  }

  /** `entries.push`: a fresh unlinked slot at the end of the arena. */
  function Append<K(==), V>(c: LRUCache<K, V>, e: Entry<K, V>): (r: LRUCache<K, V>)
    requires LinksInRange(c) && e.prev.None? && e.next.None?
    ensures LinksInRange(r) && r.entries == c.entries + [e]
    ensures r.capacity == c.capacity && r.index == c.index && r.head == c.head && r.tail == c.tail
  {
    var r := c.(entries := c.entries + [e]);
    assert forall i :: 0 <= i < |c.entries| ==> r.entries[i] == c.entries[i];
    r
  }

  /** `get`: a hit moves the key to the front and yields its value; a miss
      changes nothing. */
  function Get<K(==), V>(c: LRUCache<K, V>, key: K): (r: (LRUCache<K, V>, Option<V>))
    requires LinksInRange(c)
    ensures LinksInRange(r.0) && r.0.capacity == c.capacity && r.0.index == c.index
    ensures SamePayload(r.0.entries, c.entries)
    ensures key !in c.index ==> r == (c, None)
    ensures key in c.index ==> r.0.head == Some(c.index[key]) && r.1 == c.entries[c.index[key]].val
  {
    var c1 := if key in c.index then Access(c, key) else c;
    (c1, if key in c1.index then c1.entries[c1.index[key]].val else None)
  }

  /** `get_mut`: as `get`, but yields the arena slot whose value the caller
      may overwrite, when that slot holds a value. */
  function GetMut<K(==), V>(c: LRUCache<K, V>, key: K): (r: (LRUCache<K, V>, Option<nat>))
    requires LinksInRange(c)
    ensures LinksInRange(r.0) && r.0.capacity == c.capacity && r.0.index == c.index
    ensures r.1.Some? ==> key in c.index && r.1.value == c.index[key] && r.0.entries[r.1.value].val.Some?
  {
    var c1 := if key in c.index then Access(c, key) else c;
    (c1, if key in c1.index && c1.entries[c1.index[key]].val.Some? then Some(c1.index[key]) else None)
  }

  /** Overwrite the value in a slot handed out by `get_mut`. */
  function SetAt<K(==), V>(c: LRUCache<K, V>, i: nat, value: V): (r: LRUCache<K, V>)
    requires LinksInRange(c) && i < |c.entries|
    ensures LinksInRange(r) && r.index == c.index && r.head == c.head && r.tail == c.tail
    ensures |r.entries| == |c.entries| && r.entries[i].val == Some(value)
    ensures forall j :: 0 <= j < |c.entries| && j != i ==> r.entries[j] == c.entries[j]
  {
    c.(entries := c.entries[i := c.entries[i].(val := Some(value))])
  }

  /** `remove`: drop the key from the index, unlink its entry and take its
      value out; a missing key changes nothing. */
  function Remove<K(==), V>(c: LRUCache<K, V>, key: K): (r: (LRUCache<K, V>, Option<V>))
    requires LinksInRange(c)
    ensures LinksInRange(r.0) && r.0.capacity == c.capacity && r.0.index == c.index - {key}
    ensures |r.0.entries| == |c.entries|
    ensures key !in c.index ==> r == (c, None)
    ensures key in c.index ==> r.1 == c.entries[c.index[key]].val && r.0.entries[c.index[key]].val.None?
  {
    if key in c.index then
      var i := c.index[key];
      var c1 := c.(index := c.index - {key});
      var d := Detach(c1, i);
      (d.(entries := d.entries[i := d.entries[i].(val := None)]), d.entries[i].val)
    else
      (c, None)
  }

  /** `contains`: whether the key is cached; recency is not touched. */
  function Contains<K(==), V>(c: LRUCache<K, V>, key: K): (r: bool)
    ensures r ==> Len(c) > 0 && !IsEmpty(c)
  {
    key in c.index
  }

  /** `is_full`: the number of cached keys equals the capacity. A cache of
      capacity 0 counts as full only while it is empty. */
  function IsFull<K(==), V>(c: LRUCache<K, V>): (r: bool)
    ensures c.capacity == 0 ==> (r <==> IsEmpty(c))
    ensures r && c.capacity > 0 ==> !IsEmpty(c)
  {
    Len(c) == c.capacity
  }

  /** `is_empty`: no key is cached. */
  function IsEmpty<K(==), V>(c: LRUCache<K, V>): (r: bool)
    ensures r <==> Len(c) == 0
    ensures r <==> c.index.Keys == {}
  {
    |c.index| == 0
  }
}
