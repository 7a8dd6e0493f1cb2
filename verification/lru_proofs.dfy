/** The arena-and-links cache refines the recency model: with the list's
    slot order as a witness, every public operation maps the abstraction of
    the cache before it to the model's result after it. */
module LruProofs {
  import opened Wrappers
  import opened Lru
  import opened LruModel

  /* ---------------- the list invariant ---------------- */

  /** `order` lists the arena slots from head to tail, each once, and the
      `prev`/`next` links of those slots agree with it. */
  ghost predicate Linked<K, V>(es: seq<Entry<K, V>>, head: Option<nat>, tail: Option<nat>, order: seq<nat>) {
    && (forall p :: 0 <= p < |order| ==> order[p] < |es|)
    && Distinct(order)
    && head == (if |order| == 0 then None else Some(order[0]))
    && tail == (if |order| == 0 then None else Some(order[|order| - 1]))
    && (forall p :: 0 <= p < |order| ==> es[order[p]].prev == (if p == 0 then None else Some(order[p - 1])))
    && (forall p :: 0 <= p < |order| ==> es[order[p]].next == (if p == |order| - 1 then None else Some(order[p + 1])))
  }

  /** The cache invariant: the list is well linked, every listed slot holds
      a value and is indexed under its own key, and every indexed slot is
      listed. */
  ghost predicate Inv<K, V>(c: LRUCache<K, V>, order: seq<nat>) {
    && LinksInRange(c)
    && Linked(c.entries, c.head, c.tail, order)
    && |c.index| == |order|
    && (forall p :: 0 <= p < |order| ==>
          && c.entries[order[p]].val.Some?
          && c.entries[order[p]].key in c.index
          && c.index[c.entries[order[p]].key] == order[p])
    && (forall k :: k in c.index ==> c.index[k] in order && c.entries[c.index[k]].key == k)
  }

  /* ---------------- the abstraction ---------------- */

  /** The keys of the listed slots, in list order. */
  ghost function Keys<K, V>(es: seq<Entry<K, V>>, order: seq<nat>): (ks: seq<K>)
    requires forall p :: 0 <= p < |order| ==> order[p] < |es|
    ensures |ks| == |order| && forall p :: 0 <= p < |order| ==> ks[p] == es[order[p]].key
    decreases |order|
  {
    if |order| == 0 then [] else [es[order[0]].key] + Keys(es, order[1..])
  }

  /** The value cached under each indexed key. */
  ghost function Values<K, V>(c: LRUCache<K, V>): map<K, V>
    requires LinksInRange(c)
  {
    map k | k in c.index && c.entries[c.index[k]].val.Some? :: c.entries[c.index[k]].val.value
  }

  ghost function Abs<K, V>(c: LRUCache<K, V>, order: seq<nat>): Model<K, V>
    requires Inv(c, order)
  {
    Model(c.capacity, Keys(c.entries, order), Values(c))
  }

  /** The abstraction of a consistent cache is a consistent model with as
      many keys as the cache's `len`, and the same key set as its index. */
  lemma AbsIsModel<K, V>(c: LRUCache<K, V>, order: seq<nat>)
    requires Inv(c, order)
    ensures ModelInv(Abs(c, order))
    ensures Size(Abs(c, order)) == Len(c)
    ensures forall k :: k in Abs(c, order).values <==> k in c.index
  {
    KeysDistinct(c, order);
    KeysCached(c, order);
    IndexedKeysListed(c, order);
  }

  /** No key is listed twice: distinct listed slots carry distinct keys. */
  lemma KeysDistinct<K, V>(c: LRUCache<K, V>, order: seq<nat>)
    requires Inv(c, order)
    ensures Distinct(Keys(c.entries, order))
  {
    var ks := Keys(c.entries, order);
    forall p, q | 0 <= p < q < |ks|
      ensures ks[p] != ks[q]
    {
      assert order[p] != order[q];
    }
  }

  /** Every listed key is indexed and has a value. */
  lemma KeysCached<K, V>(c: LRUCache<K, V>, order: seq<nat>)
    requires Inv(c, order)
    ensures forall p :: 0 <= p < |Keys(c.entries, order)| ==>
      Keys(c.entries, order)[p] in c.index && Keys(c.entries, order)[p] in Values(c)
  {
  }

  /** Every indexed key is listed, and only indexed keys have values. */
  lemma IndexedKeysListed<K, V>(c: LRUCache<K, V>, order: seq<nat>)
    requires Inv(c, order)
    ensures forall k :: k in c.index ==> k in Keys(c.entries, order) && k in Values(c)
    ensures forall k :: k in Values(c) ==> k in c.index
  {
    var ks := Keys(c.entries, order);
    forall k | k in c.index
      ensures k in ks && k in Values(c)
    {
      var p :| 0 <= p < |order| && order[p] == c.index[k];
      assert ks[p] == k;
    }
  }

  /* ---------------- sequences of slots ---------------- */

  /** In a list without repeats, dropping an element is cutting it out at
      its position. */
  lemma {:induction false} WithoutAt<T>(s: seq<T>, p: nat)
    requires Distinct(s) && p < |s|
    ensures Without(s, s[p]) == s[..p] + s[p + 1..]
    decreases |s|
  {
    if p == 0 {
      WithoutFirst(s);
      assert s[..0] + s[1..] == s[1..];
    } else {
      var t := s[1..];
      assert Distinct(t) && s[p] == t[p - 1] by {
        DistinctTail(s);
      }
      WithoutAt(t, p - 1);
      WithoutSkip(s, s[p]);
      SplitAround(s, p);
    }
  }

  /** Dropping the head of a list without repeats leaves its tail. */
  lemma WithoutFirst<T>(s: seq<T>)
    requires Distinct(s) && |s| > 0
    ensures Without(s, s[0]) == s[1..]
  {
    DistinctTail(s);
    assert Without(s, s[0]) == Without(s[1..], s[0]);
  }

  /** Dropping an element other than the head keeps the head in front. */
  lemma WithoutSkip<T>(s: seq<T>, x: T)
    requires |s| > 0 && s[0] != x
    ensures Without(s, x) == [s[0]] + Without(s[1..], x)
  {
  }

  /** Cutting position `p > 0` out of a list is keeping its head and
      cutting position `p - 1` out of its tail. */
  lemma SplitAround<T>(s: seq<T>, p: nat)
    requires 0 < p < |s|
    ensures s[..p] + s[p + 1..] == [s[0]] + (s[1..][..p - 1] + s[1..][p..])
  {
    assert s[..p] == [s[0]] + s[1..][..p - 1];
    assert s[p + 1..] == s[1..][p..];
  }

  /** Cutting a slot out of the list drops its key from the key sequence,
      provided no other listed slot carries that key. */
  lemma {:induction false} KeysWithout<K, V>(es: seq<Entry<K, V>>, order: seq<nat>, i: nat)
    requires forall p :: 0 <= p < |order| ==> order[p] < |es|
    requires i < |es|
    requires forall p :: 0 <= p < |order| && es[order[p]].key == es[i].key ==> order[p] == i
    ensures Keys(es, Without<nat>(order, i)) == Without(Keys(es, order), es[i].key)
    decreases |order|
  {
    if |order| > 0 {
      var t := order[1..];
      assert forall p :: 0 <= p < |t| ==> t[p] == order[p + 1];
      KeysWithout(es, t, i);
      assert Keys(es, order) == [es[order[0]].key] + Keys(es, t);
      if order[0] == i {
        assert Without<nat>(order, i) == Without(t, i);
      } else {
        assert es[order[0]].key != es[i].key;
        assert Without<nat>(order, i) == [order[0]] + Without(t, i);
        var w := Without(t, i);
        assert forall p :: 0 <= p < |w| ==> w[p] in t;
      }
    }
  }

  /** Only the key fields matter to the key sequence. */
  lemma KeysSamePayload<K, V>(a: seq<Entry<K, V>>, b: seq<Entry<K, V>>, order: seq<nat>)
    requires forall p :: 0 <= p < |order| ==> order[p] < |a|
    requires |a| <= |b| && forall j :: 0 <= j < |a| ==> a[j].key == b[j].key
    ensures Keys(a, order) == Keys(b, order)
  {
    var ka, kb := Keys(a, order), Keys(b, order);
    assert |ka| == |kb|;
    forall p | 0 <= p < |order|
      ensures ka[p] == kb[p]
    {
      assert ka[p] == a[order[p]].key;
    }
  }

  /* ---------------- the list helpers keep the list linked ---------------- */

  /** What `detach` of the slot at position `p` does to the listed slots:
      its neighbours are linked to each other and the rest are untouched. */
  lemma DetachNeighbours<K, V>(c: LRUCache<K, V>, order: seq<nat>, p: nat)
    requires LinksInRange(c) && Linked(c.entries, c.head, c.tail, order) && p < |order|
    ensures var r := Detach(c, order[p]); var n := |order|;
      && (forall q :: 0 <= q < n && q != p - 1 && q != p && q != p + 1 ==>
            r.entries[order[q]] == c.entries[order[q]])
      && (p > 0 ==>
            && r.entries[order[p - 1]].prev == c.entries[order[p - 1]].prev
            && r.entries[order[p - 1]].next == (if p == n - 1 then None else Some(order[p + 1])))
      && (p < n - 1 ==>
            && r.entries[order[p + 1]].next == c.entries[order[p + 1]].next
            && r.entries[order[p + 1]].prev == (if p == 0 then None else Some(order[p - 1])))
      && r.head == (if p > 0 then c.head else if n == 1 then None else Some(order[1]))
      && r.tail == (if p < n - 1 then c.tail else if p == 0 then None else Some(order[p - 1]))
  {
  }

  /** Dropping an element keeps every slot of a list within a bound. */
  lemma WithoutBelow(s: seq<nat>, x: nat, n: nat)
    requires forall p :: 0 <= p < |s| ==> s[p] < n
    ensures forall p :: 0 <= p < |Without<nat>(s, x)| ==> Without<nat>(s, x)[p] < n
  {
    var w := Without<nat>(s, x);
    forall p | 0 <= p < |w|
      ensures w[p] < n
    {
      assert w[p] in s;
      var j :| 0 <= j < |s| && s[j] == w[p];
    }
  }

  /** Cutting position `p` out of a list without repeats leaves one. */
  lemma CutDistinct<T>(s: seq<T>, p: nat)
    requires Distinct(s) && p < |s|
    ensures Distinct(s[..p] + s[p + 1..])
  {
    var o := s[..p] + s[p + 1..];
    forall a, b | 0 <= a < b < |o|
      ensures o[a] != o[b]
    {
      var a', b' := if a < p then a else a + 1, if b < p then b else b + 1;
      assert o[a] == s[a'] && o[b] == s[b'];
    }
  }

  /** The predecessor link of the slot at position `p`. */
  lemma LinkedPrev<K, V>(es: seq<Entry<K, V>>, head: Option<nat>, tail: Option<nat>, order: seq<nat>, p: nat)
    requires Linked(es, head, tail, order) && p < |order|
    ensures es[order[p]].prev == if p == 0 then None else Some(order[p - 1])
  {
  }

  /** Position `q` of the list with position `p` cut out. */
  lemma CutAt(order: seq<nat>, p: nat, q: nat)
    requires p < |order| && q < |order| - 1
    ensures (order[..p] + order[p + 1..])[q] == order[if q < p then q else q + 1]
  {
  }

  /** After the cut, every slot points back to its new predecessor. */
  lemma CutPrevs<K, V>(es: seq<Entry<K, V>>, es': seq<Entry<K, V>>, head: Option<nat>, tail: Option<nat>,
                       order: seq<nat>, p: nat, o: seq<nat>)
    requires Linked(es, head, tail, order) && p < |order| && |es'| == |es|
    requires o == order[..p] + order[p + 1..]
    requires forall q :: 0 <= q < |order| && q != p - 1 && q != p && q != p + 1 ==> es'[order[q]] == es[order[q]]
    requires p > 0 ==> es'[order[p - 1]].prev == es[order[p - 1]].prev
    requires p < |order| - 1 ==> es'[order[p + 1]].prev == (if p == 0 then None else Some(order[p - 1]))
    ensures forall q :: 0 <= q < |o| ==> o[q] < |es'| && es'[o[q]].prev == (if q == 0 then None else Some(o[q - 1]))
  {
    forall q | 0 <= q < |o|
      ensures o[q] < |es'| && es'[o[q]].prev == (if q == 0 then None else Some(o[q - 1]))
    {
      var q' := if q < p then q else q + 1;
      CutAt(order, p, q);
      LinkedPrev(es, head, tail, order, q');
      if q > 0 {
        CutAt(order, p, q - 1);
      }
    }
  }

  /** After the cut, every slot points on to its new successor. */
  lemma CutNexts<K, V>(es: seq<Entry<K, V>>, es': seq<Entry<K, V>>, head: Option<nat>, tail: Option<nat>,
                       order: seq<nat>, p: nat, o: seq<nat>)
    requires Linked(es, head, tail, order) && p < |order| && |es'| == |es|
    requires o == order[..p] + order[p + 1..]
    requires forall q :: 0 <= q < |order| && q != p - 1 && q != p && q != p + 1 ==> es'[order[q]] == es[order[q]]
    requires p > 0 ==> es'[order[p - 1]].next == (if p == |order| - 1 then None else Some(order[p + 1]))
    requires p < |order| - 1 ==> es'[order[p + 1]].next == es[order[p + 1]].next
    ensures forall q :: 0 <= q < |o| ==> es'[o[q]].next == (if q == |o| - 1 then None else Some(o[q + 1]))
  {
    forall q | 0 <= q < |o|
      ensures es'[o[q]].next == (if q == |o| - 1 then None else Some(o[q + 1]))
    {
      var q' := if q < p then q else q + 1;
      CutAt(order, p, q);
      LinkedNext(es, head, tail, order, q');
      if q + 1 < |o| {
        CutAt(order, p, q + 1);
      }
    }
  }

  /** Linking the neighbours of position `p` to each other, and leaving the
      other listed slots alone, links the list with `p` cut out. */
  lemma CutLinked<K, V>(es: seq<Entry<K, V>>, es': seq<Entry<K, V>>, head: Option<nat>, tail: Option<nat>,
                        head': Option<nat>, tail': Option<nat>, order: seq<nat>, p: nat)
    requires Linked(es, head, tail, order) && p < |order| && |es'| == |es|
    requires forall q :: 0 <= q < |order| && q != p - 1 && q != p && q != p + 1 ==> es'[order[q]] == es[order[q]]
    requires p > 0 ==>
      && es'[order[p - 1]].prev == es[order[p - 1]].prev
      && es'[order[p - 1]].next == (if p == |order| - 1 then None else Some(order[p + 1]))
    requires p < |order| - 1 ==>
      && es'[order[p + 1]].next == es[order[p + 1]].next
      && es'[order[p + 1]].prev == (if p == 0 then None else Some(order[p - 1]))
    requires head' == (if p > 0 then head else if |order| == 1 then None else Some(order[1]))
    requires tail' == (if p < |order| - 1 then tail else if p == 0 then None else Some(order[p - 1]))
    ensures Linked(es', head', tail', order[..p] + order[p + 1..])
  {
    var o := order[..p] + order[p + 1..];
    assert Distinct(o) by {
      CutDistinct(order, p);
    }
    assert forall q :: 0 <= q < |o| ==> o[q] < |es'| && es'[o[q]].prev == (if q == 0 then None else Some(o[q - 1])) by {
      CutPrevs(es, es', head, tail, order, p, o);
    }
    assert forall q :: 0 <= q < |o| ==> es'[o[q]].next == (if q == |o| - 1 then None else Some(o[q + 1])) by {
      CutNexts(es, es', head, tail, order, p, o);
    }
    assert head' == (if |o| == 0 then None else Some(o[0])) && tail' == (if |o| == 0 then None else Some(o[|o| - 1])) by {
      CutEnds(order, p, head, tail, head', tail', o);
    }
    assert Linked(es', head', tail', o);
  }

  /** The ends of the list with position `p` cut out. */
  lemma CutEnds(order: seq<nat>, p: nat, head: Option<nat>, tail: Option<nat>, head': Option<nat>, tail': Option<nat>,
                o: seq<nat>)
    requires p < |order| && head == Some(order[0]) && tail == Some(order[|order| - 1])
    requires o == order[..p] + order[p + 1..]
    requires head' == (if p > 0 then head else if |order| == 1 then None else Some(order[1]))
    requires tail' == (if p < |order| - 1 then tail else if p == 0 then None else Some(order[p - 1]))
    ensures head' == (if |o| == 0 then None else Some(o[0]))
    ensures tail' == (if |o| == 0 then None else Some(o[|o| - 1]))
  {
    if |o| > 0 {
      CutAt(order, p, 0);
      CutAt(order, p, |o| - 1);
    }
  }

  /** `detach` of the slot at position `p` cuts it out of the list. */
  lemma DetachLinked<K, V>(c: LRUCache<K, V>, order: seq<nat>, p: nat)
    requires LinksInRange(c) && Linked(c.entries, c.head, c.tail, order) && p < |order|
    ensures var r := Detach(c, order[p]);
      Linked(r.entries, r.head, r.tail, order[..p] + order[p + 1..])
  {
    var r := Detach(c, order[p]);
    DetachNeighbours(c, order, p);
    CutLinked(c.entries, r.entries, c.head, c.tail, r.head, r.tail, order, p);
  }

  /** `push_front` of a slot that is not listed puts it at the head. */
  lemma PushFrontLinked<K, V>(c: LRUCache<K, V>, order: seq<nat>, i: nat)
    requires LinksInRange(c) && Linked(c.entries, c.head, c.tail, order)
    requires i < |c.entries| && i !in order
    ensures var r := PushFront(c, i);
      Linked(r.entries, r.head, r.tail, [i] + order)
  {
    var es := c.entries;
    var r := PushFront(c, i);
    var es' := r.entries;
    var o := [i] + order;
    assert forall q :: 1 <= q < |o| ==> o[q] == order[q - 1];
    forall j | 0 <= j < |es| && j != i && (|order| == 0 || j != order[0])
      ensures es'[j] == es[j]
    {
    }
    PrependDistinct(i, order);
    if |order| > 0 {
      assert es'[order[0]].prev == Some(i);
      assert es'[order[0]].next == es[order[0]].next;
    }
    assert es'[i].prev == None && es'[i].next == c.head;
    forall q | 0 <= q < |o|
      ensures es'[o[q]].prev == (if q == 0 then None else Some(o[q - 1]))
    {
      if q > 0 {
        assert o[q] != i;
        assert o[q] == order[q - 1];
      }
    }
    forall q | 0 <= q < |o|
      ensures es'[o[q]].next == (if q == |o| - 1 then None else Some(o[q + 1]))
    {
      if q == 0 {
        assert o[0] == i;
        if |order| > 0 {
          assert o[1] == order[0];
          assert es'[i].next == Some(order[0]);
        } else {
          assert es'[i].next == None;
        }
      } else {
        assert o[q] != i;
        assert o[q] == order[q - 1];
        assert es'[o[q]].next == es[order[q - 1]].next;
        LinkedNext(es, c.head, c.tail, order, q - 1);
        if q < |o| - 1 {
          assert o[q + 1] == order[q];
        }
      }
    }
    assert Linked(es', r.head, r.tail, o);
  }

  /** The successor link of the slot at position `p`. */
  lemma LinkedNext<K, V>(es: seq<Entry<K, V>>, head: Option<nat>, tail: Option<nat>, order: seq<nat>, p: nat)
    requires Linked(es, head, tail, order) && p < |order|
    ensures es[order[p]].next == if p + 1 == |order| then None else Some(order[p + 1])
  {
  }

  /** Moving the slot at position `p` to the front, as `access` and the
      update branch of `insert` do, yields the list with that slot first and
      the others in their old order. */
  lemma MoveToFrontLinked<K, V>(c: LRUCache<K, V>, order: seq<nat>, p: nat)
    requires LinksInRange(c) && Linked(c.entries, c.head, c.tail, order) && p < |order|
    ensures var r := PushFront(Detach(c, order[p]), order[p]);
      Linked(r.entries, r.head, r.tail, [order[p]] + Without<nat>(order, order[p]))
  {
    DetachLinked(c, order, p);
    WithoutAt(order, p);
    PushFrontLinked(Detach(c, order[p]), Without<nat>(order, order[p]), order[p]);
  }

  /** Only the links matter to `Linked`; the arena may also have grown. */
  lemma LinkedSameLinks<K, V>(es: seq<Entry<K, V>>, es': seq<Entry<K, V>>, head: Option<nat>, tail: Option<nat>, order: seq<nat>)
    requires Linked(es, head, tail, order) && |es| <= |es'|
    requires forall j :: 0 <= j < |es| ==> es'[j].prev == es[j].prev && es'[j].next == es[j].next
    ensures Linked(es', head, tail, order)
  {
  }

  /* ---------------- the invariant under a reordering ---------------- */

  /** Only the index and the payload matter to the cached values. */
  lemma ValuesSamePayload<K, V>(c: LRUCache<K, V>, r: LRUCache<K, V>)
    requires LinksInRange(c) && LinksInRange(r)
    requires r.index == c.index && SamePayload(r.entries, c.entries)
    ensures Values(r) == Values(c)
  {
    forall k | k in c.index
      ensures r.entries[r.index[k]].val == c.entries[c.index[k]].val
    {
    }
  }

  /** A cache whose list is a reordering of a consistent cache's list, with
      the same index and the same keys and values, is consistent and holds
      the same values. */
  lemma Reordered<K, V>(c: LRUCache<K, V>, order: seq<nat>, r: LRUCache<K, V>, order': seq<nat>)
    requires Inv(c, order) && LinksInRange(r) && Linked(r.entries, r.head, r.tail, order')
    requires r.index == c.index && SamePayload(r.entries, c.entries)
    requires |order'| == |order|
    requires forall q :: 0 <= q < |order'| ==> order'[q] in order
    requires forall j :: j in order ==> j in order'
    ensures Inv(r, order') && Values(r) == Values(c)
  {
    var es, es' := c.entries, r.entries;
    forall q | 0 <= q < |order'|
      ensures es'[order'[q]].val.Some?
      ensures es'[order'[q]].key in r.index && r.index[es'[order'[q]].key] == order'[q]
    {
      var p :| 0 <= p < |order| && order[p] == order'[q];
      assert es'[order'[q]].key == es[order[p]].key;
      assert es'[order'[q]].val == es[order[p]].val;
    }
    forall k | k in r.index
      ensures r.index[k] in order' && es'[r.index[k]].key == k
    {
      assert c.index[k] in order;
    }
    ValuesSamePayload(c, r);
  }

  /** The key sequence of a list with `i` put first. */
  lemma KeysFront<K, V>(es: seq<Entry<K, V>>, i: nat, order: seq<nat>)
    requires i < |es| && forall p :: 0 <= p < |order| ==> order[p] < |es|
    ensures Keys(es, [i] + order) == [es[i].key] + Keys(es, order)
  {
    assert ([i] + order)[1..] == order;
  }

  /** The keys listed by a consistent cache are exactly its indexed keys,
      and a slot's key is carried by no other listed slot. */
  lemma ListedKeys<K, V>(c: LRUCache<K, V>, order: seq<nat>, key: K)
    requires Inv(c, order)
    ensures key in Keys(c.entries, order) <==> key in c.index
    ensures key in c.index ==> forall p :: 0 <= p < |order| && c.entries[order[p]].key == key ==> order[p] == c.index[key]
  {
    var ks := Keys(c.entries, order);
    if key in c.index {
      var p :| 0 <= p < |order| && order[p] == c.index[key];
      assert ks[p] == key;
    }
    if key in ks {
      var p :| 0 <= p < |ks| && ks[p] == key;
    }
  }

  /* ---------------- the operations refine the model ---------------- */

  /** `new` builds an empty list refining the empty model. */
  lemma NewRefines<K, V>(capacity: nat)
    ensures Inv(New<K, V>(capacity), [])
    ensures Abs(New<K, V>(capacity), []) == Model(capacity, [], map[])
  {
  }

  /** The list order after moving slot `i` to the front. */
  ghost function Front(order: seq<nat>, i: nat): seq<nat> {
    [i] + Without<nat>(order, i)
  }

  /** `access` moves the key's slot to the front of the list, keeping the
      cache consistent and its values unchanged. */
  lemma AccessKeepsInv<K, V>(c: LRUCache<K, V>, order: seq<nat>, key: K)
    requires Inv(c, order) && key in c.index
    ensures var r := Access(c, key); var order' := Front(order, c.index[key]);
      Inv(r, order') && Values(r) == Values(c)
  {
    var i := c.index[key];
    var r := Access(c, key);
    AccessLinked(c, order, key);
    var order' := Front(order, i);
    assert i in order;
    FrontPermutes(order, i);
    Reordered(c, order, r, order');
  }

  /** `access` leaves the list linked in the order with the key's slot
      first. */
  lemma AccessLinked<K, V>(c: LRUCache<K, V>, order: seq<nat>, key: K)
    requires LinksInRange(c) && Linked(c.entries, c.head, c.tail, order)
    requires key in c.index && c.index[key] in order
    ensures var r := Access(c, key);
      Linked(r.entries, r.head, r.tail, Front(order, c.index[key]))
  {
    var i := c.index[key];
    if Some(i) == c.head {
      assert Access(c, key) == c;
      assert Front(order, i) == order by {
        FrontOfHead(order);
      }
    } else {
      assert Access(c, key) == PushFront(Detach(c, i), i);
      var p :| 0 <= p < |order| && order[p] == i;
      MoveToFrontLinked(c, order, p);
    }
  }

  /** Moving the head to the front leaves the list as it is. */
  lemma FrontOfHead(order: seq<nat>)
    requires Distinct(order) && |order| > 0
    ensures Front(order, order[0]) == order
  {
    WithoutFirst(order);
    assert [order[0]] + order[1..] == order;
  }

  /** Moving a listed element to the front permutes the list. */
  lemma FrontPermutes(order: seq<nat>, i: nat)
    requires Distinct(order) && i in order
    ensures |Front(order, i)| == |order|
    ensures forall q :: 0 <= q < |Front(order, i)| ==> Front(order, i)[q] in order
    ensures forall j :: j in order ==> j in Front(order, i)
  {
    var f := Front(order, i);
    forall q | 0 <= q < |f|
      ensures f[q] in order
    {
      if q > 0 {
        assert f[q] == Without<nat>(order, i)[q - 1];
      }
    }
  }

  /** Putting slot `i` first puts its key first in the key sequence and
      leaves the other keys in their order, when no other listed slot
      carries that key. */
  lemma FrontKeys<K, V>(es: seq<Entry<K, V>>, order: seq<nat>, i: nat, es': seq<Entry<K, V>>)
    requires forall p :: 0 <= p < |order| ==> order[p] < |es|
    requires i < |es|
    requires forall p :: 0 <= p < |order| && es[order[p]].key == es[i].key ==> order[p] == i
    requires |es'| == |es| && forall j :: 0 <= j < |es| ==> es'[j].key == es[j].key
    ensures forall q :: 0 <= q < |Front(order, i)| ==> Front(order, i)[q] < |es'|
    ensures Keys(es', Front(order, i)) == [es[i].key] + Without(Keys(es, order), es[i].key)
  {
    var w := Without<nat>(order, i);
    var f := Front(order, i);
    forall p | 0 <= p < |w|
      ensures w[p] < |es|
    {
      assert w[p] in order;
    }
    assert f == [i] + w;
    assert forall q :: 0 <= q < |f| ==> f[q] < |es|;
    assert Keys(es, f) == [es[i].key] + Keys(es, w) by {
      KeysFront(es, i, w);
    }
    assert Keys(es, w) == Without(Keys(es, order), es[i].key) by {
      KeysWithout(es, order, i);
    }
    assert Keys(es', f) == Keys(es, f) by {
      KeysSamePayload(es, es', f);
    }
  }

  /** `get` refines the model's `get`: a hit moves the key to the front of
      the recency order and yields its value; a miss changes nothing. */
  lemma GetRefines<K, V>(c: LRUCache<K, V>, order: seq<nat>, key: K)
    requires Inv(c, order)
    ensures var r := Get(c, key);
      var order' := if key in c.index then Front(order, c.index[key]) else order;
      && Inv(r.0, order')
      && Abs(r.0, order') == ModelGet(Abs(c, order), key).0
      && r.1 == ModelGet(Abs(c, order), key).1
  {
    AbsIsModel(c, order);
    if key in c.index {
      AccessKeepsInv(c, order, key);
      ListedKeys(c, order, key);
      FrontKeys(c.entries, order, c.index[key], Access(c, key).entries);
    }
  }

  /** Writing a value into a listed slot keeps the cache consistent and
      updates the value of that slot's key. */
  lemma SetAtKeepsInv<K, V>(c: LRUCache<K, V>, order: seq<nat>, i: nat, value: V)
    requires Inv(c, order) && i in order
    ensures var r := SetAt(c, i, value);
      && Inv(r, order)
      && Keys(r.entries, order) == Keys(c.entries, order)
      && c.entries[i].key in c.index && c.index[c.entries[i].key] == i
      && Values(r) == Values(c)[c.entries[i].key := value]
  {
    var r := SetAt(c, i, value);
    var es, es' := c.entries, r.entries;
    assert es[i].key in c.index && c.index[es[i].key] == i by {
      var p :| 0 <= p < |order| && order[p] == i;
    }
    assert Inv(r, order) by {
      SetAtInv(c, order, i, value);
    }
    assert Keys(es', order) == Keys(es, order) by {
      KeysSamePayload(es, es', order);
    }
    SetAtValues(c, i, value);
  }

  /** A write through a listed slot keeps the links, the index and the
      presence of a value in every listed slot. */
  lemma SetAtInv<K, V>(c: LRUCache<K, V>, order: seq<nat>, i: nat, value: V)
    requires Inv(c, order) && i < |c.entries|
    ensures Inv(SetAt(c, i, value), order)
  {
    var r := SetAt(c, i, value);
    var es, es' := c.entries, r.entries;
    LinkedSameLinks(es, es', c.head, c.tail, order);
    forall p | 0 <= p < |order|
      ensures es'[order[p]].val.Some? && es'[order[p]].key == es[order[p]].key
    {
    }
  }

  /** Writing a value into the slot indexed under `key` updates the value of
      `key` alone. */
  lemma SetAtValues<K, V>(c: LRUCache<K, V>, i: nat, value: V)
    requires LinksInRange(c) && i < |c.entries|
    requires c.entries[i].key in c.index && c.index[c.entries[i].key] == i
    requires forall k :: k in c.index ==> c.entries[c.index[k]].key == k
    ensures Values(SetAt(c, i, value)) == Values(c)[c.entries[i].key := value]
  {
    var key := c.entries[i].key;
    var r := SetAt(c, i, value);
    forall k | k in c.index
      ensures r.entries[c.index[k]].val == if k == key then Some(value) else c.entries[c.index[k]].val
    {
    }
  }

  /** `push_front` after `detach` of a listed slot, as the update branch of
      `insert` does, keeps the cache consistent with that slot first. */
  lemma MoveToFrontKeepsInv<K, V>(c: LRUCache<K, V>, order: seq<nat>, i: nat)
    requires Inv(c, order) && i in order
    ensures var r := PushFront(Detach(c, i), i);
      Inv(r, Front(order, i)) && Values(r) == Values(c)
  {
    var r := PushFront(Detach(c, i), i);
    var order' := Front(order, i);
    assert Linked(r.entries, r.head, r.tail, order') by {
      var p :| 0 <= p < |order| && order[p] == i;
      MoveToFrontLinked(c, order, p);
    }
    assert r.index == c.index && SamePayload(r.entries, c.entries) && LinksInRange(r);
    FrontPermutes(order, i);
    Reordered(c, order, r, order');
  }

  /** The update branch of `insert` is a write through the key's slot
      followed by a move to the front. */
  lemma InsertHitForm<K, V>(c: LRUCache<K, V>, key: K, value: V)
    requires LinksInRange(c) && key in c.index
    ensures var i := c.index[key];
      Insert(c, key, value) == (PushFront(Detach(SetAt(c, i, value), i), i), c.entries[i].val)
  {
  }

  /** The update branch of `insert` keeps the cache consistent with the
      key's slot first and gives the key its new value. */
  lemma InsertExistingInv<K, V>(c: LRUCache<K, V>, order: seq<nat>, key: K, value: V)
    requires Inv(c, order) && key in c.index
    ensures var r := Insert(c, key, value).0; var order' := Front(order, c.index[key]);
      Inv(r, order') && Values(r) == Values(c)[key := value]
  {
    var i := c.index[key];
    InsertHitForm(c, key, value);
    SetAtKeepsInv(c, order, i, value);
    MoveToFrontKeepsInv(SetAt(c, i, value), order, i);
  }

  /** The update branch of `insert` moves the key to the front of the key
      sequence. */
  lemma InsertExistingKeys<K, V>(c: LRUCache<K, V>, order: seq<nat>, key: K, value: V)
    requires Inv(c, order) && key in c.index
    ensures var r := Insert(c, key, value).0; var order' := Front(order, c.index[key]);
      && (forall q :: 0 <= q < |order'| ==> order'[q] < |r.entries|)
      && Keys(r.entries, order') == [key] + Without(Keys(c.entries, order), key)
  {
    var i := c.index[key];
    assert c.entries[i].key == key
        && forall p :: 0 <= p < |order| && c.entries[order[p]].key == key ==> order[p] == i by {
      ListedKeys(c, order, key);
    }
    MovedKeys(c, order, key, value);
  }

  /** The update branch of `insert` keeps every slot's key, so the key of
      the moved slot comes first and the others keep their order. */
  lemma MovedKeys<K, V>(c: LRUCache<K, V>, order: seq<nat>, key: K, value: V)
    requires LinksInRange(c) && key in c.index
    requires forall p :: 0 <= p < |order| ==> order[p] < |c.entries|
    requires c.entries[c.index[key]].key == key
    requires forall p :: 0 <= p < |order| && c.entries[order[p]].key == key ==> order[p] == c.index[key]
    ensures var r := Insert(c, key, value).0; var order' := Front(order, c.index[key]);
      && (forall q :: 0 <= q < |order'| ==> order'[q] < |r.entries|)
      && Keys(r.entries, order') == [key] + Without(Keys(c.entries, order), key)
  {
    var i := c.index[key];
    var es := Insert(c, key, value).0.entries;
    assert |es| == |c.entries| && forall j :: 0 <= j < |c.entries| ==> es[j].key == c.entries[j].key;
    FrontKeys(c.entries, order, i, es);
  }

  /** The update branch of `insert` refines the model's: the key moves to
      the front with its new value and the old value is returned. */
  lemma InsertExistingRefines<K, V>(c: LRUCache<K, V>, order: seq<nat>, key: K, value: V)
    requires Inv(c, order) && key in c.index
    ensures var r := Insert(c, key, value); var order' := Front(order, c.index[key]);
      && Inv(r.0, order')
      && Abs(r.0, order') == ModelInsert(Abs(c, order), key, value).0
      && r.1 == ModelInsert(Abs(c, order), key, value).1
  {
    InsertExistingInv(c, order, key, value);
    InsertExistingKeys(c, order, key, value);
    InsertHitForm(c, key, value);
    AbsIsModel(c, order);
    assert c.index[key] in order;
  }

  /* ---------------- unlinking an entry ---------------- */

  /** What `remove_tail` and `remove` share: slot `i` is unlinked, its key
      leaves the index and its value is taken out. */
  ghost function Unlinked<K, V>(c: LRUCache<K, V>, i: nat): LRUCache<K, V>
    requires LinksInRange(c) && i < |c.entries|
  {
    var d := Detach(c, i);
    d.(index := d.index - {c.entries[i].key}, entries := d.entries[i := d.entries[i].(val := None)])
  }

  lemma RemoveTailForm<K, V>(c: LRUCache<K, V>)
    requires LinksInRange(c) && c.tail.Some?
    ensures RemoveTail(c) == Unlinked(c, c.tail.value)
  {
  }

  lemma RemoveForm<K, V>(c: LRUCache<K, V>, key: K)
    requires LinksInRange(c) && key in c.index && c.entries[c.index[key]].key == key
    ensures Remove(c, key) == (Unlinked(c, c.index[key]), c.entries[c.index[key]].val)
  {
  }

  /** Unlinking the slot at position `p` cuts it out of the list. */
  lemma UnlinkLinked<K, V>(c: LRUCache<K, V>, order: seq<nat>, p: nat)
    requires LinksInRange(c) && Linked(c.entries, c.head, c.tail, order) && p < |order|
    ensures var r := Unlinked(c, order[p]);
      LinksInRange(r) && Linked(r.entries, r.head, r.tail, Without<nat>(order, order[p]))
  {
    var d := Detach(c, order[p]);
    var r := Unlinked(c, order[p]);
    var o := Without<nat>(order, order[p]);
    assert Linked(d.entries, d.head, d.tail, o) by {
      DetachLinked(c, order, p);
      WithoutAt(order, p);
    }
    assert r.head == d.head && r.tail == d.tail && |r.entries| == |d.entries|;
    assert forall j :: 0 <= j < |d.entries| ==> r.entries[j].prev == d.entries[j].prev && r.entries[j].next == d.entries[j].next;
    LinkedSameLinks(d.entries, r.entries, d.head, d.tail, o);
  }

  /** What unlinking does to the arena's payload: only the value of the
      unlinked slot changes, and the key of that slot leaves the index. */
  lemma UnlinkPayload<K, V>(c: LRUCache<K, V>, i: nat)
    requires LinksInRange(c) && i < |c.entries|
    ensures var r := Unlinked(c, i);
      && r.capacity == c.capacity
      && r.index == c.index - {c.entries[i].key}
      && |r.entries| == |c.entries|
      && (forall j :: 0 <= j < |c.entries| ==> r.entries[j].key == c.entries[j].key)
      && (forall j :: 0 <= j < |c.entries| && j != i ==> r.entries[j].val == c.entries[j].val)
  {
  }

  /** Every slot still listed after the cut holds a value and is indexed
      under its own key. */
  lemma CutListed<K, V>(c: LRUCache<K, V>, order: seq<nat>, i: nat, r: LRUCache<K, V>, o: seq<nat>)
    requires LinksInRange(c) && i < |c.entries| && |r.entries| == |c.entries|
    requires forall p :: 0 <= p < |order| ==>
      && order[p] < |c.entries|
      && c.entries[order[p]].val.Some?
      && c.entries[order[p]].key in c.index
      && c.index[c.entries[order[p]].key] == order[p]
    requires c.entries[i].key in c.index && c.index[c.entries[i].key] == i
    requires r.index == c.index - {c.entries[i].key}
    requires forall j :: 0 <= j < |c.entries| ==> r.entries[j].key == c.entries[j].key
    requires forall j :: 0 <= j < |c.entries| && j != i ==> r.entries[j].val == c.entries[j].val
    requires forall q :: 0 <= q < |o| ==> o[q] in order && o[q] != i
    ensures forall q :: 0 <= q < |o| ==>
      && o[q] < |r.entries|
      && r.entries[o[q]].val.Some?
      && r.entries[o[q]].key in r.index
      && r.index[r.entries[o[q]].key] == o[q]
  {
    forall q | 0 <= q < |o|
      ensures o[q] < |r.entries| && r.entries[o[q]].val.Some?
      ensures r.entries[o[q]].key in r.index && r.index[r.entries[o[q]].key] == o[q]
    {
      var q' :| 0 <= q' < |order| && order[q'] == o[q];
    }
  }

  /** Every key still indexed after the cut names a slot still listed,
      which carries that key. */
  lemma CutIndexed<K, V>(c: LRUCache<K, V>, order: seq<nat>, i: nat, r: LRUCache<K, V>, o: seq<nat>)
    requires LinksInRange(c) && i < |c.entries| && |r.entries| == |c.entries|
    requires forall k :: k in c.index ==> c.index[k] in order && c.entries[c.index[k]].key == k
    requires c.entries[i].key in c.index && c.index[c.entries[i].key] == i
    requires r.index == c.index - {c.entries[i].key}
    requires forall j :: 0 <= j < |c.entries| ==> r.entries[j].key == c.entries[j].key
    requires forall j :: j in order && j != i ==> j in o
    ensures forall k :: k in r.index ==> r.index[k] in o && r.entries[r.index[k]].key == k
  {
    forall k | k in r.index
      ensures r.index[k] in o && r.entries[r.index[k]].key == k
    {
      assert c.index[k] != i;
    }
  }

  /** A cache that agrees with a consistent one except that slot `i` is
      cut out of the list and its key out of the index is consistent with
      the shorter list. */
  lemma CutKeepsInv<K, V>(c: LRUCache<K, V>, order: seq<nat>, i: nat, r: LRUCache<K, V>, o: seq<nat>)
    requires LinksInRange(c) && Distinct(order) && |c.index| == |order| && i in order && i < |c.entries|
    requires forall p :: 0 <= p < |order| ==>
      && order[p] < |c.entries|
      && c.entries[order[p]].val.Some?
      && c.entries[order[p]].key in c.index
      && c.index[c.entries[order[p]].key] == order[p]
    requires forall k :: k in c.index ==> c.index[k] in order && c.entries[c.index[k]].key == k
    requires c.entries[i].key in c.index && c.index[c.entries[i].key] == i
    requires o == Without<nat>(order, i)
    requires LinksInRange(r) && Linked(r.entries, r.head, r.tail, o)
    requires r.index == c.index - {c.entries[i].key} && |r.entries| == |c.entries|
    requires forall j :: 0 <= j < |c.entries| ==> r.entries[j].key == c.entries[j].key
    requires forall j :: 0 <= j < |c.entries| && j != i ==> r.entries[j].val == c.entries[j].val
    ensures Inv(r, o)
  {
    assert |r.index| == |o| by {
      CutCount(c.index, order, c.entries[i].key, i);
    }
    assert forall q :: 0 <= q < |o| ==>
      && o[q] < |r.entries|
      && r.entries[o[q]].val.Some?
      && r.entries[o[q]].key in r.index
      && r.index[r.entries[o[q]].key] == o[q] by {
      CutListed(c, order, i, r, o);
    }
    assert forall k :: k in r.index ==> r.index[k] in o && r.entries[r.index[k]].key == k by {
      CutIndexed(c, order, i, r, o);
    }
  }

  /** Cutting a listed slot and its key keeps the index as large as the
      list. */
  lemma CutCount<K>(index: map<K, nat>, order: seq<nat>, key: K, i: nat)
    requires Distinct(order) && |index| == |order| && key in index && i in order
    ensures |index - {key}| == |Without<nat>(order, i)|
  {
  }

  /** Taking the value out of the slot of a key that leaves the index drops
      that key's value and keeps the others. */
  lemma CutValues<K, V>(c: LRUCache<K, V>, i: nat, r: LRUCache<K, V>)
    requires LinksInRange(c) && LinksInRange(r) && i < |c.entries|
    requires forall k :: k in c.index ==> c.entries[c.index[k]].key == k
    requires r.index == c.index - {c.entries[i].key} && |r.entries| == |c.entries|
    requires forall j :: 0 <= j < |c.entries| && j != i ==> r.entries[j].val == c.entries[j].val
    ensures Values(r) == Values(c) - {c.entries[i].key}
  {
    forall k | k in r.index
      ensures r.entries[r.index[k]].val == c.entries[c.index[k]].val
    {
      assert c.index[k] != i;
    }
  }

  /** Unlinking the slot at position `p` keeps the cache consistent with
      that slot cut out of the list, and drops its key's value. */
  lemma UnlinkKeepsInv<K, V>(c: LRUCache<K, V>, order: seq<nat>, p: nat)
    requires Inv(c, order) && p < |order|
    ensures Inv(Unlinked(c, order[p]), Without<nat>(order, order[p]))
    ensures Values(Unlinked(c, order[p])) == Values(c) - {c.entries[order[p]].key}
  {
    var i := order[p];
    UnlinkLinked(c, order, p);
    UnlinkPayload(c, i);
    CutKeepsInv(c, order, i, Unlinked(c, i), Without<nat>(order, i));
    CutValues(c, i, Unlinked(c, i));
  }

  /** Unlinking a slot drops its key from the key sequence. */
  lemma UnlinkKeys<K, V>(c: LRUCache<K, V>, order: seq<nat>, p: nat)
    requires Inv(c, order) && p < |order|
    ensures forall q :: 0 <= q < |Without<nat>(order, order[p])| ==> Without<nat>(order, order[p])[q] < |Unlinked(c, order[p]).entries|
    ensures Keys(Unlinked(c, order[p]).entries, Without<nat>(order, order[p]))
         == Without(Keys(c.entries, order), c.entries[order[p]].key)
  {
    var i := order[p];
    UnlinkPayload(c, i);
    ListedKeys(c, order, c.entries[i].key);
    CutKeys(c.entries, order, i, Unlinked(c, i).entries);
  }

  /** Cutting slot `i` out of the list drops its key from the key sequence,
      whatever the arena's values, when no other listed slot carries it. */
  lemma CutKeys<K, V>(es: seq<Entry<K, V>>, order: seq<nat>, i: nat, es': seq<Entry<K, V>>)
    requires forall p :: 0 <= p < |order| ==> order[p] < |es|
    requires i < |es|
    requires forall p :: 0 <= p < |order| && es[order[p]].key == es[i].key ==> order[p] == i
    requires |es'| == |es| && forall j :: 0 <= j < |es| ==> es'[j].key == es[j].key
    ensures forall q :: 0 <= q < |Without<nat>(order, i)| ==> Without<nat>(order, i)[q] < |es'|
    ensures Keys(es', Without<nat>(order, i)) == Without(Keys(es, order), es[i].key)
  {
    WithoutBelow(order, i, |es|);
    KeysWithout(es, order, i);
    KeysSamePayload(es, es', Without<nat>(order, i));
  }

  /* ---------------- inserting a new key ---------------- */

  /** A cache that agrees with a consistent one on its slots, and has one
      more slot `|c.entries|` holding `key` at the front of the list and in
      the index, is consistent with the longer list. */
  lemma GrowKeepsInv<K, V>(c: LRUCache<K, V>, order: seq<nat>, r: LRUCache<K, V>, key: K, value: V)
    requires |c.index| == |order| && key !in c.index
    requires forall p :: 0 <= p < |order| ==>
      && order[p] < |c.entries|
      && c.entries[order[p]].val.Some?
      && c.entries[order[p]].key in c.index
      && c.index[c.entries[order[p]].key] == order[p]
    requires forall k :: k in c.index ==> c.index[k] in order && c.entries[c.index[k]].key == k
    requires LinksInRange(r) && Linked(r.entries, r.head, r.tail, [|c.entries|] + order)
    requires |r.entries| == |c.entries| + 1 && r.index == c.index[key := |c.entries|]
    requires forall j :: 0 <= j < |c.entries| ==> r.entries[j].key == c.entries[j].key && r.entries[j].val == c.entries[j].val
    requires r.entries[|c.entries|].key == key && r.entries[|c.entries|].val == Some(value)
    ensures Inv(r, [|c.entries|] + order)
  {
    var o := [|c.entries|] + order;
    assert |r.index| == |o|;
    assert forall q :: 0 <= q < |o| ==>
      && o[q] < |r.entries|
      && r.entries[o[q]].val.Some?
      && r.entries[o[q]].key in r.index
      && r.index[r.entries[o[q]].key] == o[q] by {
      GrowListed(c, order, r, key, o);
    }
    assert forall k :: k in r.index ==> r.index[k] in o && r.entries[r.index[k]].key == k by {
      GrowIndexed(c, order, r, key, o);
    }
  }

  /** Every slot of the longer list holds a value indexed under its key. */
  lemma GrowListed<K, V>(c: LRUCache<K, V>, order: seq<nat>, r: LRUCache<K, V>, key: K, o: seq<nat>)
    requires forall p :: 0 <= p < |order| ==>
      && order[p] < |c.entries|
      && c.entries[order[p]].val.Some?
      && c.entries[order[p]].key in c.index
      && c.index[c.entries[order[p]].key] == order[p]
    requires key !in c.index && o == [|c.entries|] + order
    requires |r.entries| == |c.entries| + 1 && r.index == c.index[key := |c.entries|]
    requires forall j :: 0 <= j < |c.entries| ==> r.entries[j].key == c.entries[j].key && r.entries[j].val == c.entries[j].val
    requires r.entries[|c.entries|].key == key && r.entries[|c.entries|].val.Some?
    ensures forall q :: 0 <= q < |o| ==>
      && o[q] < |r.entries|
      && r.entries[o[q]].val.Some?
      && r.entries[o[q]].key in r.index
      && r.index[r.entries[o[q]].key] == o[q]
  {
    forall q | 0 <= q < |o|
      ensures o[q] < |r.entries|
      ensures r.entries[o[q]].val.Some? && r.entries[o[q]].key in r.index && r.index[r.entries[o[q]].key] == o[q]
    {
      if q > 0 {
        assert o[q] == order[q - 1];
      }
    }
  }

  /** Every key of the grown index names a slot of the longer list that
      carries it. */
  lemma GrowIndexed<K, V>(c: LRUCache<K, V>, order: seq<nat>, r: LRUCache<K, V>, key: K, o: seq<nat>)
    requires forall k :: k in c.index ==> c.index[k] < |c.entries|
    requires forall k :: k in c.index ==> c.index[k] in order && c.entries[c.index[k]].key == k
    requires forall p :: 0 <= p < |order| ==> order[p] < |c.entries|
    requires o == [|c.entries|] + order
    requires |r.entries| == |c.entries| + 1 && r.index == c.index[key := |c.entries|]
    requires forall j :: 0 <= j < |c.entries| ==> r.entries[j].key == c.entries[j].key
    requires r.entries[|c.entries|].key == key
    ensures forall k :: k in r.index ==> r.index[k] in o && r.entries[r.index[k]].key == k
  {
    forall k | k in r.index
      ensures r.index[k] in o && r.entries[r.index[k]].key == k
    {
      if k != key {
        var p :| 0 <= p < |order| && order[p] == c.index[k];
        assert o[p + 1] == order[p];
      } else {
        assert o[0] == |c.entries|;
      }
    }
  }

  /** The new slot's key is added with its value; the others keep theirs. */
  lemma GrowValues<K, V>(c: LRUCache<K, V>, r: LRUCache<K, V>, key: K, value: V)
    requires LinksInRange(c) && LinksInRange(r) && key !in c.index
    requires |r.entries| == |c.entries| + 1 && r.index == c.index[key := |c.entries|]
    requires forall j :: 0 <= j < |c.entries| ==> r.entries[j].val == c.entries[j].val
    requires r.entries[|c.entries|].val == Some(value)
    ensures Values(r) == Values(c)[key := value]
  {
    forall k | k in r.index
      ensures r.entries[r.index[k]].val == if k == key then Some(value) else c.entries[c.index[k]].val
    {
    }
  }

  /** The key sequence of the longer list starts with the new key. */
  lemma GrowKeys<K, V>(es: seq<Entry<K, V>>, order: seq<nat>, es': seq<Entry<K, V>>)
    requires forall p :: 0 <= p < |order| ==> order[p] < |es|
    requires |es'| == |es| + 1 && forall j :: 0 <= j < |es| ==> es'[j].key == es[j].key
    ensures forall p :: 0 <= p < |[|es|] + order| ==> ([|es|] + order)[p] < |es'|
    ensures Keys(es', [|es|] + order) == [es'[|es|].key] + Keys(es, order)
  {
    KeysFront(es', |es|, order);
    KeysSamePayload(es, es', order);
  }

  /** Adding a fresh slot at the front keeps the cache consistent, puts the
      key first and gives it its value. */
  lemma AddFrontRefines<K, V>(c: LRUCache<K, V>, order: seq<nat>, key: K, value: V)
    requires Inv(c, order) && key !in c.index
    ensures var r := AddFront(c, key, value); var o := [|c.entries|] + order;
      && Inv(r, o)
      && Keys(r.entries, o) == [key] + Keys(c.entries, order)
      && Values(r) == Values(c)[key := value]
  {
    var n := |c.entries|;
    var r := AddFront(c, key, value);
    AddFrontShape(c, order, key, value);
    assert Inv(r, [n] + order) by {
      GrowKeepsInv(c, order, r, key, value);
    }
    assert Values(r) == Values(c)[key := value] by {
      GrowValues(c, r, key, value);
    }
    assert Keys(r.entries, [n] + order) == [key] + Keys(c.entries, order) by {
      GrowKeys(c.entries, order, r.entries);
    }
  }

  /** What adding a fresh slot at the front does to the arena: the slot is
      appended with the key and value, the list gains it as its head, and
      the old slots keep their keys and values. */
  lemma AddFrontShape<K, V>(c: LRUCache<K, V>, order: seq<nat>, key: K, value: V)
    requires Inv(c, order) && key !in c.index
    ensures var r := AddFront(c, key, value); var n := |c.entries|;
      && LinksInRange(r) && Linked(r.entries, r.head, r.tail, [n] + order)
      && |r.entries| == n + 1 && r.index == c.index[key := n]
      && r.entries[n].key == key && r.entries[n].val == Some(value)
      && (forall j :: 0 <= j < n ==> r.entries[j].key == c.entries[j].key && r.entries[j].val == c.entries[j].val)
  {
    AddFrontLinked(c, order, key, value);
    AddFrontPayload(c, key, value);
  }

  lemma AddFrontLinked<K, V>(c: LRUCache<K, V>, order: seq<nat>, key: K, value: V)
    requires LinksInRange(c) && Linked(c.entries, c.head, c.tail, order)
    ensures var r := AddFront(c, key, value);
      Linked(r.entries, r.head, r.tail, [|c.entries|] + order)
  {
    var n := |c.entries|;
    var c2 := Append(c, Entry(key, Some(value), None, None));
    assert n !in order;
    LinkedSameLinks(c.entries, c2.entries, c.head, c.tail, order);
    PushFrontLinked(c2, order, n);
  }

  lemma AddFrontPayload<K, V>(c: LRUCache<K, V>, key: K, value: V)
    requires LinksInRange(c)
    ensures var r := AddFront(c, key, value); var n := |c.entries|;
      && LinksInRange(r)
      && |r.entries| == n + 1 && r.index == c.index[key := n]
      && r.entries[n].key == key && r.entries[n].val == Some(value)
      && (forall j :: 0 <= j < n ==> r.entries[j].key == c.entries[j].key && r.entries[j].val == c.entries[j].val)
  {
  }

  /** The list order after `insert` makes room for a new key: the tail is
      cut off when the cache holds `capacity` keys. */
  ghost function Room(capacity: nat, order: seq<nat>): seq<nat> {
    if |order| == capacity && |order| > 0 then Without<nat>(order, order[|order| - 1]) else order
  }

  /** Evicting when full refines the model's `MakeRoom`: the least recently
      used key, last in the list, is dropped with its value. */
  lemma EvictRefines<K, V>(c: LRUCache<K, V>, order: seq<nat>)
    requires Inv(c, order)
    ensures var r := EvictIfFull(c); var o := Room(c.capacity, order);
      && Inv(r, o)
      && Keys(r.entries, o) == MakeRoom(Abs(c, order)).order
      && Values(r) == MakeRoom(Abs(c, order)).values
  {
    var n := |order|;
    if n == c.capacity && n > 0 {
      var ks := Keys(c.entries, order);
      EvictTail(c, order);
      assert MakeRoom(Abs(c, order)) == Model(c.capacity, ks[..n - 1], Values(c) - {ks[n - 1]});
    }
  }

  /** `remove_tail` on a consistent cache cuts the last slot out of the
      list and its key, the last of the key sequence, out of the cache. */
  lemma EvictTail<K, V>(c: LRUCache<K, V>, order: seq<nat>)
    requires Inv(c, order) && |order| > 0
    ensures var r := RemoveTail(c); var n := |order|; var o := Without<nat>(order, order[n - 1]);
      var ks := Keys(c.entries, order);
      && Inv(r, o)
      && Keys(r.entries, o) == ks[..n - 1]
      && Values(r) == Values(c) - {ks[n - 1]}
  {
    var n := |order|;
    var i := order[n - 1];
    var u := Unlinked(c, i);
    var o := Without<nat>(order, i);
    var ks := Keys(c.entries, order);
    assert RemoveTail(c) == u by {
      RemoveTailForm(c);
    }
    assert Inv(u, o) && Values(u) == Values(c) - {ks[n - 1]} by {
      UnlinkKeepsInv(c, order, n - 1);
    }
    assert Keys(u.entries, o) == Without(ks, ks[n - 1]) by {
      UnlinkKeys(c, order, n - 1);
    }
    assert Without(ks, ks[n - 1]) == ks[..n - 1] by {
      AbsIsModel(c, order);
      WithoutAt(ks, n - 1);
      assert ks[..n - 1] + ks[n..] == ks[..n - 1];
    }
  }

  /** The insert branch for a new key is an eviction when full followed by
      a fresh slot at the front. */
  lemma InsertMissForm<K, V>(c: LRUCache<K, V>, key: K, value: V)
    requires LinksInRange(c) && key !in c.index
    ensures Insert(c, key, value) == (AddFront(EvictIfFull(c), key, value), None)
  {
  }

  /** The insert branch for a new key refines the model's: a full cache
      first loses its least recently used key, then the new key is cached
      first. */
  lemma InsertNewRefines<K, V>(c: LRUCache<K, V>, order: seq<nat>, key: K, value: V)
    requires Inv(c, order) && key !in c.index
    ensures var r := Insert(c, key, value); var order' := [|c.entries|] + Room(c.capacity, order);
      && Inv(r.0, order')
      && Abs(r.0, order') == ModelInsert(Abs(c, order), key, value).0
      && r.1 == ModelInsert(Abs(c, order), key, value).1
  {
    InsertMissForm(c, key, value);
    EvictRefines(c, order);
    AddFrontRefines(EvictIfFull(c), Room(c.capacity, order), key, value);
    AbsIsModel(c, order);
  }

  /** The list order after `insert`. */
  ghost function InsertOrder<K, V>(c: LRUCache<K, V>, order: seq<nat>, key: K): seq<nat> {
    if key in c.index then Front(order, c.index[key]) else [|c.entries|] + Room(c.capacity, order)
  }

  /** `insert` refines the model's `insert`. */
  lemma InsertRefines<K, V>(c: LRUCache<K, V>, order: seq<nat>, key: K, value: V)
    requires Inv(c, order)
    ensures var r := Insert(c, key, value); var order' := InsertOrder(c, order, key);
      && Inv(r.0, order')
      && Abs(r.0, order') == ModelInsert(Abs(c, order), key, value).0
      && r.1 == ModelInsert(Abs(c, order), key, value).1
  {
    if key in c.index {
      InsertExistingRefines(c, order, key, value);
    } else {
      InsertNewRefines(c, order, key, value);
    }
  }

  /* ---------------- removing a key ---------------- */

  /** The list order after `remove`. */
  ghost function RemoveOrder<K, V>(c: LRUCache<K, V>, order: seq<nat>, key: K): seq<nat> {
    if key in c.index then Without<nat>(order, c.index[key]) else order
  }

  /** `remove` refines the model's `remove`: the key leaves the cache, its
      value is returned, and the other keys keep their order. */
  lemma RemoveRefines<K, V>(c: LRUCache<K, V>, order: seq<nat>, key: K)
    requires Inv(c, order)
    ensures var r := Remove(c, key); var order' := RemoveOrder(c, order, key);
      && Inv(r.0, order')
      && Abs(r.0, order') == ModelRemove(Abs(c, order), key).0
      && r.1 == ModelRemove(Abs(c, order), key).1
  {
    if key in c.index {
      RemoveHitRefines(c, order, key);
    } else {
      RemoveMissRefines(c, order, key);
    }
  }

  /** `remove` of a key that is not cached changes nothing, as in the model. */
  lemma RemoveMissRefines<K, V>(c: LRUCache<K, V>, order: seq<nat>, key: K)
    requires Inv(c, order) && key !in c.index
    ensures Remove(c, key) == (c, None)
    ensures Abs(c, order) == ModelRemove(Abs(c, order), key).0
    ensures ModelRemove(Abs(c, order), key).1 == None
  {
    var m := Abs(c, order);
    assert key !in m.order by {
      ListedKeys(c, order, key);
    }
    assert key !in m.values by {
      IndexedKeysListed(c, order);
    }
    RemoveAbsent(m, key);
  }

  /** `remove` of a cached key unlinks its slot, which refines the model's
      `remove`. */
  lemma RemoveHitRefines<K, V>(c: LRUCache<K, V>, order: seq<nat>, key: K)
    requires Inv(c, order) && key in c.index
    ensures var r := Remove(c, key); var order' := Without<nat>(order, c.index[key]);
      && Inv(r.0, order')
      && Abs(r.0, order') == ModelRemove(Abs(c, order), key).0
      && r.1 == ModelRemove(Abs(c, order), key).1
  {
    var i := c.index[key];
    var u := Unlinked(c, i);
    var o := Without<nat>(order, i);
    assert c.entries[i].key == key;
    assert Remove(c, key) == (u, c.entries[i].val) by {
      RemoveForm(c, key);
    }
    assert Inv(u, o) && Values(u) == Values(c) - {key}
        && Keys(u.entries, o) == Without(Keys(c.entries, order), key) by {
      var p :| 0 <= p < |order| && order[p] == i;
      UnlinkKeepsInv(c, order, p);
      UnlinkKeys(c, order, p);
    }
    assert c.entries[i].val == Some(Values(c)[key]);
  }

  /* ---------------- the remaining operations ---------------- */

  /** `get_mut` moves the key to the front as `get` does, and hands out a
      slot exactly on a hit; writing through that slot refines the model's
      update of the key's value, with the order `get` leaves. */
  lemma GetMutRefines<K, V>(c: LRUCache<K, V>, order: seq<nat>, key: K, value: V)
    requires Inv(c, order)
    ensures var r := GetMut(c, key); var m := ModelGet(Abs(c, order), key).0;
      var order' := if key in c.index then Front(order, c.index[key]) else order;
      && Inv(r.0, order')
      && Abs(r.0, order') == m
      && (r.1.Some? <==> key in m.values)
      && (r.1.Some? ==>
            && Inv(SetAt(r.0, r.1.value, value), order')
            && Abs(SetAt(r.0, r.1.value, value), order') == m.(values := m.values[key := value]))
  {
    GetRefines(c, order, key);
    AbsIsModel(c, order);
    assert GetMut(c, key).0 == Get(c, key).0;
    if key in c.index {
      var r := GetMut(c, key).0;
      var order' := Front(order, c.index[key]);
      assert c.index[key] in order' && r.entries[c.index[key]].val.Some?;
      SetAtKeepsInv(r, order', c.index[key], value);
    }
  }

  /** `contains`, `len`, `is_full` and `is_empty` answer for the model. */
  lemma QueriesRefine<K, V>(c: LRUCache<K, V>, order: seq<nat>, key: K)
    requires Inv(c, order)
    ensures Contains(c, key) <==> key in Abs(c, order).values
    ensures Len(c) == Size(Abs(c, order))
    ensures IsFull(c) <==> Size(Abs(c, order)) == c.capacity
    ensures IsEmpty(c) <==> Size(Abs(c, order)) == 0
  {
    AbsIsModel(c, order);
  }

  /* ---------------- properties the cache inherits ---------------- */

  /** With a positive capacity, `insert` never takes `len` past it. */
  lemma LenWithinCapacity<K, V>(c: LRUCache<K, V>, order: seq<nat>, key: K, value: V)
    requires Inv(c, order) && 0 < c.capacity && Len(c) <= c.capacity
    ensures Len(Insert(c, key, value).0) <= c.capacity
  {
    InsertRefines(c, order, key, value);
    AbsIsModel(c, order);
    AbsIsModel(Insert(c, key, value).0, InsertOrder(c, order, key));
    LruModel.InsertWithinCapacity(Abs(c, order), key, value);
  }

  /** Inserting a new key into a full cache evicts exactly the tail, the
      least recently used key, and keeps every other key with its value. */
  lemma InsertEvictsTail<K, V>(c: LRUCache<K, V>, order: seq<nat>, key: K, value: V)
    requires Inv(c, order) && key !in c.index && 0 < Len(c) == c.capacity
    ensures c.tail.Some? && c.entries[c.tail.value].key in c.index
    ensures var r := Insert(c, key, value).0; var lru := c.entries[c.tail.value].key;
      && lru !in r.index
      && Len(r) == Len(c)
      && forall k :: k in c.index && k != lru ==> k in r.index && Get(r, k).1 == Get(c, k).1
  {
    var r := Insert(c, key, value).0;
    var o := InsertOrder(c, order, key);
    InsertRefines(c, order, key, value);
    AbsIsModel(c, order);
    AbsIsModel(r, o);
    LruModel.InsertEvictsLeastRecent(Abs(c, order), key, value);
    forall k | k in c.index && k != c.entries[c.tail.value].key
      ensures Get(r, k).1 == Get(c, k).1
    {
      GetRefines(c, order, k);
      GetRefines(r, o, k);
    }
  }

  /** A cache built with capacity zero is never full again once it holds a
      key, so every new key grows it: the capacity is not clamped. */
  lemma ZeroCapacityGrows<K, V>(c: LRUCache<K, V>, order: seq<nat>, key: K, value: V)
    requires Inv(c, order) && c.capacity == 0 && key !in c.index
    ensures Len(Insert(c, key, value).0) == Len(c) + 1
    ensures forall k :: k in c.index ==> k in Insert(c, key, value).0.index
  {
    InsertRefines(c, order, key, value);
    AbsIsModel(c, order);
    AbsIsModel(Insert(c, key, value).0, InsertOrder(c, order, key));
    LruModel.ZeroCapacityNeverEvicts(Abs(c, order), key, value);
  }
}
