/** The metadata cache as the controller holds it: a map into a doubly linked list of elements. */
module Lru {
  import opened LruModel
  import opened Options

  class Node<K, V> {
    const key: K
    var value: V
    var size: int
    var prev: Node?<K, V>
    var next: Node?<K, V>

    constructor (key: K, value: V, size: int)
      ensures this.key == key && this.value == value && this.size == size
    {
      this.key, this.value, this.size := key, value, size;
      prev, next := null, null;
    }
  }

  ghost predicate Listed<K, V>(items: map<K, Node<K, V>>, nodes: seq<Node<K, V>>, k: K) {
    k in items && items[k].key == k && exists i :: 0 <= i < |nodes| && nodes[i] == items[k]
  }

  /** The map holds exactly the listed nodes, each under its own key. */
  ghost predicate Mapped<K, V>(items: map<K, Node<K, V>>, nodes: seq<Node<K, V>>) {
    && |items| == |nodes|
    && (forall i | 0 <= i < |nodes| :: nodes[i].key in items && items[nodes[i].key] == nodes[i])
    && (forall k {:trigger Listed(items, nodes, k)} | k in items :: Listed(items, nodes, k))
  }

  lemma MappedDrop<K, V>(items: map<K, Node<K, V>>, nodes: seq<Node<K, V>>, i: nat)
    requires Mapped(items, nodes) && i < |nodes| && forall a, b | 0 <= a < b < |nodes| :: nodes[a] != nodes[b]
    ensures Mapped(items - {nodes[i].key}, nodes[..i] + nodes[i + 1..])
  {
    var left, rest := items - {nodes[i].key}, nodes[..i] + nodes[i + 1..];
    KeyGone(items, nodes[i].key);
    forall j | 0 <= j < |rest|
      ensures rest[j].key in left && left[rest[j].key] == rest[j]
    {
      assert rest[j] == nodes[if j < i then j else j + 1];
    }
    forall k | k in left
      ensures Listed(left, rest, k)
    {
      assert Listed(items, nodes, k);
      var j :| 0 <= j < |nodes| && nodes[j] == items[k];
      assert rest[if j < i then j else j - 1] == items[k];
    }
  }

  lemma MappedPush<K, V>(items: map<K, Node<K, V>>, nodes: seq<Node<K, V>>, n: Node<K, V>)
    requires Mapped(items, nodes) && n.key !in items
    ensures Mapped(items[n.key := n], [n] + nodes)
  {
    var more, all := items[n.key := n], [n] + nodes;
    KeyAdded(items, n.key, n);
    forall i | 0 <= i < |all|
      ensures all[i].key in more && more[all[i].key] == all[i]
    {
      if i > 0 {
        assert all[i] == nodes[i - 1];
      }
    }
    forall k | k in more
      ensures Listed(more, all, k)
    {
      if k == n.key {
        assert all[0] == n;
      } else {
        assert Listed(items, nodes, k);
        var j :| 0 <= j < |nodes| && nodes[j] == items[k];
        assert all[j + 1] == items[k];
      }
    }
  }

  lemma KeyGone<K, V>(m: map<K, V>, k: K)
    requires k in m
    ensures |m - {k}| == |m| - 1
  {
    assert (m - {k}).Keys == m.Keys - {k};
  }

  lemma KeyAdded<K, V>(m: map<K, V>, k: K, v: V)
    requires k !in m
    ensures |m[k := v]| == |m| + 1
  {
    assert m[k := v].Keys == m.Keys + {k};
  }

  lemma MappedMove<K, V>(items: map<K, Node<K, V>>, nodes: seq<Node<K, V>>, i: nat)
    requires Mapped(items, nodes) && i < |nodes|
    ensures Mapped(items, [nodes[i]] + nodes[..i] + nodes[i + 1..])
  {
    var all := [nodes[i]] + nodes[..i] + nodes[i + 1..];
    forall k | k in items
      ensures Listed(items, all, k)
    {
      assert Listed(items, nodes, k);
      var j :| 0 <= j < |nodes| && nodes[j] == items[k];
      assert all[if j == i then 0 else if j < i then j + 1 else j] == items[k];
    }
  }

  class LruCache<K(==), V> {
    var capacity: int
    var maxBytes: int
    var curBytes: int
    var items: map<K, Node<K, V>>
    var head: Node?<K, V>
    var tail: Node?<K, V>
    const sizeOf: (K, V) -> int
    /** The calls made to the eviction callback. */
    var evicted: seq<(K, V)>
    var hits: nat
    var misses: nat
    ghost var Nodes: seq<Node<K, V>>
    ghost var Items: seq<Item<K, V>>

    /** `head`, `tail`, `prev` and `next` spell out Nodes, most recent first. */
    ghost predicate Linked()
      reads `head, `tail, `Nodes, Nodes`prev, Nodes`next
    {
      && (forall i, j | 0 <= i < j < |Nodes| :: Nodes[i] != Nodes[j])
      && head == (if Nodes == [] then null else Nodes[0])
      && tail == (if Nodes == [] then null else Nodes[|Nodes| - 1])
      && (forall i {:trigger Nodes[i].prev} | 0 <= i < |Nodes| ::
             Nodes[i].prev == if i == 0 then null else Nodes[i - 1])
      && (forall i {:trigger Nodes[i].next} | 0 <= i < |Nodes| ::
             Nodes[i].next == if i == |Nodes| - 1 then null else Nodes[i + 1])
    }

    /** The nodes carry Items. */
    ghost predicate Carried()
      reads `Nodes, `Items, Nodes`value, Nodes`size
    {
      && |Items| == |Nodes|
      && forall i | 0 <= i < |Nodes| ::
           Nodes[i].key == Items[i].key && Nodes[i].value == Items[i].value && Nodes[i].size == Items[i].size
    }

    ghost predicate Valid()
      reads this, Nodes
    {
      Linked() && Mapped(items, Nodes) && Carried() && curBytes == Total(Items)
    }

    constructor (capacity: int, maxBytes: int, sizeOf: (K, V) -> int)
      ensures Valid() && Items == [] && evicted == [] && this.sizeOf == sizeOf && this.maxBytes == maxBytes
      ensures this.capacity == if capacity <= 0 && maxBytes <= 0 then 1024 else capacity
    {
      this.capacity := if capacity <= 0 && maxBytes <= 0 then 1024 else capacity;
      this.maxBytes, this.sizeOf := maxBytes, sizeOf;
      curBytes, items, head, tail, evicted, hits, misses, Nodes, Items := 0, map[], null, null, [], 0, 0, [], [];
    }

    // ----- the list -----

    method PushFront(elem: Node<K, V>)
      requires Linked() && elem !in Nodes
      modifies `head, `tail, `Nodes, Nodes`prev, elem`prev, elem`next
      ensures Linked() && Nodes == [elem] + old(Nodes)
    {
      elem.prev := null;
      elem.next := head;
      if head != null {
        head.prev := elem;
      }
      head := elem;
      if tail == null {
        tail := elem;
      }
      Nodes := [elem] + Nodes;
    }

    method RemoveElement(elem: Node<K, V>, ghost i: nat)
      requires Linked() && i < |Nodes| && Nodes[i] == elem
      modifies `head, `tail, `Nodes, Nodes`prev, Nodes`next
      ensures Linked() && Nodes == old(Nodes)[..i] + old(Nodes)[i + 1..] && elem !in Nodes
    {
      ghost var was := Nodes;
      assert elem.prev == if i == 0 then null else was[i - 1];
      assert elem.next == if i == |was| - 1 then null else was[i + 1];
      if elem.prev != null {
        elem.prev.next := elem.next;
      } else {
        head := elem.next;
      }
      if elem.next != null {
        elem.next.prev := elem.prev;
      } else {
        tail := elem.prev;
      }
      elem.prev, elem.next := null, null;
      Nodes := was[..i] + was[i + 1..];
      forall j | 0 <= j < |was| && j != i
        ensures was[j].prev == if j == 0 then null else if j == i + 1 then (if i == 0 then null else was[i - 1])
                else was[j - 1]
        ensures was[j].next == if j == |was| - 1 then null else if j + 1 == i
                then (if i == |was| - 1 then null else was[i + 1]) else was[j + 1]
      {
        assert old(was[j].prev) == if j == 0 then null else was[j - 1];
        assert old(was[j].next) == if j == |was| - 1 then null else was[j + 1];
        assert j != i + 1 ==> was[j].prev == old(was[j].prev);
        assert j + 1 != i ==> was[j].next == old(was[j].next);
      }
      forall j | 0 <= j < |Nodes|
        ensures Nodes[j].prev == if j == 0 then null else Nodes[j - 1]
        ensures Nodes[j].next == if j == |Nodes| - 1 then null else Nodes[j + 1]
      {
        assert Nodes[j] == was[if j < i then j else j + 1];
      }
    }

    method MoveToFront(elem: Node<K, V>, ghost i: nat)
      requires Linked() && i < |Nodes| && Nodes[i] == elem
      modifies `head, `tail, `Nodes, Nodes`prev, Nodes`next
      ensures Linked() && Nodes == [elem] + old(Nodes)[..i] + old(Nodes)[i + 1..]
    {
      if head == elem {
        assert i == 0;
        assert Nodes == [elem] + Nodes[..0] + Nodes[1..];
        return;
      }
      RemoveElement(elem, i);
      PushFront(elem);
    }

    // ----- the cache -----

    /** Where the node of a key is. */
    lemma Where(key: K) returns (i: nat)
      requires Valid()
      ensures Has(Items, key) <==> key in items
      ensures key in items ==> i < |Nodes| && Nodes[i] == items[key] && IndexOf(Items, key) == i
      ensures key in items ==> Fronted(Items, Items[i]) == [Items[i]] + Items[..i] + Items[i + 1..]
    {
      hide Total;
      i := IndexOf(Items, key);
      if i < |Nodes| {
        assert Nodes[i].key == Items[i].key;
      }
      if key in items {
        assert Listed(items, Nodes, key);
        var w :| 0 <= w < |Nodes| && Nodes[w] == items[key];
        assert Items[w].key == key;
      }
    }

    lemma Ends()
      requires Linked()
      ensures tail == (if Nodes == [] then null else Nodes[|Nodes| - 1])
      ensures forall a, b | 0 <= a < b < |Nodes| :: Nodes[a] != Nodes[b]
    {
    }

    /** Take one node out of the list, the map and the byte count. */
    method Discard(elem: Node<K, V>, ghost i: nat)
      requires Valid() && i < |Nodes| && Nodes[i] == elem
      modifies `head, `tail, `Nodes, `Items, `items, `curBytes, Nodes`prev, Nodes`next
      ensures Valid() && Nodes == old(Nodes)[..i] + old(Nodes)[i + 1..] && Items == Drop(old(Items), i)
    {
      hide Total, Mapped, LruCache<K, V>.Linked;
      Ends();
      TotalOfDrop(Items, i);
      MappedDrop(items, Nodes, i);
      RemoveElement(elem, i);
      items := items - {elem.key};
      curBytes := curBytes - elem.size;
      Items := Drop(Items, i);
    }

    /** Make a node and its item the most recent. */
    method Refront(elem: Node<K, V>, ghost i: nat)
      requires Linked() && Mapped(items, Nodes) && Carried() && i < |Nodes| && Nodes[i] == elem
      modifies `head, `tail, `Nodes, `Items, Nodes`prev, Nodes`next
      ensures Linked() && Mapped(items, Nodes) && Carried()
      ensures Nodes == [elem] + old(Nodes)[..i] + old(Nodes)[i + 1..]
      ensures Items == [old(Items)[i]] + old(Items)[..i] + old(Items)[i + 1..]
    {
      hide Mapped, LruCache<K, V>.Linked;
      MappedMove(items, Nodes, i);
      MoveToFront(elem, i);
      Items := [Items[i]] + Items[..i] + Items[i + 1..];
      forall j | 0 <= j < |Nodes|
        ensures Nodes[j].key == Items[j].key && Nodes[j].value == Items[j].value && Nodes[j].size == Items[j].size
      {
        ghost var w := if j == 0 then i else if j <= i then j - 1 else j;
        assert Nodes[j] == old(Nodes)[w] && Items[j] == old(Items)[w];
      }
    }

    method Get(key: K) returns (r: Option<V>)
      requires Valid()
      modifies `head, `tail, `Nodes, `Items, `hits, `misses, Nodes
      ensures Valid() && r.Some? == Has(old(Items), key)
      ensures hits == old(hits) + (if r.Some? then 1 else 0) && misses == old(misses) + (if r.Some? then 0 else 1)
      ensures r.None? ==> Items == old(Items)
      ensures r.Some? ==> r.value == old(Items)[IndexOf(old(Items), key)].value
                          && Items == Fronted(old(Items), old(Items)[IndexOf(old(Items), key)])
    {
      hide Total, IndexOf, Mapped, Fronted, LruCache<K, V>.Linked;
      ghost var i := Where(key);
      if key !in items {
        misses := misses + 1;
        return None;
      }
      hits := hits + 1;
      var elem := items[key];
      TotalOfMove(Items, i, Items[i]);
      Refront(elem, i);
      r := Some(elem.value);
    }

    method Put(key: K, value: V)
      requires Valid()
      modifies this, Nodes
      ensures Valid() && capacity == old(capacity) && maxBytes == old(maxBytes)
      ensures Items == LruModel.Put(old(Items), Item(key, value, sizeOf(key, value)), capacity, maxBytes)
      ensures forall i | 0 <= i < |Nodes| :: Nodes[i] in old(Nodes) || fresh(Nodes[i])
      ensures |Items| <= |Fronted(old(Items), Item(key, value, sizeOf(key, value)))|
      ensures evicted == old(evicted)
                         + (if Has(old(Items), key) then [(key, old(Items)[IndexOf(old(Items), key)].value)] else [])
                         + Callbacks(Fronted(old(Items), Item(key, value, sizeOf(key, value))), |Items|)
    {
      hide Total, IndexOf, Trim, Callbacks, Fronted, Mapped;
      var size := sizeOf(key, value);
      ghost var i := Where(key);
      if key in items {
        var elem := items[key];
        evicted := evicted + [(elem.key, elem.value)];
        Update(elem, value, size, i);
        EvictExcess();
      } else {
        Insert(key, value, size);
        EvictExcess();
      }
    }

    ghost function Sized(puts: seq<(K, V)>): seq<Item<K, V>> {
      seq(|puts|, i requires 0 <= i < |puts| => Item(puts[i].0, puts[i].1, sizeOf(puts[i].0, puts[i].1)))
    }

    /** Any Puts into an empty cache leave a start of their recency order within both limits, and it is stated exactly
        when that is the longest such start. */
    method PutAll(puts: seq<(K, V)>)
      requires Valid() && Items == []
      modifies this
      ensures Valid() && capacity == old(capacity) && maxBytes == old(maxBytes)
      ensures Items == Cached(Sized(puts), capacity, maxBytes)
      ensures LeftBy(Items, Sized(puts), capacity, maxBytes)
    {
      hide Total, IndexOf, Trim, Mapped, LruCache<K, V>.Linked, Fronted, Callbacks, LeftBy;
      var k := 0;
      assert Sized(puts)[..0] == [];
      while k < |puts|
        invariant 0 <= k <= |puts| && Valid() && capacity == old(capacity) && maxBytes == old(maxBytes)
        invariant forall i | 0 <= i < |Nodes| :: fresh(Nodes[i])
        invariant Items == Cached(Sized(puts)[..k], capacity, maxBytes)
      {
        Put(puts[k].0, puts[k].1);
        assert Sized(puts)[..k + 1][..k] == Sized(puts)[..k];
        k := k + 1;
      }
      assert Sized(puts)[..k] == Sized(puts);
      CacheIsLongestIff(Sized(puts), capacity, maxBytes);
    }

    /** Give a node new contents and make it the most recent. */
    method Update(elem: Node<K, V>, value: V, size: int, ghost i: nat)
      requires Valid() && i < |Nodes| && Nodes[i] == elem && i == IndexOf(Items, elem.key)
      modifies `head, `tail, `Nodes, `Items, `curBytes, Nodes
      ensures Valid() && Items == Fronted(old(Items), Item(elem.key, value, size))
      ensures Nodes == [elem] + old(Nodes)[..i] + old(Nodes)[i + 1..]
    {
      hide Total, IndexOf, Mapped, Fronted, LruCache<K, V>.Linked;
      ghost var x := Item(elem.key, value, size);
      TotalOfMove(Items, i, x);
      FrontedFrom(Items, i, x);
      Ends();
      curBytes := curBytes + size - elem.size;
      elem.value, elem.size := value, size;
      Items := Items[i := x];
      Refront(elem, i);
    }

    method Insert(key: K, value: V, size: int)
      requires Valid() && key !in items
      modifies `head, `tail, `Nodes, `Items, `items, `curBytes, Nodes
      ensures Valid() && Items == Fronted(old(Items), Item(key, value, size))
      ensures |Nodes| > 0 && fresh(Nodes[0]) && Nodes == [Nodes[0]] + old(Nodes)
    {
      hide Total, IndexOf, Mapped, LruCache<K, V>.Linked;
      ghost var x := Item(key, value, size);
      ghost var _ := Where(key);
      TotalOfConcat([x], Items);
      TotalOfOne(x);
      var elem := new Node(key, value, size);
      MappedPush(items, Nodes, elem);
      items := items[key := elem];
      curBytes := curBytes + size;
      PushFront(elem);
      Items := [x] + Items;
    }

    method EvictExcess()
      requires Valid()
      modifies `head, `tail, `Nodes, `Items, `items, `curBytes, `evicted, Nodes`prev, Nodes`next
      ensures Valid() && Nodes <= old(Nodes) && Items <= old(Items)
      ensures Items == Trim(old(Items), capacity, maxBytes)
      ensures evicted == old(evicted) + Callbacks(old(Items), |Items|)
    {
      hide Total, Mapped;
      while tail != null
            && ((capacity > 0 && |items| > capacity) || (maxBytes > 0 && curBytes > maxBytes && |items| > 0))
        invariant Valid() && Nodes <= old(Nodes) && Items <= old(Items)
        invariant Trim(Items, capacity, maxBytes) == Trim(old(Items), capacity, maxBytes)
        invariant evicted == old(evicted) + Callbacks(old(Items), |Items|)
        decreases |Nodes|
      {
        Count();
        EvictOldest();
        CallbacksStep(old(Items), |Items|);
      }
      Count();
    }

    lemma Count()
      requires Valid()
      ensures |items| == |Items| == |Nodes| && curBytes == Total(Items) && (tail == null <==> Items == [])
    {
    }

    /** Drop the node at the tail and tell the callback. */
    method EvictOldest()
      requires Valid() && tail != null
      modifies `head, `tail, `Nodes, `Items, `items, `curBytes, `evicted, Nodes`prev, Nodes`next
      ensures Valid() && |old(Nodes)| == |old(Items)| > 0
      ensures Nodes == old(Nodes)[..|old(Nodes)| - 1] && Items == old(Items)[..|old(Items)| - 1]
      ensures evicted == old(evicted) + [(old(Items)[|Items|].key, old(Items)[|Items|].value)]
    {
      hide Total, Mapped, LruCache<K, V>.Linked;
      Ends();
      var oldest := tail;
      Discard(oldest, |Nodes| - 1);
      evicted := evicted + [(oldest.key, oldest.value)];
    }

    /** Without a call to the eviction callback. */
    method Remove(key: K)
      requires Valid()
      modifies `head, `tail, `Nodes, `Items, `items, `curBytes, Nodes
      ensures Valid() && Items == Without(old(Items), key)
    {
      hide Total, IndexOf, Mapped, LruCache<K, V>.Linked;
      ghost var i := Where(key);
      if key in items {
        Discard(items[key], i);
      }
    }

    method Clear()
      modifies `head, `tail, `Nodes, `Items, `items, `curBytes
      ensures Valid() && Items == []
    {
      items, head, tail, curBytes, Nodes, Items := map[], null, null, 0, [], [];
    }

    method SetLimits(capacity: int, maxBytes: int)
      requires Valid()
      modifies this, Nodes
      ensures Valid() && this.capacity == capacity && this.maxBytes == maxBytes
      ensures Items == Trim(old(Items), capacity, maxBytes) && Items <= old(Items)
      ensures evicted == old(evicted) + Callbacks(old(Items), |Items|)
    {
      hide Total, Trim, Callbacks, Mapped;
      this.capacity, this.maxBytes := capacity, maxBytes;
      EvictExcess();
    }

    method EvictAll()
      requires Valid()
      modifies `head, `tail, `Nodes, `Items, `items, `curBytes, `evicted, Nodes`prev, Nodes`next
      ensures Valid() && Items == [] && evicted == old(evicted) + Callbacks(old(Items), 0)
    {
      hide Total, Mapped;
      while tail != null
        invariant Valid() && Nodes <= old(Nodes) && Items <= old(Items)
        invariant evicted == old(evicted) + Callbacks(old(Items), |Items|)
        decreases |Nodes|
      {
        EvictOldest();
        CallbacksStep(old(Items), |Items|);
      }
    }
  }

  lemma FrontedFrom<K, V>(list: seq<Item<K, V>>, i: nat, x: Item<K, V>)
    requires i < |list| && i == IndexOf(list, x.key)
    ensures Fronted(list, x) == [x] + list[..i] + list[i + 1..]
    ensures list[i := x][..i] == list[..i] && list[i := x][i + 1..] == list[i + 1..]
  {
    hide IndexOf;
  }

  /** The bytes of a list in which item `i` was replaced by `x` and moved to the front. */
  lemma TotalOfMove<K, V>(list: seq<Item<K, V>>, i: nat, x: Item<K, V>)
    requires i < |list|
    ensures Total([x] + list[..i] + list[i + 1..]) == Total(list) - list[i].size + x.size
  {
    hide Total;
    TotalOfDrop(list, i);
    TotalOfConcat([x], Drop(list, i));
    TotalOfOne(x);
    assert [x] + list[..i] + list[i + 1..] == [x] + Drop(list, i);
  }

  lemma {:induction false} CallbacksStep<K, V>(list: seq<Item<K, V>>, n: nat)
    requires n < |list|
    ensures Callbacks(list, n) == Callbacks(list, n + 1) + [(list[n].key, list[n].value)]
    decreases |list|
  {
    if n + 1 < |list| {
      CallbacksStep(list[..|list| - 1], n);
    }
  }
}
