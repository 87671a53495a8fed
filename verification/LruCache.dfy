/** The cache itself: a map from keys to elements of a doubly linked list with a sentinel, as container/list keeps it.
    One method body is one critical section. */
module LruCache {
  import opened Options
  import opened RecencyModel

  /** A mutable value of the caller's; the cache only ever stores and hands out copies. */
  class Box<V> {
    var content: V

    constructor (content: V)
      ensures this.content == content
    {
      this.content := content;
    }

    /** cloneValue: an equal value that nobody else holds. */
    method Clone() returns (copy: Box<V>)
      ensures fresh(copy) && copy.content == content
    {
      copy := new Box(content);
    }
  }

  datatype Item<K, V> = Item(key: K, box: Box<V>, expiresAt: int)

  class Element<K, V> {
    var prev: Element?<K, V>
    var next: Element?<K, V>
    var item: Option<Item<K, V>>

    /** A list of its own. */
    constructor Alone()
      ensures prev == this && next == this && item == None
    {
      item := None;
      new;
      prev, next := this, this;
    }

    constructor Holding(item: Item<K, V>)
      ensures this.item == Some(item)
    {
      prev, next := null, null;
      this.item := Some(item);
    }
  }

  /** Position i of the circle: the sentinel at both ends, the nodes between. */
  ghost function At<K, V>(root: Element<K, V>, nodes: seq<Element<K, V>>, i: int): Element<K, V>
    requires 0 <= i <= |nodes| + 1
  {
    if i == 0 || i == |nodes| + 1 then root else nodes[i - 1]
  }

  ghost predicate Joined<K, V>(left: Element<K, V>, right: Element<K, V>)
    reads left, right
  {
    left.next == right && right.prev == left
  }

  /** Following next from the sentinel visits nodes in order and comes back; prev goes the other way. */
  ghost predicate Linked<K, V>(root: Element<K, V>, nodes: seq<Element<K, V>>)
    reads root, nodes
  {
    forall i :: 0 <= i <= |nodes| ==> Joined(At(root, nodes, i), At(root, nodes, i + 1))
  }

  ghost predicate Separate<K, V>(root: Element<K, V>, nodes: seq<Element<K, V>>) {
    root !in nodes && forall i, j :: 0 <= i < j < |nodes| ==> Apart(nodes, i, j)
  }

  ghost predicate Apart<K, V>(nodes: seq<Element<K, V>>, i: nat, j: nat)
    requires i < |nodes| && j < |nodes|
  {
    nodes[i] != nodes[j]
  }

  lemma AllApart<K, V>(root: Element<K, V>, nodes: seq<Element<K, V>>)
    requires Separate(root, nodes)
    ensures forall i, j :: 0 <= i < j < |nodes| ==> nodes[i] != nodes[j]
  {
    forall i, j | 0 <= i < j < |nodes| ensures nodes[i] != nodes[j] { assert Apart(nodes, i, j); }
  }

  /** container/list insert after the sentinel. */
  method InsertFront<K, V>(root: Element<K, V>, e: Element<K, V>, ghost nodes: seq<Element<K, V>>)
    requires Linked(root, nodes) && Separate(root, nodes) && e != root && e !in nodes
    modifies root`next, root`prev, e`next, e`prev, nodes`next, nodes`prev
    ensures Linked(root, [e] + nodes) && Separate(root, [e] + nodes)
  {
    AllApart(root, nodes);
    assert Joined(At(root, nodes, 0), At(root, nodes, 1));
    e.prev := root;
    e.next := root.next;
    e.prev.next := e;
    e.next.prev := e;
    ghost var longer := [e] + nodes;
    forall i | 0 <= i <= |longer| ensures Joined(At(root, longer, i), At(root, longer, i + 1)) {
      if i >= 2 {
        assert At(root, longer, i) == At(root, nodes, i - 1);
        assert At(root, longer, i + 1) == At(root, nodes, i);
        assert old(Joined(At(root, nodes, i - 1), At(root, nodes, i - 1 + 1)));
      } else {
        assert At(root, longer, 0) == root && At(root, longer, 1) == e && At(root, longer, 2) == At(root, nodes, 1);
      }
    }
  }

  /** container/list remove. */
  method Unlink<K, V>(root: Element<K, V>, e: Element<K, V>, ghost nodes: seq<Element<K, V>>, ghost i: nat)
    requires Linked(root, nodes) && Separate(root, nodes) && i < |nodes| && nodes[i] == e
    modifies root`next, root`prev, nodes`next, nodes`prev
    ensures Linked(root, nodes[..i] + nodes[i + 1..]) && Separate(root, nodes[..i] + nodes[i + 1..])
    ensures e !in nodes[..i] + nodes[i + 1..]
  {
    AllApart(root, nodes);
    assert Joined(At(root, nodes, i), At(root, nodes, i + 1));
    assert Joined(At(root, nodes, i + 1), At(root, nodes, i + 1 + 1));
    e.prev.next := e.next;
    e.next.prev := e.prev;
    ghost var shorter := nodes[..i] + nodes[i + 1..];
    forall k | 0 <= k <= |shorter| ensures Joined(At(root, shorter, k), At(root, shorter, k + 1)) {
      if k < i {
        assert At(root, shorter, k) == At(root, nodes, k) && At(root, shorter, k + 1) == At(root, nodes, k + 1);
        assert old(Joined(At(root, nodes, k), At(root, nodes, k + 1)));
      } else if k == i {
        assert At(root, shorter, k) == At(root, nodes, k) && At(root, shorter, k + 1) == At(root, nodes, k + 2);
      } else {
        assert At(root, shorter, k) == At(root, nodes, k + 1) && At(root, shorter, k + 1) == At(root, nodes, k + 2);
        assert old(Joined(At(root, nodes, k + 1), At(root, nodes, k + 1 + 1)));
      }
    }
  }

  /** container/list.List. */
  class List<K, V> {
    const root: Element<K, V>
    var length: nat
    ghost var nodes: seq<Element<K, V>>

    ghost predicate Valid()
      reads this, root, nodes
    {
      Separate(root, nodes) && Linked(root, nodes) && length == |nodes|
    }

    constructor ()
      ensures Valid() && nodes == [] && fresh(root)
    {
      var sentinel := new Element<K, V>.Alone();
      root := sentinel;
      length := 0;
      nodes := [];
      new;
      assert At(root, nodes, 0) == root && At(root, nodes, 1) == root;
    }

    method PushFront(e: Element<K, V>)
      requires Valid() && e != root && e !in nodes
      modifies this`length, this`nodes, root`next, root`prev, nodes`next, nodes`prev, e`next, e`prev
      ensures Valid() && nodes == [e] + old(nodes)
    {
      InsertFront(root, e, nodes);
      nodes := [e] + nodes;
      length := length + 1;
    }

    method Remove(e: Element<K, V>, ghost i: nat)
      requires Valid() && i < |nodes| && nodes[i] == e
      modifies this`length, this`nodes, root`next, root`prev, nodes`next, nodes`prev
      ensures Valid() && nodes == old(nodes)[..i] + old(nodes)[i + 1..]
    {
      Unlink(root, e, nodes, i);
      nodes := nodes[..i] + nodes[i + 1..];
      length := length - 1;
    }

    method MoveToFront(e: Element<K, V>, ghost i: nat)
      requires Valid() && i < |nodes| && nodes[i] == e
      modifies this`length, this`nodes, root`next, root`prev, nodes`next, nodes`prev
      ensures Valid() && nodes == [e] + (old(nodes)[..i] + old(nodes)[i + 1..])
    {
      if root.next == e {
        AllApart(root, nodes);
        assert Joined(At(root, nodes, 0), At(root, nodes, 1));
        assert i == 0;
        assert nodes == [e] + (nodes[..0] + nodes[1..]);
        return;
      }
      Unlink(root, e, nodes, i);
      ghost var rest := nodes[..i] + nodes[i + 1..];
      InsertFront(root, e, rest);
      nodes := [e] + rest;
    }

    method Back() returns (e: Element<K, V>)
      requires Valid() && nodes != []
      ensures e == nodes[|nodes| - 1]
    {
      assert Joined(At(root, nodes, |nodes|), At(root, nodes, |nodes| + 1));
      e := root.prev;
    }
  }

  ghost function BoxOf<K, V>(n: Element<K, V>): set<Box<V>>
    reads n`item
  {
    if n.item.Some? then {n.item.value.box} else {}
  }

  /** An element that stores one entry. */
  ghost predicate Stores<K, V>(n: Element<K, V>, entry: Entry<K, V>)
    reads n`item, BoxOf(n)`content
  {
    n.item.Some? && entry == Entry(n.item.value.key, n.item.value.box.content, n.item.value.expiresAt)
  }

  /** An element in the footprint that stores an entry and is what the map has for its key. */
  ghost predicate Slot<K, V>(repr: set<object>, items: map<K, Element<K, V>>, n: Element<K, V>, entry: Entry<K, V>)
    reads n`item, BoxOf(n)`content
  {
    && n in repr && Stores(n, entry) && n.item.value.box in repr
    && entry.key in items && items[entry.key] == n
  }

  ghost function Boxes<K, V>(nodes: seq<Element<K, V>>): set<Box<V>>
    reads nodes`item
  {
    set n | n in nodes && n.item.Some? :: n.item.value.box
  }

  ghost predicate Slots<K, V>(
    repr: set<object>, items: map<K, Element<K, V>>, nodes: seq<Element<K, V>>, entries: Recency<K, V>)
    reads nodes`item, Boxes(nodes)`content
  {
    && |entries| == |nodes|
    && forall i {:trigger Slot(repr, items, nodes[i], entries[i])} ::
         0 <= i < |nodes| ==> Slot(repr, items, nodes[i], entries[i])
  }

  /** The map, the nodes and the entries agree. */
  ghost predicate Agrees<K, V>(
    repr: set<object>, items: map<K, Element<K, V>>, nodes: seq<Element<K, V>>, entries: Recency<K, V>)
    reads nodes`item, Boxes(nodes)`content
  {
    && Slots(repr, items, nodes, entries)
    && DistinctKeys(entries)
    && forall k :: k in items ==> Lookup(entries, k).Some?
  }

  /** Where the element of a mapped key sits. */
  lemma Locate<K, V>(
    repr: set<object>, items: map<K, Element<K, V>>, nodes: seq<Element<K, V>>, entries: Recency<K, V>, key: K)
    returns (i: nat)
    requires Agrees(repr, items, nodes, entries) && key in items
    ensures i < |entries| && entries[i].key == key && items[key] == nodes[i]
    ensures Lookup(entries, key) == Some(entries[i]) && Slot(repr, items, nodes[i], entries[i])
  {
    LookupMember(entries, key);
    var entry := Lookup(entries, key).value;
    i :| 0 <= i < |entries| && entries[i] == entry;
    assert Slot(repr, items, nodes[i], entries[i]);
    AtPosition(entries, i);
  }

  lemma Unmapped<K, V>(
    repr: set<object>, items: map<K, Element<K, V>>, nodes: seq<Element<K, V>>, entries: Recency<K, V>, key: K)
    requires Agrees(repr, items, nodes, entries) && key !in items
    ensures Lookup(entries, key) == None && Without(entries, key) == entries
  {
    forall i | 0 <= i < |entries| ensures entries[i].key != key {
      assert Slot(repr, items, nodes[i], entries[i]);
    }
    LookupMember(entries, key);
    WithoutAbsent(entries, key);
  }

  lemma SlotsMoved<K, V>(
    repr: set<object>, items: map<K, Element<K, V>>, nodes: seq<Element<K, V>>, entries: Recency<K, V>,
    rest: Recency<K, V>, i: nat)
    requires Slots(repr, items, nodes, entries) && i < |nodes| && rest == entries[..i] + entries[i + 1..]
    ensures Slots(repr, items, [nodes[i]] + (nodes[..i] + nodes[i + 1..]), [entries[i]] + rest)
  {
    var moved, list := [nodes[i]] + (nodes[..i] + nodes[i + 1..]), [entries[i]] + rest;
    forall k | 0 <= k < |moved| ensures Slot(repr, items, moved[k], list[k]) {
      var o := if k == 0 then i else if k <= i then k - 1 else k;
      assert moved[k] == nodes[o] && list[k] == entries[o];
      assert Slot(repr, items, nodes[o], entries[o]);
    }
  }

  lemma AgreesMoved<K, V>(
    repr: set<object>, items: map<K, Element<K, V>>, nodes: seq<Element<K, V>>, entries: Recency<K, V>, i: nat)
    requires Agrees(repr, items, nodes, entries) && i < |nodes|
    ensures Agrees(repr, items, [nodes[i]] + (nodes[..i] + nodes[i + 1..]),
                   [entries[i]] + Without(entries, entries[i].key))
    ensures |[entries[i]] + Without(entries, entries[i].key)| == |entries|
  {
    var entry, rest := entries[i], Without(entries, entries[i].key);
    AtPosition(entries, i);
    FrontDistinct(entries, entry);
    WithoutDistinct(entries, entry.key);
    forall k | k in items ensures Lookup([entry] + rest, k).Some? {
      WithoutLookup(entries, entry.key, k);
      LookupCons(entry, rest, k);
    }
    SlotsMoved(repr, items, nodes, entries, rest, i);
  }

  lemma AgreesRemoved<K(!new), V>(
    repr: set<object>, items: map<K, Element<K, V>>, nodes: seq<Element<K, V>>, entries: Recency<K, V>, i: nat)
    requires Agrees(repr, items, nodes, entries) && i < |nodes|
    ensures Agrees(repr, items - {entries[i].key}, nodes[..i] + nodes[i + 1..], Without(entries, entries[i].key))
    ensures |Without(entries, entries[i].key)| == |entries| - 1
  {
    var key := entries[i].key;
    var fewer := items - {key};
    var shorter, rest := nodes[..i] + nodes[i + 1..], Without(entries, key);
    AtPosition(entries, i);
    WithoutDistinct(entries, key);
    forall k | 0 <= k < |shorter| ensures Slot(repr, fewer, shorter[k], rest[k]) {
      var o := if k < i then k else k + 1;
      assert shorter[k] == nodes[o] && rest[k] == entries[o];
      assert Slot(repr, items, nodes[o], entries[o]);
      DistinctMeansDifferent(entries, if o < i then o else i, if o < i then i else o);
    }
    forall k | k in fewer ensures Lookup(rest, k).Some? {
      WithoutLookup(entries, key, k);
    }
  }

  lemma AgreesAdded<K, V>(
    repr: set<object>, items: map<K, Element<K, V>>, nodes: seq<Element<K, V>>, entries: Recency<K, V>,
    e: Element<K, V>, entry: Entry<K, V>)
    requires Agrees(repr, items, nodes, entries) && Stores(e, entry) && entry.key !in items
    ensures Agrees(repr + {e, e.item.value.box}, items[entry.key := e], [e] + nodes, [entry] + entries)
    ensures Without(entries, entry.key) == entries
  {
    var wider, more := repr + {e, e.item.value.box}, items[entry.key := e];
    Unmapped(repr, items, nodes, entries, entry.key);
    LookupMember(entries, entry.key);
    FrontDistinct(entries, entry);
    forall k | 0 <= k < |nodes| ensures Slot(wider, more, nodes[k], entries[k]) {
      assert Slot(repr, items, nodes[k], entries[k]);
    }
    forall k | 0 <= k <= |nodes| ensures Slot(wider, more, ([e] + nodes)[k], ([entry] + entries)[k]) {
      if k > 0 { assert Slot(wider, more, nodes[k - 1], entries[k - 1]); }
    }
    forall k | k in more ensures Lookup([entry] + entries, k).Some? {
      LookupCons(entry, entries, k);
    }
  }

  /** Everything listed lies in the footprint. */
  lemma AgreesCovers<K, V>(
    repr: set<object>, items: map<K, Element<K, V>>, nodes: seq<Element<K, V>>, entries: Recency<K, V>)
    requires Agrees(repr, items, nodes, entries)
    ensures forall n :: n in nodes ==> n in repr
    ensures Boxes(nodes) <= repr
  {
    forall n | n in nodes ensures n in repr && BoxOf(n) <= repr {
      var i :| 0 <= i < |nodes| && nodes[i] == n;
      assert Slot(repr, items, nodes[i], entries[i]);
    }
  }

  class Cache<K(==, !new), V> {
    const capacity: nat
    const ttl: int
    var items: map<K, Element<K, V>>
    const recency: List<K, V>
    /** The cached entries, most recently used first. */
    ghost var entries: Recency<K, V>
    ghost var Repr: set<object>

    /** The map, the list and the entries agree. */
    ghost predicate Shape()
      reads this, Repr
      ensures Shape() ==> this in Repr
    {
      && this in Repr && recency in Repr && recency.root in Repr
      && (forall n :: n in recency.nodes ==> n in Repr)
      && Boxes(recency.nodes) <= Repr
      && recency.Valid()
      && Agrees(Repr, items, recency.nodes, entries)
    }

    ghost predicate Valid()
      reads this, Repr
      ensures Valid() ==> this in Repr
    {
      Shape() && capacity > 0 && ttl > 0 && |entries| <= capacity
    }

    constructor (capacity: nat, ttl: int)
      requires capacity > 0 && ttl > 0
      ensures Valid() && fresh(Repr) && entries == []
      ensures this.capacity == capacity && this.ttl == ttl
    {
      this.capacity, this.ttl := capacity, ttl;
      items := map[];
      var list := new List<K, V>();
      recency := list;
      entries := [];
      Repr := {this, list, list.root};
    }

    /** cache.remove: the list element and its map entry go together. */
    method Remove(e: Element<K, V>, ghost i: nat)
      requires Shape() && i < |entries| && recency.nodes[i] == e
      modifies this`items, this`entries
      modifies recency`length, recency`nodes
      modifies recency.root`next, recency.root`prev, recency.nodes`next, recency.nodes`prev
      ensures Shape()
      ensures entries == Without(old(entries), old(entries)[i].key)
      ensures |entries| == |old(entries)| - 1
    {
      assert Slot(Repr, items, recency.nodes[i], entries[i]);
      ghost var nodes := recency.nodes;
      recency.Remove(e, i);
      AgreesRemoved(Repr, items, nodes, entries, i);
      AgreesCovers(Repr, items - {e.item.value.key}, recency.nodes, Without(entries, e.item.value.key));
      items := items - {e.item.value.key};
      entries := Without(entries, e.item.value.key);
    }

    method Touch(e: Element<K, V>, ghost i: nat)
      requires Shape() && i < |entries| && recency.nodes[i] == e
      modifies this`entries
      modifies recency`length, recency`nodes
      modifies recency.root`next, recency.root`prev, recency.nodes`next, recency.nodes`prev
      ensures Shape()
      ensures entries == [old(entries)[i]] + Without(old(entries), old(entries)[i].key)
      ensures |entries| == |old(entries)|
    {
      ghost var nodes := recency.nodes;
      recency.MoveToFront(e, i);
      AgreesMoved(Repr, items, nodes, entries, i);
      AgreesCovers(Repr, items, recency.nodes, [entries[i]] + Without(entries, entries[i].key));
      entries := [entries[i]] + Without(entries, entries[i].key);
    }

    /** list.PushFront and the insertion into the map. */
    method Push(e: Element<K, V>, cloned: Box<V>)
      requires Shape() && e !in Repr && e.item.Some? && e.item.value.box == cloned && e.item.value.key !in items
      modifies this`items, this`entries, this`Repr, e`next, e`prev
      modifies recency`length, recency`nodes
      modifies recency.root`next, recency.root`prev, recency.nodes`next, recency.nodes`prev
      ensures Shape() && Repr == old(Repr) + {e, cloned}
      ensures entries == [Entry(e.item.value.key, cloned.content, e.item.value.expiresAt)] + old(entries)
      ensures Without(old(entries), e.item.value.key) == old(entries)
      ensures recency.nodes == [e] + old(recency.nodes)
    {
      ghost var entry := Entry(e.item.value.key, cloned.content, e.item.value.expiresAt);
      ghost var nodes := recency.nodes;
      recency.PushFront(e);
      AgreesAdded(Repr, items, nodes, entries, e, entry);
      AgreesCovers(Repr + {e, cloned}, items[e.item.value.key := e], recency.nodes, [entry] + entries);
      items := items[e.item.value.key := e];
      entries := [entry] + entries;
      Repr := Repr + {e, cloned};
    }

    /** The value and the expiry of a cached key are replaced in place. */
    method Replace(e: Element<K, V>, ghost i: nat, cloned: Box<V>, now: int)
      requires Shape() && i < |entries| && recency.nodes[i] == e
      modifies this`Repr, this`entries, e`item
      ensures Shape() && Repr == old(Repr) + {cloned}
      ensures entries == old(entries)[i := Entry(old(entries)[i].key, cloned.content, now + ttl)]
    {
      ghost var before, entry := entries, Entry(entries[i].key, cloned.content, now + ttl);
      assert Slot(Repr, items, recency.nodes[i], entries[i]);
      AllApart(recency.root, recency.nodes);
      ReplaceAt(entries, i, entry);
      e.item := Some(Item(e.item.value.key, cloned, now + ttl));
      Repr := Repr + {cloned};
      entries := entries[i := entry];
      forall k | 0 <= k < |entries| ensures Slot(Repr, items, recency.nodes[k], entries[k]) {
        assert old(Slot(Repr, items, recency.nodes[k], entries[k]));
      }
      forall k | k in items ensures Lookup(entries, k).Some? {
        ReplacedLookup(before, i, entry, k);
      }
      AgreesCovers(Repr, items, recency.nodes, entries);
    }

    method Insert(key: K, cloned: Box<V>, now: int)
      requires Shape() && key !in items
      modifies this`items, this`entries, this`Repr
      modifies recency`length, recency`nodes
      modifies recency.root`next, recency.root`prev, recency.nodes`next, recency.nodes`prev
      ensures Shape() && cloned in Repr && fresh(Repr - old(Repr) - {cloned})
      ensures entries == [Entry(key, cloned.content, now + ttl)] + old(entries)
      ensures Without(old(entries), key) == old(entries)
      ensures forall n :: n in recency.nodes ==> fresh(n) || n in old(recency.nodes)
    {
      var e := new Element<K, V>.Holding(Item(key, cloned, now + ttl));
      Push(e, cloned);
    }

    method RemoveBack()
      requires Shape() && entries != []
      modifies this`items, this`entries
      modifies recency`length, recency`nodes
      modifies recency.root`next, recency.root`prev, recency.nodes`next, recency.nodes`prev
      ensures Shape() && entries == old(entries)[..|old(entries)| - 1]
    {
      var back := recency.Back();
      ghost var last := |entries| - 1;
      AtPosition(entries, last);
      assert entries[..last] + entries[last + 1..] == entries[..last];
      Remove(back, last);
    }

    method Get(key: K, now: int) returns (r: Option<Box<V>>)
      requires Valid()
      modifies Repr
      ensures Valid() && Repr == old(Repr)
      ensures entries == AfterGet(old(entries), key, now)
      ensures r.Some? ==> fresh(r.value) && AnswerOf(old(entries), key, now) == Hit(r.value.content)
      ensures r.None? ==> AnswerOf(old(entries), key, now) == Miss
    {
      if key !in items {
        Unmapped(Repr, items, recency.nodes, entries, key);
        return None;
      }
      ghost var i := Locate(Repr, items, recency.nodes, entries, key);
      var e := items[key];
      var item := e.item.value;
      if !(now < item.expiresAt) {
        Remove(e, i);
        return None;
      }
      Touch(e, i);
      var copy := item.box.Clone();
      return Some(copy);
    }

    method Set(key: K, value: Box<V>, now: int)
      requires Valid()
      modifies Repr
      ensures Valid() && fresh(Repr - old(Repr)) && value !in Repr - old(Repr)
      ensures entries == AfterSet(old(entries), capacity, Entry(key, old(value.content), now + ttl))
    {
      var cloned := value.Clone();
      if key in items {
        Refresh(key, cloned, now);
      } else {
        Add(key, cloned, now);
      }
    }

    method Refresh(key: K, cloned: Box<V>, now: int)
      requires Valid() && key in items
      modifies Repr
      ensures Valid() && Repr == old(Repr) + {cloned}
      ensures entries == AfterSet(old(entries), capacity, Entry(key, old(cloned.content), now + ttl))
    {
      ghost var i := Locate(Repr, items, recency.nodes, entries, key);
      var e := items[key];
      ReplaceAt(entries, i, Entry(key, cloned.content, now + ttl));
      WithoutDistinct(entries, key);
      Replace(e, i, cloned, now);
      Touch(e, i);
    }

    method Add(key: K, cloned: Box<V>, now: int)
      requires Valid() && key !in items
      modifies Repr
      ensures Valid() && cloned in Repr && fresh(Repr - old(Repr) - {cloned})
      ensures entries == AfterSet(old(entries), capacity, Entry(key, old(cloned.content), now + ttl))
    {
      Insert(key, cloned, now);
      if recency.length > capacity {
        RemoveBack();
      }
    }
  }
}
