/** The LRU cache on the heap (foundation/lru.h, foundation/lru.inl): a doubly linked list
    of entries and an index from keys to its nodes. */
module Lru {
  import opened Sequences
  import opened LruModel

  class Node<K, V> {
    const key: K
    var value: V
    var prev: Node?<K, V>
    var next: Node?<K, V>

    constructor (key: K, value: V)
      ensures this.key == key && this.value == value
    {
      this.key, this.value := key, value;
      prev, next := null, null;
    }
  }

  /** The part of `std::list` the cache relies on. */
  class NodeList<K, V> {
    var head: Node?<K, V>
    var tail: Node?<K, V>
    var size: nat
    ghost var nodes: seq<Node<K, V>>
    ghost var contents: seq<Entry<K, V>>

    /** The links spell out the ghost sequence in both directions. */
    ghost predicate Chained()
      reads this, nodes
    {
      Distinct(nodes) && size == |nodes| &&
      head == (if nodes == [] then null else nodes[0]) &&
      tail == (if nodes == [] then null else nodes[|nodes| - 1]) &&
      (forall i {:trigger nodes[i].prev} :: 0 <= i < |nodes| ==>
        nodes[i].prev == if i == 0 then null else nodes[i - 1]) &&
      (forall i {:trigger nodes[i].next} :: 0 <= i < |nodes| ==>
        nodes[i].next == if i == |nodes| - 1 then null else nodes[i + 1])
    }

    ghost predicate Valid()
      reads this, nodes
    {
      Chained() && |nodes| == |contents| &&
      forall i :: 0 <= i < |nodes| ==> contents[i] == Entry(nodes[i].key, nodes[i].value)
    }

    constructor ()
      ensures Valid() && nodes == [] && contents == []
    {
      head, tail, size := null, null, 0;
      nodes, contents := [], [];
    }

    /** Take the node at position i out of the chain. */
    method Unlink(n: Node<K, V>, ghost i: nat)
      requires Chained() && i < |nodes| && nodes[i] == n
      modifies `head, `tail, `size, `nodes, nodes
      ensures Chained()
      ensures nodes == old(nodes)[..i] + old(nodes)[i + 1..]
      ensures forall m :: m in old(nodes) ==> m.value == old(m.value)
    {
      if n.prev == null {
        head := n.next;
      } else {
        n.prev.next := n.next;
      }
      if n.next == null {
        tail := n.prev;
      } else {
        n.next.prev := n.prev;
      }
      size := size - 1;
      nodes := nodes[..i] + nodes[i + 1..];
    }

    /** Put a node that is not in the chain at its front. */
    method LinkFront(n: Node<K, V>)
      requires Chained() && n !in nodes
      modifies `head, `tail, `size, `nodes, nodes, n
      ensures Chained()
      ensures nodes == [n] + old(nodes)
      ensures forall m :: m in nodes ==> m.value == old(m.value)
    {
      n.prev, n.next := null, head;
      if head == null {
        tail := n;
      } else {
        head.prev := n;
      }
      head := n;
      size := size + 1;
      nodes := [n] + nodes;
    }

    method Remove(n: Node<K, V>, ghost i: nat)
      requires Valid() && i < |nodes| && nodes[i] == n
      modifies this, nodes
      ensures Valid()
      ensures nodes == old(nodes)[..i] + old(nodes)[i + 1..]
      ensures contents == old(contents)[..i] + old(contents)[i + 1..]
      ensures n.value == old(n.value) && forall m :: m in nodes ==> m in old(nodes)
    {
      Unlink(n, i);
      contents := contents[..i] + contents[i + 1..];
    }

    method PushFront(n: Node<K, V>)
      requires Valid() && n !in nodes
      modifies this, nodes, n
      ensures Valid()
      ensures nodes == [n] + old(nodes)
      ensures contents == [Entry(n.key, old(n.value))] + old(contents)
      ensures n.value == old(n.value)
    {
      LinkFront(n);
      contents := [Entry(n.key, n.value)] + contents;
    }

    /** Overwrite the value of the node at position i. */
    method Assign(n: Node<K, V>, ghost i: nat, v: V)
      requires Valid() && i < |nodes| && nodes[i] == n
      modifies this`contents, n`value
      ensures Valid()
      ensures contents == old(contents)[i := Entry(n.key, v)]
    {
      n.value := v;
      contents := contents[i := Entry(n.key, v)];
    }

    /** `splice` of one node to the front. */
    method Splice(n: Node<K, V>, ghost i: nat)
      requires Valid() && i < |nodes| && nodes[i] == n
      modifies this, nodes
      ensures Valid()
      ensures nodes == [n] + (old(nodes)[..i] + old(nodes)[i + 1..])
      ensures contents == [old(contents)[i]] + (old(contents)[..i] + old(contents)[i + 1..])
      ensures n.value == old(n.value) && forall m :: m in nodes ==> m in old(nodes)
    {
      Remove(n, i);
      PushFront(n);
    }
  }

  /** The index holds exactly the listed keys, each pointing at the node that holds it. */
  ghost predicate Indexed<K(!new), V>(cache: map<K, Node<K, V>>, nodes: seq<Node<K, V>>) {
    (forall i :: 0 <= i < |nodes| ==> nodes[i].key in cache && cache[nodes[i].key] == nodes[i]) &&
    (forall k :: k in cache ==> cache[k] in nodes && cache[k].key == k)
  }

  lemma IndexedMoved<K(!new), V>(cache: map<K, Node<K, V>>, nodes: seq<Node<K, V>>, i: nat)
    requires Indexed(cache, nodes) && i < |nodes|
    ensures Indexed(cache, [nodes[i]] + (nodes[..i] + nodes[i + 1..]))
  {
    var moved := [nodes[i]] + (nodes[..i] + nodes[i + 1..]);
    assert nodes == nodes[..i] + [nodes[i]] + nodes[i + 1..];
    assert forall n :: n in nodes ==> n in moved;
  }

  lemma IndexedWithout<K(!new), V>(cache: map<K, Node<K, V>>, nodes: seq<Node<K, V>>, i: nat)
    requires Indexed(cache, nodes) && Distinct(nodes) && i < |nodes|
    ensures Indexed(cache - {nodes[i].key}, nodes[..i] + nodes[i + 1..])
  {
    var rest := nodes[..i] + nodes[i + 1..];
    forall j | 0 <= j < |rest| ensures rest[j] in nodes && rest[j].key != nodes[i].key {
      var m := if j < i then j else j + 1;
      assert rest[j] == nodes[m] != nodes[i];
    }
    forall k | k in cache && k != nodes[i].key ensures cache[k] in rest {
      var m :| 0 <= m < |nodes| && nodes[m] == cache[k];
      assert nodes[m] == rest[if m < i then m else m - 1];
    }
  }

  lemma IndexedWith<K(!new), V>(cache: map<K, Node<K, V>>, nodes: seq<Node<K, V>>, n: Node<K, V>)
    requires Indexed(cache, nodes) && n.key !in cache
    ensures Indexed(cache[n.key := n], [n] + nodes)
  {
  }

  class LRU<K(!new, ==), V(!new)> {
    const capacity: nat
    const list: NodeList<K, V>
    var cache: map<K, Node<K, V>>

    /** Well-formed links, at most `capacity` of them, and an index that agrees with them. */
    ghost predicate Valid()
      reads this, list, list.nodes
    {
      list.Valid() && |list.nodes| <= capacity && Indexed(cache, list.nodes)
    }

    ghost function Contents(): seq<Entry<K, V>>
      reads this, list
    {
      list.contents
    }

    constructor (capacity: nat)
      ensures Valid() && this.capacity == capacity && fresh(list)
      ensures Contents() == [] && list.nodes == []
    {
      this.capacity := capacity;
      list := new NodeList();
      cache := map[];
    }

    method Get(k: K) returns (r: Option<V>)
      requires Valid()
      modifies this, list, list.nodes
      ensures Valid() && forall n :: n in list.nodes ==> n in old(list.nodes)
      ensures r == Lookup(old(Contents()), k)
      ensures Contents() == Step(old(Contents()), capacity, Op.Get(k))
    {
      IndexAgrees(k);
      if k !in cache {
        return None;
      }
      MoveToFront(k);
      return Some(cache[k].value);
    }

    /** Move the node of a cached key to the front. */
    method MoveToFront(k: K)
      requires Valid() && k in cache
      modifies list, list.nodes
      ensures Valid() && forall n :: n in list.nodes ==> n in old(list.nodes)
      ensures cache[k].value == old(cache[k].value)
      ensures Contents() == [Entry(k, cache[k].value)] + Without(old(Contents()), k)
    {
      IndexAgrees(k);
      var n := cache[k];
      ghost var i := PositionOf(n);
      WithoutOne(Contents(), i);
      IndexedMoved(cache, list.nodes, i);
      list.Splice(n, i);
    }

    method Put(k: K, v: V)
      requires Valid() && capacity >= 1
      modifies this, list, list.nodes
      ensures Valid() && forall n :: n in list.nodes ==> n in old(list.nodes) || fresh(n)
      ensures Contents() == Step(old(Contents()), capacity, Op.Put(k, v))
    {
      IndexAgrees(k);
      if k in cache {
        Refresh(k, v);
      } else {
        Admit(k, v);
      }
    }

    /** Make room if needed and add an entry for a new key. */
    method Admit(k: K, v: V)
      requires Valid() && capacity >= 1 && k !in cache
      modifies this, list, list.nodes
      ensures Valid() && forall n :: n in list.nodes ==> n in old(list.nodes) || fresh(n)
      ensures Contents() == [Entry(k, v)] + (if |old(Contents())| == capacity then old(Contents())[..capacity - 1]
                                             else old(Contents()))
    {
      if list.size == capacity {
        EvictLast();
      }
      Insert(k, v);
    }

    /** Overwrite the value of a cached key and move its node to the front. */
    method Refresh(k: K, v: V)
      requires Valid() && k in cache
      modifies list, list.nodes
      ensures Valid() && forall n :: n in list.nodes ==> n in old(list.nodes)
      ensures Contents() == [Entry(k, v)] + Without(old(Contents()), k)
    {
      IndexAgrees(k);
      var n := cache[k];
      ghost var i := PositionOf(n);
      WithoutOne(Contents(), i);
      IndexedMoved(cache, list.nodes, i);
      list.Assign(n, i, v);
      assert list.contents[..i] == old(list.contents)[..i];
      assert list.contents[i + 1..] == old(list.contents)[i + 1..];
      list.Splice(n, i);
    }

    /** Add an entry for a new key where there is room. */
    method Insert(k: K, v: V)
      requires Valid() && k !in cache && list.size < capacity
      modifies this, list, list.nodes
      ensures Valid() && forall n :: n in list.nodes ==> n in old(list.nodes) || fresh(n)
      ensures Contents() == [Entry(k, v)] + old(Contents())
    {
      var n := new Node(k, v);
      IndexedWith(cache, list.nodes, n);
      list.PushFront(n);
      cache := cache[k := n];
    }

    /** Drop the least recently used entry. */
    method EvictLast()
      requires Valid() && list.size > 0
      modifies this, list, list.nodes
      ensures Valid() && list.size == old(list.size) - 1
      ensures forall n :: n in list.nodes ==> n in old(list.nodes)
      ensures cache.Keys <= old(cache).Keys
      ensures Contents() == old(Contents())[..old(list.size) - 1]
    {
      Detach(list.tail, list.size - 1);
    }

    /** Take a node out of the list and its key out of the index. */
    method Detach(n: Node<K, V>, ghost i: nat)
      requires Valid() && i < |list.nodes| && list.nodes[i] == n
      modifies this, list, list.nodes
      ensures Valid() && list.nodes == old(list.nodes)[..i] + old(list.nodes)[i + 1..]
      ensures cache == old(cache) - {n.key}
      ensures Contents() == old(Contents())[..i] + old(Contents())[i + 1..]
    {
      IndexedWithout(cache, list.nodes, i);
      cache := cache - {n.key};
      list.Remove(n, i);
    }

    method Erase(k: K)
      requires Valid()
      modifies this, list, list.nodes
      ensures Valid() && forall n :: n in list.nodes ==> n in old(list.nodes)
      ensures Contents() == Step(old(Contents()), capacity, Op.Erase(k))
    {
      IndexAgrees(k);
      if k in cache {
        RemoveEntry(k);
      } else {
        WithoutMissing(Contents(), k);
      }
    }

    /** Take a cached key out of the list and out of the index. */
    method RemoveEntry(k: K)
      requires Valid() && k in cache
      modifies this, list, list.nodes
      ensures Valid() && forall n :: n in list.nodes ==> n in old(list.nodes)
      ensures Contents() == Without(old(Contents()), k)
    {
      IndexAgrees(k);
      var n := cache[k];
      ghost var i := PositionOf(n);
      WithoutOne(Contents(), i);
      Detach(n, i);
    }

    ghost function PositionOf(n: Node<K, V>): (i: nat)
      requires n in list.nodes
      reads list
      ensures i < |list.nodes| && list.nodes[i] == n
    {
      var i :| 0 <= i < |list.nodes| && list.nodes[i] == n; i
    }

    /** The index answers exactly the keys of the list, which are distinct, and finds for
        each of them the value the list holds. */
    lemma IndexAgrees(k: K)
      requires Valid()
      ensures DistinctKeys(Contents())
      ensures k in cache <==> Lookup(Contents(), k).Some?
      ensures k in cache ==> Lookup(Contents(), k) == Some(cache[k].value)
      ensures |cache| == |Contents()|
    {
      var s := Contents();
      LookupByKey(s, k);
      if k in cache {
        var i := PositionOf(cache[k]);
        assert KeysOf(s)[i] == k;
        LookupFacts(s, k);
        assert s[i] in s;
      }
      assert cache.Keys == Elements(KeysOf(s)) by {
        forall x | x in cache ensures x in KeysOf(s) {
          var i := PositionOf(cache[x]);
          assert KeysOf(s)[i] == x;
        }
      }
      SizeOfDistinct(KeysOf(s));
    }
  }
}
