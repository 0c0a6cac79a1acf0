/**
 LRUBucket: a circular doubly linked list of nodes around a head node, most recently used first, and an
 index from keys to nodes.
 */
module LruBucket {

  import opened Collections
  import opened LruSpec

  class Node<K, V> {
    var value: V
    /** What the source reaches through `iterator_->first`. */
    const key: K
    var prev: Node<K, V>
    var next: Node<K, V>

    constructor (key: K, value: V)
      ensures this.key == key && this.value == value && prev == next == this
    {
      this.key := key;
      this.value := value;
      this.prev := this;
      this.next := this;
    }
  }

  /** Neighbours point at each other. */
  ghost predicate Linked<K, V>(ring: seq<Node<K, V>>)
    reads ring
  {
    forall i | 0 <= i < |ring| - 1 :: ring[i].next == ring[i + 1] && ring[i + 1].prev == ring[i]
  }

  ghost function Pairs<K, V>(nodes: seq<Node<K, V>>): (r: seq<(K, V)>)
    reads nodes
    ensures |r| == |nodes| && forall i | 0 <= i < |nodes| :: r[i] == (nodes[i].key, nodes[i].value)
  {
    seq(|nodes|, i requires 0 <= i < |nodes| reads nodes => (nodes[i].key, nodes[i].value))
  }

  lemma PairsCons<K, V>(nodes: seq<Node<K, V>>)
    requires nodes != []
    ensures Pairs(nodes) == [(nodes[0].key, nodes[0].value)] + Pairs(nodes[1..])
  {
  }

  lemma DistinctCut<T>(s: seq<T>, i: nat)
    requires Distinct(s) && i < |s|
    ensures Distinct(s[..i] + s[i + 1..]) && s[i] !in s[..i] + s[i + 1..]
  {
    var r := s[..i] + s[i + 1..];
    forall j | 0 <= j < |r| ensures r[j] == s[if j < i then j else j + 1] {
    }
  }

  lemma CutMembers<T>(s: seq<T>, i: nat, x: T)
    requires Distinct(s) && i < |s|
    ensures x in s[..i] + s[i + 1..] <==> x in s && x != s[i]
  {
    DistinctCut(s, i);
    if x in s && x != s[i] {
      var j :| 0 <= j < |s| && s[j] == x;
      assert (s[..i] + s[i + 1..])[if j < i then j else j - 1] == x;
    }
  }

  class LRUBucket<K(==, !new), V> {
    const head: Node<K, V>
    var indexes: map<K, Node<K, V>>
    var size: nat
    var capacity: nat
    /** The nodes from the head on. */
    ghost var order: seq<Node<K, V>>

    ghost function Nodes(): set<Node<K, V>>
      reads this
    {
      set n <- order
    }

    /** The list alone is in shape. */
    ghost predicate Circular()
      reads this, head, order
    {
      && Linked([head] + order + [head])
      && head !in order && Distinct(order)
      && size == |order|
    }

    ghost predicate Indexed()
      reads this, order
    {
      && (forall n <- order :: n.key in indexes && indexes[n.key] == n)
      && (forall k <- indexes :: indexes[k] in order && indexes[k].key == k)
    }

    ghost predicate Consistent()
      reads this, head, order
    {
      Circular() && Indexed()
    }

    ghost predicate Valid()
      reads this, head, order
    {
      Consistent() && size <= capacity
    }

    /** The cache as the sequence of its elements, most recently used first. */
    ghost function Contents(): (r: seq<(K, V)>)
      reads this, order
    {
      Pairs(order)
    }

    /** `noKey` and `dflt` fill the head node, which holds no element. */
    constructor (capacity: nat, noKey: K, dflt: V)
      ensures Valid() && Contents() == [] && this.capacity == capacity && fresh(head)
    {
      var h := new Node(noKey, dflt);
      head := h;
      indexes := map[];
      size := 0;
      this.capacity := capacity;
      order := [];
      new;
      assert [head] + order + [head] == [head, head];
    }

    // ---- List surgery ----

    method Remove(node: Node<K, V>, ghost at: nat)
      requires Circular() && at < |order| && order[at] == node
      modifies `size, `order, head`next, head`prev, Nodes()`next, Nodes()`prev
      ensures Circular() && order == old(order[..at] + order[at + 1..]) && node !in order
    {
      ghost var ring := [head] + order + [head];
      assert ring[at + 1] == node && ring[at] == node.prev && ring[at + 2] == node.next;
      DistinctCut(order, at);
      node.prev.next := node.next;
      node.next.prev := node.prev;
      size := size - 1;
      order := order[..at] + order[at + 1..];
      ghost var ring' := [head] + order + [head];
      forall i | 0 <= i < |ring'| - 1 ensures ring'[i].next == ring'[i + 1] && ring'[i + 1].prev == ring'[i] {
        assert ring'[i] == if i <= at then ring[i] else ring[i + 1];
        assert ring'[i + 1] == if i + 1 <= at then ring[i + 1] else ring[i + 2];
      }
    }

    method Insert(node: Node<K, V>)
      requires Circular() && node !in order && node != head
      modifies `size, `order, head`next, head`prev, Nodes()`next, Nodes()`prev, node`next, node`prev
      ensures Circular() && order == [node] + old(order)
    {
      ghost var ring := [head] + order + [head];
      assert ring[0] == head && ring[1] == head.next;
      head.next.prev := node;
      node.next := head.next;
      head.next := node;
      node.prev := head;
      size := size + 1;
      order := [node] + order;
      ghost var ring' := [head] + order + [head];
      forall i | 0 <= i < |ring'| - 1 ensures ring'[i].next == ring'[i + 1] && ring'[i + 1].prev == ring'[i] {
        assert i >= 2 ==> ring'[i] == ring[i - 1];
        assert i >= 1 ==> ring'[i + 1] == ring[i];
      }
    }

    method MoveToFront(node: Node<K, V>, ghost at: nat)
      requires Consistent() && at < |order| && order[at] == node
      modifies `size, `order, head`next, head`prev, Nodes()`next, Nodes()`prev
      ensures Consistent() && order == old([node] + order[..at] + order[at + 1..]) && Nodes() == old(Nodes())
    {
      ghost var before := order;
      Remove(node, at);
      Insert(node);
      forall n: Node<K, V> ensures n in order <==> n in before {
        CutMembers(before, at, n);
      }
    }

    method Unlink(node: Node<K, V>, ghost at: nat)
      requires Consistent() && at < |order| && order[at] == node
      modifies `size, `order, `indexes, head`next, head`prev, Nodes()`next, Nodes()`prev
      ensures Consistent() && order == old(order[..at] + order[at + 1..]) && Nodes() <= old(Nodes())
    {
      ghost var before := order;
      Remove(node, at);
      Delete(node);
      forall n: Node<K, V> ensures n in order <==> n in before && n != node {
        CutMembers(before, at, n);
      }
    }

    method Delete(node: Node<K, V>)
      modifies `indexes
      ensures indexes == old(indexes) - {node.key}
    {
      indexes := indexes - {node.key};
    }

    method PopBack()
      requires Consistent() && size > 0
      modifies `size, `order, `indexes, head`next, head`prev, Nodes()`next, Nodes()`prev
      ensures Consistent() && order == old(order[..|order| - 1]) && Nodes() <= old(Nodes())
    {
      ghost var ring := [head] + order + [head];
      assert ring[|order|].next == ring[|order| + 1];
      Unlink(head.prev, |order| - 1);
      assert order == old(order[..|order| - 1]);
    }

    predicate IsLRUHeader(node: Node<K, V>)
      reads head
    {
      node == head.next || node == head
    }

    lemma HeaderIsFirst(node: Node<K, V>, at: nat)
      requires Circular() && at < |order| && order[at] == node
      ensures IsLRUHeader(node) <==> at == 0
    {
      var ring := [head] + order + [head];
      assert ring[0].next == ring[1];
      assert node in order;
    }

    // ---- The interface ----

    lemma ContentsFacts()
      requires Consistent()
      ensures DistinctKeys(Contents())
      ensures forall k :: k in indexes <==> Has(Contents(), k)
    {
      forall i, j | 0 <= i < j < |order| ensures order[i].key != order[j].key {
        assert order[i] in order && order[j] in order && order[i] != order[j];
      }
      forall k ensures k in indexes <==> Has(Contents(), k) {
        if k in indexes {
          var i :| 0 <= i < |order| && order[i] == indexes[k];
          assert Contents()[i].0 == k;
        }
        if Has(Contents(), k) {
          var i :| 0 <= i < |order| && Contents()[i].0 == k;
          assert order[i] in order;
        }
      }
    }

    /** Move a node to the head unless it is there already. */
    method Promote(node: Node<K, V>, ghost at: nat) returns (moved: bool)
      requires Valid() && at < |order| && order[at] == node
      modifies `size, `order, head`next, head`prev, Nodes()`next, Nodes()`prev
      ensures Valid() && Nodes() == old(Nodes()) && (moved <==> at != 0)
      ensures Contents() == Touch(old(Contents()), capacity, node.key, node.value)
    {
      ghost var before := order;
      ContentsFacts();
      moved := ToFront(node, at);
      SameValues(before);
      FrontIsTouch(before, at);
    }

    method ToFront(node: Node<K, V>, ghost at: nat) returns (moved: bool)
      requires Consistent() && at < |order| && order[at] == node
      modifies `size, `order, head`next, head`prev, Nodes()`next, Nodes()`prev
      ensures Consistent() && Nodes() == old(Nodes()) && (moved <==> at != 0)
      ensures order == old([node] + order[..at] + order[at + 1..])
    {
      HeaderIsFirst(node, at);
      moved := !IsLRUHeader(node);
      if moved {
        MoveToFront(node, at);
      } else {
        assert order == [node] + order[1..];
      }
    }

    /** Moving a node to the head is touching its element. */
    lemma FrontIsTouch(before: seq<Node<K, V>>, at: nat)
      requires DistinctKeys(Pairs(before)) && at < |before| <= capacity
      ensures Pairs([before[at]] + before[..at] + before[at + 1..]) ==
              Touch(Pairs(before), capacity, before[at].key, before[at].value)
    {
      PairsFront(before, at);
      FrontAt(Pairs(before), at, capacity);
    }

    /** Where the index sends a key. */
    ghost method Locate(key: K) returns (at: nat)
      requires Valid() && key in indexes
      ensures at < |order| && order[at] == indexes[key] && Contents()[at].0 == key
      ensures Has(Contents(), key) && Lookup(Contents(), key) == indexes[key].value
    {
      at :| 0 <= at < |order| && order[at] == indexes[key];
      ContentsFacts();
      LookupAt(Contents(), at);
    }

    method Get(key: K, into: V, isLRU: bool) returns (found: bool, value: V)
      requires Valid()
      modifies `size, `order, head`next, head`prev, Nodes()`next, Nodes()`prev
      ensures Valid() && Nodes() == old(Nodes())
      ensures found <==> Has(old(Contents()), key)
      ensures value == if found then Lookup(old(Contents()), key) else into
      ensures Contents() == if found && isLRU then Touch(old(Contents()), capacity, key, value) else old(Contents())
    {
      ContentsFacts();
      found, value := key in indexes, into;
      if found {
        var node := indexes[key];
        ghost var at := Locate(key);
        value := node.value;
        if isLRU {
          var moved := Promote(node, at);
        }
      }
    }

    method Contains(key: K, isLRU: bool) returns (found: bool, moved: bool)
      requires Valid()
      modifies `size, `order, head`next, head`prev, Nodes()`next, Nodes()`prev
      ensures Valid() && Nodes() == old(Nodes())
      ensures found <==> Has(old(Contents()), key)
      ensures moved <==> found && isLRU && old(Contents())[0].0 != key
      ensures Contents() == if found && isLRU then Touch(old(Contents()), capacity, key, Lookup(old(Contents()), key))
                            else old(Contents())
    {
      ContentsFacts();
      found, moved := key in indexes, false;
      if found {
        ghost var at := Locate(key);
        assert Contents()[0].0 == key <==> at == 0;
        if isLRU {
          moved := Promote(indexes[key], at);
        }
      }
    }

    /** Just update the value, not the order. */
    method Update(key: K, value: V) returns (found: bool)
      requires Valid()
      modifies Nodes()`value
      ensures Valid()
      ensures found <==> Has(old(Contents()), key)
      ensures found ==> indexes[key].value == value
      ensures Contents() == Revalued(old(Contents()), map[key := value])
    {
      ContentsFacts();
      ghost var c := Contents();
      if key in indexes {
        indexes[key].value := value;
        forall i | 0 <= i < |order| ensures order[i].key == key <==> order[i] == indexes[key] {
          assert order[i] in order;
        }
        return true;
      }
      return false;
    }

    method Erase(key: K) returns (found: bool)
      requires Valid()
      modifies `size, `order, `indexes, head`next, head`prev, Nodes()`next, Nodes()`prev
      ensures Valid() && Nodes() <= old(Nodes())
      ensures found <==> Has(old(Contents()), key)
      ensures Contents() == Without(old(Contents()), key)
    {
      ghost var before := order;
      ContentsFacts();
      found := key in indexes;
      if found {
        ghost var at := Locate(key);
        WithoutAt(Contents(), at);
        PairsCut(order, at);
        Unlink(indexes[key], at);
        SameValues(before);
        PairsCut(before, at);
      } else {
        WithoutAbsent(Contents(), key);
      }
    }

    /** Put a new node at the head and index it. */
    method Push(key: K, value: V)
      requires Consistent() && key !in indexes
      modifies `size, `order, `indexes, head`next, head`prev, Nodes()`next, Nodes()`prev
      ensures Consistent() && size == old(size) + 1 && Contents() == [(key, value)] + old(Contents())
      ensures fresh(Nodes() - old(Nodes()))
    {
      var node := new Node(key, value);
      PushNode(node);
      assert order[1..] == old(order);
      SameValues(order[1..]);
      PairsCons(order);
    }

    method PushNode(node: Node<K, V>)
      requires Consistent() && node.key !in indexes && node !in order && node != head
      modifies `size, `order, `indexes, head`next, head`prev, Nodes()`next, Nodes()`prev, node`next, node`prev
      ensures Consistent() && order == [node] + old(order)
    {
      ghost var before := order;
      assert forall n <- before :: n.key != node.key && n.key in indexes && indexes[n.key] == n;
      assert forall k <- indexes :: indexes[k] in before && indexes[k].key == k;
      Insert(node);
      AddToIndex(node, before);
    }

    method AddToIndex(node: Node<K, V>, ghost before: seq<Node<K, V>>)
      requires Circular() && order == [node] + before
      requires forall n <- before :: n.key != node.key && n.key in indexes && indexes[n.key] == n
      requires forall k <- indexes :: indexes[k] in before && indexes[k].key == k
      modifies `indexes
      ensures Consistent()
    {
      indexes := indexes[node.key := node];
    }

    method MakeRoom()
      requires Valid() && capacity > 0
      modifies `size, `order, `indexes, head`next, head`prev, Nodes()`next, Nodes()`prev
      ensures Valid() && size < capacity && Nodes() <= old(Nodes()) && indexes.Keys <= old(indexes.Keys)
      ensures Contents() == Take(old(Contents()), capacity - 1)
    {
      ghost var c := Contents();
      while capacity <= size
        invariant Valid() && Nodes() <= old(Nodes()) && indexes.Keys <= old(indexes.Keys)
        invariant Contents() <= c && |Contents()| == size && (size < |c| ==> capacity <= size + 1)
      {
        DropLast();
      }
      PrefixIsTake(Contents(), c, capacity - 1);
    }

    method DropLast()
      requires Valid() && size > 0
      modifies `size, `order, `indexes, head`next, head`prev, Nodes()`next, Nodes()`prev
      ensures Valid() && size == old(size) - 1 && Nodes() <= old(Nodes()) && indexes.Keys <= old(indexes.Keys)
      ensures |Contents()| == size && Contents() == old(Contents()[..|Contents()| - 1])
    {
      PopBack();
      forall k <- indexes ensures k in old(indexes) {
        assert indexes[k] in Nodes();
      }
    }

    method Set(key: K, value: V) returns (ok: bool)
      requires Valid()
      modifies `size, `order, `indexes, head`next, head`prev, Nodes()
      ensures Valid() && fresh(Nodes() - old(Nodes())) && (ok <==> capacity > 0)
      ensures Contents() == Touch(old(Contents()), capacity, key, value)
    {
      if capacity == 0 {
        return false;
      }
      if key in indexes {
        Renew(key, value);
      } else {
        Enter(key, value);
      }
      return true;
    }

    method Enter(key: K, value: V)
      requires Valid() && capacity > 0 && key !in indexes
      modifies `size, `order, `indexes, head`next, head`prev, Nodes()`next, Nodes()`prev
      ensures Valid() && fresh(Nodes() - old(Nodes()))
      ensures Contents() == Touch(old(Contents()), capacity, key, value)
    {
      assert !Has(Contents(), key) by { ContentsFacts(); }
      NewIsTouch(Contents(), capacity, key, value);
      MakeRoom();
      Push(key, value);
    }

    method Renew(key: K, value: V)
      requires Valid() && key in indexes
      modifies `size, `order, head`next, head`prev, Nodes()
      ensures Valid() && Nodes() == old(Nodes())
      ensures Contents() == Touch(old(Contents()), capacity, key, value)
    {
      RevaluedTouch(Contents(), capacity, key, value);
      var found := Update(key, value);
      ghost var at := Locate(key);
      Front(indexes[key], at);
    }

    method Front(node: Node<K, V>, ghost at: nat)
      requires Valid() && at < |order| && order[at] == node
      modifies `size, `order, head`next, head`prev, Nodes()`next, Nodes()`prev
      ensures Valid() && Nodes() == old(Nodes())
      ensures Contents() == Touch(old(Contents()), capacity, node.key, node.value)
    {
      ghost var before := order;
      ContentsFacts();
      MoveToFront(node, at);
      SameValues(before);
      FrontIsTouch(before, at);
    }

    /**
     Update from a map: the index and the map are walked side by side in key order.  `lt` is the order of
     the keys.
     */
    method UpdateAll(values: map<K, V>, lt: (K, K) -> bool) returns (updated: bool)
      requires Valid() && StrictOrder(lt)
      modifies Nodes()`value
      ensures Valid()
      ensures updated <==> exists k <- values :: Has(old(Contents()), k)
      ensures Contents() == Revalued(old(Contents()), values)
    {
      ContentsFacts();
      assert indexes.Keys * values.Keys != {} <==> exists k <- values :: Has(Contents(), k) by {
        if k :| k in values && Has(Contents(), k) { assert k in indexes.Keys * values.Keys; }
      }
      var idx := InOrder(indexes.Keys, lt);
      var val := InOrder(values.Keys, lt);
      updated := Merge(idx, val, values, lt);
    }

    method Merge(idx: seq<K>, val: seq<K>, values: map<K, V>, lt: (K, K) -> bool) returns (updated: bool)
      requires Valid() && StrictOrder(lt) && Ascending(idx, lt) && Ascending(val, lt)
      requires (set k <- idx) == indexes.Keys && (set k <- val) == values.Keys
      modifies Nodes()`value
      ensures Valid()
      ensures updated <==> indexes.Keys * values.Keys != {}
      ensures Contents() == Revalued(old(Contents()), values)
    {
      ghost var c := Contents();
      ContentsFacts();
      var i, j := 0, 0;
      updated := false;
      ghost var done: set<K> := {};
      while i < |idx| && j < |val|
        invariant Valid() && 0 <= i <= |idx| && 0 <= j <= |val|
        invariant Matched(idx, val, i, j, done) && (updated <==> done != {})
        invariant Contents() == Revalued(c, Only(values, done))
      {
        MergeStep(idx, val, i, j, done, lt);
        if lt(idx[i], val[j]) {
          i := i + 1;
        } else if lt(val[j], idx[i]) {
          j := j + 1;
        } else {
          updated := AssignMatch(idx[i], values, c, done);
          done := done + {idx[i]};
          i, j := i + 1, j + 1;
        }
      }
      MergeEnd(idx, val, i, j, done);
      OnlyCommon(c, values, indexes.Keys);
    }

    /** A key that is in both lists. */
    method AssignMatch(key: K, values: map<K, V>, ghost c: seq<(K, V)>, ghost done: set<K>) returns (updated: bool)
      requires Valid() && key in indexes && key in values && Contents() == Revalued(c, Only(values, done))
      modifies Nodes()`value
      ensures Valid() && updated && Contents() == Revalued(c, Only(values, done + {key}))
    {
      RevaluedMore(c, values, done, key);
      updated := Assign(key, values[key]);
    }

    method Assign(key: K, value: V) returns (updated: bool)
      requires Valid() && key in indexes
      modifies Nodes()`value
      ensures Valid() && updated
      ensures Contents() == Revalued(old(Contents()), map[key := value])
    {
      ContentsFacts();
      updated := Update(key, value);
    }

    method Clear()
      requires Consistent()
      modifies `size, `order, `indexes, head`next, head`prev, Nodes()`next, Nodes()`prev
      ensures Consistent() && order == [] && indexes == map[] && Nodes() <= old(Nodes())
    {
      while size > 0
        invariant Consistent() && Nodes() <= old(Nodes())
      {
        PopBack();
      }
    }

    /** The keys must be distinct; a missing value is the default. */
    method Initialize(keys: seq<K>, values: seq<V>, dflt: V) returns (ok: bool)
      requires Valid() && Distinct(keys)
      modifies `capacity, `size, `order, `indexes, head`next, head`prev, Nodes()`next, Nodes()`prev
      ensures Valid() && ok && fresh(Nodes() - old(Nodes()))
      ensures capacity == if old(capacity) < |keys| then |keys| else old(capacity)
      ensures Contents() == Reverse(Zip(keys, values, dflt))
    {
      Clear();
      if capacity < |keys| {
        capacity := |keys|;
      }
      ghost var z := Zip(keys, values, dflt);
      for i := 0 to |keys|
        invariant Consistent() && size == i && fresh(Nodes() - old(Nodes()))
        invariant Contents() == Reverse(z[..i])
        invariant capacity == if old(capacity) < |keys| then |keys| else old(capacity)
      {
        NextIsNew(keys, z, i);
        ContentsFacts();
        Push(keys[i], if i < |values| then values[i] else dflt);
      }
      assert z[..|keys|] == z;
      return true;
    }

    /** The keys and values, least recently used first. */
    method DumpMemento() returns (keys: seq<K>, values: seq<V>)
      requires Valid()
      ensures keys == Keys(Reverse(Contents())) && |values| == |keys|
      ensures forall i | 0 <= i < |values| :: values[i] == Reverse(Contents())[i].1
    {
      ghost var ring := [head] + order + [head];
      keys, values := [], [];
      var current := head.prev;
      assert ring[|order|].next == ring[|order| + 1];
      var i := 0;
      while current != head && i < size
        invariant 0 <= i <= size && |keys| == |values| == i
        invariant current == ring[|order| - i]
        invariant forall j | 0 <= j < i :: keys[j] == order[|order| - 1 - j].key
        invariant forall j | 0 <= j < i :: values[j] == order[|order| - 1 - j].value
        decreases size - i
      {
        assert current == order[|order| - 1 - i] && ring[|order| - i - 1].next == ring[|order| - i];
        keys := keys + [current.key];
        values := values + [current.value];
        current := current.prev;
        i := i + 1;
      }
      assert forall n <- order :: n != head;
    }

    /** A memento taken and put back at once changes nothing. */
    method Reload(dflt: V)
      requires Valid()
      modifies `capacity, `size, `order, `indexes, head`next, head`prev, Nodes()`next, Nodes()`prev
      ensures Valid() && capacity == old(capacity) && Contents() == old(Contents())
    {
      ContentsFacts();
      var keys, values := DumpMemento();
      MementoRoundTrip(Contents(), keys, values, dflt);
      var ok := Initialize(keys, values, dflt);
    }

    method ResetCapacity(capacity: nat) returns (ok: bool)
      requires Valid()
      modifies `capacity, `size, `order, `indexes, head`next, head`prev, Nodes()`next, Nodes()`prev
      ensures Valid() && Nodes() <= old(Nodes()) && ok && this.capacity == capacity
      ensures Contents() == Take(old(Contents()), capacity)
    {
      ghost var c := Contents();
      this.capacity := capacity;
      while capacity < size
        invariant Consistent() && Nodes() <= old(Nodes()) && this.capacity == capacity
        invariant Contents() <= c && (size < |c| ==> capacity <= size)
      {
        PopBack();
      }
      ok := this.capacity == capacity;
    }
  }

  twostate lemma SameValues<K, V>(nodes: seq<Node<K, V>>)
    requires forall n <- nodes :: n.value == old(n.value)
    ensures Pairs(nodes) == old(Pairs(nodes))
  {
  }

  ghost predicate StrictOrder<K(!new)>(lt: (K, K) -> bool) {
    && (forall x, y, z :: lt(x, y) && lt(y, z) ==> lt(x, z))
    && (forall x, y :: lt(x, y) ==> !lt(y, x))
    && (forall x, y :: x != y ==> lt(x, y) || lt(y, x))
  }

  predicate Ascending<K>(s: seq<K>, lt: (K, K) -> bool) {
    forall i, j | 0 <= i < j < |s| :: lt(s[i], s[j])
  }

  /** The keys common to both lists so far, and no match across the two positions. */
  ghost predicate Matched<K(!new)>(idx: seq<K>, val: seq<K>, i: nat, j: nat, done: set<K>)
    requires i <= |idx| && j <= |val|
  {
    && (forall a, b | 0 <= a < i && j <= b < |val| :: idx[a] != val[b])
    && (forall a, b | i <= a < |idx| && 0 <= b < j :: idx[a] != val[b])
    && (forall k :: k in done <==> k in idx[..i] && k in val[..j])
  }

  lemma MergeStep<K(!new)>(idx: seq<K>, val: seq<K>, i: nat, j: nat, done: set<K>, lt: (K, K) -> bool)
    requires StrictOrder(lt) && Ascending(idx, lt) && Ascending(val, lt)
    requires i < |idx| && j < |val| && Matched(idx, val, i, j, done)
    ensures lt(idx[i], val[j]) ==> Matched(idx, val, i + 1, j, done)
    ensures lt(val[j], idx[i]) ==> Matched(idx, val, i, j + 1, done)
    ensures !lt(idx[i], val[j]) && !lt(val[j], idx[i]) ==>
              idx[i] == val[j] && idx[i] !in done && Matched(idx, val, i + 1, j + 1, done + {idx[i]})
  {
    assert idx[..i + 1] == idx[..i] + [idx[i]] && val[..j + 1] == val[..j] + [val[j]];
    if lt(idx[i], val[j]) {
      forall b | j <= b < |val| ensures idx[i] != val[b] { assert b == j || lt(val[j], val[b]); }
    } else if lt(val[j], idx[i]) {
      forall a | i <= a < |idx| ensures idx[a] != val[j] { assert a == i || lt(idx[i], idx[a]); }
    } else {
      forall b | j < b < |val| ensures idx[i] != val[b] { assert lt(val[j], val[b]); }
      forall a | i < a < |idx| ensures idx[a] != val[j] { assert lt(idx[i], idx[a]); }
    }
  }

  lemma MergeEnd<K(!new)>(idx: seq<K>, val: seq<K>, i: nat, j: nat, done: set<K>)
    requires i <= |idx| && j <= |val| && Matched(idx, val, i, j, done) && (i == |idx| || j == |val|)
    ensures done == (set k <- idx) * (set k <- val)
  {
    forall k | k in idx && k in val ensures k in done {
      var a :| 0 <= a < |idx| && idx[a] == k;
      var b :| 0 <= b < |val| && val[b] == k;
      assert a < i && b < j;
    }
  }

  function Only<K, V>(m: map<K, V>, keys: set<K>): map<K, V> {
    map k <- m | k in keys :: m[k]
  }

  lemma NewIsTouch<K, V>(c: seq<(K, V)>, capacity: nat, k: K, v: V)
    requires !Has(c, k) && capacity > 0
    ensures Touch(c, capacity, k, v) == [(k, v)] + Take(c, capacity - 1)
  {
    WithoutAbsent(c, k);
  }

  lemma PrefixIsTake<T>(a: seq<T>, c: seq<T>, n: nat)
    requires a <= c && |a| <= n && (|a| < |c| ==> |a| == n)
    ensures a == Take(c, n)
  {
  }

  lemma RevaluedMore<K, V>(c: seq<(K, V)>, values: map<K, V>, done: set<K>, k: K)
    requires k in values
    ensures Revalued(Revalued(c, Only(values, done)), map[k := values[k]]) == Revalued(c, Only(values, done + {k}))
  {
  }

  lemma OnlyCommon<K, V>(c: seq<(K, V)>, values: map<K, V>, keys: set<K>)
    requires forall i | 0 <= i < |c| :: c[i].0 in keys
    ensures Revalued(c, Only(values, keys * values.Keys)) == Revalued(c, values)
  {
  }

  function Zip<K, V>(keys: seq<K>, values: seq<V>, dflt: V): (r: seq<(K, V)>)
    ensures |r| == |keys|
  {
    seq(|keys|, i requires 0 <= i < |keys| => (keys[i], if i < |values| then values[i] else dflt))
  }

  lemma NextIsNew<K, V>(keys: seq<K>, z: seq<(K, V)>, i: nat)
    requires Distinct(keys) && i < |keys| == |z| && forall j | 0 <= j < |z| :: z[j].0 == keys[j]
    ensures !Has(Reverse(z[..i]), keys[i]) && Reverse(z[..i + 1]) == [z[i]] + Reverse(z[..i])
  {
    assert z[..i + 1] == z[..i] + [z[i]];
    forall j | 0 <= j < i ensures Reverse(z[..i])[j].0 != keys[i] {
      assert Reverse(z[..i])[j] == z[i - 1 - j];
    }
  }

  /** Initialising a bucket from a memento restores the elements and their order. */
  lemma MementoRoundTrip<K, V>(c: seq<(K, V)>, keys: seq<K>, values: seq<V>, dflt: V)
    requires DistinctKeys(c)
    requires keys == Keys(Reverse(c)) && |values| == |keys|
    requires forall i | 0 <= i < |values| :: values[i] == Reverse(c)[i].1
    ensures Distinct(keys) && Reverse(Zip(keys, values, dflt)) == c
  {
    forall i, j | 0 <= i < j < |keys| ensures keys[i] != keys[j] {
      assert keys[i] == c[|c| - 1 - i].0 && keys[j] == c[|c| - 1 - j].0;
    }
  }

  lemma PairsCut<K, V>(nodes: seq<Node<K, V>>, i: nat)
    requires i < |nodes|
    ensures Pairs(nodes[..i] + nodes[i + 1..]) == Pairs(nodes)[..i] + Pairs(nodes)[i + 1..]
  {
  }

  lemma PairsFront<K, V>(nodes: seq<Node<K, V>>, i: nat)
    requires i < |nodes|
    ensures Pairs([nodes[i]] + nodes[..i] + nodes[i + 1..]) == [Pairs(nodes)[i]] + Pairs(nodes)[..i] + Pairs(nodes)[i + 1..]
  {
  }

  /** The same elements in the same order, with the values of `values` for the keys it has. */
  function Revalued<K(==), V>(s: seq<(K, V)>, values: map<K, V>): (r: seq<(K, V)>)
    ensures |r| == |s|
  {
    seq(|s|, i requires 0 <= i < |s| => if s[i].0 in values then (s[i].0, values[s[i].0]) else s[i])
  }

  lemma {:induction false} RevaluedTouch<K, V>(s: seq<(K, V)>, capacity: nat, k: K, v: V)
    ensures Touch(Revalued(s, map[k := v]), capacity, k, v) == Touch(s, capacity, k, v)
  {
    RevaluedWithout(s, k, v);
  }

  lemma {:induction false} RevaluedWithout<K, V>(s: seq<(K, V)>, k: K, v: V)
    ensures Without(Revalued(s, map[k := v]), k) == Without(s, k)
  {
    if s != [] {
      RevaluedWithout(s[1..], k, v);
      assert Revalued(s, map[k := v])[1..] == Revalued(s[1..], map[k := v]);
    }
  }

  lemma {:induction false} LookupAt<K, V>(s: seq<(K, V)>, i: nat)
    requires DistinctKeys(s) && i < |s|
    ensures Has(s, s[i].0) && Lookup(s, s[i].0) == s[i].1
  {
    if i > 0 {
      assert s[0].0 != s[i].0;
      LookupAt(s[1..], i - 1);
      assert s[1..][i - 1] == s[i];
    }
  }

  lemma FrontAt<K, V>(s: seq<(K, V)>, i: nat, capacity: nat)
    requires DistinctKeys(s) && i < |s| <= capacity
    ensures Touch(s, capacity, s[i].0, s[i].1) == [s[i]] + s[..i] + s[i + 1..]
    ensures i == 0 ==> Touch(s, capacity, s[i].0, s[i].1) == s
  {
    WithoutAt(s, i);
    assert [s[i]] + (s[..i] + s[i + 1..]) == [s[i]] + s[..i] + s[i + 1..];
  }

  /** The keys of a std::map, in the order in which it iterates. */
  method InOrder<K(==, !new)>(keys: set<K>, lt: (K, K) -> bool) returns (s: seq<K>)
    requires StrictOrder(lt)
    ensures Ascending(s, lt) && (set k <- s) == keys
  {
    s := [];
    var todo := keys;
    while todo != {}
      invariant todo <= keys && forall k :: k in s <==> k in keys && k !in todo
      invariant Ascending(s, lt)
      invariant forall x <- s, y <- todo :: lt(x, y)
      decreases |todo|
    {
      var least := Least(todo, lt);
      s := s + [least];
      todo := todo - {least};
    }
  }

  method Least<K(==, !new)>(keys: set<K>, lt: (K, K) -> bool) returns (least: K)
    requires StrictOrder(lt) && keys != {}
    ensures least in keys && forall k <- keys :: k != least ==> lt(least, k)
  {
    least :| least in keys;
    var todo := keys - {least};
    while todo != {}
      invariant least in keys && todo <= keys
      invariant forall k <- keys - todo :: k != least ==> lt(least, k)
      decreases |todo|
    {
      var k :| k in todo;
      if lt(k, least) {
        least := k;
      }
      todo := todo - {k};
    }
  }
}
