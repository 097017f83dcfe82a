/**
 * A singly-linked list with an owning chain from `head`, a non-owning
 * reference to the last node (`tail`) and a cached length `len`.
 *
 * Ownership by reference counting is abstracted away: `tail` is a plain
 * reference to the last node of the chain, and it is `null` exactly when
 * the list is empty, so resolving it never fails.
 */
module LinkedLists {
  import opened Wrappers

  /** One element of the chain: a value and the link to the following node. */
  class Node<T> {
    var value: T
    var next: Node?<T>

    constructor (value: T)
      ensures this.value == value && next == null
    {
      this.value := value;
      next := null;
    }
  }

  /**
   * `nodes` is a simple path: every node links to the one after it, the last
   * one links nowhere, and no node occurs twice.
   */
  ghost predicate IsChain<T>(nodes: seq<Node<T>>)
    reads nodes
  {
    && (forall i :: 0 <= i < |nodes| - 1 ==> nodes[i].next == nodes[i + 1])
    && (|nodes| > 0 ==> nodes[|nodes| - 1].next == null)
    && (forall i, j :: 0 <= i < j < |nodes| ==> nodes[i] != nodes[j])
  }

  class LinkedList<T(==)> {
    var head: Node?<T>
    var tail: Node?<T>
    var len: nat

    // public view: the values in forward order, and the nodes that hold them
    ghost var Contents: seq<T>
    ghost var Nodes: seq<Node<T>>

    /** The list invariant kept by every public operation. */
    ghost predicate Valid()
      reads this, Nodes
    {
      && IsChain(Nodes)
      && len == |Nodes| == |Contents|
      && (forall i :: 0 <= i < |Nodes| ==> Nodes[i].value == Contents[i])
      && (if len == 0 then head == null && tail == null
          else head == Nodes[0] && tail == Nodes[len - 1])
    }

    constructor ()
      ensures Valid() && Contents == [] && Nodes == []
    {
      head, tail, len := null, null, 0;
      Contents, Nodes := [], [];
    }

    /** A copy of the first value, if any. */
    function Head(): (r: Option<T>)
      reads this, Nodes
      requires Valid()
      ensures r == if Contents == [] then None else Some(Contents[0])
    {
      if head == null then None else Some(head.value)
    }

    /** A copy of the last value, if any, found through the tail reference. */
    function Tail(): (r: Option<T>)
      reads this, Nodes
      requires Valid()
      ensures r == if Contents == [] then None else Some(Contents[|Contents| - 1])
    {
      if tail == null then None else Some(tail.value)
    }

    function Len(): (r: nat)
      reads this, Nodes
      requires Valid()
      ensures r == |Contents|
    {
      len
    }

    function IsEmpty(): (r: bool)
      reads this, Nodes
      requires Valid()
      ensures r <==> Contents == []
    {
      len == 0
    }

    method PushHead(value: T)
      requires Valid()
      modifies this
      ensures Valid()
      ensures Contents == [value] + old(Contents)
      ensures Head() == Some(value) && len == old(len) + 1
      ensures old(len) > 0 ==> tail == old(tail)
      ensures fresh(Nodes[0]) && Nodes[1..] == old(Nodes)
    {
      var newHead := new Node(value);
      if head != null {
        newHead.next := head;
        head := newHead;
      } else {
        head := newHead;
        tail := newHead;
      }
      len := len + 1;
      Nodes := [newHead] + Nodes;
      Contents := [value] + Contents;
    }

    method PushBack(value: T)
      requires Valid()
      modifies this, Nodes
      ensures Valid()
      ensures Contents == old(Contents) + [value]
      ensures Tail() == Some(value) && len == old(len) + 1
      ensures Nodes[..old(len)] == old(Nodes) && fresh(Nodes[old(len)])
      ensures old(len) > 0 ==> head == old(head)
    {
      var newTail := new Node(value);
      var t := tail;
      tail := null;
      if t != null {
        // Under Valid() the tail always resolves: the source's fallback that
        // overwrites `head` when it does not is unreachable.
        t.next := newTail;
      } else {
        head := newTail;
      }
      tail := newTail;
      len := len + 1;
      Nodes := Nodes + [newTail];
      Contents := Contents + [value];
    }

    method PopHead() returns (r: Option<T>)
      requires Valid()
      modifies this, Nodes
      ensures Valid()
      ensures old(len) == 0 ==> r == None && Contents == old(Contents) && Nodes == old(Nodes)
      ensures old(len) > 0 ==>
        && r == Some(old(Contents)[0])
        && Contents == old(Contents)[1..]
        && Nodes == old(Nodes)[1..]
        && len == old(len) - 1
      ensures old(len) > 1 ==> tail == old(tail)
    {
      var oldHead := head;
      head := null;
      if oldHead == null {
        return None;
      }
      var next := oldHead.next;
      oldHead.next := null;
      if next != null {
        head := next;
      } else {
        tail := null;
      }
      len := len - 1;
      Nodes := Nodes[1..];
      Contents := Contents[1..];
      r := Some(oldHead.value);
    }

    method PopBack() returns (r: Option<T>)
      requires Valid()
      modifies this, Nodes
      ensures Valid()
      ensures old(len) == 0 ==> r == None && Contents == old(Contents) && Nodes == old(Nodes)
      ensures old(len) > 0 ==>
        && r == Some(old(Contents)[old(len) - 1])
        && Contents == old(Contents)[..old(len) - 1]
        && Nodes == old(Nodes)[..old(len) - 1]
        && len == old(len) - 1
      ensures old(len) > 1 ==> tail == old(Nodes)[old(len) - 2] && tail.next == null
    {
      if len == 0 {
        return None;
      }
      if len == 1 {
        var headNode := head;
        head := null;
        tail := null;
        len := len - 1;
        Nodes, Contents := [], [];
        return Some(headNode.value);
      }
      // walk to the last node, remembering the one before it
      var current := head;
      var prev: Node?<T> := null;
      ghost var k := 0;
      while current != null
        invariant Valid() && 0 <= k < len
        invariant current == Nodes[k]
        invariant current.next == if k < len - 1 then Nodes[k + 1] else null
        invariant prev == if k == 0 then null else Nodes[k - 1]
        decreases len - k
      {
        if current.next == null {
          break;
        }
        prev := current;
        current := current.next;
        k := k + 1;
      }
      if prev != null {
        prev.next := null;
        tail := prev;
      } else {
        // with two nodes or more the walk always moves past the head
        assert false;
      }
      len := len - 1;
      Nodes := Nodes[..len];
      Contents := Contents[..len];
      r := Some(current.value);
    }

    /** Drops the whole chain; the result does not depend on the prior state. */
    method Clear()
      modifies this
      ensures Valid() && Contents == [] && Nodes == []
      ensures head == null && tail == null && len == 0
    {
      head := null;
      tail := null;
      len := 0;
      Contents, Nodes := [], [];
    }

    /**
     * Overwrites the value at `index` through the node the mutable iterator
     * hands out; reports whether such a node existed.
     */
    method Replace(index: nat, value: T) returns (ok: bool)
      requires Valid()
      modifies this, Nodes
      ensures Valid()
      ensures Nodes == old(Nodes) && head == old(head) && tail == old(tail) && len == old(len)
      ensures ok <==> index < old(len)
      ensures Contents == if ok then old(Contents)[index := value] else old(Contents)
    {
      if index > len {
        return false;
      }
      var it := IterMut();
      var i: nat := 0;
      var target: Option<Node<T>> := None;
      while true
        modifies it
        invariant fresh(it) && it.Valid()
        invariant i <= len && it.Rest == Nodes[i..]
        invariant i <= index
        invariant target.None?
        decreases len - i
      {
        var n := it.Next();
        if n.None? {
          break;
        }
        if i == index {
          target := n;
          break;
        }
        i := i + 1;
      }
      if target.Some? {
        WriteThrough(target.value, index, value);
        return true;
      }
      return false;
    }

    /** Stores `value` in `node`, the node at position `index` of the chain. */
    method WriteThrough(node: Node<T>, ghost index: nat, value: T)
      requires Valid() && index < len && node == Nodes[index]
      modifies this, node
      ensures Valid()
      ensures Nodes == old(Nodes) && head == old(head) && tail == old(tail) && len == old(len)
      ensures Contents == old(Contents)[index := value]
    {
      node.value := value;
      Contents := Contents[index := value];
    }

    /** The position of the first value equal to `value`. */
    method IndexOf(value: T) returns (r: Option<nat>)
      requires Valid()
      ensures r.None? <==> value !in Contents
      ensures r.Some? ==> r.value < |Contents| && Contents[r.value] == value
      ensures r.Some? ==> forall j :: 0 <= j < r.value ==> Contents[j] != value
    {
      var it := Iter();
      var index: nat := 0;
      while true
        invariant fresh(it) && it.Valid()
        invariant index <= len && it.Rest == Nodes[index..]
        invariant forall j :: 0 <= j < index ==> Contents[j] != value
        decreases len - index
      {
        var t := it.Next();
        if t.None? {
          break;
        }
        if value == t.value {
          return Some(index);
        }
        index := index + 1;
      }
      return None;
    }

    method Contains(value: T) returns (r: bool)
      requires Valid()
      ensures r <==> value in Contents
    {
      var it := Iter();
      ghost var index: nat := 0;
      while true
        invariant fresh(it) && it.Valid()
        invariant index <= len && it.Rest == Nodes[index..]
        invariant forall j :: 0 <= j < index ==> Contents[j] != value
        decreases len - index
      {
        var t := it.Next();
        if t.None? {
          break;
        }
        if value == t.value {
          return true;
        }
        index := index + 1;
      }
      return false;
    }

    /** A read iterator positioned at the head of the chain. */
    method Iter() returns (it: LinkedListIterator<T>)
      requires Valid()
      ensures fresh(it) && it.Valid() && it.Rest == Nodes
    {
      it := new LinkedListIterator(head, Nodes);
    }

    /** A mutation-capable iterator positioned at the head of the chain. */
    method IterMut() returns (it: LinkedListIteratorMut<T>)
      requires Valid()
      ensures fresh(it) && it.Valid() && it.Rest == Nodes
    {
      it := new LinkedListIteratorMut(head, Nodes);
    }
  }

  /** `contains` holds exactly when `index_of` finds a position. */
  method ContainsMatchesIndexOf<T(==)>(list: LinkedList<T>, value: T) returns (found: bool, at: Option<nat>)
    requires list.Valid()
    ensures found <==> at.Some?
  {
    found := list.Contains(value);
    at := list.IndexOf(value);
  }

  /** Appending at the back and taking from the front is first-in, first-out. */
  method QueueOrder<T(==)>(a: T, b: T) returns (first: Option<T>, second: Option<T>, third: Option<T>)
    ensures first == Some(a) && second == Some(b) && third == None
  {
    var list := new LinkedList<T>();
    list.PushBack(a);
    list.PushBack(b);
    first := list.PopHead();
    second := list.PopHead();
    third := list.PopHead();
  }

  /** Appending at the back and taking from the back is last-in, first-out. */
  method StackOrder<T(==)>(a: T, b: T, c: T) returns (first: Option<T>, second: Option<T>, third: Option<T>, rest: Option<T>)
    ensures first == Some(c) && second == Some(b) && third == Some(a) && rest == None
  {
    var list := new LinkedList<T>();
    list.PushBack(a);
    list.PushBack(b);
    list.PushBack(c);
    first := list.PopBack();
    second := list.PopBack();
    third := list.PopBack();
    rest := list.PopBack();
  }

  /** A replaced value is found at its position; an index one past the end replaces nothing. */
  method ReplaceThenFind<T(==)>(a: T, b: T, c: T) returns (hit: bool, miss: bool, at: Option<nat>, found: bool)
    requires a != c
    ensures hit && !miss && at == Some(1) && found
  {
    var list := new LinkedList<T>();
    list.PushBack(a);
    list.PushBack(b);
    hit := list.Replace(1, c);
    miss := list.Replace(2, c);
    at := list.IndexOf(c);
    found := list.Contains(c);
  }

  /** Yields a copy of each value of the chain, in forward order. */
  class LinkedListIterator<T> {
    var current: Node?<T>
    ghost var Rest: seq<Node<T>>  // the nodes not yet visited

    ghost predicate Valid()
      reads this, Rest
    {
      IsChain(Rest) && current == if Rest == [] then null else Rest[0]
    }

    constructor (start: Node?<T>, ghost chain: seq<Node<T>>)
      requires IsChain(chain) && start == if chain == [] then null else chain[0]
      ensures Valid() && Rest == chain
    {
      current := start;
      Rest := chain;
    }

    method Next() returns (r: Option<T>)
      requires Valid()
      modifies this
      ensures Valid()
      ensures old(Rest) == [] ==> r == None && Rest == []
      ensures old(Rest) != [] ==> r == Some(old(Rest)[0].value) && Rest == old(Rest)[1..]
    {
      var node := current;
      current := null;
      if node == null {
        return None;
      }
      current := node.next;
      Rest := Rest[1..];
      r := Some(node.value);
    }
  }

  /**
   * Yields the nodes of the chain themselves, in forward order: writes made
   * through them are writes to the list.
   */
  class LinkedListIteratorMut<T> {
    var current: Node?<T>
    ghost var Rest: seq<Node<T>>  // the nodes not yet visited

    ghost predicate Valid()
      reads this, Rest
    {
      IsChain(Rest) && current == if Rest == [] then null else Rest[0]
    }

    constructor (start: Node?<T>, ghost chain: seq<Node<T>>)
      requires IsChain(chain) && start == if chain == [] then null else chain[0]
      ensures Valid() && Rest == chain
    {
      current := start;
      Rest := chain;
    }

    method Next() returns (r: Option<Node<T>>)
      requires Valid()
      modifies this
      ensures Valid()
      ensures old(Rest) == [] ==> r == None && Rest == []
      ensures old(Rest) != [] ==> r == Some(old(Rest)[0]) && Rest == old(Rest)[1..]
    {
      var node := current;
      current := null;
      if node == null {
        return None;
      }
      current := node.next;
      Rest := Rest[1..];
      r := Some(node);
    }
  }
}
