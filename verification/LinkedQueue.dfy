/** The doubly linked list behind `queue_t` refines the sequence of the data its nodes hold. */
module LinkedQueue {
  import opened Common
  import opened Queue

  /** Without the element at a place. */
  function Without<T>(q: seq<T>, i: nat): seq<T>
    requires i < |q|
  {
    q[..i] + q[i + 1..]
  }

  lemma WithoutAt<T>(q: seq<T>, i: nat)
    requires i < |q|
    ensures |Without(q, i)| == |q| - 1
    ensures forall k :: 0 <= k < |q| - 1 ==> Without(q, i)[k] == q[if k < i then k else k + 1]
    ensures NoDup(q) ==> NoDup(Without(q, i)) && q[i] !in Without(q, i)
  {
  }

  /** `Remove` takes out the first occurrence. */
  lemma {:induction false} RemoveFirst<T>(q: seq<T>, x: T, i: nat)
    requires i < |q| && q[i] == x && x !in q[..i]
    ensures Remove(q, x) == Without(q, i)
  {
    if i == 0 {
    } else {
      assert q[0] in q[..i] && q[1..][..i - 1] == q[1..i] && forall y :: y in q[1..i] ==> y in q[..i];
      RemoveFirst(q[1..], x, i - 1);
      assert q[1..][i..] == q[i + 1..];
    }
  }

  class Node<T> {
    var data: T
    var prev: Node?<T>
    var next: Node?<T>

    constructor (data: T)
      ensures this.data == data && prev == null && next == null
    {
      this.data, prev, next := data, null, null;
    }
  }

  /** The node at a place of a list, null before its start and behind its end. */
  ghost function NodeAt<T>(nodes: seq<Node<T>>, i: int): Node?<T> {
    if 0 <= i < |nodes| then nodes[i] else null
  }

  ghost predicate Linked<T>(nodes: seq<Node<T>>)
    reads nodes
  {
    NoDup(nodes) && forall i :: 0 <= i < |nodes| ==> LinkAt(nodes, i)
  }

  ghost predicate LinkAt<T>(nodes: seq<Node<T>>, i: nat)
    requires i < |nodes|
    reads nodes
  {
    nodes[i].prev == NodeAt(nodes, i - 1) && nodes[i].next == NodeAt(nodes, i + 1)
  }

  class Chain<T(==)> {
    var head: Node?<T>
    var tail: Node?<T>
    var count: int
    ghost var nodes: seq<Node<T>>

    ghost predicate Valid()
      reads this, nodes
    {
      && Linked(nodes) && count == |nodes|
      && head == NodeAt(nodes, 0) && tail == NodeAt(nodes, |nodes| - 1)
    }

    ghost function Contents(): (c: seq<T>)
      reads this, nodes
      ensures |c| == |nodes|
    {
      seq(|nodes|, i requires 0 <= i < |nodes| reads this, nodes => nodes[i].data)
    }

    constructor ()
      ensures Valid() && nodes == []
    {
      head, tail, count, nodes := null, null, 0, [];
    }

    method Enqueue(data: T) returns (node: Node<T>)
      requires Valid()
      modifies this, nodes
      ensures Valid() && nodes == old(nodes) + [node] && fresh(node)
      ensures Contents() == old(Contents()) + [data]
    {
      node := new Node(data);
      ghost var last := |nodes| - 1;
      assert last >= 0 ==> LinkAt(nodes, last);
      if head == null {
        head := node;
      }
      if tail != null {
        tail.next := node;
        node.prev := tail;
      }
      count := count + 1;
      tail := node;
      nodes := nodes + [node];
      forall i | 0 <= i < |nodes| ensures LinkAt(nodes, i) {
        assert i <= last ==> old(LinkAt(nodes, i));
      }
    }

    method Dequeue() returns (data: Option<T>)
      requires Valid()
      modifies this, nodes
      ensures Valid()
      ensures old(nodes) == [] ==> data == None && nodes == []
      ensures old(nodes) != [] ==>
                nodes == old(nodes)[1..] && data == Some(old(Contents())[0]) && Contents() == old(Contents())[1..]
    {
      var node := head;
      if node == null {
        return None;
      }
      assert LinkAt(nodes, 0);
      if head == tail {
        head, tail := null, null;
      }
      head := node.next;
      if head != null {
        head.prev := null;
      }
      data := Some(node.data);
      count := count - 1;
      nodes := nodes[1..];
      forall i | 0 <= i < |nodes| ensures LinkAt(nodes, i) {
        assert old(LinkAt(nodes, i + 1));
      }
    }

    /** The first node that holds the data. */
    method Find(data: T) returns (node: Node?<T>, ghost i: nat)
      requires Valid()
      ensures node == null ==> data !in Contents()
      ensures node != null ==> i < |nodes| && nodes[i] == node && Contents()[i] == data && data !in Contents()[..i]
    {
      node, i := head, 0;
      while node != null
        invariant i <= |nodes| && node == NodeAt(nodes, i) && data !in Contents()[..i]
        decreases |nodes| - i
      {
        if node.data == data {
          return;
        }
        assert LinkAt(nodes, i) && Contents()[..i + 1] == Contents()[..i] + [node.data];
        node, i := node.next, i + 1;
      }
      assert Contents()[..i] == Contents();
    }

    method ContainsNode(node: Node<T>) returns (found: bool, ghost i: nat)
      requires Valid()
      ensures found <==> node in nodes
      ensures found ==> i < |nodes| && nodes[i] == node
    {
      var n := head;
      i := 0;
      while n != null
        invariant i <= |nodes| && n == NodeAt(nodes, i) && node !in nodes[..i]
        decreases |nodes| - i
      {
        if n == node {
          return true, i;
        }
        assert LinkAt(nodes, i) && nodes[..i + 1] == nodes[..i] + [n];
        n, i := n.next, i + 1;
      }
      assert nodes[..i] == nodes;
      found := false;
    }

    /** Takes a node out wherever it is. */
    method RemoveNode(node: Node<T>) returns (err: int, ghost i: nat)
      requires Valid()
      modifies this, nodes
      ensures Valid() && err == if node in old(nodes) then 0 else -ENOENT
      ensures err != 0 ==> nodes == old(nodes) && Contents() == old(Contents())
      ensures err == 0 ==>
                && i < |old(nodes)| && old(nodes)[i] == node
                && nodes == Without(old(nodes), i) && Contents() == Without(old(Contents()), i)
    {
      var found;
      found, i := ContainsNode(node);
      if !found {
        return -ENOENT, i;
      }
      Unlink(node, i);
      err := 0;
    }

    /** The neighbours of a node point past it. */
    static method Bypass(node: Node<T>, ghost nodes: seq<Node<T>>, ghost i: nat)
      requires Linked(nodes) && i < |nodes| && nodes[i] == node
      modifies nodes`prev, nodes`next
      ensures Linked(Without(nodes, i))
    {
      assert LinkAt(nodes, i);
      assert i > 0 ==> LinkAt(nodes, i - 1);
      assert i + 1 < |nodes| ==> LinkAt(nodes, i + 1);
      WithoutAt(nodes, i);
      if node.prev != null {
        node.prev.next := node.next;
      }
      if node.next != null {
        node.next.prev := node.prev;
      }
      node.next, node.prev := null, null;
      ghost var rest := Without(nodes, i);
      forall k | 0 <= k < |rest| ensures LinkAt(rest, k) {
        assert old(LinkAt(nodes, if k < i then k else k + 1));
      }
    }

    method Unlink(node: Node<T>, ghost i: nat)
      requires Valid() && i < |nodes| && nodes[i] == node
      modifies this, nodes`prev, nodes`next
      ensures Valid() && nodes == Without(old(nodes), i) && Contents() == Without(old(Contents()), i)
    {
      assert LinkAt(nodes, i);
      WithoutAt(nodes, i);
      WithoutAt(Contents(), i);
      if node.prev == null {
        head := node.next;
      }
      if node.next == null {
        tail := node.prev;
      }
      Bypass(node, nodes, i);
      count := count - 1;
      nodes := Without(nodes, i);
    }

    method RemoveData(data: T) returns (err: int)
      requires Valid()
      modifies this, nodes
      ensures Valid() && Contents() == Remove(old(Contents()), data)
      ensures err == if data in old(Contents()) then 0 else -ENOENT
    {
      var node, i := Find(data);
      if node == null {
        return -ENOENT;
      }
      RemoveFirst(Contents(), data, i);
      ghost var k;
      err, k := RemoveNode(node);
    }
  }
}
