/** A doubly linked list whose nodes are also reachable through a hash index.
    The ghost sequence Nodes is the one list that the right chain, the left
    chain and the index all describe. */
module HashedLinkedList {

  class Node<Id, T> {
    const id: Id
    const item: T
    var left: Node?<Id, T>
    var right: Node?<Id, T>

    constructor (id: Id, item: T)
      ensures this.id == id && this.item == item && left == null && right == null
    {
      this.id, this.item := id, item;
      left, right := null, null;
    }
  }

  function Without<A>(s: seq<A>, k: nat): seq<A>
    requires k < |s|
  {
    s[..k] + s[k + 1..]
  }

  ghost predicate Linked<Id, T>(ns: seq<Node<Id, T>>)
    reads ns`left, ns`right
  {
    && (forall i {:trigger ns[i].left} :: 0 <= i < |ns| ==> ns[i].left == if i == 0 then null else ns[i - 1])
    && (forall i {:trigger ns[i].right} :: 0 <= i < |ns| ==> ns[i].right == if i == |ns| - 1 then null else ns[i + 1])
  }

  /** Every node but the one at place k is linked as if that one were not there. */
  ghost predicate LinkedAround<Id, T>(ns: seq<Node<Id, T>>, k: nat)
    requires k < |ns|
    reads ns`left, ns`right
  {
    var n := |ns|;
    && (forall i {:trigger ns[i].left} :: 0 <= i < n && i != k ==>
          ns[i].left == if i == 0 || (i == 1 && k == 0) then null else if i == k + 1 then ns[k - 1] else ns[i - 1])
    && (forall i {:trigger ns[i].right} :: 0 <= i < n && i != k ==>
          ns[i].right == if i == n - 1 || (i == n - 2 && k == n - 1) then null
                         else if i == k - 1 then ns[k + 1] else ns[i + 1])
  }

  lemma LinkedWithout<Id, T>(ns: seq<Node<Id, T>>, k: nat)
    requires k < |ns| && LinkedAround(ns, k)
    ensures Linked(Without(ns, k))
  {
  }

  /** m sends every id to its node, and position to that node's place in ns. */
  ghost predicate Indexed<Id, T>(ns: seq<Node<Id, T>>, m: map<Id, Node<Id, T>>, position: map<Id, nat>) {
    && m.Keys == position.Keys
    && (forall i :: 0 <= i < |ns| ==> ns[i].id in position && position[ns[i].id] == i)
    && (forall id {:trigger position[id]} {:trigger m[id]} :: id in m ==>
          position[id] < |ns| && ns[position[id]].id == id && m[id] == ns[position[id]])
  }

  /** position once the node at place k is gone. */
  ghost function Closed<Id>(position: map<Id, nat>, id: Id, k: nat): map<Id, nat> {
    map i | i in position && i != id :: if position[i] > k then position[i] - 1 else position[i]
  }

  lemma IndexedPush<Id, T>(ns: seq<Node<Id, T>>, m: map<Id, Node<Id, T>>, position: map<Id, nat>, node: Node<Id, T>)
    requires Indexed(ns, m, position) && node.id !in m
    ensures Indexed(ns + [node], m[node.id := node], position[node.id := |ns|])
    ensures m == map[] <==> ns == []
  {
    if ns != [] { assert ns[0].id in m; }
  }

  lemma IndexedOnce<Id, T>(ns: seq<Node<Id, T>>, m: map<Id, Node<Id, T>>, position: map<Id, nat>, node: Node<Id, T>)
    requires Indexed(ns, m, position) && node.id in m
    ensures !Indexed(ns + [node], m, position)
    ensures m != map[] && ns != []
  {
    var ns' := ns + [node];
    assert ns'[position[node.id]].id == node.id && ns'[|ns|].id == node.id;
  }

  lemma IndexedWithout<Id, T>(ns: seq<Node<Id, T>>, m: map<Id, Node<Id, T>>, position: map<Id, nat>, k: nat)
    requires Indexed(ns, m, position) && k < |ns|
    ensures Indexed(Without(ns, k), m - {ns[k].id}, Closed(position, ns[k].id, k))
  {
  }

  /** Nodes at different places are different nodes, with different ids. */
  lemma Apart<Id, T>(ns: seq<Node<Id, T>>, m: map<Id, Node<Id, T>>, position: map<Id, nat>, k: nat)
    requires Indexed(ns, m, position) && k < |ns|
    ensures forall i :: 0 <= i < |ns| && i != k ==> ns[i] != ns[k]
  {
  }

  /** Following right from n visits exactly ns, and stops. */
  ghost predicate RightChain<Id, T>(n: Node?<Id, T>, ns: seq<Node<Id, T>>)
    reads ns
    decreases |ns|
  {
    if ns == [] then n == null else n == ns[0] && RightChain(ns[0].right, ns[1..])
  }

  /** Following left from n visits exactly ns, last node first, and stops. */
  ghost predicate LeftChain<Id, T>(n: Node?<Id, T>, ns: seq<Node<Id, T>>)
    reads ns
    decreases |ns|
  {
    if ns == [] then n == null
    else n == ns[|ns| - 1] && LeftChain(ns[|ns| - 1].left, ns[..|ns| - 1])
  }

  lemma {:induction false} LinkedRight<Id, T>(ns: seq<Node<Id, T>>, k: nat)
    requires Linked(ns) && k <= |ns|
    ensures RightChain(if k == |ns| then null else ns[k], ns[k..])
    decreases |ns| - k
  {
    if k < |ns| {
      LinkedRight(ns, k + 1);
      assert ns[k..][1..] == ns[k + 1..];
    }
  }

  lemma {:induction false} LinkedLeft<Id, T>(ns: seq<Node<Id, T>>, k: nat)
    requires Linked(ns) && k <= |ns|
    ensures LeftChain(if k == 0 then null else ns[k - 1], ns[..k])
    decreases k
  {
    if k > 0 {
      LinkedLeft(ns, k - 1);
      assert ns[..k][..k - 1] == ns[..k - 1];
    }
  }

  /** A chain is one finite sequence only: the pointers determine it. */
  lemma {:induction false} ChainIsUnique<Id, T>(n: Node?<Id, T>, ns: seq<Node<Id, T>>, ns': seq<Node<Id, T>>)
    requires RightChain(n, ns) && RightChain(n, ns')
    ensures ns == ns'
    decreases |ns|
  {
    if ns != [] {
      ChainIsUnique(ns[0].right, ns[1..], ns'[1..]);
      assert ns == [ns[0]] + ns[1..] && ns' == [ns'[0]] + ns'[1..];
    }
  }

  lemma {:induction false} LeftChainIsUnique<Id, T>(n: Node?<Id, T>, ns: seq<Node<Id, T>>, ns': seq<Node<Id, T>>)
    requires LeftChain(n, ns) && LeftChain(n, ns')
    ensures ns == ns'
    decreases |ns|
  {
    if ns != [] {
      var k, k' := |ns| - 1, |ns'| - 1;
      LeftChainIsUnique(ns[k].left, ns[..k], ns'[..k']);
      assert ns == ns[..k] + [ns[k]] && ns' == ns'[..k'] + [ns'[k']];
    }
  }

  /** The index has one entry for each node. */
  lemma {:induction false} IndexSize<Id, T>(ns: seq<Node<Id, T>>, m: map<Id, Node<Id, T>>, position: map<Id, nat>)
    requires Indexed(ns, m, position)
    ensures |m| == |ns|
    decreases |ns|
  {
    if ns == [] {
      assert m == map[];
    } else {
      var k := |ns| - 1;
      IndexedWithout(ns, m, position, k);
      IndexSize(Without(ns, k), m - {ns[k].id}, Closed(position, ns[k].id, k));
      assert m.Keys == (m - {ns[k].id}).Keys + {ns[k].id};
    }
  }

  class HashLinkedList<Id(==), T> {
    var front: Node?<Id, T>
    var back: Node?<Id, T>
    var nodeMap: map<Id, Node<Id, T>>
    ghost var Nodes: seq<Node<Id, T>>
    ghost var Position: map<Id, nat>

    ghost predicate Chained()
      reads this, Nodes`left, Nodes`right
    {
      && front == (if Nodes == [] then null else Nodes[0])
      && back == (if Nodes == [] then null else Nodes[|Nodes| - 1])
      && Linked(Nodes)
    }

    ghost predicate Valid()
      reads this, Nodes`left, Nodes`right
    {
      Chained() && Indexed(Nodes, nodeMap, Position)
    }

    constructor ()
      ensures Valid() && Nodes == []
    {
      front, back, nodeMap, Nodes, Position := null, null, map[], [], map[];
    }

    /** The right chain, the left chain and the index tell of the same nodes. */
    lemma ThreeViewsAgree()
      requires Valid()
      ensures RightChain(front, Nodes) && LeftChain(back, Nodes)
      ensures forall ns :: RightChain(front, ns) ==> ns == Nodes
      ensures forall ns :: LeftChain(back, ns) ==> ns == Nodes
      ensures nodeMap.Values == set n | n in Nodes
      ensures |nodeMap| == |Nodes|
    {
      LinkedRight(Nodes, 0);
      LinkedLeft(Nodes, |Nodes|);
      assert Nodes[0..] == Nodes && Nodes[..|Nodes|] == Nodes;
      forall ns | RightChain(front, ns) ensures ns == Nodes {
        ChainIsUnique(front, ns, Nodes);
      }
      forall ns | LeftChain(back, ns) ensures ns == Nodes {
        LeftChainIsUnique(back, ns, Nodes);
      }
      IndexSize(Nodes, nodeMap, Position);
      forall n | n in Nodes ensures n in nodeMap.Values {
        assert n.id in nodeMap && nodeMap[n.id] == n;
      }
    }

    /** A range-for over the list: every node once, in order, and then the end. */
    method Traverse() returns (visited: seq<Node<Id, T>>)
      requires Valid()
      ensures visited == Nodes
    {
      visited := [];
      var itr := front;
      while itr != null
        invariant |visited| <= |Nodes| && visited == Nodes[..|visited|]
        invariant itr == if |visited| == |Nodes| then null else Nodes[|visited|]
        decreases |Nodes| - |visited|
      {
        visited := visited + [itr];
        itr := itr.right;
      }
    }

    /** The destructor. */
    method Destroy()
      requires Valid()
      modifies this, Nodes`left, Nodes`right
      ensures Valid() && Nodes == []
    {
      hide Indexed;
      hide Linked;
      ghost var k := 0;
      while front != null
        invariant Valid()
        invariant k <= |old(Nodes)| && Nodes == old(Nodes)[k..]
        decreases |Nodes|
      {
        PopFront();
        k := k + 1;
      }
    }

    predicate Contains(id: Id)
      reads this
    {
      id in nodeMap
    }

    method Find(id: Id) returns (node: Node?<Id, T>)
      requires Valid()
      ensures node == null ==> id !in nodeMap
      ensures node != null ==> id in nodeMap && node == Nodes[Position[id]] && node.id == id
    {
      node := if id in nodeMap then nodeMap[id] else null;
    }

    /** Append a node. The index keeps an entry that it has, so an id that is in the list
        already is linked twice and indexed once: only a new id leaves the list whole. */
    method Push(id: Id, item: T) returns (ghost node: Node<Id, T>)
      requires Valid()
      modifies this, Nodes`left, Nodes`right
      ensures Chained() && (Valid() <==> id !in old(nodeMap))
      ensures Nodes == old(Nodes) + [node]
      ensures nodeMap == if id in old(nodeMap) then old(nodeMap) else old(nodeMap)[id := node]
      ensures fresh(node) && node.id == id && node.item == item
    {
      hide Indexed;
      var nodePtr := new Node(id, item);
      if id in nodeMap {
        IndexedOnce(Nodes, nodeMap, Position, nodePtr);
      } else {
        IndexedPush(Nodes, nodeMap, Position, nodePtr);
      }
      if Nodes != [] { Apart(Nodes, nodeMap, Position, |Nodes| - 1); }
      if nodeMap == map[] {
        front := nodePtr;
      } else {
        back.right := nodePtr;
        nodePtr.left := back;
      }
      if id !in nodeMap {
        nodeMap, Position := nodeMap[id := nodePtr], Position[id := |Nodes|];
      }
      back := nodePtr;
      node, Nodes := nodePtr, Nodes + [nodePtr];
    }

    method RemoveNode(node: Node<Id, T>, ghost k: nat)
      requires Valid()
      requires k < |Nodes| && Nodes[k] == node
      modifies this, Nodes`left, Nodes`right
      ensures Valid()
      ensures Nodes == Without(old(Nodes), k)
    {
      if node == front {
        PopFront();
      } else if node == back {
        PopBack();
      } else {
        PopMiddle(node, k);
      }
    }

    method Remove(id: Id)
      requires Valid()
      modifies this, Nodes`left, Nodes`right
      ensures Valid()
      ensures Nodes == if id in old(nodeMap) then Without(old(Nodes), old(Position)[id]) else old(Nodes)
    {
      if id in nodeMap {
        RemoveNode(nodeMap[id], Position[id]);
      }
    }

    /** The ghost side of a removal: node k has been unhooked and erased from the index. */
    ghost method Forget(k: nat, m: map<Id, Node<Id, T>>)
      requires k < |Nodes|
      requires LinkedAround(Nodes, k)
      requires Indexed(Nodes, m, Position) && nodeMap == m - {Nodes[k].id}
      requires front == (if |Nodes| == 1 then null else Nodes[if k == 0 then 1 else 0])
      requires back == (if |Nodes| == 1 then null else Nodes[if k == |Nodes| - 1 then |Nodes| - 2 else |Nodes| - 1])
      modifies this`Nodes, this`Position
      ensures Valid()
      ensures Nodes == Without(old(Nodes), k)
    {
      hide Indexed;
      hide Linked;
      IndexedWithout(Nodes, m, Position, k);
      LinkedWithout(Nodes, k);
      Nodes, Position := Without(Nodes, k), Closed(Position, Nodes[k].id, k);
    }

    method PopFront()
      requires Valid()
      modifies this, Nodes`left, Nodes`right
      ensures Valid()
      ensures Nodes == if old(Nodes) == [] then [] else Without(old(Nodes), 0)
    {
      hide Indexed;
      if front == null { return; }
      ghost var m := nodeMap;
      Apart(Nodes, nodeMap, Position, 0);
      if |Nodes| > 1 { Apart(Nodes, nodeMap, Position, 1); }
      nodeMap := nodeMap - {front.id};
      front := front.right;
      if front != null {
        front.left := null;
      } else {
        back := null;
      }
      Forget(0, m);
    }

    method PopBack()
      requires Valid()
      modifies this, Nodes`left, Nodes`right
      ensures Valid()
      ensures Nodes == if old(Nodes) == [] then [] else Without(old(Nodes), |old(Nodes)| - 1)
    {
      hide Indexed;
      if back == null { return; }
      ghost var m, k := nodeMap, |Nodes| - 1;
      Apart(Nodes, nodeMap, Position, k);
      if |Nodes| > 1 { Apart(Nodes, nodeMap, Position, k - 1); }
      nodeMap := nodeMap - {back.id};
      back := back.left;
      if back != null {
        back.right := null;
      } else {
        front := null;
      }
      Forget(k, m);
    }

    method PopMiddle(node: Node<Id, T>, ghost k: nat)
      requires Valid()
      requires 0 < k < |Nodes| - 1 && Nodes[k] == node
      modifies this, Nodes`left, Nodes`right
      ensures Valid()
      ensures Nodes == Without(old(Nodes), k)
    {
      hide Indexed;
      ghost var m := nodeMap;
      Apart(Nodes, nodeMap, Position, k - 1);
      Apart(Nodes, nodeMap, Position, k + 1);
      nodeMap := nodeMap - {node.id};
      node.left.right := node.right;
      node.right.left := node.left;
      Forget(k, m);
    }
  }
}
