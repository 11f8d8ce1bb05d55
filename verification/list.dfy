/** The kernel's intrusive doubly linked list (src/kernel/tools/list.c), refined to
    sequences of nodes. */
module Lists {
  import opened Basics

  class Node {
    var prev: Node?
    var next: Node?
    /** The number of the task that contains the node, which list_node_parent yields,
        and whether it is its run_node or its wait_node. */
    const task: nat
    const isRun: bool

    constructor (task: nat, isRun: bool)
      ensures this.task == task && this.isRun == isRun && prev == null && next == null
    {
      this.task, this.isRun := task, isRun;
      prev, next := null, null;
    }
  }

  class List {
    var first: Node?
    var last: Node?
    var count: int
    ghost var nodes: seq<Node>

    /** `ns` linked in order, both ways. */
    ghost predicate Chain(ns: seq<Node>)
      reads this, ns
    {
      && (ns == [] ==> first == null && last == null)
      && (ns != [] ==> first == ns[0] && last == ns[|ns| - 1] && ns[0].prev == null && ns[|ns| - 1].next == null)
      && (forall i {:trigger ns[i].next} :: 0 <= i < |ns| - 1 ==> ns[i].next == ns[i + 1])
      && (forall i {:trigger ns[i].prev} :: 0 < i < |ns| ==> ns[i].prev == ns[i - 1])
    }

    /** A well-formed chain: `nodes` in order, each once. */
    ghost predicate Valid()
      reads this, nodes
    {
      count == |nodes| && NoDup(nodes) && Chain(nodes)
    }

    /** list_init */
    constructor ()
      ensures Valid() && nodes == []
    {
      first, last, count, nodes := null, null, 0, [];
    }

    method InsertFirst(node: Node)
      requires Valid() && node !in nodes
      modifies this, node, nodes
      ensures Valid() && nodes == [node] + old(nodes)
    {
      node.next := first;
      node.prev := null;
      if count == 0 {
        last := node;
      } else {
        first.prev := node;
      }
      first := node;
      count := count + 1;
      nodes := [node] + nodes;
    }

    method InsertLast(node: Node)
      requires Valid() && node !in nodes
      modifies this, node, nodes
      ensures Valid() && nodes == old(nodes) + [node]
    {
      node.next := null;
      node.prev := last;
      if count == 0 {
        first := node;
      } else {
        last.next := node;
      }
      last := node;
      count := count + 1;
      nodes := nodes + [node];
    }

    method RemoveFirst() returns (node: Node?)
      requires Valid()
      modifies this, nodes
      ensures Valid()
      ensures old(nodes) == [] ==> node == null && nodes == []
      ensures old(nodes) != [] ==> node == old(nodes)[0] && nodes == old(nodes)[1..] && node.prev == null && node.next == null
    {
      if count == 0 {
        return null;
      }
      node := first;
      first := node.next;
      if first == null {
        last := null;
      } else {
        first.prev := null;
      }
      node.next, node.prev := null, null;
      count := count - 1;
      nodes := nodes[1..];
    }

    method Remove(node: Node)
      requires Valid() && node in nodes
      modifies this, nodes
      ensures Valid() && nodes == Without(old(nodes), node)
      ensures node.prev == null && node.next == null
    {
      ghost var k, r := TakenOut(nodes, node);
      Unlink(node, k, r);
      nodes := r;
    }

    /** The pointer surgery of list_remove around position `k`, which leaves `r`. */
    method Unlink(node: Node, ghost k: nat, ghost r: seq<Node>)
      requires Valid() && k < |nodes| && nodes[k] == node && r == nodes[..k] + nodes[k + 1..]
      modifies this`first, this`last, this`count, nodes
      ensures count == |r| && Chain(r) && node.prev == null && node.next == null
    {
      assert 0 < k ==> nodes[k].prev == nodes[k - 1];
      assert k + 1 < |nodes| ==> nodes[k].next == nodes[k + 1];
      if node == first {
        first := node.next;
      }
      if node == last {
        last := node.prev;
      }
      if node.prev != null {
        node.prev.next := node.next;
      }
      if node.next != null {
        node.next.prev := node.prev;
      }
      node.next, node.prev := null, null;
      count := count - 1;
      forall i | 0 <= i < |r| - 1 ensures r[i].next == r[i + 1] {
        assert r[i] == nodes[if i < k then i else i + 1] && r[i + 1] == nodes[if i + 1 < k then i + 1 else i + 2];
        assert i != k - 1 ==> old(nodes[if i < k then i else i + 1].next) == nodes[if i < k then i + 1 else i + 2];
      }
      forall i | 0 < i < |r| ensures r[i].prev == r[i - 1] {
        assert r[i] == nodes[if i < k then i else i + 1] && r[i - 1] == nodes[if i - 1 < k then i - 1 else i];
        assert i != k ==> old(nodes[if i < k then i else i + 1].prev) == nodes[if i < k then i - 1 else i];
      }
    }
  }
}
