/**
 * The intrusive doubly linked list (src/kernel/lib/list.c) on linked nodes.
 */
module Lists {
  /** A node embedded in the task whose number it carries (list_node_parent). */
  class Node {
    const task: nat
    var pre: Node?
    var next: Node?

    constructor (task: nat)
      ensures this.task == task && pre == null && next == null
    {
      this.task, pre, next := task, null, null;
    }
  }

  /** xs without its first occurrence of n. */
  ghost function RemoveNode(xs: seq<Node>, n: Node): (r: seq<Node>)
    ensures n !in xs ==> r == xs
    decreases |xs|
  {
    if |xs| == 0 then [] else if xs[0] == n then xs[1..] else [xs[0]] + RemoveNode(xs[1..], n)
  }

  ghost predicate Distinct(xs: seq<Node>) {
    forall i, j :: 0 <= i < j < |xs| ==> xs[i] != xs[j]
  }

  lemma {:induction false} RemoveAt(xs: seq<Node>, k: nat)
    requires k < |xs| && Distinct(xs)
    ensures RemoveNode(xs, xs[k]) == xs[..k] + xs[k + 1..]
    decreases k
  {
    if k > 0 {
      RemoveAt(xs[1..], k - 1);
      assert xs[1..][..k - 1] == xs[1..k] && xs[1..][k..] == xs[k + 1..];
      assert [xs[0]] + xs[1..k] == xs[..k];
    }
  }

  lemma CutFacts(xs: seq<Node>, k: nat)
    requires k < |xs| && Distinct(xs)
    ensures var ys := xs[..k] + xs[k + 1..];
            Distinct(ys) && xs[k] !in ys && forall n :: n in ys ==> n in xs
  {
  }

  ghost function PreOf(xs: seq<Node>, i: nat): Node?
    requires i < |xs|
  {
    if i == 0 then null else xs[i - 1]
  }

  ghost function NextOf(xs: seq<Node>, i: nat): Node?
    requires i < |xs|
  {
    if i == |xs| - 1 then null else xs[i + 1]
  }

  /** The links of xs[i] lead to its neighbours in xs. */
  ghost predicate LinkedAt(xs: seq<Node>, i: nat)
    requires i < |xs|
    reads xs[i]
  {
    xs[i].pre == PreOf(xs, i) && xs[i].next == NextOf(xs, i)
  }

  class List {
    var first: Node?
    var last: Node?
    var count: int
    ghost var nodes: seq<Node>

    /** The links run through `nodes` in both directions. */
    ghost predicate Valid()
      reads this, nodes
    {
      && count == |nodes| && Distinct(nodes)
      && first == (if |nodes| == 0 then null else nodes[0])
      && last == (if |nodes| == 0 then null else nodes[|nodes| - 1])
      && (forall i :: 0 <= i < |nodes| ==> LinkedAt(nodes, i))
    }

    /** list_init. */
    constructor ()
      ensures Valid() && nodes == []
    {
      first, last, count, nodes := null, null, 0, [];
    }

    /** list_first. */
    function First(): (n: Node?)
      requires Valid()
      reads this, nodes
      ensures n == if |nodes| == 0 then null else nodes[0]
    {
      first
    }

    /** list_node_next of the node at position k. */
    function Next(node: Node, ghost k: nat): (n: Node?)
      requires Valid() && k < |nodes| && nodes[k] == node
      reads this, nodes
      ensures n == NextOf(nodes, k)
    {
      assert LinkedAt(nodes, k);
      node.next
    }

    /** list_insert_first. */
    method InsertFirst(node: Node)
      requires Valid() && node !in nodes
      modifies this, nodes, node
      ensures Valid() && nodes == [node] + old(nodes)
    {
      ghost var xs := nodes;
      assert forall i :: 0 <= i < |xs| ==> LinkedAt(xs, i);
      node.next := first;
      node.pre := null;
      if count == 0 {
        last, first := node, node;
      } else {
        assert xs[0] in nodes;
        first.pre := node;
        first := node;
      }
      count := count + 1;
      nodes := [node] + nodes;
      forall i | 0 <= i < |nodes|
        ensures LinkedAt(nodes, i)
      {
        if i > 0 {
          assert old(LinkedAt(xs, i - 1)) && nodes[i] == xs[i - 1];
        }
      }
    }

    /** list_insert_last. */
    method InsertLast(node: Node)
      requires Valid() && node !in nodes
      modifies this, nodes, node
      ensures Valid() && nodes == old(nodes) + [node]
    {
      ghost var xs := nodes;
      node.pre := last;
      node.next := null;
      if count == 0 {
        first, last := node, node;
      } else {
        assert xs[|xs| - 1] in nodes;
        last.next := node;
        last := node;
      }
      count := count + 1;
      nodes := nodes + [node];
      forall i | 0 <= i < |nodes|
        ensures LinkedAt(nodes, i)
      {
        if i < |xs| {
          assert old(LinkedAt(xs, i)) && nodes[i] == xs[i];
        }
      }
    }

    /** list_delete_first: null if the list is empty. */
    method DeleteFirst() returns (removed: Node?)
      requires Valid()
      modifies this, nodes
      ensures Valid()
      ensures old(nodes) == [] ==> removed == null && nodes == []
      ensures old(nodes) != [] ==> removed == old(nodes)[0] && nodes == old(nodes)[1..] && removed.pre == null && removed.next == null
    {
      if count == 0 {
        return null;
      }
      ghost var xs := nodes;
      removed := first;
      assert LinkedAt(xs, 0) && xs[0] in nodes;
      first := removed.next;
      if first == null {
        last := null;
      } else {
        assert xs[1] in nodes;
        removed.next.pre := null;
      }
      removed.pre, removed.next := null, null;
      count := count - 1;
      nodes := nodes[1..];
      forall i | 0 <= i < |nodes|
        ensures LinkedAt(nodes, i)
      {
        assert old(LinkedAt(xs, i + 1)) && nodes[i] == xs[i + 1];
      }
    }

    /** list_delete, which relies on the node being on this list. */
    method Delete(node: Node)
      requires Valid() && node in nodes
      modifies this, nodes
      ensures Valid() && nodes == RemoveNode(old(nodes), node) && node.pre == null && node.next == null
      ensures node !in nodes && forall i :: 0 <= i < |nodes| ==> nodes[i] in old(nodes)
    {
      hide RemoveNode, Index;
      ghost var xs, k := nodes, Index(nodes, node);
      RemoveAt(xs, k);
      CutFacts(xs, k);
      assert LinkedAt(xs, k);
      assert k > 0 ==> xs[k - 1] in xs;
      assert k + 1 < |xs| ==> xs[k + 1] in xs;
      if node == first {
        first := node.next;
      }
      if node == last {
        last := node.pre;
      }
      if node.pre != null {
        node.pre.next := node.next;
      }
      if node.next != null {
        node.next.pre := node.pre;
      }
      node.pre, node.next := null, null;
      count := count - 1;
      nodes := xs[..k] + xs[k + 1..];
      hide Distinct;
      forall i | 0 <= i < |nodes|
        ensures LinkedAt(nodes, i)
      {
        var o := if i < k then i else i + 1;
        assert old(LinkedAt(xs, o)) && nodes[i] == xs[o];
      }
    }
  }

  ghost function Index(xs: seq<Node>, n: Node): (k: nat)
    requires n in xs
    ensures k < |xs| && xs[k] == n
  {
    if xs[0] == n then 0 else 1 + Index(xs[1..], n)
  }

  lemma ListDistinct(list: List)
    requires list.Valid()
    ensures Distinct(list.nodes)
  {
  }

  /** A list whose nodes were not touched is still valid. */
  twostate lemma Untouched(list: List)
    requires old(list.Valid()) && unchanged(list) && forall n :: n in list.nodes ==> unchanged(n)
    ensures list.Valid()
  {
    forall i | 0 <= i < |list.nodes|
      ensures LinkedAt(list.nodes, i)
    {
      assert old(LinkedAt(list.nodes, i)) && list.nodes[i] in list.nodes;
    }
  }
}
