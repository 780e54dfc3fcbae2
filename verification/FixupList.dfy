/** list.h: the doubly linked list that holds the pending fixups. */
module FixupList {
  import opened Sequences

  class Node<T> {
    var prev: Node?<T>
    var next: Node?<T>
    const data: T

    constructor (prev: Node?<T>, data: T)
      ensures this.prev == prev && next == null && this.data == data
    {
      this.prev, next, this.data := prev, null, data;
    }
  }

  ghost function At<T>(nodes: seq<Node<T>>, i: int): Node?<T> {
    if 0 <= i < |nodes| then nodes[i] else null
  }

  ghost predicate Distinct<T>(nodes: seq<Node<T>>) {
    forall i, j | 0 <= i < |nodes| && 0 <= j < |nodes| && nodes[i] == nodes[j] :: i == j
  }

  /** Node i leads to both its neighbours. */
  ghost predicate Links<T>(nodes: seq<Node<T>>, i: nat)
    requires i < |nodes|
    reads nodes[i]
  {
    nodes[i].next == At(nodes, i + 1) && nodes[i].prev == At(nodes, i - 1)
  }

  ghost function Data<T>(nodes: seq<Node<T>>): (s: seq<T>)
    ensures |s| == |nodes|
  {
    seq(|nodes|, i requires 0 <= i < |nodes| => nodes[i].data)
  }

  lemma DataWithout<T>(nodes: seq<Node<T>>, i: nat)
    requires i < |nodes|
    ensures Data(Without(nodes, i)) == Without(Data(nodes), i)
  {
  }

  lemma AtWithout<T>(nodes: seq<Node<T>>, i: nat, j: int)
    requires i < |nodes|
    ensures At(Without(nodes, i), j) == At(nodes, if j < i then j else j + 1)
  {
  }

  class List<T> {
    var size: nat
    var head: Node?<T>
    var tail: Node?<T>
    /** The nodes from head to tail. */
    ghost var nodes: seq<Node<T>>

    /** Following `next` from `head` visits `nodes` in order and stops at `tail`, and `prev` leads
        the same way back. */
    ghost predicate Valid()
      reads this, nodes
    {
      && size == |nodes| && Distinct(nodes)
      && head == At(nodes, 0) && tail == At(nodes, |nodes| - 1)
      && forall i | 0 <= i < |nodes| :: Links(nodes, i)
    }

    ghost function Contents(): seq<T>
      reads this
    {
      Data(nodes)
    }

    constructor ()
      ensures Valid() && nodes == []
    {
      size, head, tail, nodes := 0, null, null, [];
    }

    method Add(data: T) returns (node: Node<T>)
      requires Valid()
      modifies this, nodes
      ensures Valid() && fresh(node) && nodes == old(nodes) + [node]
      ensures Contents() == old(Contents()) + [data]
    {
      node := new Node<T>(tail, data);
      if head == null {
        head := node;
      } else {
        tail.next := node;
      }
      tail := node;
      size := size + 1;
      ghost var ns := nodes;
      nodes := nodes + [node];
      forall j | 0 <= j < |nodes|
        ensures Links(nodes, j)
      {
        if j < |ns| {
          assert old(Links(ns, j));
        }
      }
      assert Data(nodes) == Data(ns) + [data];
    }

    /** Unlinks one node, wherever it is, and answers the one after it. */
    method Remove(node: Node<T>, ghost i: nat) returns (next: Node?<T>)
      requires Valid() && i < |nodes| && node == nodes[i]
      modifies this, nodes
      ensures Valid() && nodes == Without(old(nodes), i) && next == At(nodes, i)
      ensures Contents() == Without(old(Contents()), i)
    {
      ghost var ns := nodes;
      assert Links(ns, i);
      assert i > 0 ==> Links(ns, i - 1);
      assert i + 1 < |ns| ==> Links(ns, i + 1);
      if size == 1 {
        head, tail := null, null;
      } else if node == head {
        head := node.next;
        node.next.prev := null;
      } else if node == tail {
        tail := node.prev;
        node.prev.next := null;
      } else {
        node.prev.next := node.next;
        node.next.prev := node.prev;
      }
      next := node.next;
      size := size - 1;
      nodes := Without(ns, i);
      forall j | 0 <= j < |nodes|
        ensures Links(nodes, j)
      {
        AtWithout(ns, i, j);
        AtWithout(ns, i, j + 1);
        AtWithout(ns, i, j - 1);
        assert old(Links(ns, if j < i then j else j + 1));
      }
      DataWithout(ns, i);
    }

    method Clear()
      requires Valid()
      modifies this, nodes
      ensures Valid() && nodes == []
    {
      while head != null
        invariant Valid()
        invariant forall j | 0 <= j < |nodes| :: nodes[j] in old(nodes)
        decreases size
      {
        var _ := Remove(head, 0);
      }
    }

    /** The walk of rewrite.c over its pending fixups: nodes that are settled are unlinked, and the
        walk goes on with the node `Remove` answers; the others stay, in order. */
    method RemoveSettled(settled: T -> bool)
      requires Valid()
      modifies this, nodes
      ensures Valid() && Contents() == Pending(old(Contents()), settled)
    {
      var node := head;
      ghost var i := 0;
      ghost var all := Contents();
      ghost var done := 0;
      while node != null
        invariant Valid() && i <= |nodes| && node == At(nodes, i)
        invariant forall j | 0 <= j < |nodes| :: nodes[j] in old(nodes)
        invariant done <= |all| && Walked(Contents(), i, all, done, settled)
        decreases |nodes| - i
      {
        assert Links(nodes, i);
        WalkOn(Contents(), i, all, done, settled);
        if settled(node.data) {
          node := Remove(node, i);
        } else {
          node := node.next;
          i := i + 1;
        }
        done := done + 1;
      }
      assert all[..done] == all;
      assert Contents()[..i] == Contents();
    }
  }

  /** After `done` of the nodes in `all`, the walk stands at position i of what is left. */
  ghost predicate Walked<T>(s: seq<T>, i: nat, all: seq<T>, done: nat, settled: T -> bool) {
    && i <= |s| && done <= |all|
    && s[i..] == all[done..] && s[..i] == Pending(all[..done], settled)
  }

  lemma WalkOn<T>(s: seq<T>, i: nat, all: seq<T>, done: nat, settled: T -> bool)
    requires i < |s| && Walked(s, i, all, done, settled)
    ensures done < |all|
    ensures settled(s[i]) ==> Walked(Without(s, i), i, all, done + 1, settled)
    ensures !settled(s[i]) ==> Walked(s, i + 1, all, done + 1, settled)
  {
    assert s[i] == s[i..][0] == all[done..][0];
    assert all[..done + 1][..done] == all[..done];
    assert s[i + 1..] == s[i..][1..] && all[done + 1..] == all[done..][1..];
    assert Without(s, i)[i..] == s[i + 1..] && Without(s, i)[..i] == s[..i];
    assert s[..i + 1] == s[..i] + [s[i]];
  }

  ghost function Pending<T>(s: seq<T>, settled: T -> bool): seq<T> {
    if s == [] then []
    else
      var last := s[|s| - 1];
      Pending(s[..|s| - 1], settled) + if settled(last) then [] else [last]
  }

  /** Nothing settled is left, and nothing else is lost. */
  lemma {:induction false} PendingExactly<T>(s: seq<T>, settled: T -> bool, x: T)
    ensures x in Pending(s, settled) <==> x in s && !settled(x)
  {
    if s != [] {
      PendingExactly(s[..|s| - 1], settled, x);
      assert s == s[..|s| - 1] + [s[|s| - 1]];
    }
  }
}
