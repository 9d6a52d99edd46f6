/** The circular doubly-linked list with a sentinel that hooks and caches are built on.  Linking
    and unlinking on the heap amount to inserting into and removing from a sequence. */
module DList {
  class Node {
    var next: Node?
    var prev: Node?

    constructor ()
      ensures next == null && prev == null
    {
      next, prev := null, null;
    }
  }

  class List {
    const head: Node
    ghost var nodes: seq<Node>

    /** The way round: the sentinel, the nodes, the sentinel again. */
    ghost function Ring(): (r: seq<Node>)
      reads this
      ensures |r| == |nodes| + 2
    {
      [head] + nodes + [head]
    }

    ghost predicate Linked(a: Node, b: Node)
      reads a, b
    {
      a.next == b && b.prev == a
    }

    ghost predicate Valid()
      reads this, head, nodes
    {
      && head !in nodes
      && (forall i, j :: 0 <= i < j < |nodes| ==> nodes[i] != nodes[j])
      && (forall i :: 0 <= i <= |nodes| ==> Linked(Ring()[i], Ring()[i + 1]))
    }

    constructor ()
      ensures Valid() && nodes == [] && fresh(head)
    {
      var h := new Node();
      head, nodes := h, [];
      new;
      head.next, head.prev := head, head;
    }

    /** Links `n` between two neighbours, at position `k` of the list. */
    method LinkAt(prev: Node, next: Node, n: Node, ghost k: nat)
      requires Valid() && n != head && n !in nodes && k <= |nodes| && prev == Ring()[k] && next == Ring()[k + 1]
      modifies head, nodes, n, this`nodes
      ensures Valid() && nodes == old(nodes)[..k] + [n] + old(nodes)[k..]
    {
      ghost var r := Ring();
      next.prev := n;
      n.next := next;
      n.prev := prev;
      prev.next := n;
      nodes := nodes[..k] + [n] + nodes[k..];
      forall i | 0 <= i <= |nodes| ensures Linked(Ring()[i], Ring()[i + 1]) {
        assert Ring()[i] == if i <= k then r[i] else if i == k + 1 then n else r[i - 1];
        assert Ring()[i + 1] == if i < k then r[i + 1] else if i == k then n else r[i];
        if i < k {
          assert old(Linked(r[i], r[i + 1]));
        } else if i > k + 1 {
          assert old(Linked(r[i - 1], r[i]));
        }
      }
    }

    method Link(n: Node)
      requires Valid() && n != head && n !in nodes
      modifies head, nodes, n, this`nodes
      ensures Valid() && nodes == [n] + old(nodes)
    {
      assert Linked(Ring()[0], Ring()[1]);
      LinkAt(head, head.next, n, 0);
    }

    method LinkTail(n: Node)
      requires Valid() && n != head && n !in nodes
      modifies head, nodes, n, this`nodes
      ensures Valid() && nodes == old(nodes) + [n]
    {
      assert Linked(Ring()[|nodes|], Ring()[|nodes| + 1]);
      LinkAt(head.prev, head, n, |nodes|);
    }

    method Unlink(e: Node, ghost k: nat)
      requires Valid() && k < |nodes| && nodes[k] == e
      modifies head, nodes, this`nodes
      ensures Valid() && nodes == old(nodes)[..k] + old(nodes)[k + 1..]
      ensures e.next == null && e.prev == null
    {
      ghost var r := Ring();
      assert Linked(r[k], r[k + 1]) && Linked(r[k + 1], r[k + 2]);
      var prev, next := e.prev, e.next;
      next.prev := prev;
      prev.next := next;
      nodes := nodes[..k] + nodes[k + 1..];
      e.prev := null;
      e.next := null;
      forall i | 0 <= i <= |nodes| ensures Linked(Ring()[i], Ring()[i + 1]) {
        assert Ring()[i] == if i <= k then r[i] else r[i + 1];
        assert Ring()[i + 1] == if i < k then r[i + 1] else r[i + 2];
        if i < k {
          assert old(Linked(r[i], r[i + 1]));
        } else if i > k {
          assert old(Linked(r[i + 1], r[i + 2]));
        }
      }
    }

    method Empty() returns (b: bool)
      requires Valid()
      ensures b <==> nodes == []
    {
      assert Linked(Ring()[0], Ring()[1]);
      b := head.next == head;
    }

    /** Unlinking a node and linking it again at the front moves it there, as the cache does on
        every hit. */
    method MoveToFront(e: Node, ghost k: nat)
      requires Valid() && k < |nodes| && nodes[k] == e
      modifies head, nodes, this`nodes
      ensures Valid() && nodes == [e] + old(nodes)[..k] + old(nodes)[k + 1..]
    {
      Unlink(e, k);
      Link(e);
    }
  }
}
