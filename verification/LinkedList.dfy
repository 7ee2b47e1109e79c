/** Go's container/list: a ring of doubly linked elements closed by a sentinel root. */
module LinkedList {
  import opened Sequences
  import opened Wrappers

  class Element<T> {
    var next: Element<T>
    var prev: Element<T>
    var value: Option<T>   // None only at the sentinel

    constructor (value: Option<T>)
      ensures next == this && prev == this && this.value == value
    {
      this.value := value;
      next := this;
      prev := this;
    }
  }

  class List<T> {
    const root: Element<T>
    var len: int
    ghost var nodes: seq<Element<T>>

    /** The way round the ring, from the sentinel back to the sentinel. */
    ghost function Ring(): seq<Element<T>>
      reads this
    {
      [root] + nodes + [root]
    }

    ghost predicate Valid()
      reads this, root`next, root`prev, nodes`next, nodes`prev
    {
      && len == |nodes|
      && root !in nodes
      && (forall i, j :: 0 <= i < j < |nodes| ==> nodes[i] != nodes[j])
      && (forall i :: 0 <= i <= |nodes| ==> Joined(i))
    }

    /** The i-th element of the ring and its successor point at each other. */
    ghost predicate Joined(i: nat)
      requires i <= |nodes|
      reads this, root`next, root`prev, nodes`next, nodes`prev
    {
      Ring()[i].next == Ring()[i + 1] && Ring()[i + 1].prev == Ring()[i]
    }

    constructor ()
      ensures Valid() && nodes == [] && fresh(root)
    {
      root := new Element<T>(None);
      len := 0;
      nodes := [];
    }

    /** The links of element i and of its two neighbours. */
    lemma Around(i: nat)
      requires Valid() && i < |nodes|
      ensures nodes[i].prev == Ring()[i] && nodes[i].next == Ring()[i + 2]
      ensures Ring()[i].next == nodes[i] && Ring()[i + 2].prev == nodes[i]
    {
      assert Joined(i) && Joined(i + 1);
      assert Ring()[i + 1] == nodes[i];
    }

    /** Unlinks element i. */
    method Remove(e: Element<T>, ghost i: nat)
      requires Valid() && i < |nodes| && nodes[i] == e
      modifies this, root`next, root`prev, nodes`next, nodes`prev
      ensures Valid() && nodes == Without(old(nodes), i)
    {
      Around(i);
      ghost var ring := Ring();
      e.prev.next := e.next;
      e.next.prev := e.prev;
      len := len - 1;
      nodes := Without(nodes, i);
      forall k | 0 <= k <= |nodes| ensures Joined(k) {
        assert old(Joined(if k < i then k else k + 1));
        assert Ring()[k] == if k <= i then ring[k] else ring[k + 1];
        assert Ring()[k + 1] == if k + 1 <= i then ring[k + 1] else ring[k + 2];
      }
    }

    /** Links a detached element right after the sentinel. */
    method InsertFront(e: Element<T>)
      requires Valid() && e !in nodes && e != root
      modifies this, root`next, root`prev, nodes`next, nodes`prev, e`next, e`prev
      ensures Valid() && nodes == [e] + old(nodes)
    {
      ghost var ring := Ring();
      assert Joined(0);
      e.prev := root;
      e.next := root.next;
      e.prev.next := e;
      e.next.prev := e;
      len := len + 1;
      nodes := [e] + nodes;
      forall k | 0 <= k <= |nodes| ensures Joined(k) {
        assert k >= 1 ==> old(Joined(k - 1));
        assert k >= 1 ==> Ring()[k] == if k == 1 then e else ring[k - 1];
        assert Ring()[k + 1] == if k == 0 then e else ring[k];
      }
    }

    method PushFront(value: T) returns (e: Element<T>)
      requires Valid()
      modifies this, root`next, root`prev, nodes`next, nodes`prev
      ensures Valid() && fresh(e) && e.value == Some(value) && nodes == [e] + old(nodes)
    {
      e := new Element<T>(Some(value));
      InsertFront(e);
    }

    method MoveToFront(e: Element<T>, ghost i: nat)
      requires Valid() && i < |nodes| && nodes[i] == e
      modifies this, root`next, root`prev, nodes`next, nodes`prev
      ensures Valid() && nodes == [e] + Without(old(nodes), i)
    {
      assert Joined(0) && Ring()[1] == nodes[0];
      if root.next == e {
        assert i == 0;
        assert nodes == [e] + Without(nodes, 0);
        return;
      }
      Remove(e, i);
      InsertFront(e);
    }

    /** The last element, if there is one. */
    method Back() returns (e: Option<Element<T>>)
      requires Valid()
      ensures e == if nodes == [] then None else Some(nodes[|nodes| - 1])
    {
      if len == 0 {
        return None;
      }
      assert Joined(|nodes|) && Ring()[|nodes|] == nodes[|nodes| - 1];
      return Some(root.prev);
    }
  }
}
