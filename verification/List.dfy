/** The kernel's singly linked list with a cursor: kernel/data_structures/list.c. */
module List {
  import opened Common

  class Node<T> {
    var element: T
    var next: Node?<T>

    constructor (element: T)
      ensures this.element == element && next == null
    {
      this.element := element;
      next := null;
    }
  }

  ghost function NodeAt<T>(nodes: seq<Node<T>>, i: nat): Node?<T> {
    if i < |nodes| then nodes[i] else null
  }

  ghost predicate Linked<T>(nodes: seq<Node<T>>)
    reads nodes
  {
    && (forall i :: 0 <= i < |nodes| ==> nodes[i].next == NodeAt(nodes, i + 1))
    && (forall i, j :: 0 <= i < j < |nodes| ==> nodes[i] != nodes[j])
  }

  ghost function Without<X>(s: seq<X>, i: nat): (r: seq<X>)
    requires i < |s|
  {
    s[..i] + s[i + 1..]
  }

  lemma WithoutAt<X>(s: seq<X>, i: nat)
    requires i < |s|
    ensures |Without(s, i)| == |s| - 1
    ensures forall j :: 0 <= j < |s| - 1 ==> Without(s, i)[j] == if j < i then s[j] else s[j + 1]
  {}

  /** The nodes are linked in this order and hold these elements. */
  ghost predicate Holds<T>(nodes: seq<Node<T>>, contents: seq<T>)
    reads nodes
  {
    && Linked(nodes)
    && |contents| == |nodes| && forall i :: 0 <= i < |nodes| ==> nodes[i].element == contents[i]
  }

  lemma HoldsFacts<T>(nodes: seq<Node<T>>, contents: seq<T>)
    requires Holds(nodes, contents)
    ensures |contents| == |nodes|
    ensures forall j :: 0 <= j < |nodes| ==> nodes[j].next == NodeAt(nodes, j + 1) && nodes[j].element == contents[j]
    ensures forall j, k :: 0 <= j < k < |nodes| ==> nodes[j] != nodes[k]
  {}

  lemma WithoutApart<X>(s: seq<X>, i: nat)
    requires i < |s| && forall j, k :: 0 <= j < k < |s| ==> s[j] != s[k]
    ensures forall j, k :: 0 <= j < k < |Without(s, i)| ==> Without(s, i)[j] != Without(s, i)[k]
  {
    WithoutAt(s, i);
    hide Without;
  }

  /** Once the link in front of node i skips it, the other nodes form the list of the other elements. */
  lemma RelinkedAround<T>(nodes: seq<Node<T>>, contents: seq<T>, i: nat)
    requires i < |nodes| == |contents| && forall j, k :: 0 <= j < k < |nodes| ==> nodes[j] != nodes[k]
    requires forall j :: 0 <= j < |nodes| ==>
      && nodes[j].next == (if j + 1 == i then NodeAt(nodes, i + 1) else NodeAt(nodes, j + 1))
      && nodes[j].element == contents[j]
    ensures Holds(Without(nodes, i), Without(contents, i))
    ensures NodeAt(Without(nodes, i), 0) == if i == 0 then NodeAt(nodes, 1) else NodeAt(nodes, 0)
  {
    var rest := Without(nodes, i);
    WithoutAt(nodes, i);
    WithoutAt(contents, i);
    WithoutApart(nodes, i);
    hide Without;
    forall j | 0 <= j < |rest|
      ensures rest[j].next == NodeAt(rest, j + 1) && rest[j].element == Without(contents, i)[j]
    {
      if j < i {
        assert rest[j] == nodes[j];
      } else {
        assert rest[j] == nodes[j + 1];
      }
    }
  }

  /** Once the last link leads to a fresh node, the nodes with it form the list with its element. */
  lemma LinkedToNew<T>(nodes: seq<Node<T>>, contents: seq<T>, node: Node<T>, element: T)
    requires |contents| == |nodes| && node !in nodes && node.next == null && node.element == element
    requires forall j, k :: 0 <= j < k < |nodes| ==> nodes[j] != nodes[k]
    requires forall j :: 0 <= j < |nodes| - 1 ==> nodes[j].next == NodeAt(nodes, j + 1)
    requires nodes != [] ==> nodes[|nodes| - 1].next == node
    requires forall j :: 0 <= j < |nodes| ==> nodes[j].element == contents[j]
    ensures Holds(nodes + [node], contents + [element])
    ensures NodeAt(nodes + [node], 0) == if nodes == [] then node else NodeAt(nodes, 0)
  {
  }

  class List<T(==)> {
    var head: Node?<T>
    var iterNode: Node?<T>
    ghost var nodes: seq<Node<T>>
    /** The elements in order: the abstract value of the list. */
    ghost var contents: seq<T>

    ghost predicate Valid()
      reads this, nodes
    {
      head == NodeAt(nodes, 0) && Holds(nodes, contents)
    }

    /** The cursor is at position `p` of the list; |nodes| is past the end. */
    ghost predicate IterAt(p: nat)
      reads this
    {
      p <= |nodes| && iterNode == NodeAt(nodes, p)
    }

    /** initialize_list */
    constructor ()
      ensures Valid() && contents == [] && IterAt(0)
    {
      head, iterNode, nodes, contents := null, null, [], [];
    }

    /** add_element: append; in an empty list the cursor moves to the new node. */
    method AddElement(element: T) returns (ghost added: Node<T>)
      requires Valid()
      modifies this, nodes
      ensures Valid() && contents == old(contents) + [element]
      ensures fresh(added) && nodes == old(nodes) + [added]
      ensures iterNode == if old(nodes) == [] then head else old(iterNode)
    {
      var last := LastNode();
      var node := new Node(element);
      added := node;
      Hang(last, node, element);
    }

    /** Link a fresh node behind the last one; in an empty list it becomes the head. */
    method Hang(last: Node?<T>, node: Node<T>, ghost element: T)
      requires Valid() && node !in nodes && node.next == null && node.element == element
      requires last == if nodes == [] then null else nodes[|nodes| - 1]
      modifies this, nodes
      ensures Valid() && contents == old(contents) + [element] && nodes == old(nodes) + [node]
      ensures iterNode == if old(nodes) == [] then head else old(iterNode)
    {
      HoldsFacts(nodes, contents);
      hide Holds;
      ghost var before, elements := nodes, contents;
      nodes, contents := before + [node], elements + [element];
      if last == null {
        head := node;
        iterNode := node;
      } else {
        last.next := node;
      }
      LinkedToNew(before, elements, node, element);
    }

    /** `while(*node != NULL) node = &((*node)->next)`: the node whose link ends the list, if any. */
    method LastNode() returns (last: Node?<T>)
      requires Valid()
      ensures last == if nodes == [] then null else nodes[|nodes| - 1]
    {
      if head == null {
        return null;
      }
      last := head;
      ghost var i: nat := 0;
      while last.next != null
        invariant i < |nodes| && last == nodes[i]
        decreases |nodes| - i
      {
        last, i := last.next, i + 1;
      }
    }

    /** pop_element: remove by position; the cursor goes back to the head. */
    method PopElement(index: int) returns (element: Option<T>)
      requires Valid()
      modifies this, nodes
      ensures Valid()
      ensures 0 <= index < |old(nodes)| ==>
                && element == Some(old(contents)[index])
                && nodes == Without(old(nodes), index) && contents == Without(old(contents), index)
                && IterAt(0)
      ensures !(0 <= index < |old(nodes)|) ==>
                element == None && nodes == old(nodes) && contents == old(contents) && iterNode == old(iterNode)
    {
      if index < 0 {
        return None;
      }
      var prev: Node?<T>, node: Node?<T>, left := null, head, index;
      ghost var i: nat := 0;
      while node != null
        invariant i <= |nodes| && node == NodeAt(nodes, i) && left == index - i && left >= 0
        invariant prev == if i == 0 then null else nodes[i - 1]
        decreases |nodes| - i
      {
        if left == 0 {
          Unlink(prev, node, i);
          iterNode := head;
          return Some(node.element);
        }
        prev, node, left, i := node, node.next, left - 1, i + 1;
      }
      return None;
    }

    /** `*node_ptr = node->next` */
    method Unlink(prev: Node?<T>, node: Node<T>, ghost i: nat)
      requires Valid() && i < |nodes| && node == nodes[i] && prev == if i == 0 then null else nodes[i - 1]
      modifies this`head, this`nodes, this`contents, nodes
      ensures Valid() && nodes == Without(old(nodes), i) && contents == Without(old(contents), i)
      ensures node.element == old(node.element)
    {
      hide Holds, Without;
      ghost var before := nodes;
      HoldsFacts(before, contents);
      assert node.next == NodeAt(before, i + 1);
      if prev == null {
        head := node.next;
      } else {
        prev.next := node.next;
      }
      ghost var elements := contents;
      nodes, contents := Without(before, i), Without(elements, i);
      RelinkedAround(before, elements, i);
    }

    /** remove_element: unlink the first node with this element. The cursor is not updated: it still points
        into the list exactly when it was not on the removed node. */
    method RemoveElement(element: T) returns (removed: bool)
      requires Valid()
      modifies this, nodes
      ensures Valid() && iterNode == old(iterNode)
      ensures removed <==> element in old(contents)
      ensures !removed ==> nodes == old(nodes) && contents == old(contents)
      ensures removed ==> exists i: nat ::
                && FirstIndex(old(contents), element, i)
                && nodes == Without(old(nodes), i) && contents == Without(old(contents), i)
                && (old(iterNode in nodes) ==> (iterNode in nodes <==> iterNode != old(nodes)[i]))
    {
      var prev: Node?<T>, node: Node?<T> := null, head;
      ghost var i: nat := 0;
      while node != null
        invariant i <= |nodes| && node == NodeAt(nodes, i)
        invariant prev == if i == 0 then null else nodes[i - 1]
        invariant forall j :: 0 <= j < i ==> contents[j] != element
        decreases |nodes| - i
      {
        if node.element == element {
          assert contents[i] == element && FirstIndex(contents, element, i);
          Unlink(prev, node, i);
          return true;
        }
        prev, node, i := node, node.next, i + 1;
      }
      return false;
    }

    method Size() returns (counter: nat)
      requires Valid()
      ensures counter == |contents|
    {
      counter := 0;
      var node := head;
      while node != null
        invariant counter <= |nodes| && node == NodeAt(nodes, counter)
        decreases |nodes| - counter
      {
        counter := counter + 1;
        node := node.next;
      }
    }

    /** iter_list: the element at the cursor, which advances; past the end, NULL and back to the head. */
    method IterList(ghost p: nat) returns (element: Option<T>)
      requires Valid() && IterAt(p)
      modifies this`iterNode
      ensures Valid() && IterAt(Advance(|nodes|, p))
      ensures element == Yield(contents, p)
    {
      if iterNode == null {
        iterNode := head;
        return None;
      }
      element := Some(iterNode.element);
      iterNode := iterNode.next;
    }
  }

  ghost predicate FirstIndex<T>(s: seq<T>, element: T, i: nat) {
    i < |s| && s[i] == element && forall j :: 0 <= j < i ==> s[j] != element
  }

  /** The cursor position after a call of iter_list on a list of n elements. */
  function Advance(n: nat, p: nat): nat {
    if p < n then p + 1 else 0
  }

  function Yield<T>(s: seq<T>, p: nat): Option<T> {
    if p < |s| then Some(s[p]) else None
  }

  /** The results of k successive calls from position p. */
  function Yields<T>(s: seq<T>, p: nat, k: nat): (r: seq<Option<T>>)
    ensures |r| == k
    decreases k
  {
    if k == 0 then [] else [Yield(s, p)] + Yields(s, Advance(|s|, p), k - 1)
  }

  function AdvanceBy(n: nat, p: nat, k: nat): nat
    decreases k
  {
    if k == 0 then p else AdvanceBy(n, Advance(n, p), k - 1)
  }

  /** The elements of s, each as a non-NULL result. */
  function Listed<T>(s: seq<T>): seq<Option<T>> {
    if s == [] then [] else [Some(s[0])] + Listed(s[1..])
  }

  /** One pass: from position p the rest of the list comes out in order, then NULL, and the cursor is back at
      the head, ready for the next pass. */
  lemma {:induction false} PassYieldsList<T>(s: seq<T>, p: nat)
    requires p <= |s|
    ensures Yields(s, p, |s| - p + 1) == Listed(s[p..]) + [None]
    ensures AdvanceBy(|s|, p, |s| - p + 1) == 0
    decreases |s| - p
  {
    if p < |s| {
      PassYieldsList(s, p + 1);
    } else {
      assert Yields(s, p, 1) == [Yield(s, p)] + Yields(s, 0, 0);
      assert AdvanceBy(|s|, p, 1) == AdvanceBy(|s|, 0, 0);
    }
  }
}
