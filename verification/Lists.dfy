/** The kernel's doubly linked list (kernel/lib/list.c), with nodes linked in place. */
module Lists {
  class Node<T> {
    var next: Node?<T>
    var prev: Node?<T>
    var value: T

    constructor (item: T)
      ensures value == item && next == null && prev == null
    {
      value, next, prev := item, null, null;
    }
  }

  function RemoveAt<X>(s: seq<X>, k: nat): seq<X>
    requires k < |s|
  {
    s[..k] + s[k + 1..]
  }

  lemma RemoveAtParts<X>(s: seq<X>, k: nat)
    requires k < |s|
    ensures forall i :: 0 <= i < |s| - 1 ==> RemoveAt(s, k)[i] == s[if i < k then i else i + 1]
    ensures Distinct(s) ==> Distinct(RemoveAt(s, k))
  {}

  function InsertAt<X>(s: seq<X>, k: nat, x: X): seq<X>
    requires k <= |s|
  {
    s[..k] + [x] + s[k..]
  }

  lemma InsertAtParts<X>(s: seq<X>, k: nat, x: X)
    requires k <= |s|
    ensures InsertAt(s, k, x)[k] == x
    ensures forall i :: 0 <= i <= |s| && i != k ==> InsertAt(s, k, x)[i] == s[if i < k then i else i - 1]
    ensures Distinct(s) && x !in s ==> Distinct(InsertAt(s, k, x))
  {}

  ghost predicate Distinct<X>(s: seq<X>) {
    forall i, j :: 0 <= i < j < |s| ==> s[i] != s[j]
  }

  /** The i-th node, or null beyond either end. */
  ghost function Nth<T>(ns: seq<Node<T>>, i: int): Node?<T> {
    if 0 <= i < |ns| then ns[i] else null
  }

  class List<T(==)> {
    var head: Node?<T>
    var tail: Node?<T>
    var length: nat
    ghost var nodes: seq<Node<T>>
    ghost var Repr: set<object>   // the list itself and every node it has held

    ghost predicate Valid()
      reads this, nodes
    {
      && this in Repr && (forall n :: n in nodes ==> n in Repr)
      && length == |nodes|
      && head == Nth(nodes, 0) && tail == Nth(nodes, |nodes| - 1)
      && Distinct(nodes)
      && (forall i {:trigger nodes[i].next} :: 0 <= i < |nodes| ==> nodes[i].next == Nth(nodes, i + 1))
      && (forall i {:trigger nodes[i].prev} :: 0 <= i < |nodes| ==> nodes[i].prev == Nth(nodes, i - 1))
    }

    /** What the list holds, from head to tail. */
    ghost function Contents(): seq<T>
      reads this, nodes
    {
      Values(nodes)
    }

    static ghost function Values(ns: seq<Node<T>>): (vs: seq<T>)
      reads ns
      ensures |vs| == |ns|
      ensures forall i :: 0 <= i < |ns| ==> vs[i] == ns[i].value
    {
      if ns == [] then [] else Values(ns[..|ns| - 1]) + [ns[|ns| - 1].value]
    }

    lemma SameValues(vs: seq<T>)
      requires |vs| == |nodes| && forall i :: 0 <= i < |nodes| ==> nodes[i].value == vs[i]
      ensures Contents() == vs
    {}

    constructor ()
      ensures Valid() && nodes == [] && fresh(Repr) && Contents() == []
    {
      head, tail, length, nodes := null, null, 0, [];
      Repr := {this};
    }

    /** list_append: an existing node becomes the last one. */
    method Append(node: Node<T>)
      requires Valid() && node !in nodes
      modifies this, node`next, node`prev, nodes`next
      ensures Valid() && nodes == old(nodes) + [node]
      ensures Repr == old(Repr) + {node}
      ensures Contents() == old(Contents()) + [node.value]
    {
      ghost var vs := Contents();
      node.next := null;
      if tail == null {
        head := node;
        node.prev := null;
      } else {
        tail.next := node;
        node.prev := tail;
      }
      tail := node;
      length := length + 1;
      nodes := nodes + [node];
      Repr := Repr + {node};
      assert Contents() == vs + [node.value] by {
        SameValues(vs + [node.value]);
      }
    }

    /** list_insert: a fresh node with the item goes to the end. */
    method Insert(item: T) returns (node: Node<T>)
      requires Valid()
      modifies this, nodes`next
      ensures Valid() && fresh(node) && nodes == old(nodes) + [node]
      ensures Repr == old(Repr) + {node}
      ensures Contents() == old(Contents()) + [item]
    {
      node := new Node(item);
      Append(node);
    }

    /** list_append_after: the node goes in right after `before`, or first when that is null. Its links are
        taken to be clear: at the front of a non-empty list its back link is left as it was, and at the
        end its forward link, and the list is well-formed only when that was null. */
    method AppendAfter(before: Node?<T>, node: Node<T>, ghost k: nat)
      requires Valid() && node !in nodes
      requires k <= |nodes| && (nodes == [] || before == Nth(nodes, k - 1))
      modifies this, node`next, node`prev, nodes`next, nodes`prev
      ensures Valid() <==> (old(nodes) != [] ==>
        (k == 0 ==> old(node.prev) == null) && (k == |old(nodes)| ==> old(node.next) == null))
      ensures nodes == InsertAt(old(nodes), if old(nodes) == [] then 0 else k, node)
      ensures Repr == old(Repr) + {node}
      ensures Contents() == InsertAt(old(Contents()), if old(nodes) == [] then 0 else k, node.value)
    {
      assert |Contents()| == |nodes|;
      hide List.Contents;
      if tail == null {
        assert nodes == [] && Contents() == [];
        Append(node);
        assert nodes == [node] == InsertAt([], 0, node) && InsertAt([], 0, node.value) == [] + [node.value];
      } else {
        SpliceIn(before, node, k);
      }
    }

    method SpliceIn(before: Node?<T>, node: Node<T>, ghost k: nat)
      requires Valid() && node !in nodes
      requires k <= |nodes| && nodes != [] && before == Nth(nodes, k - 1)
      modifies this, node`next, node`prev, nodes`next, nodes`prev
      ensures Valid() <==> (k == 0 ==> old(node.prev) == null) && (k == |old(nodes)| ==> old(node.next) == null)
      ensures nodes == InsertAt(old(nodes), k, node) && Repr == old(Repr) + {node}
      ensures Contents() == InsertAt(old(Contents()), k, node.value)
    {
      ghost var ns, vs := nodes, Contents();
      LinkBetween(before, node, k);
      length := length + 1;
      nodes := InsertAt(ns, k, node);
      Repr := Repr + {node};
      InsertAtParts(ns, k, node);
      Spliced(ns, k, node);
      SameValues(InsertAt(vs, k, node.value));
    }

    /** The pointer writes: the node's links, those of its neighbours, and the list's ends. */
    method LinkBetween(before: Node?<T>, node: Node<T>, ghost k: nat)
      requires Valid() && node !in nodes
      requires k <= |nodes| && nodes != [] && before == Nth(nodes, k - 1)
      modifies this`head, this`tail, node`next, node`prev, nodes`next, nodes`prev
      ensures node.next == if k < |nodes| then nodes[k] else old(node.next)
      ensures node.prev == if k > 0 then nodes[k - 1] else old(node.prev)
      ensures head == (if k == 0 then node else nodes[0])
      ensures tail == (if k == |nodes| then node else nodes[|nodes| - 1])
      ensures forall i {:trigger nodes[i].next} :: 0 <= i < |nodes| ==>
        nodes[i].next == if i == k - 1 then node else Nth(nodes, i + 1)
      ensures forall i {:trigger nodes[i].prev} :: 0 <= i < |nodes| ==>
        nodes[i].prev == if i == k then node else Nth(nodes, i - 1)
    {
      if before == null {
        node.next := head;
        head.prev := node;
        head := node;
        return;
      }
      if before == tail {
        tail := node;
      } else {
        before.next.prev := node;
        node.next := before.next;
      }
      node.prev := before;
      before.next := node;
    }

    /** When the node itself is linked to its neighbours, and only then, the links are those of the longer
        list. */
    lemma Spliced(ns: seq<Node<T>>, k: nat, node: Node<T>)
      requires k <= |ns| && nodes == InsertAt(ns, k, node) && this in Repr && (forall n :: n in nodes ==> n in Repr)
      requires Distinct(nodes) && length == |nodes| && head == nodes[0] && tail == nodes[|nodes| - 1]
      requires forall i {:trigger ns[i].next} :: 0 <= i < |ns| ==>
        ns[i].next == if i == k - 1 then node else Nth(ns, i + 1)
      requires forall i {:trigger ns[i].prev} :: 0 <= i < |ns| ==>
        ns[i].prev == if i == k then node else Nth(ns, i - 1)
      ensures Valid() <==> node.next == Nth(ns, k) && node.prev == Nth(ns, k - 1)
    {
      assert nodes[k] == node && Nth(nodes, k + 1) == Nth(ns, k) && Nth(nodes, k - 1) == Nth(ns, k - 1);
      assert nodes[k].next == node.next && nodes[k].prev == node.prev;
    }

    /** list_delete: the node leaves the list and forgets its neighbours. */
    method Delete(node: Node<T>, ghost k: nat)
      requires Valid() && k < |nodes| && nodes[k] == node
      modifies this, nodes`next, nodes`prev
      ensures Valid() && nodes == RemoveAt(old(nodes), k) && Repr == old(Repr)
      ensures node.next == null && node.prev == null
      ensures Contents() == RemoveAt(old(Contents()), k)
    {
      ghost var ns, vs := nodes, Contents();
      Unlink(node, k);
      length := length - 1;
      nodes := RemoveAt(ns, k);
      Relinked(ns, k);
      RemoveAtParts(vs, k);
      RemoveAtParts(ns, k);
      SameValues(RemoveAt(vs, k));
    }

    /** With the neighbours bypassing node k, the links are those of the list without it. */
    lemma Relinked(ns: seq<Node<T>>, k: nat)
      requires k < |ns| && Distinct(ns) && nodes == RemoveAt(ns, k)
      requires forall i {:trigger ns[i].next} :: 0 <= i < |ns| && i != k ==>
        ns[i].next == Nth(ns, if i == k - 1 then k + 1 else i + 1)
      requires forall i {:trigger ns[i].prev} :: 0 <= i < |ns| && i != k ==>
        ns[i].prev == Nth(ns, if i == k + 1 then k - 1 else i - 1)
      ensures Distinct(nodes)
      ensures forall i {:trigger nodes[i].next} :: 0 <= i < |nodes| ==> nodes[i].next == Nth(nodes, i + 1)
      ensures forall i {:trigger nodes[i].prev} :: 0 <= i < |nodes| ==> nodes[i].prev == Nth(nodes, i - 1)
    {}

    method Unlink(node: Node<T>, ghost k: nat)
      requires Valid() && k < |nodes| && nodes[k] == node
      modifies this`head, this`tail, nodes`next, nodes`prev
      ensures node.next == null && node.prev == null
      ensures head == Nth(nodes, if k == 0 then 1 else 0)
      ensures tail == Nth(nodes, if k == |nodes| - 1 then k - 1 else |nodes| - 1)
      ensures forall i {:trigger nodes[i].next} :: 0 <= i < |nodes| && i != k ==>
        nodes[i].next == Nth(nodes, if i == k - 1 then k + 1 else i + 1)
      ensures forall i {:trigger nodes[i].prev} :: 0 <= i < |nodes| && i != k ==>
        nodes[i].prev == Nth(nodes, if i == k + 1 then k - 1 else i - 1)
    {
      BypassForward(node, k);
      BypassBackward(node, k);
      node.prev := null;
      node.next := null;
    }

    /** Whatever pointed forward to the node, the one before it or the list's head, points past it. */
    method BypassForward(node: Node<T>, ghost k: nat)
      requires Valid() && k < |nodes| && nodes[k] == node
      modifies this`head, nodes`next
      ensures head == Nth(nodes, if k == 0 then 1 else 0)
      ensures forall i {:trigger nodes[i].next} :: 0 <= i < |nodes| ==>
        nodes[i].next == Nth(nodes, if i == k - 1 then k + 1 else i + 1)
    {
      if node == head {
        head := node.next;
      }
      if node.prev != null {
        node.prev.next := node.next;
      }
    }

    /** Whatever pointed back to the node, the one after it or the list's tail, points past it. */
    method BypassBackward(node: Node<T>, ghost k: nat)
      requires k < |nodes| && nodes[k] == node && Distinct(nodes)
      requires node.next == Nth(nodes, k + 1) && tail == Nth(nodes, |nodes| - 1)
      requires forall i {:trigger nodes[i].prev} :: 0 <= i < |nodes| ==> nodes[i].prev == Nth(nodes, i - 1)
      modifies this`tail, nodes`prev
      ensures tail == Nth(nodes, if k == |nodes| - 1 then k - 1 else |nodes| - 1)
      ensures forall i {:trigger nodes[i].prev} :: 0 <= i < |nodes| ==>
        nodes[i].prev == Nth(nodes, if i == k + 1 then k - 1 else i - 1)
    {
      if node == tail {
        tail := node.prev;
      }
      if node.next != null {
        node.next.prev := node.prev;
      }
    }

    /** list_pop: the last node, or null when the list is empty. */
    method Pop() returns (out: Node?<T>)
      requires Valid()
      modifies this, nodes`next, nodes`prev
      ensures Valid() && Repr == old(Repr)
      ensures if old(nodes) == [] then out == null && nodes == [] else
        out == old(nodes)[|old(nodes)| - 1] && nodes == old(nodes)[..|old(nodes)| - 1]
      ensures Contents() == if old(nodes) == [] then [] else old(Contents())[..|old(nodes)| - 1]
    {
      if tail == null {
        return null;
      }
      out := tail;
      Delete(tail, |nodes| - 1);
    }

    /** list_dequeue: the first node, or null when the list is empty. */
    method Dequeue() returns (out: Node?<T>)
      requires Valid()
      modifies this, nodes`next, nodes`prev
      ensures Valid() && Repr == old(Repr)
      ensures if old(nodes) == [] then out == null && nodes == [] else
        out == old(nodes)[0] && nodes == old(nodes)[1..]
      ensures Contents() == if old(nodes) == [] then [] else old(Contents())[1..]
    {
      if head == null {
        return null;
      }
      out := head;
      Delete(head, 0);
    }

    /** list_insert_after: a fresh node with the item, right after `before`, or first when that is null. */
    method InsertAfter(before: Node?<T>, item: T, ghost k: nat) returns (node: Node<T>)
      requires Valid()
      requires k <= |nodes| && (nodes == [] || before == Nth(nodes, k - 1))
      modifies this, nodes`next, nodes`prev
      ensures Valid() && fresh(node)
      ensures nodes == InsertAt(old(nodes), if old(nodes) == [] then 0 else k, node)
      ensures Repr == old(Repr) + {node}
      ensures Contents() == InsertAt(old(Contents()), if old(nodes) == [] then 0 else k, item)
    {
      node := new Node(item);
      AppendAfter(before, node, k);
    }

    /** list_find: the first node with the value; null when there is none. */
    method Find(value: T) returns (item: Node?<T>)
      requires Valid()
      ensures item == null <==> value !in Contents()
      ensures item != null ==> exists k ::
        0 <= k < |nodes| && item == nodes[k] && Contents()[k] == value && value !in Contents()[..k]
    {
      item := head;
      ghost var i := 0;
      while item != null
        invariant 0 <= i <= |nodes| && item == Nth(nodes, i) && value !in Contents()[..i]
        decreases |nodes| - i
      {
        if item.value == value {
          return;
        }
        item := item.next;
        i := i + 1;
      }
    }

    /** list_index_of: the position of the first occurrence; -1 when there is none. */
    method IndexOf(value: T) returns (i: int)
      requires Valid()
      ensures i == -1 <==> value !in Contents()
      ensures i != -1 ==> 0 <= i < |nodes| && Contents()[i] == value && value !in Contents()[..i]
    {
      i := 0;
      var item := head;
      while item != null
        invariant 0 <= i <= |nodes| && item == Nth(nodes, i) && value !in Contents()[..i]
        decreases |nodes| - i
      {
        if item.value == value {
          return;
        }
        item := item.next;
        i := i + 1;
      }
      i := -1;
    }

    /** list_remove: nothing happens beyond the end. Just past the last node, `ok` is false: the C code
        goes on to delete a null node there. */
    method Remove(index: nat) returns (ok: bool)
      requires Valid()
      modifies this, nodes`next, nodes`prev
      ensures Valid() && (ok <==> index != |old(nodes)|)
      ensures Contents() == if index >= |old(nodes)| then old(Contents()) else RemoveAt(old(Contents()), index)
    {
      if index > length {
        return true;
      }
      var i, n := 0, head;
      while i < index
        invariant 0 <= i <= index && n == Nth(nodes, i)
      {
        n := n.next;
        i := i + 1;
      }
      if n == null {
        return false;
      }
      Delete(n, index);
      ok := true;
    }
  }
}
