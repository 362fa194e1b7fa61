/** The kernel's tree (kernel/lib/tree.c). A node's child list is a sequence; Lists proves that the
    list operations behave as the sequence operations used here. */
module Trees {
  class Node<V> {
    var value: V
    var children: seq<Node<V>>
    var parent: Node?<V>
    ghost var rank: nat   // greater than the parent's

    constructor (v: V)
      ensures value == v && children == [] && parent == null
    {
      value, children, parent, rank := v, [], null, 0;
    }
  }

  class Tree<V> {
    var nodes: nat
    var root: Node?<V>
    ghost var all: set<Node<V>>
    ghost var bound: nat

    ghost predicate Valid()
      reads this, all
    {
      && nodes == |all|
      && (if root == null then all == {} else root in all && root.parent == null)
      && (forall n :: n in all ==> Local(n))
    }

    /** What holds at each node: its children are nodes of the tree, listed once, naming it as their
        parent; and unless it is the root, its parent lists it. */
    ghost predicate Local(n: Node<V>)
      reads this, all, n
    {
      && n.rank < bound
      && (forall i :: 0 <= i < |n.children| ==> IsChild(n.children[i], n))
      && (forall i, j :: 0 <= i < j < |n.children| ==> n.children[i] != n.children[j])
      && (n != root ==> n.parent != null && n.parent in all && n in n.parent.children)
    }

    ghost predicate IsChild(c: Node<V>, n: Node<V>)
      reads this, all, n
    {
      c in all && c.parent == n && c.rank > n.rank
    }

    constructor ()
      ensures Valid() && root == null && all == {}
    {
      nodes, root, all, bound := 0, null, {}, 0;
    }

    /** tree_set_root: the tree is now a single root, whatever it was before. */
    method SetRoot(value: V)
      requires Valid()
      modifies this
      ensures Valid() && root != null && fresh(root) && all == {root} && root.value == value && root.children == []
    {
      var r := new Node(value);
      root := r;
      nodes := 1;
      all := {r};
      bound := r.rank + 1;
    }

    /** tree_node_insert_child: a fresh node under `parent`, last among its children. */
    method InsertChild(parent: Node<V>, value: V) returns (out: Node<V>)
      requires Valid() && parent in all
      modifies this, parent`children
      ensures Valid() && fresh(out) && all == old(all) + {out} && root == old(root)
      ensures out.value == value && out.children == [] && out.parent == parent
      ensures parent.children == old(parent.children) + [out]
    {
      hide Local, IsChild;
      out := new Node(value);
      parent.children := parent.children + [out];
      out.parent := parent;
      nodes := nodes + 1;
      out.rank := bound;
      bound := bound + 1;
      all := all + {out};
      LocalLeaf(out);
      StayLocal(parent, out);
    }

    lemma LocalLeaf(out: Node<V>)
      requires out.children == [] && out.rank < bound
      requires out.parent != null && out.parent in all && out in out.parent.children
      ensures Local(out)
    {}

    /** A new leaf under `parent` disturbs no node there was. */
    twostate lemma StayLocal(parent: Node<V>, new out: Node<V>)
      requires LeafAdded(parent, out) && forall n :: n in old(all) ==> old(Local(n))
      ensures forall n :: n in old(all) ==> Local(n)
    {
      ParentStaysLocal(parent, out);
      hide IsChild;
      forall n | n in old(all) && n != parent ensures Local(n) {
        assert old(Local(n));
      }
    }

    twostate lemma ParentStaysLocal(parent: Node<V>, new out: Node<V>)
      requires LeafAdded(parent, out) && old(Local(parent))
      ensures Local(parent)
      ensures forall c: Node<V>, n: Node<V> :: c in old(all) && n in old(all) && old(IsChild(c, n)) ==> IsChild(c, n)
    {
      assert forall i :: 0 <= i < |old(parent.children)| ==> old(IsChild(parent.children[i], parent));
    }

    /** Only the parent's child list has changed, and the node count and rank bound with it. */
    twostate predicate LeafAdded(parent: Node<V>, new out: Node<V>)
      reads this, all
    {
      && parent in old(all) && out !in old(all) && all == old(all) + {out}
      && root == old(root) && bound > old(bound) && out.parent == parent && out.rank == old(bound)
      && (forall m :: m in old(all) ==> m.parent == old(m.parent) && m.rank == old(m.rank))
      && (forall m :: m in old(all) && m != parent ==> m.children == old(m.children))
      && parent.children == old(parent.children) + [out]
    }

    // ---- ancestors and subtrees ----

    /** m lies in the subtree of n: n is found by following parents up from m. */
    ghost predicate Under(m: Node<V>, n: Node<V>)
      requires Valid() && m in all
      reads this, all
      decreases m.rank
    {
      m == n || (m != root && UpLink(m) && Under(m.parent, n))
    }

    /** The parent has a smaller rank. */
    ghost predicate UpLink(m: Node<V>)
      requires Valid() && m in all && m != root
      reads this, all
      ensures UpLink(m) && m.parent.rank < m.rank && m.parent in all
    {
      assert Local(m) && Local(m.parent);
      m.parent != null
    }

    ghost function Subtree(n: Node<V>): set<Node<V>>
      requires Valid()
      reads this, all
    {
      set m | m in all && Under(m, n)
    }

    lemma {:induction false} UnderRank(m: Node<V>, n: Node<V>)
      requires Valid() && m in all && Under(m, n)
      ensures n in all && (m == n || n.rank < m.rank)
      decreases m.rank
    {
      if m != n {
        assert UpLink(m);
        UnderRank(m.parent, n);
      }
    }

    /** Every node of the tree is reached from the root. */
    lemma {:induction false} AllReachable(m: Node<V>)
      requires Valid() && m in all
      ensures root != null && Under(m, root)
      decreases m.rank
    {
      if m != root {
        assert Local(m);
        assert UpLink(m);
        AllReachable(m.parent);
      }
    }

    /** A proper descendant lies under one of the children. */
    lemma {:induction false} UnderChild(m: Node<V>, n: Node<V>) returns (i: nat)
      requires Valid() && m in all && n in all && Under(m, n) && m != n
      ensures i < |n.children| && Under(m, n.children[i])
      decreases m.rank
    {
      assert UpLink(m) && Local(m);
      if m.parent == n {
        i :| 0 <= i < |n.children| && n.children[i] == m;
      } else {
        i := UnderChild(m.parent, n);
      }
    }

    lemma {:induction false} ChildUnder(m: Node<V>, n: Node<V>, i: nat)
      requires Valid() && m in all && n in all && i < |n.children| && Under(m, n.children[i])
      ensures Under(m, n) && m != n
      decreases m.rank
    {
      var c := n.children[i];
      assert Local(n) && IsChild(c, n) && Local(c);
      assert c != root;
      UnderRank(m, c);
      assert UpLink(m);
      if m != c {
        ChildUnder(m.parent, n, i);
      }
    }

    /** No node lies under two different children of one node. */
    lemma {:induction false} Apart(m: Node<V>, n: Node<V>, i: nat, j: nat)
      requires Valid() && m in all && n in all && i < |n.children| && j < |n.children|
      requires Under(m, n.children[i]) && Under(m, n.children[j])
      ensures i == j
      decreases m.rank
    {
      var c, d := n.children[i], n.children[j];
      assert Local(n) && IsChild(c, n) && IsChild(d, n);
      if m != c && m != d {
        assert UpLink(m);
        Apart(m.parent, n, i, j);
      } else if c != d {
        assert UpLink(m);
        UnderRank(n, if m == c then d else c);
      }
    }

    /** The nodes under the first k children of n. */
    ghost function Below(n: Node<V>, k: nat): set<Node<V>>
      requires Valid() && n in all && k <= |n.children|
      reads this, all
    {
      if k == 0 then {} else Below(n, k - 1) + Subtree(n.children[k - 1])
    }

    lemma {:induction false} BelowWhich(n: Node<V>, k: nat, m: Node<V>) returns (i: nat)
      requires Valid() && n in all && k <= |n.children| && m in Below(n, k)
      ensures i < k && m in Subtree(n.children[i])
      decreases k
    {
      if m in Subtree(n.children[k - 1]) {
        i := k - 1;
      } else {
        i := BelowWhich(n, k - 1, m);
      }
    }

    lemma {:induction false} BelowHas(n: Node<V>, k: nat, m: Node<V>, i: nat)
      requires Valid() && n in all && i < k <= |n.children| && m in Subtree(n.children[i])
      ensures m in Below(n, k)
      decreases k
    {
      if i < k - 1 {
        BelowHas(n, k - 1, m, i);
      }
    }

    lemma BelowStep(n: Node<V>, k: nat)
      requires Valid() && n in all && k < |n.children|
      ensures Below(n, k) !! Subtree(n.children[k])
    {
      forall m | m in Below(n, k) ensures m !in Subtree(n.children[k]) {
        var i := BelowWhich(n, k, m);
        if m in Subtree(n.children[k]) {
          Apart(m, n, i, k);
        }
      }
    }

    lemma BelowAll(n: Node<V>)
      requires Valid() && n in all
      ensures Subtree(n) == Below(n, |n.children|) + {n} && n !in Below(n, |n.children|)
      ensures |Subtree(n)| == |Below(n, |n.children|)| + 1
    {
      var below := Below(n, |n.children|);
      forall m | m in below ensures m in Subtree(n) && m != n {
        var i := BelowWhich(n, |n.children|, m);
        ChildUnder(m, n, i);
      }
      forall m | m in Subtree(n) && m != n ensures m in below {
        var i := UnderChild(m, n);
        BelowHas(n, |n.children|, m, i);
      }
    }

    lemma ChildRank(n: Node<V>, i: nat)
      requires Valid() && n in all && i < |n.children|
      ensures n.children[i] in all && n.children[i].parent == n && n.rank < n.children[i].rank < bound
    {}

    /** One more child adds its whole subtree to the count. */
    lemma CountStep(n: Node<V>, k: nat)
      requires Valid() && n in all && k < |n.children|
      ensures n.children[k] in all && n.rank < n.children[k].rank < bound
      ensures |Below(n, k + 1)| == |Below(n, k)| + |Subtree(n.children[k])|
    {
      ChildRank(n, k);
      BelowStep(n, k);
    }

    lemma CountEnds(n: Node<V>)
      requires Valid() && n in all
      ensures |Below(n, 0)| == 0 && |Subtree(n)| == |Below(n, |n.children|)| + 1 && n.rank < bound
    {
      BelowAll(n);
      assert Below(n, 0) == {};
      assert Local(n);
    }

    /** tree_count_children: the number of proper descendants. */
    method CountChildren(node: Node?<V>) returns (out: nat)
      requires Valid() && (node == null || node in all)
      ensures out == if node == null then 0 else Count(node)
      decreases if node == null then 0 else bound - node.rank
    {
      if node == null {
        return 0;
      }
      CountEnds(node);
      out := |node.children|;
      for k := 0 to |node.children|
        invariant Count(node) == out + CountFrom(node, k)
      {
        ChildRank(node, k);
        var below := CountChildren(node.children[k]);
        out := out + below;
      }
    }

    /** The recursion of the count: the children, and what is below each from the k-th on. */
    ghost function Count(n: Node<V>): nat
      requires Valid() && n in all
      reads this, all
      decreases bound - n.rank, |n.children| + 1
    {
      CountEnds(n);
      |n.children| + CountFrom(n, 0)
    }

    ghost function CountFrom(n: Node<V>, k: nat): nat
      requires Valid() && n in all && k <= |n.children|
      reads this, all
      decreases bound - n.rank, |n.children| - k
    {
      if k == |n.children| then 0 else ChildRank(n, k); Count(n.children[k]) + CountFrom(n, k + 1)
    }

    /** The count is the number of nodes in the subtree besides its root. */
    lemma {:induction false} CountIsSize(n: Node<V>)
      requires Valid() && n in all
      ensures Count(n) == |Subtree(n)| - 1
      decreases bound - n.rank, |n.children| + 1
    {
      CountEnds(n);
      CountFromIsSize(n, 0);
    }

    lemma {:induction false} CountFromIsSize(n: Node<V>, k: nat)
      requires Valid() && n in all && k <= |n.children|
      ensures CountFrom(n, k) == |Below(n, |n.children|)| - |Below(n, k)| - (|n.children| - k)
      decreases bound - n.rank, |n.children| - k
    {
      if k < |n.children| {
        CountStep(n, k);
        CountIsSize(n.children[k]);
        CountFromIsSize(n, k + 1);
      }
    }

    // ---- removing a branch ----

    /** list_find on a child list. */
    method IndexOfChild(parent: Node<V>, node: Node<V>) returns (i: nat)
      requires node in parent.children
      ensures i < |parent.children| && parent.children[i] == node
    {
      i := 0;
      while parent.children[i] != node
        invariant i < |parent.children| && node !in parent.children[..i]
        decreases |parent.children| - i
      {
        i := i + 1;
      }
    }

    /** tree_node_remove. The root: the tree is empty, but the code then goes on to remove the node from a
        null parent, and `ok` is false. Below the root: the whole branch leaves the tree, and the count
        drops by exactly its size. */
    method Remove(node: Node<V>) returns (ok: bool)
      requires Valid() && node in all
      modifies this, all`children
      ensures Valid() && (ok <==> node != old(root))
      ensures !ok ==> root == null && all == {}
      ensures ok ==> all == old(all) - old(Subtree(node)) && root == old(root)
      ensures ok ==> nodes == old(nodes) - |old(Subtree(node))|
      ensures ok ==> node.parent != null && node.parent.children == old(Without(node.parent.children, node))
      ensures ok ==> forall n :: n in old(all) && n != node.parent ==> n.children == old(n.children)
    {
      assert Local(node);
      if node.parent == null {
        if node == root {
          nodes, root, all := 0, null, {};
        }
        return false;
      }
      RootHasNoParent();
      RemoveBelow(node);
      ok := true;
    }

    lemma RootHasNoParent()
      requires Valid() && root != null
      ensures root.parent == null
    {}

    /** tree_node_parent_remove */
    method RemoveBelow(node: Node<V>)
      requires Valid() && node in all && node != root && node.parent != null
      modifies this`nodes, this`all, node.parent`children
      ensures Valid() && all == old(all) - old(Subtree(node))
      ensures nodes == old(nodes) - |old(Subtree(node))|
      ensures node.parent.children == old(Without(node.parent.children, node))
    {
      ghost var branch := Subtree(node);
      var below := CountChildren(node);
      CountIsSize(node);
      BranchClosed(node);
      BranchParts(node);
      nodes := nodes - (below + 1);
      hide Under, Count;
      var i := IndexOfChild(node.parent, node);
      Cut(node.parent, node, i, branch);
    }

    lemma BranchParts(node: Node<V>)
      requires Valid() && node in all && node != root
      ensures node in Subtree(node) && Subtree(node) <= all && |all - Subtree(node)| == |all| - |Subtree(node)|
      ensures root != null && node.parent != null && node.parent in all && node in node.parent.children
    {
      assert Local(node);
    }

    /** list_delete of the branch from its parent's children. */
    method Cut(parent: Node<V>, node: Node<V>, i: nat, ghost branch: set<Node<V>>)
      requires (forall n :: n in all ==> Local(n)) && nodes == |all| - |branch|
      requires root != null && root in all && root.parent == null && root !in branch
      requires node in branch && branch <= all && parent in all - branch && node.parent == parent
      requires i < |parent.children| && parent.children[i] == node
      requires forall n {:trigger n in branch} :: n in all && n != root && n != node ==>
        (n in branch <==> n.parent in branch)
      modifies this`all, parent`children
      ensures Valid() && all == old(all) - branch
      ensures parent.children == old(Without(parent.children, node))
    {
      assert Local(parent);
      WithoutAt(parent.children, i);
      Drops(parent.children, i);
      parent.children := parent.children[..i] + parent.children[i + 1..];
      all := all - branch;
      forall n | n in all ensures Local(n) {
        assert old(Local(n));
        forall k | 0 <= k < |n.children| ensures IsChild(n.children[k], n) {
          var c := n.children[k];
          assert c in old(n.children) && old(IsChild(c, n));
          assert c in branch <==> c == node;
        }
      }
    }

    /** Dropping one of distinct elements keeps the others, and only them. */
    static lemma Drops<X>(s: seq<X>, i: nat)
      requires i < |s| && forall j, k :: 0 <= j < k < |s| ==> s[j] != s[k]
      ensures var t := s[..i] + s[i + 1..];
        && (forall x :: x in t <==> x in s && x != s[i])
        && (forall j, k :: 0 <= j < k < |t| ==> t[j] != t[k])
    {}

    /** The sequence without its (only) occurrence of x. */
    static ghost function Without<X>(s: seq<X>, x: X): seq<X> {
      if s == [] then [] else if s[0] == x then s[1..] else [s[0]] + Without(s[1..], x)
    }

    static lemma {:induction false} WithoutAt<X>(s: seq<X>, i: nat)
      requires i < |s| && forall j, k :: 0 <= j < k < |s| ==> s[j] != s[k]
      ensures Without(s, s[i]) == s[..i] + s[i + 1..]
    {
      if i > 0 {
        assert s[1..][i - 1] == s[i] && s[0] != s[i];
        WithoutAt(s[1..], i - 1);
        assert s[..i] + s[i + 1..] == [s[0]] + (s[1..][..i - 1] + s[1..][i..]);
      } else {
        assert s[..0] + s[1..] == s[1..];
      }
    }

    /** A node belongs to the branch exactly when it is its root or its parent belongs to it. */
    lemma BranchClosed(node: Node<V>)
      requires Valid() && node in all && node != root
      ensures root !in Subtree(node) && node.parent !in Subtree(node)
      ensures forall n {:trigger n in Subtree(node)} :: n in all && n != root && n != node ==>
        (n in Subtree(node) <==> n.parent in Subtree(node))
    {
      assert Local(node) && UpLink(node);
      AllReachable(node);
      UnderRank(node, root);
      if root in Subtree(node) {
        UnderRank(root, node);
      }
      if node.parent in Subtree(node) {
        UnderRank(node.parent, node);
      }
      forall n {:trigger n in Subtree(node)} | n in all && n != root && n != node
        ensures n in Subtree(node) <==> n.parent in Subtree(node)
      {
        assert Local(n) && UpLink(n);
      }
    }

    // ---- searching ----

    /** The subtree of n in pre-order, from its k-th child on, or with n itself in front. */
    ghost function PreOrder(n: Node<V>): seq<Node<V>>
      requires Valid() && n in all
      reads this, all
      decreases bound - n.rank, |n.children| + 1
    {
      CountEnds(n);
      [n] + PreOrderFrom(n, 0)
    }

    ghost function PreOrderFrom(n: Node<V>, k: nat): seq<Node<V>>
      requires Valid() && n in all && k <= |n.children|
      reads this, all
      decreases bound - n.rank, |n.children| - k
    {
      if k == |n.children| then []
      else
        ChildRank(n, k);
        PreOrder(n.children[k]) + PreOrderFrom(n, k + 1)
    }

    /** tree_node_find: the first node in pre-order whose value the comparator accepts, or null. */
    method NodeFind<S>(node: Node<V>, search: S, comparator: (V, S) -> bool) returns (found: Node?<V>)
      requires Valid() && node in all
      ensures found == Match(node, search, comparator)
      decreases bound - node.rank
    {
      CountEnds(node);
      if comparator(node.value, search) {
        return node;
      }
      for k := 0 to |node.children|
        invariant Match(node, search, comparator) == MatchFrom(node, k, search, comparator)
      {
        ChildRank(node, k);
        found := NodeFind(node.children[k], search, comparator);
        if found != null {
          return;
        }
      }
      found := null;
    }

    ghost function Match<S>(n: Node<V>, search: S, comparator: (V, S) -> bool): Node?<V>
      requires Valid() && n in all
      reads this, all
      decreases bound - n.rank, |n.children| + 1
    {
      CountEnds(n);
      if comparator(n.value, search) then n else MatchFrom(n, 0, search, comparator)
    }

    ghost function MatchFrom<S>(n: Node<V>, k: nat, search: S, comparator: (V, S) -> bool): Node?<V>
      requires Valid() && n in all && k <= |n.children|
      reads this, all
      decreases bound - n.rank, |n.children| - k
    {
      if k == |n.children| then null
      else
        ChildRank(n, k);
        var found := Match(n.children[k], search, comparator);
        if found != null then found else MatchFrom(n, k + 1, search, comparator)
    }

    /** The search by recursion finds the first match in the pre-order, and null exactly when there is none. */
    lemma {:induction false} MatchIsFirst<S>(n: Node<V>, search: S, comparator: (V, S) -> bool)
      requires Valid() && n in all
      ensures Match(n, search, comparator) == FirstIn(PreOrder(n), search, comparator)
      decreases bound - n.rank, |n.children| + 1
    {
      CountEnds(n);
      MatchFromIsFirst(n, 0, search, comparator);
      FirstInBoth([n], PreOrderFrom(n, 0), search, comparator);
    }

    lemma {:induction false} MatchFromIsFirst<S>(n: Node<V>, k: nat, search: S, comparator: (V, S) -> bool)
      requires Valid() && n in all && k <= |n.children|
      ensures MatchFrom(n, k, search, comparator) == FirstIn(PreOrderFrom(n, k), search, comparator)
      decreases bound - n.rank, |n.children| - k
    {
      if k < |n.children| {
        ChildRank(n, k);
        MatchIsFirst(n.children[k], search, comparator);
        MatchFromIsFirst(n, k + 1, search, comparator);
        FirstInBoth(PreOrder(n.children[k]), PreOrderFrom(n, k + 1), search, comparator);
      }
    }

    /** The first of ns whose value the comparator accepts; null exactly when it accepts none. */
    static ghost function FirstIn<S>(ns: seq<Node<V>>, search: S, comparator: (V, S) -> bool): (found: Node?<V>)
      reads ns
      ensures found == null <==> forall i :: 0 <= i < |ns| ==> !comparator(ns[i].value, search)
      ensures found != null ==> exists i ::
        && 0 <= i < |ns| && found == ns[i] && comparator(found.value, search)
        && forall j :: 0 <= j < i ==> !comparator(ns[j].value, search)
    {
      if ns == [] then null
      else if comparator(ns[0].value, search) then ns[0]
      else FirstIn(ns[1..], search, comparator)
    }

    static lemma {:induction false} FirstInBoth<S>(a: seq<Node<V>>, b: seq<Node<V>>, search: S,
                                                   comparator: (V, S) -> bool)
      ensures FirstIn(a + b, search, comparator) ==
        if FirstIn(a, search, comparator) != null then FirstIn(a, search, comparator)
        else FirstIn(b, search, comparator)
      decreases |a|
    {
      if a == [] {
        assert a + b == b;
      } else {
        assert (a + b)[1..] == a[1..] + b;
        FirstInBoth(a[1..], b, search, comparator);
      }
    }

    /** tree_node_find_parent: the parent of `needle` by searching down from `haystack`. */
    method FindParent(haystack: Node<V>, needle: Node<V>) returns (found: Node?<V>)
      requires Valid() && haystack in all
      ensures found == ParentBelow(haystack, needle)
      decreases bound - haystack.rank
    {
      CountEnds(haystack);
      for k := 0 to |haystack.children|
        invariant ParentBelow(haystack, needle) == ParentBelowFrom(haystack, 0, needle)
        invariant ParentBelowFrom(haystack, 0, needle) == ParentBelowFrom(haystack, k, needle)
      {
        ChildRank(haystack, k);
        if haystack.children[k] == needle {
          return haystack;
        }
        found := FindParent(haystack.children[k], needle);
        if found != null {
          return;
        }
      }
      found := null;
    }

    ghost function ParentBelow(n: Node<V>, m: Node<V>): Node?<V>
      requires Valid() && n in all
      reads this, all
      decreases bound - n.rank, |n.children| + 1
    {
      CountEnds(n);
      ParentBelowFrom(n, 0, m)
    }

    ghost function ParentBelowFrom(n: Node<V>, k: nat, m: Node<V>): Node?<V>
      requires Valid() && n in all && k <= |n.children|
      reads this, all
      decreases bound - n.rank, |n.children| - k
    {
      if k == |n.children| then null
      else
        ChildRank(n, k);
        if n.children[k] == m then n
        else
          var found := ParentBelow(n.children[k], m);
          if found != null then found else ParentBelowFrom(n, k + 1, m)
    }

    /** The search agrees with the parent a node itself stores: below n it finds exactly that, and
        elsewhere nothing. */
    lemma {:induction false} SearchAgrees(n: Node<V>, m: Node<V>)
      requires Valid() && n in all
      ensures ParentBelow(n, m) == if m in Subtree(n) && m != n then m.parent else null
      decreases bound - n.rank, |n.children| + 1
    {
      CountEnds(n);
      SearchAgreesFrom(n, 0, m);
      BelowAll(n);
    }

    lemma {:induction false} SearchAgreesFrom(n: Node<V>, k: nat, m: Node<V>)
      requires Valid() && n in all && k <= |n.children| && m !in Below(n, k)
      ensures ParentBelowFrom(n, k, m) == if m in Below(n, |n.children|) then m.parent else null
      decreases bound - n.rank, |n.children| - k
    {
      if k < |n.children| {
        FoundBelow(n, k, m);
        if n.children[k] != m {
          SearchAgrees(n.children[k], m);
          if m in Subtree(n.children[k]) {
            HasParent(m, n.children[k]);
            BelowHas(n, |n.children|, m, k);
          } else {
            SearchAgreesFrom(n, k + 1, m);
          }
        } else {
          BelowHas(n, |n.children|, m, k);
        }
      }
    }

    lemma HasParent(m: Node<V>, n: Node<V>)
      requires Valid() && m in Subtree(n) && m != n
      ensures m.parent != null
    {}

    lemma FoundBelow(n: Node<V>, k: nat, m: Node<V>)
      requires Valid() && n in all && k < |n.children| && m !in Below(n, k)
      ensures n.children[k] in all && n.children[k].parent == n && n.rank < n.children[k].rank < bound
      ensures m in Below(n, k + 1) <==> m in Subtree(n.children[k])
      ensures n.children[k] in Subtree(n.children[k])
    {}

    /** The pre-order lists exactly the nodes of the subtree. */
    lemma {:induction false} PreOrderCovers(n: Node<V>, m: Node<V>)
      requires Valid() && n in all
      ensures m in PreOrder(n) <==> m in Subtree(n)
      decreases bound - n.rank, |n.children| + 1
    {
      CountEnds(n);
      PreOrderFromCovers(n, 0, m);
      BelowAll(n);
    }

    lemma {:induction false} PreOrderFromCovers(n: Node<V>, k: nat, m: Node<V>)
      requires Valid() && n in all && k <= |n.children|
      ensures m in Below(n, |n.children|) <==> m in PreOrderFrom(n, k) || m in Below(n, k)
      decreases bound - n.rank, |n.children| - k
    {
      if k < |n.children| {
        ChildRank(n, k);
        PreOrderCovers(n.children[k], m);
        PreOrderFromCovers(n, k + 1, m);
      }
    }

    /** It lists each of them once. */
    lemma {:induction false} PreOrderOnce(n: Node<V>)
      requires Valid() && n in all
      ensures |PreOrder(n)| == |Subtree(n)|
      decreases bound - n.rank, |n.children| + 1
    {
      CountEnds(n);
      PreOrderFromOnce(n, 0);
    }

    lemma {:induction false} PreOrderFromOnce(n: Node<V>, k: nat)
      requires Valid() && n in all && k <= |n.children|
      ensures |PreOrderFrom(n, k)| == |Below(n, |n.children|)| - |Below(n, k)|
      decreases bound - n.rank, |n.children| - k
    {
      if k < |n.children| {
        CountStep(n, k);
        PreOrderOnce(n.children[k]);
        PreOrderFromOnce(n, k + 1);
      }
    }

    /** x comes before y: it lies above it, or to the left of it, under an earlier child of a common node. */
    ghost predicate Precedes(x: Node<V>, y: Node<V>)
      requires Valid() && x in all && y in all
      reads this, all
    {
      (x != y && Under(y, x)) || exists c, i, j :: c in all && Splits(c, i, j, x, y)
    }

    ghost predicate Splits(c: Node<V>, i: int, j: int, x: Node<V>, y: Node<V>)
      requires Valid() && c in all && x in all && y in all
      reads this, all
    {
      0 <= i < j < |c.children| && Under(x, c.children[i]) && Under(y, c.children[j])
    }

    /** Of any two entries the one listed first comes before the other. */
    lemma {:induction false} PreOrderSorted(n: Node<V>, p: nat, q: nat)
      requires Valid() && n in all && p < q < |PreOrder(n)|
      ensures PreOrder(n)[p] in all && PreOrder(n)[q] in all && Precedes(PreOrder(n)[p], PreOrder(n)[q])
      decreases bound - n.rank, |n.children| + 1
    {
      CountEnds(n);
      if p == 0 {
        PreOrderCovers(n, PreOrder(n)[q]);
        var y, i := ListedUnder(n, 0, q - 1);
        ChildUnder(y, n, i);
      } else {
        PreOrderFromSorted(n, 0, p - 1, q - 1);
      }
    }

    lemma {:induction false} PreOrderFromSorted(n: Node<V>, k: nat, p: nat, q: nat)
      requires Valid() && n in all && k <= |n.children| && p < q < |PreOrderFrom(n, k)|
      ensures var s := PreOrderFrom(n, k); s[p] in all && s[q] in all && Precedes(s[p], s[q])
      decreases bound - n.rank, |n.children| - k
    {
      ChildRank(n, k);
      var here := |PreOrder(n.children[k])|;
      if q < here {
        PreOrderSorted(n.children[k], p, q);
      } else if p >= here {
        PreOrderFromSorted(n, k + 1, p - here, q - here);
      } else {
        var x := PreOrder(n.children[k])[p];
        PreOrderCovers(n.children[k], x);
        var y, j := ListedUnder(n, k + 1, q - here);
        assert Splits(n, k, j, x, y);
      }
    }

    /** Which child an entry of the list from the k-th child on lies under. */
    lemma {:induction false} ListedUnder(n: Node<V>, k: nat, q: nat) returns (y: Node<V>, j: nat)
      requires Valid() && n in all && k <= |n.children| && q < |PreOrderFrom(n, k)|
      ensures y == PreOrderFrom(n, k)[q] && y in all && k <= j < |n.children| && Under(y, n.children[j])
      decreases |n.children| - k
    {
      ChildRank(n, k);
      var here := |PreOrder(n.children[k])|;
      if q < here {
        y, j := PreOrder(n.children[k])[q], k;
        PreOrderCovers(n.children[k], y);
      } else {
        y, j := ListedUnder(n, k + 1, q - here);
      }
    }

    /** The search finds an accepted node of the subtree that comes before every other one, and null exactly
        when there is none. */
    lemma MatchPrecedes<S>(n: Node<V>, search: S, comparator: (V, S) -> bool, m: Node<V>)
      requires Valid() && n in all && m in Subtree(n)
      ensures var f := Match(n, search, comparator);
        && (f != null ==> f in Subtree(n) && comparator(f.value, search))
        && (comparator(m.value, search) ==> f != null && (f == m || Precedes(f, m)))
    {
      var f, s := Match(n, search, comparator), PreOrder(n);
      MatchIsFirst(n, search, comparator);
      PreOrderCovers(n, m);
      var q :| 0 <= q < |s| && s[q] == m;
      if f != null {
        PreOrderCovers(n, f);
        var p :| 0 <= p < |s| && s[p] == f && forall j :: 0 <= j < p ==> !comparator(s[j].value, search);
        if p < q {
          PreOrderSorted(n, p, q);
        }
      }
    }
  }
}
