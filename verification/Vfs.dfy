/** The mount tree and the operations over it (kernel/vfs.c:15-24, 276-500). */
module Vfs {
  import opened Wrappers
  import opened CStrings
  import opened Paths
  import opened MountSpec
  import T = Trees

  /** One entry of the mount tree. */
  datatype Entry = Entry(name: string, file: Option<VfsNode>)

  type Node = T.Node<Entry>

  // ---- path buffers with every separator cut ----

  /** The buffer holds s with a NUL in place of every separator. */
  ghost predicate CutUp(buf: seq<char>, s: string) {
    && |s| < |buf| && buf[|s|] == NUL
    && forall k :: 0 <= k < |s| ==> s[k] != NUL && buf[k] == if s[k] == SEPARATOR then NUL else s[k]
  }

  /** Cuts the path up in place and counts its separators. */
  method CutPath(buf: array<char>, len: nat, ghost s: string) returns (depth: nat)
    requires Holds(buf[..], s, 0) && len == |s|
    modifies buf
    ensures CutUp(buf[..], s) && depth == Separators(s, 0)
  {
    depth := 0;
    for i := 0 to len
      invariant depth + Separators(s, i) == Separators(s, 0)
      invariant Holds(buf[..], s, i)
      invariant forall k :: 0 <= k < i ==> s[k] != NUL && buf[k] == if s[k] == SEPARATOR then NUL else s[k]
    {
      if buf[i] == SEPARATOR {
        buf[i] := NUL;
        depth := depth + 1;
      }
    }
  }

  lemma PieceHeld(buf: seq<char>, s: string, at: nat)
    requires CutUp(buf, s) && at <= |s|
    ensures Holds(buf, s[..RunEnd(s, SEPS, at)], at)
  {
    RunEndStops(s, SEPS, at);
  }

  /** The C string found at a position of the cut buffer. */
  method PieceAt(buf: array<char>, at: nat, ghost s: string) returns (w: string)
    requires CutUp(buf[..], s) && at <= |s|
    ensures w == s[at..RunEnd(s, SEPS, at)]
  {
    PieceHeld(buf[..], s, at);
    var n := StrLen(buf, at, s[..RunEnd(s, SEPS, at)]);
    w := buf[at..at + n];
  }

  ghost predicate Closed(ks: set<Path>) {
    forall q :: q in ks && q != [] ==> q[..|q| - 1] in ks
  }

  /** A path and all the paths above it. */
  ghost function Prefixes(p: Path): set<Path> {
    if p == [] then {[]} else {p} + Prefixes(p[..|p| - 1])
  }

  lemma PrefixesStep(p: Path, name: string)
    ensures Prefixes(p + [name]) == Prefixes(p) + {p + [name]}
  {}

  lemma {:induction false} PrefixesAre(p: Path, q: Path)
    ensures q in Prefixes(p) <==> q <= p
    decreases |p|
  {
    if p == [] {
      assert q in Prefixes(p) <==> q == [];
    } else {
      assert q <= p <==> q == p || q <= p[..|p| - 1];
      PrefixesAre(p[..|p| - 1], q);
    }
  }

  /** Below a missing place there is nothing. */
  lemma {:induction false} NotBelow(ks: set<Path>, p: Path, k: nat, j: nat)
    requires Closed(ks) && k <= j <= |p| && p[..k] !in ks
    ensures p[..j] !in ks
    decreases j - k
  {
    if k < j {
      NotBelow(ks, p, k, j - 1);
      assert p[..j][..j - 1] == p[..j - 1];
    }
  }

  class Vfs {
    const tree: T.Tree<Entry>          // vfs_tree
    var rootNode: Option<VfsNode>      // vfs_root_node
    ghost var index: map<Path, Node>   // where each path leads
    ghost var pathOf: map<Node, Path>  // and back

    ghost predicate Valid()
      reads this, tree, tree.all
    {
      && tree.Valid() && tree.root != null
      && pathOf.Keys == tree.all && [] in index && index[[]] == tree.root
      && (forall n :: n in tree.all ==> Placed(n))
      && (forall p :: p in index ==> index[p] in tree.all && pathOf[index[p]] == p)
      && rootNode == tree.root.value.file
    }

    /** The node is where its path leads, and its path is its parent's with its own name added. */
    ghost predicate Placed(n: Node)
      requires n in pathOf
      reads this, tree, n
    {
      && pathOf[n] in index && index[pathOf[n]] == n
      && (n != tree.root ==>
            n.parent != null && n.parent in pathOf && pathOf[n] == pathOf[n.parent] + [n.value.name])
    }

    /** The mounted files by path: what the tree denotes. */
    ghost function Mounts(): Bindings
      requires Valid()
      reads this, tree, tree.all
    {
      map p | p in index && index[p].value.file.Some? :: index[p].value.file.value
    }

    /** vfs_init: a tree with an empty root. */
    constructor ()
      ensures Valid() && fresh(tree) && fresh(tree.all) && Mounts() == map[] && index.Keys == {[]}
    {
      tree := new T.Tree<Entry>();
      rootNode := None;
      new;
      tree.SetRoot(Entry("[root]", None));
      index := map[[] := tree.root];
      pathOf := map[tree.root := []];
      assert Valid();
      MountsAre(map[]);
    }

    /** A child with the name exists exactly when the longer path leads somewhere, and then there. */
    lemma ChildIsIndexed(n: Node, i: nat)
      requires Valid() && n in tree.all && i < |n.children|
      ensures n.children[i] in tree.all
      ensures var q := pathOf[n] + [n.children[i].value.name];
        q in index && index[q] == n.children[i]
    {}

    /** No two children of a node have the same name. */
    lemma SiblingsDiffer(n: Node, i: nat, j: nat)
      requires Valid() && n in tree.all && i < j < |n.children|
      ensures n.children[i].value.name != n.children[j].value.name
    {
      ChildIsIndexed(n, i);
      ChildIsIndexed(n, j);
      assert tree.Local(n);
    }

    lemma IndexedIsChild(n: Node, name: string) returns (i: nat)
      requires Valid() && n in tree.all && pathOf[n] + [name] in index
      ensures i < |n.children| && n.children[i].value.name == name
      ensures index[pathOf[n] + [name]] == n.children[i]
    {
      var q := pathOf[n] + [name];
      var m := index[q];
      assert Placed(m) && Placed(n) && tree.Local(m);
      assert pathOf[m] == q && q != [];
      assert pathOf[m.parent] == q[..|q| - 1] == pathOf[n];
      assert Placed(m.parent);
      i :| 0 <= i < |n.children| && n.children[i] == m;
    }

    /** The search among a node's children for one with the name. */
    method FindChild(node: Node, name: string, ghost q: Path) returns (child: T.Node?<Entry>)
      requires Valid() && node in tree.all && q == pathOf[node] + [name]
      ensures child == if q in index then index[q] else null
    {
      for i := 0 to |node.children|
        invariant forall k :: 0 <= k < i ==> node.children[k].value.name != name
      {
        ChildIsIndexed(node, i);
        if node.children[i].value.name == name {
          return node.children[i];
        }
      }
      if q in index {
        ghost var i := IndexedIsChild(node, name);
      }
      child := null;
    }

    /** The mounts are determined by what lies at each indexed path. */
    lemma MountsAre(m: Bindings)
      requires Valid()
      requires forall p :: p in m <==> p in index && index[p].value.file.Some?
      requires forall p :: p in m ==> m[p] == index[p].value.file.value
      ensures Mounts() == m
    {}

    /** A fresh, unmounted entry under `node`. */
    method MakeChild(node: Node, name: string, ghost q: Path) returns (child: Node)
      requires Valid() && node in tree.all && q == pathOf[node] + [name] && q !in index
      modifies this`index, this`pathOf, tree, tree.all`children
      ensures Valid() && fresh(child) && tree.all == old(tree.all) + {child}
      ensures index == old(index)[q := child] && child.value == Entry(name, None)
      ensures Mounts() == old(Mounts())
    {
      hide Vfs.Valid, Vfs.Mounts;
      child := Graft(node, name);
      SameMounts(q);
    }

    /** One more place without a file leaves the mounts as they were. */
    twostate lemma SameMounts(q: Path)
      requires old(Valid()) && Valid() && q !in old(index) && q in index && index == old(index)[q := index[q]]
      requires index[q].value.file == None && forall n :: n in old(tree.all) ==> n.value == old(n.value)
      ensures Mounts() == old(Mounts())
    {
      hide T.Tree.Valid, Vfs.Placed;
      assert forall p :: p in old(index) ==> p in index && index[p].value == old(index[p].value);
      MountsAre(old(Mounts()));
    }

    method Graft(node: Node, name: string) returns (child: Node)
      requires Valid() && node in tree.all && pathOf[node] + [name] !in index
      modifies this`index, this`pathOf, tree, tree.all`children
      ensures Valid() && fresh(child) && tree.all == old(tree.all) + {child}
      ensures index == old(index)[old(pathOf)[node] + [name] := child] && child.value == Entry(name, None)
    {
      ghost var all := tree.all;
      assert Placed(node);
      child := tree.InsertChild(node, Entry(name, None));
      forall n | n in all ensures Placed(n) {
        assert old(Placed(n));
      }
      Reindex(all, node, child);
    }

    /** The new child is filed under its parent's path and its own name. */
    ghost method Reindex(all: set<Node>, node: Node, child: Node)
      requires tree.Valid() && tree.root != null && tree.all == all + {child} && child !in all && node in all
      requires pathOf.Keys == all && [] in index && index[[]] == tree.root && child != tree.root
      requires forall n :: n in all ==> Placed(n)
      requires forall p :: p in index ==> index[p] in all && pathOf[index[p]] == p
      requires rootNode == tree.root.value.file && child.parent == node
      requires pathOf[node] + [child.value.name] !in index
      modifies this`index, this`pathOf
      ensures Valid() && index == old(index)[old(pathOf)[node] + [child.value.name] := child]
    {
      hide T.Tree.Valid;
      ghost var q := pathOf[node] + [child.value.name];
      index := index[q := child];
      pathOf := pathOf[child := q];
      forall n | n in tree.all ensures Placed(n) {
        if n != child {
          assert old(Placed(n));
        }
      }
    }

    /** One step of vfs_mount's walk: the child with the name, made if it does not exist. */
    method Descend(node: Node, name: string, ghost q: Path) returns (next: Node)
      requires Valid() && node in tree.all && q == pathOf[node] + [name]
      modifies this`index, this`pathOf, tree, tree.all`children
      ensures Valid() && Mounts() == old(Mounts()) && fresh(tree.all - old(tree.all))
      ensures q in index && next == index[q] && old(tree.all) <= tree.all
      ensures q in old(index) ==> unchanged(this) && unchanged(tree) && unchanged(tree.all)
      ensures q !in old(index) ==> index == old(index)[q := next] && next.value.file == None
    {
      hide Vfs.Valid, Vfs.Mounts, T.Tree.Valid;
      var child := FindChild(node, name, q);
      if child != null {
        next := child;
      } else {
        next := MakeChild(node, name, q);
      }
    }

    /** Whatever lies below a place has that place above it in the tree. */
    lemma IndexClosed()
      requires Valid()
      ensures Closed(index.Keys)
    {}

    /** Going from the tree with keys ks and nodes all, the walk has reached `done`. */
    ghost predicate Walked(ks: set<Path>, all: set<Node>, done: Path, node: Node)
      requires Valid()
      reads this, tree, tree.all
    {
      && done in index && index[done] == node
      && index.Keys == ks + Prefixes(done)
      && all <= tree.all
      && (if done in ks then index.Keys == ks && tree.all == all else node.value.file == None)
    }

    lemma StartWalk()
      requires Valid()
      ensures tree.root != null && Walked(index.Keys, tree.all, [], tree.root) && Closed(index.Keys)
    {}

    lemma WalkedNode(ks: set<Path>, all: set<Node>, done: Path, node: Node)
      requires Valid() && Walked(ks, all, done, node)
      ensures node in tree.all && pathOf[node] == done && node == index[done]
    {}

    /** vfs_mount's walk along the cut path; missing entries are made on the way. */
    method WalkOrMake(p: array<char>, len: nat, ghost s: string) returns (node: Node)
      requires Valid() && CutUp(p[..], s) && len == |s| >= 1
      modifies this`index, this`pathOf, tree, tree.all`children
      ensures Valid() && Mounts() == old(Mounts()) && fresh(tree.all - old(tree.all))
      ensures Walked(old(index.Keys), old(tree.all), Pieces(s, 1), node)
      ensures Pieces(s, 1) in old(index) ==> unchanged(this) && unchanged(tree) && unchanged(tree.all)
    {
      hide *;
      StartWalk();
      ghost var ks, all := index.Keys, tree.all;
      var at := 1;
      node := tree.root;
      ghost var done: Path := [];
      ghost var cut := p[..];
      assert [] + Pieces(s, 1) == Pieces(s, 1);
      while at < len
        invariant 1 <= at && Valid() && Mounts() == old(Mounts()) && fresh(tree.all - all)
        invariant Walked(ks, all, done, node) && done + Pieces(s, at) == Pieces(s, 1)
        invariant p[..] == cut
        invariant done in ks ==> unchanged(this) && unchanged(tree) && unchanged(tree.all)
        decreases |s| - at
      {
        var name := PieceAt(p, at, s);
        PieceStep(s, at, at + |name|);
        assert done + ([name] + Pieces(s, at + |name| + 1)) == done + [name] + Pieces(s, at + |name| + 1);
        node := Advance(node, name, ks, all, done);
        done := done + [name];
        at := at + |name| + 1;
      }
      PiecesEnd(s, at);
      assert done == Pieces(s, 1);
    }

    method Advance(node: Node, name: string, ghost ks: set<Path>, ghost all: set<Node>, ghost done: Path)
      returns (next: Node)
      requires Valid() && Closed(ks) && Walked(ks, all, done, node)
      modifies this`index, this`pathOf, tree, tree.all`children
      ensures Valid() && Mounts() == old(Mounts()) && fresh(tree.all - old(tree.all))
      ensures Walked(ks, all, done + [name], next)
      ensures done + [name] in ks ==> done in ks && unchanged(this) && unchanged(tree) && unchanged(tree.all)
    {
      hide Vfs.Valid, Vfs.Mounts;
      ghost var q := done + [name];
      assert q[..|q| - 1] == done;
      PrefixesStep(done, name);
      PrefixesAre(done, q);
      WalkedNode(ks, all, done, node);
      next := Descend(node, name, q);
    }

    /** Mounts a file at the place p, which holds none yet. */
    method SetFile(node: Node, file: Option<VfsNode>, ghost p: Path)
      requires Valid() && p in index && index[p] == node && node.value.file == None
      modifies this`rootNode, node`value
      ensures Valid()
      ensures Mounts() == if file.None? then old(Mounts()) else old(Mounts())[p := file.value]
    {
      ghost var m := Mounts();
      MountsMean();
      AtRoot(p);
      node.value := node.value.(file := file);
      if node == tree.root {
        rootNode := file;
      }
      KeepsPlaces(node);
      hide Vfs.Valid, Vfs.Mounts, Vfs.Placed;
      MountsAre(if file.None? then m else m[p := file.value]);
    }

    lemma MountsMean()
      requires Valid()
      ensures forall q :: q in Mounts() <==> q in index && index[q].value.file.Some?
      ensures forall q :: q in Mounts() ==> Mounts()[q] == index[q].value.file.value
    {}

    /** No two paths lead to the same node. */
    lemma AtRoot(p: Path)
      requires Valid() && p in index
      ensures index[p] in tree.all && forall q :: q in index && q != p ==> index[q] != index[p]
    {}

    /** Changing one entry's file moves nothing. */
    twostate lemma KeepsPlaces(node: Node)
      requires old(Valid()) && node in tree.all && tree.all == old(tree.all)
      requires forall n :: n in tree.all && n != node ==> unchanged(n)
      requires node.value.name == old(node.value.name) && node.parent == old(node.parent)
      requires node.children == old(node.children) && node.rank == old(node.rank)
      requires unchanged(tree) && unchanged(this`index) && unchanged(this`pathOf)
      requires rootNode == tree.root.value.file
      ensures Valid()
    {
      forall n | n in tree.all ensures Placed(n) && tree.Local(n) {
        assert old(Placed(n)) && old(tree.Local(n));
      }
    }

    /** The node vfs_mount looks at: the root for "/" or a doubled leading separator, otherwise the
        place its walk reaches. */
    method MountPlace(path: array<char>, ghost s: string) returns (node: Node)
      requires Valid() && Holds(path[..], s, 0) && s != "" && s[0] == SEPARATOR
      modifies this`index, this`pathOf, tree, tree.all`children
      ensures Valid() && Mounts() == old(Mounts()) && fresh(tree.all - old(tree.all))
      ensures Walked(old(index.Keys), old(tree.all), MountKey(s), node)
      ensures MountKey(s) in old(index) ==> unchanged(this) && unchanged(tree) && unchanged(tree.all)
    {
      hide Vfs.Valid, Vfs.Mounts, Vfs.Walked, Pieces;
      var p := Duplicate(path, s);
      var len := StrLen(path, 0, s);
      var depth := CutPath(p, len, s);
      if p[1] == NUL {
        StartWalk();
        node := tree.root;
        assert MountKey(s) == [];
      } else {
        assert MountKey(s) == Pieces(s, 1);
        node := WalkOrMake(p, len, s);
      }
    }

    /** vfs_mount. 2: the path is null or not absolute. 3: something is mounted there already, and
        the tree stays as it is. 0: exactly one mount is added, at a place now in the tree. */
    method Mount(path: array?<char>, file: Option<VfsNode>, ghost s: string) returns (ret: int)
      requires Valid() && (path != null ==> Holds(path[..], s, 0))
      modifies this, tree, tree.all
      ensures Valid() && fresh(tree.all - old(tree.all))
      ensures (Mounts(), ret) == MountStep(old(Mounts()), if path == null then None else Some(s), file)
      ensures ret == 2 <==> path == null || s == "" || s[0] != SEPARATOR
      ensures ret != 2 ==> ret == if MountKey(s) in old(Mounts()) then 3 else 0
      ensures ret == 0 ==> Mounts() == if file.None? then old(Mounts()) else old(Mounts())[MountKey(s) := file.value]
      ensures ret != 0 ==> unchanged(this) && unchanged(tree) && unchanged(tree.all)
      ensures ret == 0 ==> index.Keys == old(index.Keys) + Prefixes(MountKey(s))
    {
      hide Vfs.Valid, Vfs.Mounts, MountKey, Prefixes;
      if path == null || path[0] != SEPARATOR {
        return 2;
      }
      assert s != "" && s[0] == SEPARATOR;
      ret := MountAbsolute(path, file, s);
    }

    method MountAbsolute(path: array<char>, file: Option<VfsNode>, ghost s: string) returns (ret: int)
      requires Valid() && Holds(path[..], s, 0) && s != "" && s[0] == SEPARATOR
      modifies this, tree, tree.all
      ensures Valid() && fresh(tree.all - old(tree.all))
      ensures ret == if MountKey(s) in old(Mounts()) then 3 else 0
      ensures ret == 3 ==>
        unchanged(this) && unchanged(tree) && unchanged(tree.all) && Mounts() == old(Mounts())
      ensures ret == 0 ==> index.Keys == old(index.Keys) + Prefixes(MountKey(s))
      ensures ret == 0 ==> Mounts() == if file.None? then old(Mounts()) else old(Mounts())[MountKey(s) := file.value]
    {
      hide Vfs.Valid, Vfs.Mounts, Vfs.Walked, MountKey;
      ghost var key := MountKey(s);
      ghost var ks, all := index.Keys, tree.all;
      MountedIsIndexed(key);
      var node := MountPlace(path, s);
      WalkedTo(ks, all, key, node);
      if node.value.file.Some? {
        return 3;
      }
      SetFile(node, file, key);
      ret := 0;
    }

    lemma MountedIsIndexed(p: Path)
      requires Valid()
      ensures p in Mounts() <==> p in index && index[p].value.file.Some?
      ensures p in Mounts() ==> p in index.Keys
    {}

    lemma WalkedTo(ks: set<Path>, all: set<Node>, done: Path, node: Node)
      requires Valid() && Walked(ks, all, done, node)
      ensures node in tree.all && done in index && index[done] == node
      ensures done in Mounts() <==> node.value.file.Some?
      ensures index.Keys == ks + Prefixes(done)
      ensures node.value.file.Some? ==> index.Keys == ks && tree.all == all
    {}

    // ---- get_mount_point and kopen ----

    /** Where the cut path ends: past the NULs of the empty string in front and of every component. */
    method PathEnd(path: array<char>, pathDepth: nat, ghost p: Path) returns (end: nat)
      requires AllWordlike(p) && CutUp(path[..], Print(p)) && pathDepth == |p| > 0
      ensures end == Offset(p, |p|)
    {
      end := 0;
      for depth := 0 to pathDepth + 1
        invariant end == if depth == 0 then 0 else Offset(p, depth - 1)
      {
        if depth == 0 {
          PrintStarts(p);
          RunEndOf(Print(p), 0, 0);
        } else {
          ComponentAt(p, depth - 1);
        }
        var w := PieceAt(path, end, Print(p));
        OffsetEnds(p);
        end := end + |w| + 1;
      }
    }

    /** The component read at its offset, and where the next one starts. */
    method ComponentRead(path: array<char>, at: nat, ghost p: Path, ghost k: nat) returns (w: string, next: nat)
      requires AllWordlike(p) && CutUp(path[..], Print(p)) && k < |p| && at == Offset(p, k)
      ensures w == p[k] && next == Offset(p, k + 1)
    {
      ComponentAt(p, k);
      w := PieceAt(path, at, Print(p));
      next := at + |w| + 1;
    }

    /** How far the walk has come: at the place of the first k components, having last seen a mount at d. */
    ghost predicate Reached(p: Path, k: nat, node: Node, d: nat, last: Option<VfsNode>)
      requires Valid()
      reads this, tree, tree.all
    {
      && k <= |p| && p[..k] in index && index[p[..k]] == node
      && d == LongestMounted(Mounts(), p, k) && last == MountedAt(Mounts(), p[..d])
    }

    lemma StartReach(p: Path)
      requires Valid()
      ensures tree.root != null && Reached(p, 0, tree.root, 0, rootNode)
    {}

    lemma ReachedNode(p: Path, k: nat, node: Node, d: nat, last: Option<VfsNode>)
      requires Valid() && Reached(p, k, node, d, last) && k < |p|
      ensures node in tree.all && p[..k + 1] == pathOf[node] + [p[k]] && d <= k
    {}

    /** Into an existing child; it becomes the last mount seen when a file is mounted there. */
    lemma ReachNext(p: Path, k: nat, node: Node, d: nat, last: Option<VfsNode>)
      requires Valid() && Reached(p, k, node, d, last) && k < |p| && p[..k + 1] in index
      ensures var child := index[p[..k + 1]];
        if child.value.file.Some? then Reached(p, k + 1, child, k + 1, child.value.file)
        else Reached(p, k + 1, child, d, last)
    {}

    /** Where the tree goes no further, the last mount seen is the deepest there is. */
    lemma ReachedAll(p: Path, k: nat, node: Node, d: nat, last: Option<VfsNode>)
      requires Valid() && Reached(p, k, node, d, last) && (k == |p| || p[..k + 1] !in index)
      ensures d == LongestMounted(Mounts(), p, |p|) && last == MountedAt(Mounts(), p[..d])
    {
      hide Vfs.Valid, Vfs.Mounts, LongestMounted, MountedAt, Closed;
      IndexClosed();
      forall j | k < j <= |p| ensures p[..j] !in Mounts() {
        NotBelow(index.Keys, p, k + 1, j);
        MountedIsIndexed(p[..j]);
      }
      LongestFrom(Mounts(), p, k, |p|);
    }

    /** get_mount_point: the file mounted at the longest mounted prefix, that prefix's length, and where
        the first component after it starts in the buffer. */
    method GetMountPoint(path: array<char>, pathDepth: nat, offset: nat, ghost p: Path)
      returns (last: Option<VfsNode>, outpath: nat, outdepth: nat)
      requires Valid() && AllWordlike(p) && CutUp(path[..], Print(p)) && pathDepth == |p| > 0 && offset == 1
      ensures outdepth == LongestMounted(Mounts(), p, |p|)
      ensures last == MountedAt(Mounts(), p[..outdepth])
      ensures outpath == Offset(p, outdepth)
    {
      hide *;
      OffsetEnds(p);
      StartReach(p);
      var end := PathEnd(path, pathDepth, p);
      last, outpath, outdepth := rootNode, offset, 0;
      var node: Node := tree.root;
      var at, depth := offset, 1;
      while at < end
        invariant 1 <= depth <= |p| + 1 && outdepth < depth
        invariant at == Offset(p, depth - 1) && outpath == Offset(p, outdepth)
        invariant Reached(p, depth - 1, node, outdepth, last)
        decreases |p| + 1 - depth
      {
        OffsetsGrow(p, depth - 1);
        var w, next := ComponentRead(path, at, p, depth - 1);
        ReachedNode(p, depth - 1, node, outdepth, last);
        var child := FindChild(node, w, p[..depth]);
        if child == null {
          break;
        }
        ReachNext(p, depth - 1, node, outdepth, last);
        node := child;
        at := next;
        if node.value.file.Some? {
          outdepth, last, outpath := depth, node.value.file, at;
        }
        depth := depth + 1;
      }
      OffsetsGrow(p, depth - 1);
      ReachedAll(p, depth - 1, node, outdepth, last);
    }

    /** kopen: canonicalize against "/", take the longest mounted prefix, and follow the remaining
        components with finddir; the open callback runs exactly on what that walk finds. */
    method Kopen(filename: array?<char>, finddir: Finddir, ghost s: string) returns (r: Opened)
      requires Valid() && (filename != null ==> Holds(filename[..], s, 0))
      ensures r == if filename == null then Missing else Lookup(Mounts(), Components("/", s), finddir)
    {
      if filename == null {
        return Missing;
      }
      hide *;
      ghost var p := Components("/", s);
      var cwd := RootPath();
      CanonicalText("/", s);
      var path := CanonicalizePath(cwd, filename, "/", s);
      var pathLen := StrLen(path, 0, Canonical("/", s));
      if pathLen == 1 {
        RootLookup(finddir);
        return match rootNode case None => NullCopy case Some(n) => Found(n, false);
      }
      var pathDepth := CutPath(path, pathLen, Print(p));
      r := OpenBelow(path, pathLen, pathDepth, finddir, p);
    }

    /** The working directory kopen uses. */
    method RootPath() returns (cwd: array<char>)
      ensures fresh(cwd) && Holds(cwd[..], "/", 0)
    {
      cwd := new char[2];
      cwd[0], cwd[1] := SEPARATOR, NUL;
    }

    lemma RootLookup(finddir: Finddir)
      requires Valid()
      ensures Lookup(Mounts(), [], finddir) == match rootNode case None => NullCopy case Some(n) => Found(n, false)
    {}

    /** The rest of kopen, on a path of at least one component. */
    method OpenBelow(path: array<char>, pathLen: nat, pathDepth: nat, finddir: Finddir, ghost p: Path)
      returns (r: Opened)
      requires Valid() && AllWordlike(p) && CutUp(path[..], Print(p)) && pathLen == |Print(p)| && pathDepth == |p| > 0
      ensures r == Lookup(Mounts(), p, finddir)
    {
      hide Vfs.Valid, Vfs.Mounts, CutUp, AllWordlike, Offset, Print, Walk, LongestMounted;
      var mountPoint, offset, depth := GetMountPoint(path, pathDepth, 1, p);
      ghost var d, m := depth, mountPoint;
      OffsetsGrow(p, d);
      if offset >= pathLen {
        return match mountPoint case None => NullCopy case Some(n) => Found(n, false);
      }
      if mountPoint == None {
        return NullCopy;
      }
      var node := mountPoint.value;
      while depth < pathDepth
        invariant d <= depth < pathDepth && offset == Offset(p, depth)
        invariant Walk(node, p[depth..], finddir) == Walk(m.value, p[d..], finddir)
        decreases pathDepth - depth
      {
        var name, next := ComponentRead(path, offset, p, depth);
        WalkStep(node, p, depth, finddir);
        match FinddirVfs(node, name, finddir) {
          case None =>
            return Missing;
          case Some(found) =>
            node := found;
            if depth == pathDepth - 1 {
              return Found(node, true);
            }
        }
        offset := next;
        depth := depth + 1;
      }
      assert false;  // the loop only ends by returning
    }

    /** What a successful mount mounted is found by opening the same path exactly when vfs_mount took the
        path as kopen does, or the same file was mounted there already. */
    method OpenAfterMount(path: array<char>, n: VfsNode, finddir: Finddir, ghost s: string)
      returns (ret: int, r: Opened)
      requires Valid() && Holds(path[..], s, 0)
      modifies this, tree, tree.all
      ensures Valid()
      ensures ret == 0 ==> var p := Components("/", s);
        r == Found(n, false) <==> MountsWhereOpened(s) || (p in old(Mounts()) && old(Mounts())[p] == n)
    {
      hide Vfs.Valid, Vfs.Mounts, MountKey, Components, Lookup, MountsWhereOpened;
      ghost var b, text := Mounts(), path[..];
      ret := Mount(path, Some(n), s);
      assert path[..] == text;
      r := Kopen(path, finddir, s);
      if ret == 0 {
        MountThenOpen(b, s, n, finddir);
      }
    }
  }
}
