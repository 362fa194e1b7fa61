/** What mounting and opening mean (kernel/vfs.c:276-500), in terms of component lists. */
module MountSpec {
  import opened Wrappers
  import opened CStrings
  import opened Paths

  /** A file system node; `ops` stands for its callbacks, which the model does not look into. */
  datatype VfsNode = VfsNode(name: string, isDirectory: bool, hasFinddir: bool, ops: int)

  type Bindings = map<Path, VfsNode>

  /** The driver callback that finds a name in a directory. */
  type Finddir = (VfsNode, string) -> Option<VfsNode>

  // ---- how vfs_mount reads a path ----

  /** The stretches between separators from position i on, empty ones included; what follows a
      separator at the very end is not a stretch. */
  function Pieces(s: string, i: nat): Path
    decreases |s| - i
  {
    if i >= |s| then []
    else
      var e := RunEnd(s, SEPS, i);
      [s[i..e]] + Pieces(s, e + 1)
  }

  /** The place in the tree that mounting at s refers to: the root when nothing, or another separator,
      follows the first separator. */
  function MountKey(s: string): Path {
    if |s| < 2 || s[1] == SEPARATOR then [] else Pieces(s, 1)
  }

  function Separators(s: string, i: nat): nat
    decreases |s| - i
  {
    if i >= |s| then 0 else (if s[i] == SEPARATOR then 1 else 0) + Separators(s, i + 1)
  }

  // ---- what kopen finds ----

  /** The length of the longest mounted prefix among the first k components; 0 also when only the root
      could match. */
  function LongestMounted(b: Bindings, p: Path, k: nat): (r: nat)
    requires k <= |p|
    ensures r <= k && (r > 0 ==> p[..r] in b)
    ensures forall j :: r < j <= k ==> p[..j] !in b
  {
    if k == 0 || p[..k] in b then k else LongestMounted(b, p, k - 1)
  }

  function MountedAt(b: Bindings, p: Path): Option<VfsNode> {
    if p in b then Some(b[p]) else None
  }

  /** finddir_vfs: only directories with the callback can be searched. */
  function FinddirVfs(node: VfsNode, name: string, finddir: Finddir): Option<VfsNode> {
    if node.isDirectory && node.hasFinddir then finddir(node, name) else None
  }

  /** Following names one by one from a node. */
  function Walk(node: VfsNode, names: Path, finddir: Finddir): Option<VfsNode>
    decreases |names|
  {
    if names == [] then Some(node)
    else match FinddirVfs(node, names[0], finddir)
         case None => None
         case Some(next) => Walk(next, names[1..], finddir)
  }

  /** What kopen does: a copy of a node, with or without its open callback having run; NULL; or a copy
      from a null mount point, which C leaves undefined. */
  datatype Opened = Found(node: VfsNode, notified: bool) | Missing | NullCopy

  function Lookup(b: Bindings, p: Path, finddir: Finddir): Opened {
    var d := LongestMounted(b, p, |p|);
    match MountedAt(b, p[..d])
    case None => NullCopy
    case Some(m) =>
      if d == |p| then Found(m, false)
      else match Walk(m, p[d..], finddir)
           case None => Missing
           case Some(n) => Found(n, true)
  }

  /** vfs_mount on the bindings: what is bound afterwards, and the return code. */
  function MountStep(b: Bindings, path: Option<string>, file: Option<VfsNode>): (Bindings, int) {
    if path == None || path.value == "" || path.value[0] != SEPARATOR then (b, 2)
    else
      var key := MountKey(path.value);
      if key in b then (b, 3) else (if file == None then b else b[key := file.value], 0)
  }

  function MountAll(b: Bindings, ms: seq<(Option<string>, Option<VfsNode>)>): Bindings
    decreases |ms|
  {
    if ms == [] then b else MountAll(MountStep(b, ms[0].0, ms[0].1).0, ms[1..])
  }

  /** Over any run of mounts, whatever is bound stays bound to the same file. */
  lemma {:induction false} MountsStay(b: Bindings, ms: seq<(Option<string>, Option<VfsNode>)>, p: Path)
    requires p in b
    ensures p in MountAll(b, ms) && MountAll(b, ms)[p] == b[p]
    decreases |ms|
  {
    if ms != [] {
      MountsStay(MountStep(b, ms[0].0, ms[0].1).0, ms[1..], p);
    }
  }

  /** A call that mounts something at p: an absolute path that means p, and a file. */
  predicate MountsAt(m: (Option<string>, Option<VfsNode>), p: Path) {
    m.0.Some? && m.0.value != "" && m.0.value[0] == SEPARATOR && MountKey(m.0.value) == p && m.1.Some?
  }

  /** Call i is the first to mount something at p, and mounts n. */
  ghost predicate FirstMounts(ms: seq<(Option<string>, Option<VfsNode>)>, p: Path, n: VfsNode, i: int) {
    0 <= i < |ms| && MountsAt(ms[i], p) && ms[i].1 == Some(n) && forall j :: 0 <= j < i ==> !MountsAt(ms[j], p)
  }

  /** Over any run of mounts from an empty tree, a place is bound to the file of the first call that mounts
      something there, and to nothing when no call does. */
  lemma MountedFirst(ms: seq<(Option<string>, Option<VfsNode>)>, p: Path, n: VfsNode)
    ensures p in MountAll(map[], ms) && MountAll(map[], ms)[p] == n <==> exists i :: FirstMounts(ms, p, n, i)
  {
    MountedFrom(map[], ms, p, n);
  }

  lemma {:induction false} MountedFrom(b: Bindings, ms: seq<(Option<string>, Option<VfsNode>)>, p: Path, n: VfsNode)
    ensures p in MountAll(b, ms) && MountAll(b, ms)[p] == n <==>
      if p in b then b[p] == n else exists i :: FirstMounts(ms, p, n, i)
    decreases |ms|
  {
    if ms != [] {
      MountedFrom(MountStep(b, ms[0].0, ms[0].1).0, ms[1..], p, n);
      FirstMount(ms, p, n);
    }
  }

  lemma FirstMount(ms: seq<(Option<string>, Option<VfsNode>)>, p: Path, n: VfsNode)
    requires ms != []
    ensures (exists i :: FirstMounts(ms, p, n, i)) <==>
      if MountsAt(ms[0], p) then ms[0].1 == Some(n) else exists i :: FirstMounts(ms[1..], p, n, i)
  {
    if i :| FirstMounts(ms[1..], p, n, i) && !MountsAt(ms[0], p) {
      assert forall j :: 1 <= j < i + 1 ==> ms[j] == ms[1..][j - 1];
      assert FirstMounts(ms, p, n, i + 1);
    }
    if i :| FirstMounts(ms, p, n, i) && i > 0 {
      assert FirstMounts(ms[1..], p, n, i - 1);
    }
    if MountsAt(ms[0], p) && ms[0].1 == Some(n) {
      assert FirstMounts(ms, p, n, 0);
    }
  }

  lemma WalkStep(node: VfsNode, p: Path, k: nat, finddir: Finddir)
    requires k < |p|
    ensures Walk(node, p[k..], finddir) ==
      match FinddirVfs(node, p[k], finddir) case None => None case Some(n) => Walk(n, p[k + 1..], finddir)
    ensures forall n :: k == |p| - 1 ==> Walk(n, p[k + 1..], finddir) == Some(n)
  {}

  // ---- laws ----

  /** Once no longer prefix is mounted, the longest one does not change. */
  lemma {:induction false} LongestFrom(b: Bindings, p: Path, k: nat, n: nat)
    requires k <= n <= |p| && forall j :: k < j <= n ==> p[..j] !in b
    ensures LongestMounted(b, p, n) == LongestMounted(b, p, k)
    decreases n - k
  {}

  /** With a root mounted, opening never copies from a null mount point; without one it does exactly
      when no prefix of the path is mounted. */
  lemma NullCopyExactly(b: Bindings, p: Path, finddir: Finddir)
    ensures Lookup(b, p, finddir) == NullCopy <==> forall k :: 0 <= k <= |p| ==> p[..k] !in b
  {}

  /** A path that is itself mounted opens as a copy of what was mounted there. */
  lemma LookupMounted(b: Bindings, p: Path, finddir: Finddir)
    requires p in b
    ensures Lookup(b, p, finddir) == Found(b[p], false)
  {
    assert p[..|p|] == p;
  }

  /** Mounting somewhere else than at a prefix of a path does not change what the path opens to. */
  lemma LookupElsewhere(b: Bindings, q: Path, n: VfsNode, p: Path, finddir: Finddir)
    requires !(q <= p)
    ensures Lookup(b[q := n], p, finddir) == Lookup(b, p, finddir)
  {}

  /** From m the names lead to n: every node on the way is a directory that can be searched, and its
      callback finds the next one under the next name. */
  ghost predicate Leads(trail: seq<VfsNode>, m: VfsNode, names: Path, n: VfsNode, finddir: Finddir) {
    && |trail| == |names| + 1 && trail[0] == m && trail[|names|] == n
    && forall k :: 0 <= k < |names| ==>
         trail[k].isDirectory && trail[k].hasFinddir && finddir(trail[k], names[k]) == Some(trail[k + 1])
  }

  lemma {:induction false} WalkLeads(m: VfsNode, names: Path, n: VfsNode, finddir: Finddir)
    ensures Walk(m, names, finddir) == Some(n) <==> exists trail :: Leads(trail, m, names, n, finddir)
    decreases |names|
  {
    if names == [] {
      if m == n {
        assert Leads([m], m, names, n, finddir);
      }
    } else {
      var next := finddir(m, names[0]);
      if next.Some? {
        WalkLeads(next.value, names[1..], n, finddir);
      }
      if trail :| Leads(trail, m, names, n, finddir) {
        assert next == Some(trail[1]);
        assert Leads(trail[1..], trail[1], names[1..], n, finddir);
      }
      if Walk(m, names, finddir) == Some(n) {
        var trail :| Leads(trail, next.value, names[1..], n, finddir);
        assert Leads([m] + trail, m, names, n, finddir);
      }
    }
  }

  /** What opening finds below a mount point m, the deepest one on the path: the node its remaining names
      lead to, opened; nothing exactly when they lead to none. */
  lemma LookupBelow(b: Bindings, p: Path, d: nat, m: VfsNode, n: VfsNode, finddir: Finddir)
    requires d < |p| && p[..d] in b && b[p[..d]] == m && forall k :: d < k <= |p| ==> p[..k] !in b
    ensures Lookup(b, p, finddir) == Found(n, true) <==> exists trail :: Leads(trail, m, p[d..], n, finddir)
    ensures Lookup(b, p, finddir) == Missing <==> forall x, trail :: !Leads(trail, m, p[d..], x, finddir)
    ensures Lookup(b, p, finddir).Missing? || (Lookup(b, p, finddir).Found? && Lookup(b, p, finddir).notified)
  {
    assert LongestMounted(b, p, |p|) == d;
    WalkLeads(m, p[d..], n, finddir);
    match Walk(m, p[d..], finddir)
    case Some(x) => WalkLeads(m, p[d..], x, finddir);
    case None =>
      forall x, trail ensures !Leads(trail, m, p[d..], x, finddir) {
        WalkLeads(m, p[d..], x, finddir);
      }
  }

  // ---- mount keys and canonical paths ----

  function NonEmpty(p: Path): Path {
    if p == [] then [] else (if p[0] == "" then [] else [p[0]]) + NonEmpty(p[1..])
  }

  /** The tokenizer's words are the non-empty pieces. */
  lemma {:induction false} WordsArePieces(s: string, i: nat)
    requires i <= |s|
    ensures Words(s, SEPS, i) == NonEmpty(Pieces(s, i))
    decreases |s| - i
  {
    if i < |s| {
      var e := RunEnd(s, SEPS, i);
      PieceStep(s, i, e);
      NonEmptyStep(s[i..e], Pieces(s, e + 1));
      if e == i {
        WordsArePieces(s, i + 1);
      } else {
        WordsArePieces(s, After(s, e));
      }
    }
  }

  lemma NonEmptyStep(w: string, p: Path)
    ensures NonEmpty([w] + p) == (if w == "" then [] else [w]) + NonEmpty(p)
  {}

  ghost predicate NoneEmpty(p: Path) { forall k :: 0 <= k < |p| ==> p[k] != "" }

  lemma {:induction false} NonEmptyFixed(p: Path)
    ensures NoneEmpty(p) ==> NonEmpty(p) == p
  {
    if p != [] {
      NonEmptyFixed(p[1..]);
      if NoneEmpty(p) {
        assert p == [p[0]] + p[1..];
      }
    }
  }

  lemma {:induction false} NonEmptyShorter(p: Path)
    ensures |NonEmpty(p)| <= |p| && (!NoneEmpty(p) ==> |NonEmpty(p)| < |p|)
  {
    if p != [] {
      NonEmptyShorter(p[1..]);
      if p[0] != "" && NoneEmpty(p[1..]) {
        assert forall k :: 1 <= k < |p| ==> p[k] == p[1..][k - 1];
      }
    }
  }

  lemma PlainIff(q: Path)
    ensures q == Resolve([], NonEmpty(q)) <==> NoneEmpty(q) && NoDots(q)
  {
    var words := NonEmpty(q);
    NonEmptyFixed(q);
    NonEmptyShorter(q);
    ResolveFixed([], words);
    assert [] + words == words;
  }

  lemma AbsoluteComponents(s: string)
    requires |s| > 0 && s[0] == SEPARATOR
    ensures Components("/", s) == Resolve([], NonEmpty(Pieces(s, 1)))
  {
    WordsArePieces(s, 0);
    AbsolutePieces(s);
    assert Components("/", s) == Resolve([], Words(s, SEPS, 0));
  }

  lemma PieceStep(s: string, i: nat, e: nat)
    requires i < |s| && RunEnd(s, SEPS, i) == e
    ensures Pieces(s, i) == [s[i..e]] + Pieces(s, e + 1)
  {}

  lemma PiecesEnd(s: string, i: nat)
    requires i >= |s|
    ensures Pieces(s, i) == []
  {}

  lemma AbsolutePieces(s: string)
    requires |s| > 0 && s[0] == SEPARATOR
    ensures NonEmpty(Pieces(s, 0)) == NonEmpty(Pieces(s, 1))
  {}

  /** The place a path means to vfs_mount, without cutting: the root when nothing or another separator
      follows the first one; otherwise the components that print as the path itself, less one separator
      at the very end. */
  lemma MountKeyPrints(s: string)
    requires |s| > 0 && s[0] == SEPARATOR
    ensures |s| < 2 || s[1] == SEPARATOR ==> MountKey(s) == []
    ensures |s| >= 2 && s[1] != SEPARATOR ==>
      && Print(MountKey(s)) == (if s[|s| - 1] == SEPARATOR then s[..|s| - 1] else s)
      && forall k :: 0 <= k < |MountKey(s)| ==> SEPARATOR !in MountKey(s)[k]
  {
    if |s| >= 2 && s[1] != SEPARATOR {
      PiecesPrint(s, 1);
      var e := if s[|s| - 1] == SEPARATOR then |s| - 1 else |s|;
      assert [SEPARATOR] + s[1..e] == s[..e];
    }
  }

  lemma {:induction false} PiecesPrint(s: string, i: nat)
    requires i < |s|
    ensures var e := if s[|s| - 1] == SEPARATOR then |s| - 1 else |s|;
      Print(Pieces(s, i)) == [SEPARATOR] + s[i..e]
    ensures forall k :: 0 <= k < |Pieces(s, i)| ==> SEPARATOR !in Pieces(s, i)[k]
    decreases |s| - i
  {
    var e := RunEnd(s, SEPS, i);
    RunEndStops(s, SEPS, i);
    PieceStep(s, i, e);
    hide RunEnd, Pieces;
    var w, rest := s[i..e], Pieces(s, e + 1);
    assert SEPARATOR !in w && ([w] + rest)[1..] == rest;
    assert Print([w] + rest) == [SEPARATOR] + w + Print(rest);
    hide Print;
    if e + 1 < |s| {
      PiecesPrint(s, e + 1);
      var e' := if s[|s| - 1] == SEPARATOR then |s| - 1 else |s|;
      TextAround(s, i, e, e');
    } else {
      PiecesEnd(s, e + 1);
      PrintNone();
    }
  }

  lemma TextAround(s: string, i: nat, e: nat, e': nat)
    requires i <= e < e' <= |s| && s[e] == SEPARATOR
    ensures [SEPARATOR] + s[i..e] + ([SEPARATOR] + s[e + 1..e']) == [SEPARATOR] + s[i..e']
  {}

  lemma PrintNone()
    ensures Print([]) == ""
  {}

  /** Whether vfs_mount will take an absolute path for the place kopen looks for: no piece of it is empty,
      "." or ".." (one separator at the very end being harmless), or it starts with two separators and
      leads back to the root. */
  ghost predicate MountsWhereOpened(s: string) {
    if |s| > 1 && s[1] == SEPARATOR then ClimbsOut(Words(s, SEPS, 0))
    else NoneEmpty(Pieces(s, 1)) && NoDots(Pieces(s, 1))
  }

  /** vfs_mount does not canonicalize: that is exactly when it means the same place. */
  lemma MountKeyIsCanonical(s: string)
    requires |s| > 0 && s[0] == SEPARATOR
    ensures MountKey(s) == Components("/", s) <==> MountsWhereOpened(s)
  {
    AbsoluteComponents(s);
    PlainIff(Pieces(s, 1));
    var w := Words(s, SEPS, 0);
    BackToRoot([], w);
    assert w[0..] == w;
  }

  /** Where the k-th component starts in the printed path. */
  function Offset(p: Path, k: nat): nat
    requires k <= |p|
  {
    |Print(p[..k])| + 1
  }

  lemma {:induction false} RunEndOf(s: string, i: nat, e: nat)
    requires i <= e <= |s| && (forall k :: i <= k < e ==> s[k] != SEPARATOR) && (e < |s| ==> s[e] == SEPARATOR)
    ensures RunEnd(s, SEPS, i) == e
    decreases e - i
  {
    if i < e {
      RunEndOf(s, i + 1, e);
    }
  }

  lemma PrintAround(p: Path, k: nat)
    requires k < |p|
    ensures Print(p) == Print(p[..k]) + ([SEPARATOR] + p[k]) + Print(p[k + 1..])
    ensures Print(p[..k + 1]) == Print(p[..k]) + ([SEPARATOR] + p[k])
  {
    hide Print;
    PrintUpTo(p, k);
    assert p == p[..k + 1] + p[k + 1..];
    PrintAppend(p[..k + 1], p[k + 1..]);
  }

  /** What follows a component is nothing, or starts with a separator. */
  lemma PrintStarts(p: Path)
    ensures p != [] ==> Print(p) != "" && Print(p)[0] == SEPARATOR
  {}

  lemma Middle(a: string, w: string, b: string)
    ensures var s := a + ([SEPARATOR] + w) + b; var at := |a| + 1;
      && s[at - 1] == SEPARATOR && s[at..at + |w|] == w
      && (forall i :: at <= i < at + |w| ==> s[i] == w[i - at])
      && (b != "" ==> s[at + |w|] == b[0])
  {}

  /** In the printed path, the component at offset k runs up to the separator before the next one. */
  lemma ComponentAt(p: Path, k: nat)
    requires AllWordlike(p) && k < |p|
    ensures var s := Print(p); var at := Offset(p, k);
      && at + |p[k]| + 1 == Offset(p, k + 1) <= |s| + 1
      && s[at..at + |p[k]|] == p[k] && RunEnd(s, SEPS, at) == at + |p[k]|
      && s[at - 1] == SEPARATOR
  {
    var rest := Print(p[k + 1..]);
    PrintAround(p, k);
    PrintStarts(p[k + 1..]);
    Middle(Print(p[..k]), p[k], rest);
    assert Wordlike(p[k]);
    assert forall i :: 0 <= i < |p[k]| ==> p[k][i] != SEPARATOR;
    RunEndOf(Print(p), Offset(p, k), Offset(p, k) + |p[k]|);
  }

  lemma OffsetEnds(p: Path)
    ensures Offset(p, 0) == 1 && Offset(p, |p|) == |Print(p)| + 1
  {
    assert p[..|p|] == p;
  }

  lemma OffsetsGrow(p: Path, k: nat)
    requires AllWordlike(p) && k <= |p|
    ensures Offset(p, k) < Offset(p, |p|) <==> k < |p|
    ensures Offset(p, |p|) == |Print(p)| + 1
    ensures k < |p| ==> Offset(p, k) < |Print(p)|
  {
    OffsetEnds(p);
    if k < |p| {
      ComponentAt(p, k);
      assert Wordlike(p[k]);
    }
  }

  /** Cutting the printed path at its separators gives the components back. */
  lemma {:induction false} PiecesOfPrint(p: Path, k: nat)
    requires AllWordlike(p) && k <= |p|
    ensures Pieces(Print(p), Offset(p, k)) == p[k..]
    decreases |p| - k
  {
    OffsetEnds(p);
    if k < |p| {
      var s, at := Print(p), Offset(p, k);
      ComponentAt(p, k);
      PieceStep(s, at, at + |p[k]|);
      PiecesOfPrint(p, k + 1);
      assert p[k..] == [p[k]] + p[k + 1..];
    }
  }

  lemma {:induction false} SeparatorsOfPrint(p: Path, k: nat)
    requires AllWordlike(p) && k < |p|
    ensures Separators(Print(p), Offset(p, k)) == |p| - k - 1
    decreases |p| - k
  {
    var s, at := Print(p), Offset(p, k);
    OffsetEnds(p);
    ComponentAt(p, k);
    RunEndStops(s, SEPS, at);
    NoSeparatorsIn(s, at, at + |p[k]|);
    if k + 1 < |p| {
      ComponentAt(p, k + 1);
      SeparatorsOfPrint(p, k + 1);
    }
  }

  /** What the canonical text of a path looks like to kopen. */
  lemma CanonicalText(cwd: string, input: string)
    ensures var p := Components(cwd, input); var c := Canonical(cwd, input);
      && AllWordlike(p) && (|c| == 1 <==> p == [])
      && (p != [] ==> c == Print(p) && Separators(c, 0) == |p|)
  {
    var p := Components(cwd, input);
    CanonicalPrints(cwd, input);
    ComponentsWordlike(cwd, input);
    if p != [] {
      PrintStarts(p);
      OffsetEnds(p);
      SeparatorsOfPrint(p, 0);
    }
  }

  lemma {:induction false} NoSeparatorsIn(s: string, i: nat, e: nat)
    requires i <= e <= |s| && forall k :: i <= k < e ==> s[k] != SEPARATOR
    ensures Separators(s, i) == Separators(s, e)
    decreases e - i
  {
    if i < e {
      NoSeparatorsIn(s, i + 1, e);
    }
  }

  /** After mounting n at an absolute path, opening the path yields a copy of n exactly when vfs_mount
      takes the path as kopen does, or the same n was mounted before where kopen looks. */
  lemma MountThenOpen(b: Bindings, s: string, n: VfsNode, finddir: Finddir)
    requires |s| > 0 && s[0] == SEPARATOR
    ensures var p := Components("/", s);
      Lookup(b[MountKey(s) := n], p, finddir) == Found(n, false) <==>
        MountsWhereOpened(s) || (p in b && b[p] == n)
  {
    var p, b' := Components("/", s), b[MountKey(s) := n];
    MountKeyIsCanonical(s);
    FoundUnopened(b', p, n, finddir);
  }

  /** Only a file mounted at the very path is opened without its callback. */
  lemma FoundUnopened(b: Bindings, p: Path, n: VfsNode, finddir: Finddir)
    ensures Lookup(b, p, finddir) == Found(n, false) <==> p in b && b[p] == n
  {
    assert p[..|p|] == p;
  }

  /** Mounting at "/a//b" is no use to kopen, which looks for "/a/b". */
  lemma DoubledSeparatorMisses(n: VfsNode, finddir: Finddir)
    ensures var s := "/a//b";
      Lookup(map[MountKey(s) := n], Components("/", s), finddir) == NullCopy
  {
    var s := "/a//b";
    RunEndOf(s, 1, 2);
    RunEndOf(s, 3, 3);
    RunEndOf(s, 4, 5);
    assert Pieces(s, 3) == [s[3..3]] + Pieces(s, 4);
    assert MountKey(s) == [s[1..2]] + Pieces(s, 3);
    assert MountKey(s)[1] == "";
    MountKeyIsCanonical(s);
    CanonicalClean("/", s);
    NullCopyExactly(map[MountKey(s) := n], Components("/", s), finddir);
    forall k | 0 <= k <= |Components("/", s)| ensures Components("/", s)[..k] != MountKey(s) {
      if k >= 2 {
        assert Wordlike(Components("/", s)[1]);
      }
    }
  }
}
