/** The path canonicalizer (kernel/vfs.c:144-252): a stack of components, tokenized and printed back. */
module Paths {
  import opened CStrings
  import L = Lists

  const SEPARATOR := '/'
  const SEP: string := "/"
  const SEPS := {SEPARATOR}
  const UP := ".."
  const DOT := "."

  type Path = seq<string>

  // ---- what the canonicalizer computes ----

  function Push(stack: Path, t: string): Path {
    if t == UP then (if stack == [] then [] else stack[..|stack| - 1])
    else if t == DOT then stack
    else stack + [t]
  }

  function Resolve(stack: Path, toks: Path): Path
    decreases |toks|
  {
    if toks == [] then stack else Resolve(Push(stack, toks[0]), toks[1..])
  }

  function Relative(s: string): bool { |s| > 0 && s[0] != SEPARATOR }

  /** The components left on the stack. */
  function Components(cwd: string, input: string): Path {
    Resolve(if Relative(input) then Words(cwd, SEPS, 0) else [], Words(input, SEPS, 0))
  }

  /** Every component with a separator in front. */
  function Print(p: Path): string {
    if p == [] then "" else [SEPARATOR] + p[0] + Print(p[1..])
  }

  function Canonical(cwd: string, input: string): string {
    var p := Components(cwd, input);
    if p == [] then SEP else Print(p)
  }

  // ---- tokenizing concatenations ----

  /** s goes on with a separator after a. */
  ghost predicate Extends(s: string, a: string) {
    |a| < |s| && s[|a|] == SEPARATOR && forall k :: 0 <= k < |a| ==> s[k] == a[k]
  }

  lemma {:induction false} SkipAppend(a: string, s: string, i: nat)
    requires i <= |a| && Extends(s, a)
    ensures Skip(s, SEPS, i) == if Skip(a, SEPS, i) < |a| then Skip(a, SEPS, i) else Skip(s, SEPS, |a| + 1)
    decreases |a| - i
  {
    if i < |a| && a[i] in SEPS {
      SkipAppend(a, s, i + 1);
    }
  }

  lemma {:induction false} RunEndAppend(a: string, s: string, i: nat)
    requires i <= |a| && Extends(s, a)
    ensures RunEnd(s, SEPS, i) == RunEnd(a, SEPS, i)
    decreases |a| - i
  {
    if i < |a| && a[i] !in SEPS {
      RunEndAppend(a, s, i + 1);
    }
  }

  lemma {:induction false} WordsAppendFrom(a: string, s: string, i: nat)
    requires i <= |a| && Extends(s, a)
    ensures Words(s, SEPS, i) == Words(a, SEPS, i) + Words(s, SEPS, |a| + 1)
    decreases |a| - i
  {
    hide Words, Skip, RunEnd;
    SkipAppend(a, s, i);
    var x := Skip(a, SEPS, i);
    var rest := Words(s, SEPS, |a| + 1);
    ConsAppend("", [], rest);
    if x < |a| {
      RunEndAppend(a, s, x);
      var e := RunEnd(a, SEPS, x);
      WordsStep(a, i, x, e);
      WordsStep(s, i, x, e);
      assert s[x..e] == a[x..e];
      var more := Words(a, SEPS, After(a, e));
      if e < |a| {
        WordsAppendFrom(a, s, e + 1);
      } else {
        WordsNone(a, |a|);
      }
      ConsAppend(a[x..e], more, rest);
    } else {
      SameSkip(s, i, |a| + 1);
      WordsNone(a, i);
    }
  }

  lemma WordsNone(s: string, i: nat)
    requires i <= |s|
    ensures i == |s| || Skip(s, SEPS, i) == |s| ==> Words(s, SEPS, i) == []
  {}

  lemma ConsAppend(w: string, p: Path, q: Path)
    ensures [w] + (p + q) == [w] + p + q
    ensures [] + q == q
  {}

  lemma SameSkip(s: string, i: nat, j: nat)
    requires i <= |s| && j <= |s| && Skip(s, SEPS, i) == Skip(s, SEPS, j)
    ensures Words(s, SEPS, i) == Words(s, SEPS, j)
  {}

  lemma WordsStep(s: string, i: nat, x: nat, e: nat)
    requires i <= |s| && x == Skip(s, SEPS, i) < |s| && e == RunEnd(s, SEPS, x)
    ensures Words(s, SEPS, i) == [s[x..e]] + Words(s, SEPS, After(s, e))
  {}

  /** t is what s holds from position i on. */
  ghost predicate Tail(s: string, t: string, i: nat) {
    |s| == i + |t| && forall k :: 0 <= k < |t| ==> t[k] == s[i + k]
  }

  lemma {:induction false} SkipShift(s: string, t: string, i: nat, j: nat)
    requires Tail(s, t, i) && j <= |t|
    ensures Skip(s, SEPS, i + j) == i + Skip(t, SEPS, j)
    decreases |t| - j
  {
    if j < |t| && t[j] in SEPS {
      SkipShift(s, t, i, j + 1);
    }
  }

  lemma {:induction false} RunEndShift(s: string, t: string, i: nat, j: nat)
    requires Tail(s, t, i) && j <= |t|
    ensures RunEnd(s, SEPS, i + j) == i + RunEnd(t, SEPS, j)
    decreases |t| - j
  {
    if j < |t| && t[j] !in SEPS {
      RunEndShift(s, t, i, j + 1);
    }
  }

  lemma TailSlice(s: string, t: string, i: nat, x: nat, e: nat)
    requires Tail(s, t, i) && x <= e <= |t|
    ensures s[i + x..i + e] == t[x..e]
  {}

  lemma {:induction false} WordsShift(s: string, t: string, i: nat, j: nat)
    requires Tail(s, t, i) && j <= |t|
    ensures Words(s, SEPS, i + j) == Words(t, SEPS, j)
    decreases |t| - j
  {
    var x := Skip(t, SEPS, j);
    SkipShift(s, t, i, j);
    if x < |t| {
      RunEndShift(s, t, i, x);
      var e := RunEnd(t, SEPS, x);
      assert After(s, i + e) == i + After(t, e);
      WordsShift(s, t, i, After(t, e));
      TailSlice(s, t, i, x, e);
    }
  }

  /** Joining two strings with a separator joins their components. */
  lemma WordsAppend(a: string, b: string)
    ensures Words(a + SEP + b, SEPS, 0) == Words(a, SEPS, 0) + Words(b, SEPS, 0)
  {
    WordsAppendFrom(a, a + SEP + b, 0);
    WordsShift(a + SEP + b, b, |a| + 1, 0);
  }

  // ---- printing and tokenizing are inverse ----

  /** A component as the tokenizer produces it. */
  predicate Wordlike(w: string) { w != "" && SEPARATOR !in w }

  ghost predicate AllWordlike(p: Path) { forall k :: 0 <= k < |p| ==> Wordlike(p[k]) }

  ghost predicate NoDots(p: Path) { forall k :: 0 <= k < |p| ==> p[k] != UP && p[k] != DOT }

  lemma {:induction false} WordsWordlike(s: string, i: nat)
    requires i <= |s|
    ensures AllWordlike(Words(s, SEPS, i))
    decreases |s| - i
  {
    var a := Skip(s, SEPS, i);
    if a < |s| {
      var e := RunEnd(s, SEPS, a);
      SkipStops(s, SEPS, i);
      RunEndStops(s, SEPS, a);
      assert forall k :: a <= k < e ==> s[k] != SEPARATOR;
      WordsWordlike(s, After(s, e));
    }
  }

  lemma OneWord(w: string)
    requires Wordlike(w)
    ensures Words(w, SEPS, 0) == [w]
  {
    assert Skip(w, SEPS, 0) == 0;
    NoSeparator(w, 0);
    assert w[0..|w|] == w;
  }

  lemma {:induction false} NoSeparator(w: string, i: nat)
    requires SEPARATOR !in w && i <= |w|
    ensures RunEnd(w, SEPS, i) == |w|
    decreases |w| - i
  {
    if i < |w| {
      assert w[i] != SEPARATOR;
      NoSeparator(w, i + 1);
    }
  }

  /** A leading separator changes no component. */
  lemma LeadingSeparator(b: string)
    ensures Words(SEP + b, SEPS, 0) == Words(b, SEPS, 0)
  {
    WordsAppend("", b);
    assert "" + SEP + b == SEP + b;
  }

  /** A component in front of a string that is empty or starts with a separator stays a component. */
  lemma WordThen(w: string, rest: string)
    requires Wordlike(w) && (rest == "" || rest[0] == SEPARATOR)
    ensures Words(w + rest, SEPS, 0) == [w] + Words(rest, SEPS, 0)
  {
    OneWord(w);
    if rest == "" {
      assert w + rest == w;
    } else {
      var x := rest[1..];
      assert rest == SEP + x;
      assert w + rest == w + SEP + x;
      WordsAppend(w, x);
      LeadingSeparator(x);
    }
  }

  /** Tokenizing a printed stack gives back the stack. */
  lemma {:induction false} PrintRoundTrip(p: Path)
    requires AllWordlike(p)
    ensures Words(Print(p), SEPS, 0) == p
  {
    if p != [] {
      var rest := Print(p[1..]);
      assert Print(p) == SEP + (p[0] + rest);
      LeadingSeparator(p[0] + rest);
      WordThen(p[0], rest);
      PrintRoundTrip(p[1..]);
    }
  }

  // ---- laws of the canonicalizer ----

  lemma {:induction false} ResolveAppend(stack: Path, a: Path, b: Path)
    ensures Resolve(stack, a + b) == Resolve(Resolve(stack, a), b)
    decreases |a|
  {
    if a == [] {
      assert a + b == b;
    } else {
      assert (a + b)[1..] == a[1..] + b;
      ResolveAppend(Push(stack, a[0]), a[1..], b);
    }
  }

  lemma {:induction false} ResolveWordlike(stack: Path, toks: Path)
    requires AllWordlike(stack) && AllWordlike(toks)
    ensures AllWordlike(Resolve(stack, toks))
    decreases |toks|
  {
    if toks != [] {
      ResolveWordlike(Push(stack, toks[0]), toks[1..]);
    }
  }

  lemma {:induction false} ResolveNoDots(stack: Path, toks: Path)
    requires NoDots(stack)
    ensures NoDots(Resolve(stack, toks))
    decreases |toks|
  {
    if toks != [] {
      ResolveNoDots(Push(stack, toks[0]), toks[1..]);
    }
  }

  lemma ComponentsWordlike(cwd: string, input: string)
    ensures AllWordlike(Components(cwd, input))
  {
    WordsWordlike(cwd, 0);
    WordsWordlike(input, 0);
    ResolveWordlike(if Relative(input) then Words(cwd, SEPS, 0) else [], Words(input, SEPS, 0));
  }

  /** The output is absolute, and its components are exactly those left on the stack. */
  lemma CanonicalPrints(cwd: string, input: string)
    ensures var c := Canonical(cwd, input);
      && |c| >= 1 && c[0] == SEPARATOR
      && Words(c, SEPS, 0) == Components(cwd, input)
      && (|c| == 1 <==> Components(cwd, input) == [])
  {
    ComponentsWordlike(cwd, input);
    PrintRoundTrip(Components(cwd, input));
    LeadingSeparator("");
    assert SEP + "" == SEP;
  }

  /** Resolving a path and then another against the result is resolving them joined by a separator. */
  lemma Composition(cwd: string, a: string, b: string)
    requires Relative(b)
    ensures Canonical(Canonical(cwd, a), b) == Canonical(cwd, a + SEP + b)
  {
    var j := a + SEP + b;
    CanonicalPrints(cwd, a);
    WordsAppend(a, b);
    assert Relative(j) <==> Relative(a) by {
      assert j[0] == if |a| > 0 then a[0] else SEPARATOR;
    }
    ResolveAppend(if Relative(a) then Words(cwd, SEPS, 0) else [], Words(a, SEPS, 0), Words(b, SEPS, 0));
  }

  /** A run of ".." climbs one level each, and stops at the root. */
  lemma {:induction false} Climb(stack: Path, n: nat)
    ensures Resolve(stack, seq(n, _ => UP)) == if n <= |stack| then stack[..|stack| - n] else []
    decreases n
  {
    var ups := seq(n, _ => UP);
    if n > 0 {
      assert ups[1..] == seq(n - 1, _ => UP);
      Climb(Push(stack, UP), n - 1);
    }
  }

  /** A path of plain components resolves to itself; any "." or ".." makes the result shorter. */
  lemma {:induction false} ResolveFixed(stack: Path, toks: Path)
    ensures |Resolve(stack, toks)| <= |stack| + |toks|
    ensures NoDots(toks) ==> Resolve(stack, toks) == stack + toks
    ensures !NoDots(toks) ==> |Resolve(stack, toks)| < |stack| + |toks|
    decreases |toks|
  {
    if toks != [] {
      ResolveFixed(Push(stack, toks[0]), toks[1..]);
      if NoDots(toks) {
        assert stack + [toks[0]] + toks[1..] == stack + toks;
      } else if NoDots(toks[1..]) {
        assert toks[0] == UP || toks[0] == DOT by {
          assert forall k :: 1 <= k < |toks| ==> toks[k] == toks[1..][k - 1];
        }
      }
    } else {
      assert stack + toks == stack;
    }
  }

  /** When neither the working directory nor anything else leaves dots behind, the result has no empty,
      "." or ".." component. An absolute input never does. */
  lemma CanonicalClean(cwd: string, input: string)
    requires Relative(input) ==> NoDots(Words(cwd, SEPS, 0))
    ensures NoDots(Components(cwd, input)) && AllWordlike(Components(cwd, input))
  {
    ComponentsWordlike(cwd, input);
    ResolveNoDots(if Relative(input) then Words(cwd, SEPS, 0) else [], Words(input, SEPS, 0));
  }

  /** How many of the lowest `kept` entries are still there after the tokens, on a stack of height h:
      as many as the stack was high at its lowest. */
  function Kept(h: nat, kept: nat, toks: Path): (r: nat)
    ensures r <= kept
    decreases |toks|
  {
    if toks == [] then kept
    else if toks[0] == UP then
      var lower := if h == 0 then 0 else h - 1;
      Kept(lower, if lower < kept then lower else kept, toks[1..])
    else Kept(if toks[0] == DOT then h else h + 1, kept, toks[1..])
  }

  /** Dots can only be left among the entries that were never popped. */
  lemma {:induction false} DotsKept(stack: Path, kept: nat, toks: Path)
    requires kept <= |stack| && NoDots(stack[kept..])
    ensures NoDots(Resolve(stack, toks)) <==> NoDots(stack[..Kept(|stack|, kept, toks)])
    decreases |toks|
  {
    if toks == [] {
      assert stack == stack[..kept] + stack[kept..];
    } else {
      var next := Push(stack, toks[0]);
      var kept' := if |next| < kept then |next| else kept;
      var r := Kept(|next|, kept', toks[1..]);
      assert forall k :: kept' <= k < |next| ==> next[k] == if k < |stack| then stack[k] else toks[0];
      assert forall k :: kept <= k < |stack| ==> stack[k] == stack[kept..][k - kept];
      assert NoDots(next[kept'..]) && r == Kept(|stack|, kept, toks);
      hide NoDots;
      DotsKept(next, kept', toks[1..]);
      assert next[..r] == stack[..r];
    }
  }

  /** Canonicalizing a result again, against any directory, changes nothing exactly when the input is
      absolute or its ".." components climb out of every "." and ".." of the working directory. */
  lemma Idempotent(cwd: string, input: string, other: string)
    ensures Canonical(other, Canonical(cwd, input)) == Canonical(cwd, input) <==>
      var w := Words(cwd, SEPS, 0);
      Relative(input) ==> NoDots(w[..Kept(|w|, |w|, Words(input, SEPS, 0))])
  {
    var p, w := Components(cwd, input), Words(cwd, SEPS, 0);
    CanonicalPrints(cwd, input);
    CanonicalPrints(other, Canonical(cwd, input));
    ResolveFixed([], p);
    assert [] + p == p;
    if Relative(input) {
      DotsKept(w, |w|, Words(input, SEPS, 0));
    } else {
      ResolveNoDots([], Words(input, SEPS, 0));
    }
  }

  function Weight(t: string): int { if t == UP then -1 else if t == DOT then 0 else 1 }

  /** Names less climbs. */
  function Balance(toks: Path): int {
    if toks == [] then 0 else Weight(toks[0]) + Balance(toks[1..])
  }

  /** From any component on there are at least as many ".." as names. */
  ghost predicate ClimbsOut(toks: Path) {
    forall k :: 0 <= k <= |toks| ==> Balance(toks[k..]) <= 0
  }

  /** A path leads back to the root exactly when everything it descends into it climbs out of again. */
  lemma {:induction false} BackToRoot(stack: Path, toks: Path)
    ensures Resolve(stack, toks) == [] <==> |stack| + Balance(toks) <= 0 && ClimbsOut(toks)
    decreases |toks|
  {
    if toks != [] {
      BackToRoot(Push(stack, toks[0]), toks[1..]);
      assert toks[0..] == toks && toks[1..][0..] == toks[1..];
      assert forall k :: 1 <= k <= |toks| ==> toks[k..] == toks[1..][k - 1..];
      assert forall k :: 0 <= k <= |toks[1..]| ==> toks[1..][k..] == toks[k + 1..];
    }
  }

  /** Components of the working directory are pushed unprocessed, so its dots survive. */
  lemma DotsInCwdSurvive()
    ensures Components("..", "a") == ["..", "a"]
    ensures Canonical("/", Canonical("..", "a")) != Canonical("..", "a")
  {
    OneWord("..");
    OneWord("a");
    assert Resolve([".."], ["a"]) == Resolve(["..", "a"], []) by {
      assert [".."] + ["a"] == ["..", "a"] && ["a"][1..] == [];
    }
    assert Kept(1, 1, ["a"]) == Kept(2, 1, []) == 1 by { assert ["a"][1..] == []; }
    assert Words("..", SEPS, 0)[..1] == [UP] && [UP][0] == UP;
    Idempotent("..", "a", "/");
  }

  // ---- which components are left ----

  lemma {:induction false} BalanceSnoc(a: Path, t: string)
    ensures Balance(a + [t]) == Balance(a) + Weight(t)
  {
    if a != [] {
      BalanceSnoc(a[1..], t);
      assert (a + [t])[1..] == a[1..] + [t];
    }
  }

  /** Component k is a name, and what follows it never climbs out of it. */
  ghost predicate Stays(toks: Path, k: nat) {
    && k < |toks| && toks[k] != UP && toks[k] != DOT
    && forall j :: k < j <= |toks| ==> Balance(toks[k..j]) >= 1
  }

  /** The components never climb out of entry i of a stack of height h. */
  ghost predicate Untouched(h: nat, i: nat, toks: Path) {
    forall j :: 0 <= j <= |toks| ==> h - i + Balance(toks[..j]) >= 1
  }

  lemma StaysSnoc(toks: Path, t: string, k: nat)
    requires k < |toks|
    ensures Stays(toks + [t], k) <==> Stays(toks, k) && Balance(toks[k..]) + Weight(t) >= 1
    ensures Balance((toks + [t])[k..]) == Balance(toks[k..]) + Weight(t)
  {
    var s := toks + [t];
    BalanceSnoc(toks[k..], t);
    assert s[k..] == toks[k..] + [t] && s[k..|s|] == s[k..] && toks[k..|toks|] == toks[k..];
    assert forall j :: k < j <= |toks| ==> s[k..j] == toks[k..j];
  }

  lemma StaysLast(toks: Path, t: string)
    ensures Stays(toks + [t], |toks|) <==> t != UP && t != DOT
    ensures Balance((toks + [t])[|toks|..]) == Weight(t)
  {
    var s := toks + [t];
    assert s[|toks|..|s|] == s[|toks|..] == [t];
    assert Balance([t]) == Weight(t) by { assert [t][1..] == []; }
  }

  lemma UntouchedSnoc(h: nat, i: nat, toks: Path, t: string)
    ensures Untouched(h, i, toks + [t]) <==> Untouched(h, i, toks) && h - i + Balance(toks) + Weight(t) >= 1
  {
    var s := toks + [t];
    BalanceSnoc(toks, t);
    assert s[..|s|] == s && toks[..|toks|] == toks;
    assert forall j :: 0 <= j <= |toks| ==> s[..j] == toks[..j];
  }

  /** The lowest `kept` entries of the stack are those never climbed out of, and ps are the positions of
      the components that are not, in order. */
  ghost predicate Remain(stack: Path, toks: Path, kept: nat, ps: seq<nat>) {
    && kept <= |stack| && (forall i: nat :: i < |stack| ==> (i < kept <==> Untouched(|stack|, i, toks)))
    && (forall i, j :: 0 <= i < j < |ps| ==> ps[i] < ps[j])
    && (forall k: nat :: k in ps <==> Stays(toks, k))
  }

  /** How far the components go on above what remains. */
  ghost predicate Heights(stack: Path, toks: Path, kept: nat, ps: seq<nat>) {
    && (kept > 0 ==> |stack| + Balance(toks) == kept + |ps|)
    && forall i :: 0 <= i < |ps| ==> ps[i] < |toks| && Balance(toks[ps[i]..]) == |ps| - i
  }

  ghost function Picked(toks: Path, ps: seq<nat>): Path
    requires forall i :: 0 <= i < |ps| ==> ps[i] < |toks|
  {
    seq(|ps|, i requires 0 <= i < |ps| => toks[ps[i]])
  }

  /** What resolving leaves is exactly, and in order, the entries and the components that nothing after
      them climbs out of; "." and ".." themselves never stay. */
  lemma {:induction false} ResolveRemains(stack: Path, toks: Path) returns (kept: nat, ps: seq<nat>)
    ensures Remain(stack, toks, kept, ps) && Heights(stack, toks, kept, ps)
    ensures Resolve(stack, toks) == stack[..kept] + Picked(toks, ps)
    decreases |toks|
  {
    if toks == [] {
      kept, ps := |stack|, [];
    } else {
      var front, t := toks[..|toks| - 1], toks[|toks| - 1];
      assert toks == front + [t];
      var kept0, ps0 := ResolveRemains(stack, front);
      ResolveAppend(stack, front, [t]);
      assert [t][1..] == [];
      assert Resolve(stack, toks) == Push(Resolve(stack, front), t);
      kept, ps := NextRemains(stack, front, t, kept0, ps0);
    }
  }

  lemma NextRemains(stack: Path, toks: Path, t: string, kept0: nat, ps0: seq<nat>) returns (kept: nat, ps: seq<nat>)
    requires Remain(stack, toks, kept0, ps0) && Heights(stack, toks, kept0, ps0)
    ensures Remain(stack, toks + [t], kept, ps) && Heights(stack, toks + [t], kept, ps)
    ensures Push(stack[..kept0] + Picked(toks, ps0), t) == stack[..kept] + Picked(toks + [t], ps)
  {
    kept, ps := kept0, ps0;
    if t == DOT {
      DotRemains(stack, toks, kept, ps);
    } else if t != UP {
      ps := ps0 + [|toks|];
      NameRemains(stack, toks, t, kept, ps0);
      NamePicked(toks, t, ps0);
      assert stack[..kept] + Picked(toks, ps0) + [t] == stack[..kept] + (Picked(toks, ps0) + [t]);
    } else if ps0 != [] {
      ps := ps0[..|ps0| - 1];
      UpRemains(stack, toks, kept, ps0);
      UpPicked(stack[..kept], toks, ps0);
    } else {
      kept := if kept0 > 0 then kept0 - 1 else 0;
      UpStackRemains(stack, toks, kept0);
    }
  }

  /** What one more component does to what stays. */
  lemma Snoc(h: nat, toks: Path, t: string)
    ensures forall k: nat :: k < |toks| ==>
      (Stays(toks + [t], k) <==> Stays(toks, k) && Balance(toks[k..]) + Weight(t) >= 1)
    ensures forall k: nat :: k < |toks| ==> Balance((toks + [t])[k..]) == Balance(toks[k..]) + Weight(t)
    ensures Stays(toks + [t], |toks|) <==> t != UP && t != DOT
    ensures Balance(toks + [t]) == Balance(toks) + Weight(t) && Balance((toks + [t])[|toks|..]) == Weight(t)
    ensures forall i: nat ::
      Untouched(h, i, toks + [t]) <==> Untouched(h, i, toks) && h - i + Balance(toks) + Weight(t) >= 1
    ensures forall i: nat :: Untouched(h, i, toks) ==> h - i + Balance(toks) >= 1
    ensures forall k: nat :: Stays(toks, k) ==> k < |toks| && Balance(toks[k..]) >= 1
  {
    BalanceSnoc(toks, t);
    StaysLast(toks, t);
    forall k: nat | k < |toks|
      ensures Stays(toks + [t], k) <==> Stays(toks, k) && Balance(toks[k..]) + Weight(t) >= 1
      ensures Balance((toks + [t])[k..]) == Balance(toks[k..]) + Weight(t)
    {
      StaysSnoc(toks, t, k);
    }
    forall i: nat
      ensures Untouched(h, i, toks + [t]) <==> Untouched(h, i, toks) && h - i + Balance(toks) + Weight(t) >= 1
    {
      UntouchedSnoc(h, i, toks, t);
    }
    assert toks[..|toks|] == toks && forall k: nat :: k < |toks| ==> toks[k..|toks|] == toks[k..];
  }

  lemma DotRemains(stack: Path, toks: Path, kept: nat, ps: seq<nat>)
    requires Remain(stack, toks, kept, ps) && Heights(stack, toks, kept, ps)
    ensures Remain(stack, toks + [DOT], kept, ps) && Heights(stack, toks + [DOT], kept, ps)
    ensures Picked(toks, ps) == Picked(toks + [DOT], ps)
  {
    Snoc(|stack|, toks, DOT);
    hide Stays, Untouched, Balance;
  }

  lemma NameRemains(stack: Path, toks: Path, t: string, kept: nat, ps: seq<nat>)
    requires Remain(stack, toks, kept, ps) && Heights(stack, toks, kept, ps) && t != UP && t != DOT
    ensures Remain(stack, toks + [t], kept, ps + [|toks|])
    ensures Heights(stack, toks + [t], kept, ps + [|toks|])
  {
    var ps', s := ps + [|toks|], toks + [t];
    BalanceSnoc(toks, t);
    StaysLast(toks, t);
    forall k: nat ensures k in ps' <==> Stays(s, k) {
      if k < |toks| {
        StaysSnoc(toks, t, k);
        assert Stays(toks, k) ==> Balance(toks[k..|toks|]) >= 1 && toks[k..|toks|] == toks[k..];
      }
    }
    forall i | 0 <= i < |ps'| ensures Balance(s[ps'[i]..]) == |ps'| - i {
      if i < |ps| {
        StaysSnoc(toks, t, ps[i]);
      }
    }
    forall i: nat | i < |stack| ensures i < kept <==> Untouched(|stack|, i, s) {
      UntouchedSnoc(|stack|, i, toks, t);
      assert Untouched(|stack|, i, toks) ==> |stack| - i + Balance(toks[..|toks|]) >= 1 && toks[..|toks|] == toks;
    }
    hide Stays, Untouched, Balance;
  }

  lemma NamePicked(toks: Path, t: string, ps: seq<nat>)
    requires forall i :: 0 <= i < |ps| ==> ps[i] < |toks|
    ensures Picked(toks + [t], ps + [|toks|]) == Picked(toks, ps) + [t]
  {}

  lemma UpRemains(stack: Path, toks: Path, kept: nat, ps: seq<nat>)
    requires Remain(stack, toks, kept, ps) && Heights(stack, toks, kept, ps) && ps != []
    ensures Remain(stack, toks + [UP], kept, ps[..|ps| - 1])
    ensures Heights(stack, toks + [UP], kept, ps[..|ps| - 1])
  {
    var ps', s := ps[..|ps| - 1], toks + [UP];
    BalanceSnoc(toks, UP);
    forall k: nat ensures k in ps' <==> Stays(s, k) {
      UpStays(stack, toks, kept, ps, k);
    }
    forall i | 0 <= i < |ps'| ensures Balance(s[ps'[i]..]) == |ps'| - i {
      StaysSnoc(toks, UP, ps[i]);
    }
    forall i: nat | i < |stack| ensures i < kept <==> Untouched(|stack|, i, s) {
      UpUntouched(stack, toks, kept, ps, i);
    }
    hide Stays, Untouched, Balance;
  }

  lemma UpStays(stack: Path, toks: Path, kept: nat, ps: seq<nat>, k: nat)
    requires Remain(stack, toks, kept, ps) && Heights(stack, toks, kept, ps) && ps != []
    ensures k in ps[..|ps| - 1] <==> Stays(toks + [UP], k)
  {
    StaysLast(toks, UP);
    if k < |toks| {
      StaysSnoc(toks, UP, k);
    }
    hide Stays, Balance;
    if k in ps {
      var i :| 0 <= i < |ps| && ps[i] == k;
      assert Balance(toks[k..]) == |ps| - i;
      assert k in ps[..|ps| - 1] <==> i < |ps| - 1;
    } else {
      assert k !in ps[..|ps| - 1] && !Stays(toks, k);
    }
  }

  lemma UpUntouched(stack: Path, toks: Path, kept: nat, ps: seq<nat>, i: nat)
    requires Remain(stack, toks, kept, ps) && Heights(stack, toks, kept, ps) && ps != [] && i < |stack|
    ensures i < kept <==> Untouched(|stack|, i, toks + [UP])
  {
    UntouchedSnoc(|stack|, i, toks, UP);
    assert i < kept <==> Untouched(|stack|, i, toks);
    hide Untouched, Balance, Stays;
  }

  lemma UpPicked(a: Path, toks: Path, ps: seq<nat>)
    requires (forall i :: 0 <= i < |ps| ==> ps[i] < |toks|) && ps != []
    ensures Push(a + Picked(toks, ps), UP) == a + Picked(toks + [UP], ps[..|ps| - 1])
  {
    assert Picked(toks, ps) == Picked(toks + [UP], ps[..|ps| - 1]) + [toks[ps[|ps| - 1]]];
  }

  lemma UpStackRemains(stack: Path, toks: Path, kept: nat)
    requires Remain(stack, toks, kept, []) && Heights(stack, toks, kept, [])
    ensures var kept' := if kept > 0 then kept - 1 else 0;
      && Remain(stack, toks + [UP], kept', []) && Heights(stack, toks + [UP], kept', [])
      && Push(stack[..kept] + Picked(toks, []), UP) == stack[..kept'] + Picked(toks + [UP], [])
  {
    Snoc(|stack|, toks, UP);
    hide Stays, Untouched, Balance;
    assert stack[..kept] + Picked(toks, []) == stack[..kept];
  }

  /** The components of a canonical path: of the working directory, for a relative input, those never
      climbed out of, and then those of the input that are not. */
  lemma ComponentsRemain(cwd: string, input: string) returns (kept: nat, ps: seq<nat>)
    ensures var w := if input == "" || input[0] == SEPARATOR then [] else Words(cwd, SEPS, 0);
      var toks := Words(input, SEPS, 0);
      && Remain(w, toks, kept, ps) && (forall i :: 0 <= i < |ps| ==> ps[i] < |toks|)
      && Components(cwd, input) == w[..kept] + Picked(toks, ps)
  {
    var w := if input == "" || input[0] == SEPARATOR then [] else Words(cwd, SEPS, 0);
    kept, ps := ResolveRemains(w, Words(input, SEPS, 0));
  }

  // ---- the canonicalizer itself ----

  ghost predicate NulFree(s: string) { forall k :: 0 <= k < |s| ==> s[k] != NUL }

  ghost predicate AllNulFree(p: Path) { forall k :: 0 <= k < |p| ==> NulFree(p[k]) }

  lemma {:induction false} WordsNulFree(s: string, i: nat)
    requires i <= |s| && NulFree(s)
    ensures AllNulFree(Words(s, SEPS, i))
    decreases |s| - i
  {
    if Skip(s, SEPS, i) < |s| {
      WordsNulFree(s, After(s, RunEnd(s, SEPS, Skip(s, SEPS, i))));
    }
  }

  lemma {:induction false} ResolveNulFree(stack: Path, toks: Path)
    requires AllNulFree(stack) && AllNulFree(toks)
    ensures AllNulFree(Resolve(stack, toks))
    decreases |toks|
  {
    if toks != [] {
      ResolveNulFree(Push(stack, toks[0]), toks[1..]);
    }
  }

  lemma {:induction false} PrintNulFree(p: Path)
    requires AllNulFree(p)
    ensures NulFree(Print(p))
  {
    if p != [] {
      PrintNulFree(p[1..]);
    }
  }

  lemma CanonicalNulFree(cwd: string, input: string)
    requires NulFree(cwd) && NulFree(input)
    ensures NulFree(Canonical(cwd, input))
  {
    WordsNulFree(cwd, 0);
    WordsNulFree(input, 0);
    ResolveNulFree(if Relative(input) then Words(cwd, SEPS, 0) else [], Words(input, SEPS, 0));
    PrintNulFree(Components(cwd, input));
  }

  lemma {:induction false} PrintAppend(a: Path, b: Path)
    ensures Print(a + b) == Print(a) + Print(b)
  {
    if a == [] {
      assert a + b == b;
    } else {
      assert (a + b)[1..] == a[1..] + b;
      PrintAppend(a[1..], b);
    }
  }

  /** A copy of the string in a buffer of exactly its size. */
  method Duplicate(src: array<char>, ghost s: string) returns (dst: array<char>)
    requires Holds(src[..], s, 0)
    ensures fresh(dst) && dst.Length == |s| + 1 && Chopped(dst[..], s, SEPS, 0)
  {
    var n := StrLen(src, 0, s);
    dst := new char[n + 1];
    for i := 0 to n + 1
      invariant forall k :: 0 <= k < i ==> dst[k] == src[k]
      invariant Holds(src[..], s, 0)
    {
      dst[i] := src[i];
    }
  }

  /** The first loop: every component of the working directory is pushed as it is. */
  method PushAll(out: L.List<string>, words: Path)
    requires out.Valid()
    modifies out.Repr
    ensures out.Valid() && fresh(out.Repr - old(out.Repr))
    ensures out.Contents() == old(out.Contents()) + words
  {
    for i := 0 to |words|
      invariant out.Valid() && fresh(out.Repr - old(out.Repr))
      invariant out.Contents() == old(out.Contents()) + words[..i]
    {
      var node := out.Insert(words[i]);
    }
  }

  /** The second loop: ".." pops, "." does nothing, anything else is pushed. */
  method PushResolved(out: L.List<string>, words: Path)
    requires out.Valid()
    modifies out.Repr
    ensures out.Valid() && fresh(out.Repr - old(out.Repr))
    ensures out.Contents() == Resolve(old(out.Contents()), words)
  {
    for i := 0 to |words|
      invariant out.Valid() && fresh(out.Repr - old(out.Repr))
      invariant Resolve(old(out.Contents()), words) == Resolve(out.Contents(), words[i..])
    {
      PushOne(out, words[i]);
    }
  }

  method PushOne(out: L.List<string>, t: string)
    requires out.Valid()
    modifies out.Repr
    ensures out.Valid() && fresh(out.Repr - old(out.Repr))
    ensures out.Contents() == Push(old(out.Contents()), t)
  {
    if t == UP {
      var n := out.Pop();
    } else if t == DOT {
    } else {
      var node := out.Insert(t);
    }
  }

  /** The components of a private copy of the string, which the tokenizer cuts up. */
  method CopyWords(src: array<char>, ghost s: string) returns (words: Path)
    requires Holds(src[..], s, 0)
    ensures words == Words(s, SEPS, 0)
  {
    assert Chars(SEP) == SEPS;
    var path := Duplicate(src, s);
    words := Tokenize(path, SEP, s);
  }

  /** The components to start from: those of the working directory when the input is relative. */
  method StartWords(cwd: array<char>, input: array<char>, ghost d: string, ghost s: string) returns (words: Path)
    requires Holds(cwd[..], d, 0) && Holds(input[..], s, 0)
    ensures words == if Relative(s) then Words(d, SEPS, 0) else []
  {
    words := [];
    var inputLen := StrLen(input, 0, s);
    if inputLen != 0 && input[0] != SEPARATOR {
      words := CopyWords(cwd, d);
    }
  }

  method BuildStack(above: Path, words: Path) returns (out: L.List<string>)
    ensures fresh(out.Repr) && out.Valid() && out.Contents() == Resolve(above, words)
  {
    hide *;
    out := new L.List<string>();
    PushAll(out, above);
    assert [] + above == above;
    PushResolved(out, words);
  }

  /** canonicalize_path: the returned buffer is exactly filled by the absolute path and its NUL. */
  method CanonicalizePath(cwd: array<char>, input: array<char>, ghost d: string, ghost s: string)
    returns (output: array<char>)
    requires Holds(cwd[..], d, 0) && Holds(input[..], s, 0)
    ensures fresh(output) && output[..] == Canonical(d, s) + [NUL]
    ensures Holds(output[..], Canonical(d, s), 0)
  {
    hide Print, Resolve, Words;
    CanonicalNulFree(d, s);
    var above := StartWords(cwd, input, d, s);
    var words := CopyWords(input, s);
    var out := BuildStack(above, words);
    output := Join(out);
  }

  /** The sizing loop: each component and its separator. */
  method TotalSize(out: L.List<string>) returns (size: nat)
    requires out.Valid()
    ensures size == |Print(out.Contents())|
  {
    ghost var p := out.Contents();
    size := 0;
    var item := out.head;
    ghost var i := 0;
    while item != null
      invariant 0 <= i <= |p| && item == L.Nth(out.nodes, i) && size == |Print(p[..i])|
      decreases |p| - i
    {
      PrintUpTo(p, i);
      size := size + |item.value| + 1;
      item := item.next;
      i := i + 1;
    }
    assert p[..|p|] == p;
  }

  /** The join loop over the stack, or a lone separator when it is empty. */
  method Join(out: L.List<string>) returns (output: array<char>)
    requires out.Valid()
    ensures fresh(output)
    ensures output[..] == (if out.Contents() == [] then SEP else Print(out.Contents())) + [NUL]
  {
    ghost var p := out.Contents();
    var size := TotalSize(out);
    if size == 0 {
      output := new char[2];
      output[0] := SEPARATOR;
      output[1] := NUL;
      return;
    }
    output := new char[size + 1];
    var offset := 0;
    var item := out.head;
    ghost var i := 0;
    while item != null
      invariant 0 <= i <= |p| && item == L.Nth(out.nodes, i)
      invariant offset == |Print(p[..i])| < output.Length
      invariant output[..offset] == Print(p[..i]) && (i > 0 ==> output[offset] == NUL)
      decreases |p| - i
    {
      PrintUpTo(p, i);
      offset := Emit(output, offset, item.value);
      item := item.next;
      i := i + 1;
    }
    assert p[..|p|] == p;
  }

  /** The text up to and with component i, and that the rest only follows it. */
  lemma PrintUpTo(p: Path, i: nat)
    requires i < |p|
    ensures Print(p[..i + 1]) == Print(p[..i]) + ([SEPARATOR] + p[i])
    ensures |Print(p[..i + 1])| <= |Print(p)|
  {
    hide Print;
    PrintOne(p[i]);
    assert p[..i + 1] == p[..i] + [p[i]];
    PrintAppend(p[..i], [p[i]]);
    assert p == p[..i + 1] + p[i + 1..];
    PrintAppend(p[..i + 1], p[i + 1..]);
  }

  lemma PrintOne(w: string)
    ensures Print([w]) == [SEPARATOR] + w
  {}

  /** One turn of the join: a separator, the component, and a NUL for the next turn to overwrite. */
  method Emit(output: array<char>, offset: nat, w: string) returns (next: nat)
    requires offset + 1 + |w| < output.Length
    modifies output
    ensures next == offset + 1 + |w| && output[next] == NUL
    ensures output[..next] == old(output[..offset]) + ([SEPARATOR] + w)
  {
    output[offset] := SEPARATOR;
    for k := 0 to |w|
      invariant output[..offset] == old(output[..offset]) && output[offset] == SEPARATOR
      invariant forall j :: 0 <= j < k ==> output[offset + 1 + j] == w[j]
    {
      output[offset + 1 + k] := w[k];
    }
    next := offset + 1 + |w|;
    output[next] := NUL;
    assert output[offset..next] == [SEPARATOR] + w;
    assert output[..next] == output[..offset] + output[offset..next];
  }
}
