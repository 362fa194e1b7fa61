/** NUL-terminated strings in character buffers (kernel/lib/string.c), and the tokenizer over them. */
module CStrings {
  import opened Wrappers

  const NUL := '\0'

  /** A string as C can represent it: without NUL characters. */
  type CString = s: string | NUL !in s

  /** From index i on, the buffer reads as the rest of s, up to a terminating NUL at |s|. */
  ghost predicate Holds(buf: seq<char>, s: string, i: int) {
    && 0 <= i <= |s| < |buf| && buf[|s|] == NUL
    && forall k :: i <= k < |s| ==> buf[k] == s[k] != NUL
  }

  /** The delimiters named by a delimiter string. */
  function Chars(delim: string): set<char> { set c | c in delim }

  // ---- runs of non-delimiters ----

  /** The first position from i on that holds no delimiter. */
  function Skip(s: string, d: set<char>, i: nat): (r: nat)
    requires i <= |s|
    ensures i <= r <= |s|
    decreases |s| - i
  {
    if i < |s| && s[i] in d then Skip(s, d, i + 1) else i
  }

  /** The first position from i on that holds a delimiter. */
  function RunEnd(s: string, d: set<char>, i: nat): (r: nat)
    requires i <= |s|
    ensures i <= r <= |s|
    decreases |s| - i
  {
    if i < |s| && s[i] !in d then RunEnd(s, d, i + 1) else i
  }

  lemma {:induction false} SkipStops(s: string, d: set<char>, i: nat)
    requires i <= |s|
    ensures var r := Skip(s, d, i);
      (forall k :: i <= k < r ==> s[k] in d) && (r < |s| ==> s[r] !in d)
    decreases |s| - i
  {
    if i < |s| && s[i] in d {
      SkipStops(s, d, i + 1);
    }
  }

  lemma {:induction false} RunEndStops(s: string, d: set<char>, i: nat)
    requires i <= |s|
    ensures var r := RunEnd(s, d, i);
      (forall k :: i <= k < r ==> s[k] !in d) && (r < |s| ==> s[r] in d)
    decreases |s| - i
  {
    if i < |s| && s[i] !in d {
      RunEndStops(s, d, i + 1);
    }
  }

  /** Where the tokenizer continues after a token that ends at e: past the delimiter it overwrites. */
  function After(s: string, e: nat): nat {
    if e < |s| then e + 1 else e
  }

  /** The tokens from position i on, as pairs of a start and an end. */
  function Runs(s: string, d: set<char>, i: nat): seq<(nat, nat)>
    requires i <= |s|
    decreases |s| - i
  {
    var a := Skip(s, d, i);
    if a == |s| then []
    else
      var e := RunEnd(s, d, a);
      [(a, e)] + Runs(s, d, After(s, e))
  }

  /** A maximal stretch of s without delimiters, starting no earlier than i. */
  ghost predicate MaximalRun(s: string, d: set<char>, i: nat, a: int, e: int) {
    && i <= a < e <= |s|
    && (forall k :: a <= k < e ==> s[k] !in d)
    && (a > i ==> s[a - 1] in d)
    && (e < |s| ==> s[e] in d)
  }

  /** The tokens are exactly the maximal delimiter-free runs of the string. */
  lemma {:induction false} RunsAreMaximal(s: string, d: set<char>, i: nat, a: nat, e: nat)
    requires i <= |s|
    ensures (a, e) in Runs(s, d, i) <==> MaximalRun(s, d, i, a, e)
    decreases |s| - i
  {
    var a0 := Skip(s, d, i);
    if a0 < |s| {
      FirstRun(s, d, i, a, e);
      RunsAreMaximal(s, d, After(s, RunEnd(s, d, a0)), a, e);
      assert Runs(s, d, i)[0] == (a0, RunEnd(s, d, a0));
    } else {
      SkipStops(s, d, i);
      assert a < |s| ==> a < i || s[a] in d;
    }
  }

  lemma FirstRun(s: string, d: set<char>, i: nat, a: nat, e: nat)
    requires i <= |s| && Skip(s, d, i) < |s|
    ensures var a0 := Skip(s, d, i); var e0 := RunEnd(s, d, a0);
      MaximalRun(s, d, i, a, e) <==> (a, e) == (a0, e0) || MaximalRun(s, d, After(s, e0), a, e)
  {
    var a0 := Skip(s, d, i);
    var e0 := RunEnd(s, d, a0);
    SkipStops(s, d, i);
    RunEndStops(s, d, a0);
    assert a0 < e0;
    if MaximalRun(s, d, i, a, e) {
      assert s[a] !in d && s[a0] !in d;
      assert a0 <= a;
      if a < e0 {
        assert a == a0;
        assert e == e0;
      } else {
        assert a > e0 && a >= After(s, e0);
      }
    }
  }

  /** The tokens come in order and never touch. */
  lemma {:induction false} RunsOrdered(s: string, d: set<char>, i: nat)
    requires i <= |s|
    ensures forall k :: 0 <= k < |Runs(s, d, i)| ==> i <= Runs(s, d, i)[k].0
    ensures forall j, k :: 0 <= j < k < |Runs(s, d, i)| ==> Runs(s, d, i)[j].1 < Runs(s, d, i)[k].0
    decreases |s| - i
  {
    var a := Skip(s, d, i);
    if a < |s| {
      RunsOrdered(s, d, After(s, RunEnd(s, d, a)));
    }
  }

  // ---- the C routines ----

  method StrLen(buf: array<char>, at: nat, ghost s: string) returns (n: nat)
    requires Holds(buf[..], s, at)
    ensures at + n == |s|
  {
    n := 0;
    while buf[at + n] != NUL
      invariant at + n <= |s|
      decreases |s| - n
    {
      n := n + 1;
    }
  }

  /** How far the characters from `at` on all lie in `accept`. */
  method StrSpn(buf: array<char>, at: nat, accept: CString, ghost s: string) returns (n: nat)
    requires Holds(buf[..], s, at)
    ensures at + n == Skip(s, Chars(accept), at)
  {
    n := 0;
    while buf[at + n] != NUL
      invariant at + n <= |s| && Skip(s, Chars(accept), at) == Skip(s, Chars(accept), at + n)
      decreases |s| - n
    {
      var acc := IndexIn(buf[at + n], accept);
      if acc == |accept| {
        break;
      }
      n := n + 1;
    }
  }

  /** The search over the delimiters: the first one equal to c, or their number. */
  method IndexIn(c: char, accept: string) returns (j: nat)
    ensures j <= |accept|
    ensures j == |accept| <==> c !in accept
  {
    j := 0;
    while j < |accept|
      invariant j <= |accept| && c !in accept[..j]
    {
      if c == accept[j] {
        break;
      }
      j := j + 1;
    }
  }

  /** The first character from `at` on that is in `accept`; -1 when there is none. */
  method StrPBrk(buf: array<char>, at: nat, accept: CString, ghost s: string) returns (p: int)
    requires Holds(buf[..], s, at)
    ensures p == if RunEnd(s, Chars(accept), at) == |s| then -1 else RunEnd(s, Chars(accept), at)
  {
    if buf[at] == NUL {
      return -1;
    }
    var n, acc := at, |accept|;
    while buf[n] != NUL
      invariant at <= n <= |s| && RunEnd(s, Chars(accept), at) == RunEnd(s, Chars(accept), n)
      invariant acc == |accept|
      decreases |s| - n
    {
      acc := IndexIn(buf[n], accept);
      if acc != |accept| {
        break;
      }
      n := n + 1;
    }
    return if acc == |accept| then -1 else n;
  }

  /** The buffer with position e cut off by a NUL, unless it is the end of the string already. */
  function Cut(buf: seq<char>, e: nat, end: nat): seq<char>
    requires e <= end < |buf|
  {
    if e < end then buf[e := NUL] else buf
  }

  /** The next token of the buffer from `str` on: -1 when only delimiters are left. Overwrites at most
      the one delimiter after the token, and leaves `save` where the next search starts. */
  method StrTokR(buf: array<char>, str: nat, delim: CString, ghost s: string) returns (token: int, save: nat)
    requires Holds(buf[..], s, str)
    modifies buf
    ensures var a := Skip(s, Chars(delim), str); var e := RunEnd(s, Chars(delim), a);
      && save == After(s, e)
      && token == (if a == |s| then -1 else a)
      && buf[..] == Cut(old(buf[..]), e, |s|)
  {
    var skipped := StrSpn(buf, str, delim, s);
    token := str + skipped;
    if buf[token] == NUL {
      return -1, token;
    }
    var end := StrPBrk(buf, token, delim, s);
    if end == -1 {
      var n := StrLen(buf, token, s);  // lfind(token, '\0')
      save := token + n;
    } else {
      buf[end] := NUL;
      save := end + 1;
    }
  }

  // ---- tokenizing a whole string ----

  /** The tokens from position i on, as strings. */
  function Words(s: string, d: set<char>, i: nat): (ws: seq<string>)
    requires i <= |s|
    decreases |s| - i
  {
    var a := Skip(s, d, i);
    if a == |s| then []
    else
      var e := RunEnd(s, d, a);
      [s[a..e]] + Words(s, d, After(s, e))
  }

  /** The words are the maximal runs' texts, in the runs' order. */
  lemma {:induction false} WordsAreRuns(s: string, d: set<char>, i: nat)
    requires i <= |s|
    ensures |Words(s, d, i)| == |Runs(s, d, i)|
    ensures forall k :: 0 <= k < |Runs(s, d, i)| ==>
      && Runs(s, d, i)[k].0 < Runs(s, d, i)[k].1 <= |s|
      && Words(s, d, i)[k] == s[Runs(s, d, i)[k].0..Runs(s, d, i)[k].1]
    decreases |s| - i
  {
    var a := Skip(s, d, i);
    SkipStops(s, d, i);
    if a < |s| {
      WordsAreRuns(s, d, After(s, RunEnd(s, d, a)));
    }
  }

  /** Position k holds the delimiter right after a token. */
  ghost predicate EndsRun(s: string, d: set<char>, k: nat)
    requires k < |s|
  {
    s[k] in d && k > 0 && s[k - 1] !in d
  }

  /** The buffer of s once the tokenizer has reached position i. */
  ghost predicate Chopped(buf: seq<char>, s: string, d: set<char>, i: nat) {
    && Holds(buf, s, i)
    && (i == 0 || i == |s| || s[i - 1] in d)
    && (forall k :: 0 <= k < i ==> buf[k] == if EndsRun(s, d, k) then NUL else s[k])
  }

  /** Between one search position and the next, only the position after the token ends a run. */
  lemma OneRunEnd(s: string, d: set<char>, i: nat, k: nat)
    requires i <= k < |s| && (i == 0 || s[i - 1] in d)
    ensures var a := Skip(s, d, i); var e := RunEnd(s, d, a);
      k < After(s, e) ==> (EndsRun(s, d, k) <==> a < |s| && k == e)
  {
    var a := Skip(s, d, i);
    SkipStops(s, d, i);
    RunEndStops(s, d, a);
    if k < a {
      assert k > i ==> s[k - 1] in d;
    } else if k > a {
      assert s[k - 1] !in d || k > RunEnd(s, d, a);
    }
  }

  lemma ChopStep(buf: seq<char>, s: string, d: set<char>, i: nat)
    requires Chopped(buf, s, d, i)
    ensures var a := Skip(s, d, i); var e := RunEnd(s, d, a);
      Chopped(Cut(buf, e, |s|), s, d, After(s, e)) && Holds(Cut(buf, e, |s|), s[..e], a)
  {
    var a := Skip(s, d, i);
    var e := RunEnd(s, d, a);
    RunEndStops(s, d, a);
    forall k | i <= k < After(s, e) ensures EndsRun(s, d, k) <==> a < |s| && k == e {
      if i < |s| {
        OneRunEnd(s, d, i, k);
      }
    }
  }

  /** The next token copied out of the buffer, and where the tokenizer goes on from. */
  method NextWord(buf: array<char>, delim: CString, i: nat, ghost s: string)
    returns (word: Option<string>, save: nat)
    requires Chopped(buf[..], s, Chars(delim), i)
    modifies buf
    ensures Chopped(buf[..], s, Chars(delim), save)
    ensures Produced(s, Chars(delim), i, word, save)
    ensures word.None? ==> save == |s|
  {
    ghost var e := RunEnd(s, Chars(delim), Skip(s, Chars(delim), i));
    ChopStep(buf[..], s, Chars(delim), i);
    var token;
    token, save := StrTokR(buf, i, delim, s);
    if token == -1 {
      return None, save;
    }
    var n := StrLen(buf, token, s[..e]);
    word := Some(buf[token..token + n]);
    HeldText(buf[..], s, token, e);
  }

  lemma HeldText(buf: seq<char>, s: string, a: nat, e: nat)
    requires a <= e <= |s| && Holds(buf, s[..e], a)
    ensures buf[a..e] == s[a..e]
  {
    assert forall k :: a <= k < e ==> buf[k] == s[..e][k] == s[k];
  }

  /** The tokenizer stood at position i and has just produced `word`. */
  ghost predicate Produced(s: string, d: set<char>, i: nat, word: Option<string>, save: nat) {
    && i <= |s|
    && var a := Skip(s, d, i); var e := RunEnd(s, d, a);
       save == After(s, e) && word == if a == |s| then None else Some(s[a..e])
  }

  lemma ProducedWord(s: string, d: set<char>, i: nat, word: Option<string>, save: nat)
    requires Produced(s, d, i, word, save)
    ensures save <= |s| && (word.Some? ==> i < save)
    ensures Words(s, d, i) == if word.None? then [] else [word.value] + Words(s, d, save)
  {}

  /** Calling strtok_r until it returns NULL, copying each token out of the buffer as it comes, gives
      the string's words; the buffer loses only the one delimiter after each of them. */
  method Tokenize(buf: array<char>, delim: CString, ghost s: string) returns (words: seq<string>)
    requires Chopped(buf[..], s, Chars(delim), 0)
    modifies buf
    ensures words == Words(s, Chars(delim), 0)
    ensures Chopped(buf[..], s, Chars(delim), |s|)
  {
    hide Words, Chopped, Skip, RunEnd, Chars;
    words := [];
    ghost var d := Chars(delim);
    var word, save := NextWord(buf, delim, 0, s);
    ghost var i := 0;
    ProducedWord(s, d, i, word, save);
    while word.Some?
      invariant i <= save <= |s| && words + Words(s, d, i) == Words(s, d, 0)
      invariant Chopped(buf[..], s, d, save)
      invariant Words(s, d, i) == if word.None? then [] else [word.value] + Words(s, d, save)
      invariant word.Some? ==> i < save
      invariant word.None? ==> save == |s|
      decreases |s| - i
    {
      words := words + [word.value];
      i := save;
      word, save := NextWord(buf, delim, save, s);
      ProducedWord(s, d, i, word, save);
    }
  }
}
