/**
 * The hierarchical matchers level1contains .. level4contains. Each one runs
 * Go's regexp.MatchString on every node URN with the query spliced in front
 * of a fixed tail and a `$` anchor:
 *   level 1:  e + "([:|.]*[0-9|a-z]+)$"
 *   level L:  the level L-1 pattern with ".([0-9|a-z]+)" inserted before `$`.
 * The search is unanchored at the start, so the query may match anywhere in
 * the node as long as the tail runs to the end of it. Inside the spliced
 * query a `.` matches any character but a newline; every other character of
 * the query is taken literally here.
 */
module Levels {
  import opened Collections

  /** The class `[:|.]`. */
  predicate IsSeparator(c: char)
  {
    c == ':' || c == '|' || c == '.'
  }

  /** The class `[0-9|a-z]` (the `|` is a literal member of the class). */
  predicate IsWordChar(c: char)
  {
    ('0' <= c <= '9') || c == '|' || ('a' <= c <= 'z')
  }

  /** `[0-9|a-z]+` */
  predicate IsWord(w: string)
  {
    |w| > 0 && forall i :: 0 <= i < |w| ==> IsWordChar(w[i])
  }

  /** `[:|.]*` */
  predicate AllSeparators(s: string)
  {
    forall i :: 0 <= i < |s| ==> IsSeparator(s[i])
  }

  /** What an unescaped `.` matches. */
  predicate AnyChar(c: char)
  {
    c != '\n'
  }

  /** `t` is exactly the text the level-`depth` tail (before `$`) matches. */
  predicate Tail(t: string, depth: nat)
    decreases depth
  {
    if depth == 0 then false
    else if depth == 1 then
      exists k :: 0 <= k < |t| && AllSeparators(t[..k]) && IsWord(t[k..])
    else
      exists k :: 0 <= k < |t| && Tail(t[..k], depth - 1) && AnyChar(t[k]) && IsWord(t[k + 1..])
  }

  /** `seg` matches the query `e` spliced into a pattern. */
  predicate PatternMatches(e: string, seg: string)
  {
    |seg| == |e| && forall i :: 0 <= i < |e| ==> if e[i] == '.' then AnyChar(seg[i]) else seg[i] == e[i]
  }

  /** The match found by the regexp starts at offset `i` of the node. */
  predicate MatchAt(node: string, e: string, depth: nat, i: int)
  {
    0 <= i <= |node| - |e| && PatternMatches(e, node[i..i + |e|]) && Tail(node[i + |e|..], depth)
  }

  /** regexp.MatchString(e + tail(depth) + "$", node). */
  predicate LevelMatch(node: string, e: string, depth: nat)
  {
    exists i :: 0 <= i <= |node| - |e| && MatchAt(node, e, depth, i)
  }

  /** The per-node test as a value, for filtering. */
  function MatchesLevel(e: string, depth: nat): string -> bool
  {
    node => LevelMatch(node, e, depth)
  }

  /** Some node matches at this level. */
  predicate AnyMatch(urns: seq<string>, e: string, depth: nat)
  {
    exists i :: 0 <= i < |urns| && LevelMatch(urns[i], e, depth)
  }

  /**
   * The first level in 1..4 at which some node matches, 0 when none does:
   * the order in which the handlers' `switch` statements try the levels.
   */
  function LowestLevel(urns: seq<string>, e: string): (level: nat)
    ensures level <= 4
    ensures level > 0 ==> AnyMatch(urns, e, level)
    ensures forall d :: 1 <= d <= 4 && (level == 0 || d < level) ==> !AnyMatch(urns, e, d)
  {
    if AnyMatch(urns, e, 1) then 1
    else if AnyMatch(urns, e, 2) then 2
    else if AnyMatch(urns, e, 3) then 3
    else if AnyMatch(urns, e, 4) then 4
    else 0
  }

  /** The `match` slice: one regexp.MatchString result per node. */
  method MatchFlags(urns: seq<string>, e: string, depth: nat) returns (flags: seq<bool>)
    ensures |flags| == |urns|
    ensures forall i :: 0 <= i < |urns| ==> flags[i] == LevelMatch(urns[i], e, depth)
  {
    flags := [];
    for i := 0 to |urns|
      invariant |flags| == i
      invariant forall j :: 0 <= j < i ==> flags[j] == LevelMatch(urns[j], e, depth)
    {
      flags := flags + [LevelMatch(urns[i], e, depth)];
    }
  }

  /** levelNcontains: build the `match` slice, then ask boolcontains for a `true`. */
  method LevelContains(urns: seq<string>, e: string, depth: nat) returns (found: bool)
    ensures found <==> AnyMatch(urns, e, depth)
  {
    var flags := MatchFlags(urns, e, depth);
    found := Contains(flags, true);
    if found {
      var i :| 0 <= i < |flags| && flags[i];
      assert LevelMatch(urns[i], e, depth);
    }
  }

  /** The `switch` over level1contains .. level4contains. */
  method FindLowestLevel(urns: seq<string>, e: string) returns (level: nat)
    ensures level == LowestLevel(urns, e)
  {
    var found := LevelContains(urns, e, 1);
    if found { return 1; }
    found := LevelContains(urns, e, 2);
    if found { return 2; }
    found := LevelContains(urns, e, 3);
    if found { return 3; }
    found := LevelContains(urns, e, 4);
    if found { return 4; }
    return 0;
  }

  /** Helper: a query always matches its own text when spliced into a pattern. */
  lemma PatternMatchesItself(e: string)
    ensures PatternMatches(e, e)
  {
  }

  /** A node is matched when it is the query followed by a tail of that level. */
  lemma QueryThenTail(e: string, t: string, depth: nat)
    requires Tail(t, depth)
    ensures LevelMatch(e + t, e, depth)
  {
    var node := e + t;
    assert node[0..|e|] == e && node[|e|..] == t;
    PatternMatchesItself(e);
    assert MatchAt(node, e, depth, 0);
  }

  /**
   * The level-1 tail admits any run of separators before the word, and no
   * separator at all: so both `e.1` and `e1` are children of `e` at level 1
   * (a query ending in `:1` matches the node ending in `:12`).
   */
  lemma LevelOneChild(e: string, seps: string, w: string)
    requires AllSeparators(seps) && IsWord(w)
    ensures LevelMatch(e + seps + w, e, 1)
  {
    var t := seps + w;
    assert t[..|seps|] == seps && t[|seps|..] == w;
    assert Tail(t, 1);
    QueryThenTail(e, t, 1);
    assert e + seps + w == e + t;
  }

  /** Each further level appends one character (the unescaped `.`) and one word. */
  lemma DeeperTail(t: string, c: char, w: string, depth: nat)
    requires Tail(t, depth) && AnyChar(c) && IsWord(w)
    ensures Tail(t + [c] + w, depth + 1)
  {
    var u := t + [c] + w;
    assert u[..|t|] == t && u[|t|] == c && u[|t| + 1..] == w;
  }

  /** A level match makes the node strictly longer than the query, so the two differ. */
  lemma MatchIsLonger(node: string, e: string, depth: nat)
    requires LevelMatch(node, e, depth)
    ensures |node| > |e|
  {
    var i :| 0 <= i <= |node| - |e| && MatchAt(node, e, depth, i);
    TailNotEmpty(node[i + |e|..], depth);
  }

  /** Helper: every tail ends in a non-empty word, so it is never empty. */
  lemma TailNotEmpty(t: string, depth: nat)
    requires Tail(t, depth)
    ensures |t| > 0
  {
  }

  /** The number of `.` characters in `t`. */
  function Dots(t: string): nat
  {
    multiset(t)['.']
  }

  /**
   * Words hold no `.`, so past its leading separators a level-`depth` tail
   * holds at most depth - 1 of them (one per unescaped `.` between words).
   */
  lemma {:induction false} TailDots(t: string, depth: nat)
    requires Tail(t, depth)
    ensures exists k :: 0 <= k < |t| && AllSeparators(t[..k]) && Dots(t[k + 1..]) < depth
    decreases depth
  {
    if depth == 1 {
      var k :| 0 <= k < |t| && AllSeparators(t[..k]) && IsWord(t[k..]);
      WordHasNoDots(t[k + 1..]);
      assert Dots(t[k + 1..]) < depth;
    } else {
      var j :| 0 <= j < |t| && Tail(t[..j], depth - 1) && AnyChar(t[j]) && IsWord(t[j + 1..]);
      var k := TailStep(t, j, depth);
      assert AllSeparators(t[..k]) && Dots(t[k + 1..]) < depth;
    }
  }

  /** The inductive step of TailDots, for the split of `t` at the last unescaped `.`. */
  lemma {:induction false} TailStep(t: string, j: nat, depth: nat) returns (k: nat)
    requires depth >= 2 && j < |t| && Tail(t[..j], depth - 1) && IsWord(t[j + 1..])
    ensures k < |t| && AllSeparators(t[..k]) && Dots(t[k + 1..]) < depth
    decreases depth, 0
  {
    var u := t[..j];
    TailDots(u, depth - 1);
    k :| 0 <= k < |u| && AllSeparators(u[..k]) && Dots(u[k + 1..]) < depth - 1;
    ExtendSplit(t, j, k, depth);
  }

  /** A split point of the prefix `t[..j]` is one of `t` with at most one more dot. */
  lemma ExtendSplit(t: string, j: nat, k: nat, depth: nat)
    requires k < j < |t| && IsWord(t[j + 1..])
    requires AllSeparators(t[..j][..k]) && Dots(t[..j][k + 1..]) < depth - 1
    ensures AllSeparators(t[..k]) && Dots(t[k + 1..]) < depth
  {
    WordHasNoDots(t[j + 1..]);
    DotsAround(t, k + 1, j);
    assert t[..j][k + 1..] == t[k + 1..j];
    assert t[..j][..k] == t[..k];
  }

  /** The dots of `t[i..]` are those of `t[i..j]`, at most one at `j`, and those of `t[j + 1..]`. */
  lemma DotsAround(t: string, i: nat, j: nat)
    requires i <= j < |t|
    ensures Dots(t[i..]) <= Dots(t[i..j]) + 1 + Dots(t[j + 1..])
  {
    assert t[i..] == t[i..j] + ([t[j]] + t[j + 1..]);
    assert multiset(t[i..]) == multiset(t[i..j]) + multiset([t[j]] + t[j + 1..]);
    assert multiset([t[j]] + t[j + 1..]) == multiset([t[j]]) + multiset(t[j + 1..]);
  }

  lemma WordHasNoDots(w: string)
    requires forall i :: 0 <= i < |w| ==> IsWordChar(w[i])
    ensures Dots(w) == 0
  {
    assert '.' !in w;
  }

  /** TailDots, for any string. */
  lemma TailDotsWhen(t: string, depth: nat)
    ensures Tail(t, depth) ==> exists k :: 0 <= k < |t| && AllSeparators(t[..k]) && Dots(t[k + 1..]) < depth
  {
    if Tail(t, depth) {
      TailDots(t, depth);
    }
  }

  /**
   * A string whose second character is no separator, and which holds at
   * least `depth` dots after its first character, is no level-`depth` tail.
   */
  lemma NotShallowTail(t: string, depth: nat)
    requires |t| >= 2 && !IsSeparator(t[1]) && depth <= Dots(t[1..]) && depth <= Dots(t[2..])
    ensures !Tail(t, depth)
  {
    TailDotsWhen(t, depth);
    forall k | 0 <= k < |t| && AllSeparators(t[..k])
      ensures Dots(t[k + 1..]) >= depth
    {
      SeparatorPrefix(t, k);
    }
  }

  lemma SeparatorPrefix(t: string, k: nat)
    requires k <= |t| && AllSeparators(t[..k])
    ensures forall i :: 0 <= i < k ==> IsSeparator(t[i])
  {
    assert forall i :: 0 <= i < k ==> t[..k][i] == t[i];
  }

  /** Example: `urn:cts:ns:w:1` matches both `urn:cts:ns:w:1.2` and `urn:cts:ns:w:12` at level 1. */
  lemma SiblingAsChildExample()
    ensures LevelMatch("urn:cts:ns:w:1.2", "urn:cts:ns:w:1", 1)
    ensures LevelMatch("urn:cts:ns:w:12", "urn:cts:ns:w:1", 1)
  {
    LevelOneChild("urn:cts:ns:w:1", ".", "2");
    assert "urn:cts:ns:w:1" + "." + "2" == "urn:cts:ns:w:1.2";
    LevelOneChild("urn:cts:ns:w:1", "", "2");
    assert "urn:cts:ns:w:1" + "" + "2" == "urn:cts:ns:w:12";
  }
}
