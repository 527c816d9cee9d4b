/**
 * `tree-path`: rendering a subtree as indented text lines (`TextGraph`),
 * rendering the ancestor chain as a delimited path (`TextPath`), and walking
 * down the tree along such a path (`FindPath`). The text property a caller
 * names is modelled by the item's text, so the name at each position of the
 * list is `Names(text, owner, order)`.
 */
module Paths {
  import opened Wrappers
  import opened TreeTypes
  import opened PreOrder
  import opened Chains
  import opened Splice
  import opened LibTree
  import opened VisitClasses
  import opened Visitation
  import opened Navigation

  /** The name at each position of the list: the text of the node's owner. */
  function Names(text: seq<string>, owner: seq<nat>, o: seq<nat>): (N: seq<string>)
    requires Within(o, |owner|) && forall n :: 0 <= n < |owner| ==> owner[n] < |text|
    ensures |N| == |o|
    ensures forall p :: 0 <= p < |o| ==> N[p] == text[owner[o[p]]]
  {
    seq(|o|, p requires 0 <= p < |o| => text[owner[o[p]]])
  }

  /** `k` copies of `s`, one after the other. */
  function Repeat(s: string, k: nat): string
  {
    if k == 0 then "" else Repeat(s, k - 1) + s
  }

  // ---------------------------------------------------------------- TextGraph

  /**
   * The graph of the node at position `j` up to (not including) position
   * `hi` of its subtree: its own name when asked for, then for each
   * descendant in list order the end-of-line text, one indent per level
   * below `j` (one fewer when the node itself is not rendered, so that its
   * children sit at the margin), and the descendant's name.
   */
  function Rendered(N: seq<string>, L: seq<nat>, j: nat, hi: nat, includeThis: bool, ind: string, eol: string): string
    requires |N| == |L| && j < |L| && j < hi <= SubtreeEnd(L, j)
    decreases hi
  {
    if hi == j + 1 then (if includeThis then N[j] else "")
    else
      var p := hi - 1;
      Rendered(N, L, j, p, includeThis, ind, eol) + eol +
      Repeat(ind, if includeThis then L[p] - L[j] else L[p] - L[j] - 1) + N[p]
  }

  /** The graph of the node at position `j`: the rendering of its whole subtree. */
  function Graph(N: seq<string>, L: seq<nat>, j: nat, includeThis: bool, ind: string, eol: string): string
    requires |N| == |L| && j < |L|
  {
    Rendered(N, L, j, SubtreeEnd(L, j), includeThis, ind, eol)
  }

  /** One more descendant rendered: its line follows the lines before it. */
  lemma {:induction false} RenderedStep(N: seq<string>, L: seq<nat>, j: nat, i: nat, includeThis: bool, ind: string, eol: string,
                                        g0: string, g: string, start: int, diff: int, name: string)
    requires |N| == |L| && j < |L| && j < i < SubtreeEnd(L, j) && diff == L[i] - L[j] && name == N[i]
    requires start == (if includeThis then 1 else 2)
    requires g0 == Rendered(N, L, j, i, includeThis, ind, eol) + eol
    requires g == g0 + Repeat(ind, if diff >= start then diff - start + 1 else 0) + name
    ensures g == Rendered(N, L, j, i + 1, includeThis, ind, eol)
  {
  }

  /** The `for` loop of `TextGraph`: appends the indent text once for each index from `start` through `last`. */
  method AppendIndents(g: string, indentText: string, start: int, last: int) returns (r: string)
    ensures r == g + Repeat(indentText, if last >= start then last - start + 1 else 0)
  {
    r := g;
    var index := start;
    while index <= last
      invariant start <= index && (if last >= start then index <= last + 1 else index == start)
      invariant r == g + Repeat(indentText, index - start)
    {
      r := r + indentText;
      index := index + 1;
    }
  }

  /** The list is spelled out by the `NextNode` links, its levels are the indents, and `N` names each position. */
  ghost predicate Laid(t: Tree, N: seq<string>)
    reads t
  {
    |t.order| == |t.depths| == |N| &&
    forall k :: 0 <= k < |t.order| ==> Stored(t, N, k)
  }

  /** What the arena stores for the node at position `k`: its successor is the next node of the list, its indent the level there, its owner's text the name there. */
  ghost predicate Stored(t: Tree, N: seq<string>, k: nat)
    reads t
    requires k < |t.order| == |t.depths| == |N|
  {
    t.order[k] < |t.next| && t.order[k] < |t.indent| && t.order[k] < |t.owner| && t.owner[t.order[k]] < |t.text| &&
    t.next[t.order[k]] == NodeAt(t.order, k + 1) && t.indent[t.order[k]] == t.depths[k] &&
    t.text[t.owner[t.order[k]]] == N[k]
  }

  /** A consistent arena is laid out along its list. */
  lemma {:induction false} ValidLaid(t: Tree)
    requires t.Valid()
    ensures Laid(t, Names(t.text, t.owner, t.order))
  {
  }

  /**
   * `TextGraph`: starts from the node's own text (or nothing), then follows
   * `NextNode` while the indent stays deeper than the node's, appending for
   * each node the end-of-line text, the indents counted by the `for` loop
   * from 1 (or 2 without `IncludeThis`) up to the indent difference, and its
   * text. The result is the graph of exactly the node's subtree.
   */
  method TextGraph(t: Tree, n: nat, ghost j: nat, includeThis: bool, indentText: string, eolText: string)
      returns (g: string)
    requires Listed(t, n, j)
    ensures g == Graph(Names(t.text, t.owner, t.order), t.depths, j, includeThis, indentText, eolText)
  {
    ValidLaid(t);
    g := RenderSubtree(t, n, j, Names(t.text, t.owner, t.order), includeThis, indentText, eolText);
  }

  /** The body of `TextGraph`, over an arena laid out along its list. */
  method RenderSubtree(t: Tree, n: nat, ghost j: nat, ghost N: seq<string>, includeThis: bool, indentText: string, eolText: string)
      returns (g: string)
    requires Laid(t, N) && j < |t.order| && t.order[j] == n
    ensures g == Graph(N, t.depths, j, includeThis, indentText, eolText)
  {
    ghost var o, L := t.order, t.depths;
    ghost var e := SubtreeEnd(L, j);
    assert Stored(t, N, j);
    g := "";
    if includeThis {
      g := t.text[t.owner[n]];
    }
    var rootIndent := t.indent[n];
    var nextNode := t.next[n];
    ghost var i: nat := j + 1;
    while nextNode.Some?
      invariant j < i <= e && nextNode == NodeAt(o, i)
      invariant g == Rendered(N, L, j, i, includeThis, indentText, eolText)
      decreases |o| - i
    {
      var m := nextNode.value;
      assert Stored(t, N, i);
      if t.indent[m] <= rootIndent {
        break;
      }
      g := g + eolText;
      var start := 1;
      if !includeThis {
        start := start + 1;
      }
      ghost var g0 := g;
      g := AppendIndents(g, indentText, start, t.indent[m] - rootIndent);
      g := g + t.text[t.owner[m]];
      RenderedStep(N, L, j, i, includeThis, indentText, eolText, g0, g, start, t.indent[m] - rootIndent, t.text[t.owner[m]]);
      nextNode := t.next[m];
      i := i + 1;
    }
  }

  // ----------------------------------------------------------------- TextPath

  /** The path from the root down to position `p`: the path to its parent, then the delimiter and its own name. */
  function PathTo(N: seq<string>, L: seq<nat>, p: nat, d: string): string
    requires |N| == |L| && p < |L|
    decreases p
  {
    (match Relative(L, p, ParentNode)
     case None => ""
     case Some(q) => PathTo(N, L, q, d)) + d + N[p]
  }

  /** The topmost ancestor of position `p` (`p` itself when it has no parent). */
  function Top(L: seq<nat>, p: nat): (r: nat)
    requires p < |L|
    ensures r <= p
    decreases p
  {
    match Relative(L, p, ParentNode)
    case None => p
    case Some(q) => Top(L, q)
  }

  /** The segments for a list of names, the last one leftmost: what `TextPath`'s loop builds from the texts of its log. */
  function Segments(names: seq<string>, d: string): string
  {
    if names == [] then "" else d + names[|names| - 1] + Segments(names[..|names| - 1], d)
  }

  /** A name put in front of the list ends up as the rightmost segment. */
  lemma {:induction false} SegmentsCons(x: string, Y: seq<string>, d: string)
    ensures Segments([x] + Y, d) == Segments(Y, d) + d + x
    decreases |Y|
  {
    if Y == [] {
      assert [x] + Y == [x];
      assert [x][..0] == [];
    } else {
      var Y' := Y[..|Y| - 1];
      assert ([x] + Y)[..|Y|] == [x] + Y';
      SegmentsCons(x, Y', d);
    }
  }

  /** The names at the positions `P`, in the same order. */
  function NamesAt(N: seq<string>, P: seq<nat>): (r: seq<string>)
    requires Within(P, |N|)
    ensures |r| == |P| && forall i :: 0 <= i < |P| ==> r[i] == N[P[i]]
  {
    seq(|P|, i requires 0 <= i < |P| => N[P[i]])
  }

  /** The texts of the items of a log, in the same order. */
  function ItemTexts(text: seq<string>, items: seq<nat>): (r: seq<string>)
    requires forall i :: 0 <= i < |items| ==> items[i] < |text|
    ensures |r| == |items| && forall i :: 0 <= i < |items| ==> r[i] == text[items[i]]
  {
    seq(|items|, i requires 0 <= i < |items| => text[items[i]])
  }

  /** The ancestors walked upward from `p`, `p` first, spell out the path to `p`, and the walk ends at the topmost ancestor. */
  lemma {:induction false} AncestorSegments(N: seq<string>, L: seq<nat>, j: nat, p: nat, d: string)
    requires |N| == |L| && j < |L| && p < |L|
    ensures var W := Walk(L, j, p, ParentNode, false);
      |W| > 0 && W[|W| - 1] == Top(L, p) && Segments(NamesAt(N, W), d) == PathTo(N, L, p, d)
    decreases p
  {
    var W := Walk(L, j, p, ParentNode, false);
    match Relative(L, p, ParentNode)
    case None =>
      assert WalkAfter(L, j, p, ParentNode, false) == [];
      assert NamesAt(N, W) == [N[p]] + [];
      SegmentsCons(N[p], [], d);
    case Some(q) =>
      var W' := Walk(L, j, q, ParentNode, false);
      assert WalkAfter(L, j, p, ParentNode, false) == W';
      assert W == [p] + W';
      assert NamesAt(N, W) == [N[p]] + NamesAt(N, W');
      AncestorSegments(N, L, j, q, d);
      SegmentsCons(N[p], NamesAt(N, W'), d);
  }

  /** Without a parent above the root of the list, the topmost ancestor is the `RootNode` relative: the nearest level-0 position at or before `p`. */
  lemma {:induction false} TopIsRoot(L: seq<nat>, p: nat)
    requires p < |L| && L[0] == 0
    ensures L[Top(L, p)] == 0
    ensures Top(L, p) == Relative(L, p, RootNode).value
  {
    TopBelow(L, p);
    RootUnique(L, p, Top(L, p));
  }

  /** Everything after the topmost ancestor, up to `p`, is deeper than it, and it is at level 0. */
  lemma {:induction false} TopBelow(L: seq<nat>, p: nat)
    requires p < |L| && L[0] == 0
    ensures L[Top(L, p)] == 0
    ensures forall k :: Top(L, p) < k <= p ==> L[k] > 0
    decreases p
  {
    match Relative(L, p, ParentNode)
    case None =>
      ParentIsNearestShallower(L, p, 0);
      if p > 0 {
        assert L[0] >= L[p];
      }
    case Some(q) =>
      ParentIsNearestShallower(L, p, q);
      TopBelow(L, q);
  }

  /** The visitor `TextPath` passes: it pushes the item (the visit log) and returns nothing. */
  function Collect(x: nat): Option<nat>
  {
    None
  }

  /** The log of a visit that never answers names the positions visited, in order. */
  lemma {:induction false} CollectedNames(text: seq<string>, owner: seq<nat>, o: seq<nat>, P: seq<nat>, items: seq<nat>)
    requires Within(P, |o|) && Within(o, |owner|) && forall n :: 0 <= n < |owner| ==> owner[n] < |text|
    requires items == Trace(o, owner, P, Collect).seen
    ensures forall i :: 0 <= i < |items| ==> items[i] < |text|
    ensures ItemTexts(text, items) == NamesAt(Names(text, owner, o), P)
  {
    TraceStopsAtFirstAnswer(o, owner, P, Collect);
  }

  /**
   * The loop of `TextPath`: for each index from 0 through `lastIndex`,
   * prepends the delimiter and the text of the item there.
   */
  method PrependSegments(text: seq<string>, items: seq<nat>, lastIndex: int, delim: string) returns (textPath: string)
    requires -1 <= lastIndex < |items| && forall i :: 0 <= i < |items| ==> items[i] < |text|
    ensures textPath == Segments(ItemTexts(text, items)[..lastIndex + 1], delim)
  {
    ghost var texts := ItemTexts(text, items);
    textPath := "";
    var index := 0;
    while index <= lastIndex
      invariant 0 <= index <= lastIndex + 1
      invariant textPath == Segments(texts[..index], delim)
    {
      textPath := delim + text[items[index]] + textPath;
      index := index + 1;
      assert texts[..index][..index - 1] == texts[..index - 1];
    }
  }

  /**
   * `TextPath`: collects the node and its ancestors, nearest first, with
   * `VisitNodes(ParentNodes, …, true)`, then prepends the delimiter and the
   * text of each, stopping one short of the root when `IncludeRoot` is
   * false. The result is the path from the root down to the node; without
   * the root it is that path with exactly the root's segment taken off the
   * front.
   */
  method TextPath(t: Tree, n: nat, ghost j: nat, includeRoot: bool, delim: string) returns (p: string)
    requires Listed(t, n, j) && t.Owned()
    ensures var N := Names(t.text, t.owner, t.order);
      if includeRoot then p == PathTo(N, t.depths, j, delim)
      else delim + N[Top(t.depths, j)] + p == PathTo(N, t.depths, j, delim)
  {
    ghost var o, L := t.order, t.depths;
    ghost var N := Names(t.text, t.owner, o);
    ghost var P := VisitPositions(L, j, ParentNodes, true);
    assert P == Walk(L, j, j, ParentNode, false);
    VisitationArgSelects(ParentNodes);
    var r, items := VisitNodes(t, n, j, VisitationArg(ParentNodes), Some(Collect), true);
    CollectedNames(t.text, t.owner, o, P, items);
    var lastIndex := |items| - 1;
    if !includeRoot {
      lastIndex := lastIndex - 1;
    }
    p := PrependSegments(t.text, items, lastIndex, delim);
    PathFromLog(N, L, j, ItemTexts(t.text, items), includeRoot, lastIndex, delim, p);
  }

  /** The segments of the ancestors' names up to `lastIndex` are the path to `j`, or that path without the root's segment. */
  lemma {:induction false} PathFromLog(N: seq<string>, L: seq<nat>, j: nat, texts: seq<string>, includeRoot: bool,
                                       lastIndex: int, d: string, p: string)
    requires |N| == |L| && j < |L| && texts == NamesAt(N, Walk(L, j, j, ParentNode, false))
    requires lastIndex == (if includeRoot then |texts| - 1 else |texts| - 2)
    requires -1 <= lastIndex && p == Segments(texts[..lastIndex + 1], d)
    ensures if includeRoot then p == PathTo(N, L, j, d) else d + N[Top(L, j)] + p == PathTo(N, L, j, d)
  {
    AncestorSegments(N, L, j, j, d);
    assert texts[..|texts|] == texts;
  }

  // ----------------------------------------------------------------- FindPath

  /** The delimiter occurs in `s` at position `k`. */
  ghost predicate At(s: string, d: string, k: nat)
  {
    k + |d| <= |s| && s[k..k + |d|] == d
  }

  /** `s.indexOf(d)` searching from position `i`: the first position at or after `i` where `d` occurs, or -1. */
  function IndexFrom(s: string, d: string, i: nat): (r: int)
    ensures r == -1 || (i <= r && At(s, d, r))
    ensures r == -1 ==> forall k :: i <= k ==> !At(s, d, k)
    ensures r >= 0 ==> forall k :: i <= k < r ==> !At(s, d, k)
    decreases |s| - i
  {
    if i + |d| > |s| then -1
    else if s[i..i + |d|] == d then i
    else IndexFrom(s, d, i + 1)
  }

  /** `s.indexOf(d)`. An empty `d` is found at 0. */
  function IndexOf(s: string, d: string): (r: int)
    ensures r == -1 || (0 <= r && At(s, d, r))
    ensures r == -1 ==> forall k :: 0 <= k ==> !At(s, d, k)
    ensures r >= 0 ==> forall k :: 0 <= k < r ==> !At(s, d, k)
  {
    IndexFrom(s, d, 0)
  }

  /** The inner loop of `FindPath`: drops delimiters from the front of `s` while it starts with one. */
  function Strip(s: string, d: string): (r: string)
    requires |d| > 0
    ensures |r| <= |s| && IndexOf(r, d) != 0
    decreases |s|
  {
    if IndexOf(s, d) == 0 then Strip(s[|d|..], d) else s
  }

  /** Where the segment at the front of `s` ends: at the first delimiter, or at the end of `s`. */
  function SegmentEnd(s: string, d: string): (k: nat)
    ensures k <= |s|
  {
    var ich := IndexOf(s, d);
    if ich < 0 then |s| else ich
  }

  /** The first of the positions `P` whose name is `seg`. */
  function FirstNamed(N: seq<string>, P: seq<nat>, seg: string): (r: Option<nat>)
    requires Within(P, |N|)
    ensures r.Some? ==> r.value in P && N[r.value] == seg
    ensures r.None? ==> forall i :: 0 <= i < |P| ==> N[P[i]] != seg
  {
    if P == [] then None
    else if N[P[0]] == seg then Some(P[0])
    else FirstNamed(N, P[1..], seg)
  }

  /**
   * Where a path leads from position `j`: nowhere further once it is empty
   * or only delimiters; otherwise its first segment names the node at `j`
   * itself or the first of `j`'s children that bears it, and the rest of the
   * path leads on from there. None when no such node exists.
   */
  function Locate(N: seq<string>, L: seq<nat>, j: nat, s: string, d: string): (r: Option<nat>)
    requires |N| == |L| && j < |L| && (|d| > 0 || s == "")
    ensures r.Some? ==> r.value < |L|
    decreases |s|
  {
    if s == "" then Some(j)
    else
      var s1 := Strip(s, d);
      if s1 == "" then Some(j)
      else
        var k := SegmentEnd(s1, d);
        match FirstNamed(N, [j] + KidPositions(L, j), s1[..k])
        case None => None
        case Some(p) => Locate(N, L, p, s1[k..], d)
  }

  /** The visitor `FindPath` passes: it answers the item whose text is `seg`. */
  function NameIs(text: seq<string>, seg: string): nat -> Option<nat>
  {
    (x: nat) => if x < |text| && text[x] == seg then Some(x) else None
  }

  /** A visit with `NameIs(seg)` answers the owner at the first position named `seg`, and otherwise finishes. */
  lemma {:induction false} TraceFindsName(text: seq<string>, owner: seq<nat>, o: seq<nat>, P: seq<nat>, seg: string)
    requires Within(P, |o|) && Within(o, |owner|) && forall n :: 0 <= n < |owner| ==> owner[n] < |text|
    ensures Trace(o, owner, P, NameIs(text, seg)).outcome ==
      match FirstNamed(Names(text, owner, o), P, seg)
      case None => Finished
      case Some(p) => Returned(owner[o[p]])
    decreases |P|
  {
    if P != [] {
      var N := Names(text, owner, o);
      if N[P[0]] != seg {
        TraceFindsName(text, owner, o, P[1..], seg);
      }
    }
  }

  /**
   * `FindPath`: from this node, repeatedly strips leading delimiters, cuts
   * the next segment off at the following delimiter, and moves to the item
   * `VisitNodes(ChildNodes, …, true)` finds with that text (this node first,
   * then its children), answering `null` as soon as none is found. It
   * answers the owner of the node it ends at. The path is the one `Locate`
   * follows. `IncludeThis` is accepted and never read. A non-empty path
   * needs a non-empty delimiter: `indexOf('')` is 0, so the stripping loop
   * would never end.
   */
  method FindPath(t: Tree, n: nat, ghost j: nat, path: string, includeThis: bool, delim: string) returns (r: Option<nat>)
    requires Listed(t, n, j) && t.Owned()
    requires |delim| > 0 || path == ""
    ensures r == match Locate(Names(t.text, t.owner, t.order), t.depths, j, path, delim)
                 case None => None
                 case Some(p) => Some(t.owner[t.order[p]])
  {
    ghost var o, L := t.order, t.depths;
    ghost var N := Names(t.text, t.owner, o);
    var textPath := path;
    var node := n;
    ghost var q := j;
    while |textPath| > 0
      invariant Listed(t, node, q) && (|delim| > 0 || textPath == "")
      invariant Locate(N, L, j, path, delim) == Locate(N, L, q, textPath, delim)
      decreases |textPath|
    {
      ghost var s0 := textPath;
      while IndexOf(textPath, delim) == 0
        invariant |textPath| <= |s0| && Strip(textPath, delim) == Strip(s0, delim)
        decreases |textPath|
      {
        textPath := textPath[|delim|..];
      }
      if |textPath| > 0 {
        var ich := IndexOf(textPath, delim);
        if ich < 0 {
          ich := |textPath|;
        }
        var textValue := textPath[..ich];
        textPath := textPath[ich..];
        VisitationArgSelects(ChildNodes);
        var found, _ := VisitNodes(t, node, q, VisitationArg(ChildNodes), Some(NameIs(t.text, textValue)), true);
        ChildClassIsKids(L, q);
        TraceFindsName(t.text, t.owner, o, VisitPositions(L, q, ChildNodes, true), textValue);
        if !found.value.Returned? {
          return None;
        }
        ghost var p := FirstNamed(N, [q] + KidPositions(L, q), textValue).value;
        node := t.nodeOf[found.value.value].value;
        q := p;
      }
    }
    r := Some(t.owner[node]);
  }

  /**
   * With an empty delimiter the stripping loop of `FindPath` as written makes
   * no progress: `indexOf('')` is 0 for every path, so the loop test keeps
   * holding, and dropping the first `Delimiter.length` characters drops none.
   * A non-empty path therefore never leaves the loop.
   */
  lemma {:induction false} EmptyDelimiterStalls(s: string)
    ensures IndexOf(s, "") == 0 && s[|""|..] == s
  {
    assert s[0..0] == "";
  }

  /**
   * `FindPath` as its documentation describes it: with an empty delimiter
   * it answers this node's owner; otherwise it follows the path as
   * `FindPath` does.
   */
  method FindPathCorrected(t: Tree, n: nat, ghost j: nat, path: string, includeThis: bool, delim: string)
    returns (r: Option<nat>)
    requires Listed(t, n, j) && t.Owned()
    ensures |delim| == 0 ==> r == Some(t.owner[n])
    ensures |delim| > 0 ==> r == match Locate(Names(t.text, t.owner, t.order), t.depths, j, path, delim)
                                 case None => None
                                 case Some(p) => Some(t.owner[t.order[p]])
  {
    if |delim| == 0 {
      return Some(t.owner[n]);
    }
    r := FindPath(t, n, j, path, includeThis, delim);
  }

  // ------------------------------------------------------------- round trip

  /** A name a path can carry: not empty, and the first delimiter in the name followed by a delimiter is the one that follows it. */
  ghost predicate Plain(s: string, d: string)
  {
    |s| > 0 && IndexOf(s + d, d) == |s|
  }

  /** The node at position `c` is not named like its parent. */
  ghost predicate UnlikeParent(N: seq<string>, L: seq<nat>, c: nat)
    requires c < |L| == |N|
  {
    match Relative(L, c, ParentNode)
    case None => true
    case Some(q) => N[q] != N[c]
  }

  /** Two different children of one parent are named differently. */
  ghost predicate UnlikeSibling(N: seq<string>, L: seq<nat>, b: nat, c: nat)
    requires b < |L| && c < |L| == |N|
  {
    Relative(L, b, ParentNode).Some? && Relative(L, b, ParentNode) == Relative(L, c, ParentNode) ==> N[b] != N[c]
  }

  /**
   * The names of a tree under which its text paths lead back to their
   * nodes: every name is plain, no node is named like its parent, and
   * siblings are named apart.
   */
  ghost predicate Unambiguous(N: seq<string>, L: seq<nat>, d: string)
    requires |N| == |L|
  {
    (forall p :: 0 <= p < |N| ==> Plain(N[p], d)) &&
    (forall c :: 0 <= c < |L| ==> UnlikeParent(N, L, c)) &&
    (forall b, c :: 0 <= b < |L| && 0 <= c < |L| && b != c ==> UnlikeSibling(N, L, b, c))
  }

  /** Appending to a string does not move its first delimiter. */
  lemma {:induction false} IndexOfAppend(A: string, B: string, d: string)
    requires IndexOf(A, d) >= 0
    ensures IndexOf(A + B, d) == IndexOf(A, d)
  {
    var k := IndexOf(A, d);
    assert (A + B)[k..k + |d|] == A[k..k + |d|];
    assert At(A + B, d, k);
    forall i | 0 <= i < k
      ensures !At(A + B, d, i)
    {
      if At(A + B, d, i) {
        assert (A + B)[i..i + |d|] == A[i..i + |d|];
        assert At(A, d, i);
      }
    }
  }

  /** A plain name holds no delimiter. */
  lemma {:induction false} PlainHasNoDelimiter(s: string, d: string)
    requires |d| > 0 && Plain(s, d)
    ensures IndexOf(s, d) == -1
  {
    var k := IndexOf(s, d);
    if k >= 0 {
      assert (s + d)[k..k + |d|] == s[k..k + |d|];
      assert At(s + d, d, k);
    }
  }

  /** The rest of a path after a segment: nothing, or a delimiter and more. */
  ghost predicate Continues(R: string, d: string)
  {
    R == "" || At(R, d, 0)
  }

  /**
   * A path of the form delimiter, plain name, rest is followed by moving to
   * the first of the node and its children bearing that name, then following
   * the rest from there.
   */
  lemma {:induction false} LocateStep(N: seq<string>, L: seq<nat>, q: nat, s: string, R: string, d: string)
    requires |N| == |L| && q < |L| && |d| > 0 && Plain(s, d) && Continues(R, d)
    ensures Locate(N, L, q, d + s + R, d) ==
      match FirstNamed(N, [q] + KidPositions(L, q), s)
      case None => None
      case Some(p) => Locate(N, L, p, R, d)
  {
    var S := d + s + R;
    assert S[0..|d|] == d;
    assert S[|d|..] == s + R;
    PlainHasNoDelimiter(s, d);
    if R == "" {
      assert s + R == s;
    } else {
      assert R == d + R[|d|..];
      assert s + R == (s + d) + R[|d|..];
      IndexOfAppend(s + d, R[|d|..], d);
    }
    assert Strip(s + R, d) == s + R;
    assert Strip(S, d) == s + R;
    assert SegmentEnd(s + R, d) == |s|;
    assert (s + R)[..|s|] == s && (s + R)[|s|..] == R;
  }

  /** The first position named `N[p]` among a list holding `p` and no other position of that name is `p`. */
  lemma {:induction false} FirstNamedUnique(N: seq<string>, P: seq<nat>, p: nat)
    requires Within(P, |N|) && p in P
    requires forall i :: 0 <= i < |P| && P[i] != p ==> N[P[i]] != N[p]
    ensures FirstNamed(N, P, N[p]) == Some(p)
    decreases |P|
  {
    if P[0] != p {
      FirstNamedUnique(N, P[1..], p);
    }
  }

  /** Looking for a child's name at its parent finds that child. */
  lemma {:induction false} ChildFound(N: seq<string>, L: seq<nat>, d: string, q: nat, p: nat)
    requires |N| == |L| && Shaped(L) && Unambiguous(N, L, d)
    requires p < |L| && Relative(L, p, ParentNode) == Some(q)
    ensures FirstNamed(N, [q] + KidPositions(L, q), N[p]) == Some(p)
  {
    var e := SubtreeEnd(L, q);
    var K := KidPositions(L, q);
    var P := [q] + K;
    assert UnlikeParent(N, L, p);
    ParentChildDuality(L, q, p);
    MatchingHas(L, q + 1, e, L[q] + 1, p);
    forall i | 0 <= i < |P| && P[i] != p
      ensures N[P[i]] != N[p]
    {
      if i > 0 {
        var c := P[i];
        assert c == K[i - 1];
        ParentChildDuality(L, q, c);
        assert UnlikeSibling(N, L, c, p);
      }
    }
    FirstNamedUnique(N, P, p);
  }

  /**
   * Following the path to `p`, and then any rest, from `p`'s topmost
   * ancestor arrives at `p` and follows the rest from there.
   */
  lemma {:induction false} PathLeadsBack(N: seq<string>, L: seq<nat>, d: string, p: nat, R: string)
    requires |N| == |L| && p < |L| && Shaped(L) && |d| > 0 && Unambiguous(N, L, d) && Continues(R, d)
    ensures Locate(N, L, Top(L, p), PathTo(N, L, p, d) + R, d) == Locate(N, L, p, R, d)
    decreases p
  {
    assert Plain(N[p], d);
    PathSplit(N, L, d, p, R);
    match Relative(L, p, ParentNode)
    case None =>
      LocateStep(N, L, p, N[p], R, d);
    case Some(q) =>
      PathLeadsBack(N, L, d, q, d + N[p] + R);
      LocateStep(N, L, q, N[p], R, d);
      ChildFound(N, L, d, q, p);
  }

  /** The path to `p`, then a rest, is the path to its parent (if any) then a rest that begins with the delimiter and `p`'s name. */
  lemma {:induction false} PathSplit(N: seq<string>, L: seq<nat>, d: string, p: nat, R: string)
    requires |N| == |L| && p < |L|
    ensures Continues(d + N[p] + R, d)
    ensures match Relative(L, p, ParentNode)
      case None => PathTo(N, L, p, d) + R == d + N[p] + R
      case Some(q) => PathTo(N, L, p, d) + R == PathTo(N, L, q, d) + (d + N[p] + R)
  {
    StartsWithDelimiter(d, N[p] + R);
    assert d + N[p] + R == d + (N[p] + R);
    match Relative(L, p, ParentNode)
    case None =>
      assert PathTo(N, L, p, d) == "" + d + N[p];
      Regrouped("", d, N[p], R);
    case Some(q) =>
      assert PathTo(N, L, p, d) == PathTo(N, L, q, d) + d + N[p];
      Regrouped(PathTo(N, L, q, d), d, N[p], R);
  }

  /** A string that starts with the delimiter continues a path. */
  lemma {:induction false} StartsWithDelimiter(d: string, S: string)
    ensures Continues(d + S, d)
  {
    assert (d + S)[0..|d|] == d;
  }

  /** Appending a rest to a path regroups with the last segment. */
  lemma {:induction false} Regrouped(P: string, d: string, x: string, R: string)
    ensures P + d + x + R == P + (d + x + R)
  {
  }

  /** From the root of a one-rooted list, the text path of every node leads back to that node. */
  lemma {:induction false} FindsTextPath(N: seq<string>, L: seq<nat>, d: string, p: nat)
    requires |N| == |L| && p < |L| && Shaped(L) && L[0] == 0 && |d| > 0 && Unambiguous(N, L, d)
    requires forall k :: 0 < k < |L| ==> L[k] > 0
    ensures Top(L, p) == 0
    ensures Locate(N, L, 0, PathTo(N, L, p, d), d) == Some(p)
  {
    TopBelow(L, p);
    PathLeadsBack(N, L, d, p, "");
    assert PathTo(N, L, p, d) + "" == PathTo(N, L, p, d);
  }

  /**
   * `FindPath(TextPath(...))` composed: the path of the node at position
   * `j`, with the root, found from the node's topmost ancestor, answers the
   * node's owner.
   */
  method PathRoundTrip(t: Tree, n: nat, ghost j: nat, top: nat, delim: string) returns (found: Option<nat>)
    requires Listed(t, n, j) && t.Owned() && |delim| > 0
    requires Unambiguous(Names(t.text, t.owner, t.order), t.depths, delim)
    requires top == t.order[Top(t.depths, j)]
    ensures found == Some(t.owner[n])
  {
    var path := TextPath(t, n, j, true, delim);
    found := FindPath(t, top, Top(t.depths, j), path, true, delim);
    PathLeadsBack(Names(t.text, t.owner, t.order), t.depths, delim, j, "");
    assert path + "" == path;
  }
}
