/**
 * The fourteen-node tree the library's tests build: `A1` at the root, with
 * children `B1`, `B2`, `B3`; `B1` with `C1`, `C2`, `C3`; `C1` with `D1`,
 * `D2`, `D3`; `B2` with `C4`, `C5`, `C6`; `B3` with `C7`. Nodes are numbered
 * in the order they are created. The tree is grown by the list and level
 * changes `AddChild` makes (a child appended at `Slot`), and the answers
 * the tests expect are checked against the specification functions.
 */
module ReferenceTree {
  import opened Wrappers
  import opened TreeTypes
  import opened PreOrder
  import opened Chains
  import opened Splice
  import opened VisitClasses
  import opened Visitation
  import opened Paths

  /** Where node `n` sits in the list `o`, or `|o|` when it is not listed. */
  function PositionOf(o: seq<nat>, n: nat): (j: nat)
    ensures j <= |o| && (j < |o| ==> o[j] == n)
  {
    if o == [] then 0
    else if o[0] == n then 0
    else 1 + PositionOf(o[1..], n)
  }

  /**
   * The list and levels after each `(parent, child)` pair in turn: the
   * child is spliced in where `AddChild` with no index puts it, one level
   * below its parent.
   */
  function Grow(o: seq<nat>, L: seq<nat>, adds: seq<(nat, nat)>): (r: (seq<nat>, seq<nat>))
    requires |o| == |L|
    ensures |r.0| == |r.1|
    decreases |adds|
  {
    if adds == [] then (o, L)
    else
      var j := PositionOf(o, adds[0].0);
      if j == |o| then Grow(o, L, adds[1..])
      else
        var s := Slot(L, j + 1, L[j], -1);
        Grow(Insert(o, s, adds[0].1), Insert(L, s, L[j] + 1), adds[1..])
  }

  /** The thirteen `AddChild` calls of the tests, as (parent, new child) node numbers. */
  const Adds: seq<(nat, nat)> :=
    [(0, 1), (1, 2), (2, 3), (2, 4), (2, 5), (1, 6), (1, 7), (0, 8), (8, 9), (8, 10), (8, 11), (0, 12), (12, 13)]

  /** The names of the nodes, by node number. */
  const Texts: seq<string> :=
    ["A1", "B1", "C1", "D1", "D2", "D3", "C2", "C3", "B2", "C4", "C5", "C6", "B3", "C7"]

  /** The list and levels of the tree. */
  const Order: seq<nat> := [0, 1, 2, 3, 4, 5, 6, 7, 8, 9, 10, 11, 12, 13]
  const Levels: seq<nat> := [0, 1, 2, 3, 3, 3, 2, 2, 1, 2, 2, 2, 1, 2]

  /** In a list numbered from `b` upwards, node `b + m` sits at position `m`. */
  lemma {:induction false} PositionInCount(o: seq<nat>, b: nat, m: nat)
    requires m < |o| && forall i :: 0 <= i < |o| ==> o[i] == b + i
    ensures PositionOf(o, b + m) == m
  {
    if m > 0 {
      PositionInCount(o[1..], b + 1, m - 1);
    }
  }

  /** With no index, the slot scan never counts down to a child, so it runs past every deeper position. */
  lemma {:induction false} SlotPastDeeper(L: seq<nat>, i: nat, d: nat, k: int)
    requires i <= |L| && k < 0 && forall m :: i <= m < |L| ==> L[m] > d
    ensures Slot(L, i, d, k) == |L|
    decreases |L| - i
  {
    if i < |L| {
      SlotPastDeeper(L, i + 1, d, if L[i] == d + 1 then k - 1 else k);
    }
  }

  /** Adding a child to node `p` when everything after `p` is deeper appends it to the end of the list. */
  lemma {:induction false} AppendStep(o: seq<nat>, L: seq<nat>, adds: seq<(nat, nat)>, p: nat)
    requires |o| == |L| && adds != [] && p < |o| && adds[0].0 == p
    requires forall i :: 0 <= i < |o| ==> o[i] == 0 + i
    requires forall i :: p < i < |L| ==> L[i] > L[p]
    ensures Grow(o, L, adds) == Grow(o + [adds[0].1], L + [L[p] + 1], adds[1..])
  {
    PositionInCount(o, 0, p);
    assert PositionOf(o, adds[0].0) == p;
    SlotPastDeeper(L, p + 1, L[p], -1);
    InsertAtEnd(o, adds[0].1);
    InsertAtEnd(L, L[p] + 1);
  }

  /** Inserting at the end appends. */
  lemma InsertAtEnd(o: seq<nat>, n: nat)
    ensures Insert(o, |o|, n) == o + [n]
  {
  }

  /** Every node between parent position `p` and the end `e` is deeper than the parent. */
  ghost predicate DeeperAfter(L: seq<nat>, p: nat, e: nat)
    requires p < e <= |L|
  {
    forall i :: p < i < e ==> L[i] > L[p]
  }

  /**
   * The calls `adds`, made once the first `k` nodes of the list `O` with
   * levels `Ls` exist, each add the next node as the last child of an
   * earlier one.
   */
  ghost predicate Appends(O: seq<nat>, Ls: seq<nat>, adds: seq<(nat, nat)>, k: nat)
  {
    |O| == |Ls| && 1 <= k <= |O| && |adds| == |O| - k
    && (forall m :: 0 <= m < |O| ==> O[m] == m)
    && forall m :: 0 <= m < |adds| ==> AppendsAt(Ls, adds[m], k + m)
  }

  /** The call `add` adds node `c` as the last child of an earlier node. */
  ghost predicate AppendsAt(Ls: seq<nat>, add: (nat, nat), c: nat)
  {
    add.1 == c && add.0 < c < |Ls| && Ls[c] == Ls[add.0] + 1 && DeeperAfter(Ls, add.0, c)
  }

  /** After the first of such calls, the rest are such calls from one node further on. */
  lemma AppendsRest(O: seq<nat>, Ls: seq<nat>, adds: seq<(nat, nat)>, k: nat)
    requires Appends(O, Ls, adds, k) && adds != []
    ensures Appends(O, Ls, adds[1..], k + 1)
  {
    forall m | 0 <= m < |adds[1..]|
      ensures AppendsAt(Ls, adds[1..][m], k + 1 + m)
    {
      assert adds[1..][m] == adds[m + 1];
    }
  }

  /** Such calls grow the first `k` nodes into the whole list and levels. */
  lemma {:induction false} GrowAppends(O: seq<nat>, Ls: seq<nat>, adds: seq<(nat, nat)>, k: nat)
    requires Appends(O, Ls, adds, k)
    ensures Grow(O[..k], Ls[..k], adds) == (O, Ls)
    decreases |adds|
  {
    if adds == [] {
      assert |O| == k;
      PrefixWhole(O);
      PrefixWhole(Ls);
      assert Grow(O[..k], Ls[..k], adds) == (O[..k], Ls[..k]);
    } else {
      AppendsFirst(O, Ls, adds, k);
      AppendsRest(O, Ls, adds, k);
      GrowAppends(O, Ls, adds[1..], k + 1);
      assert Grow(O[..k], Ls[..k], adds) == Grow(O[..k + 1], Ls[..k + 1], adds[1..]);
    }
  }

  /** The first of such calls extends the first `k` nodes to the first `k + 1`. */
  lemma AppendsFirst(O: seq<nat>, Ls: seq<nat>, adds: seq<(nat, nat)>, k: nat)
    requires Appends(O, Ls, adds, k) && adds != []
    ensures k < |O| && Grow(O[..k], Ls[..k], adds) == Grow(O[..k + 1], Ls[..k + 1], adds[1..])
  {
    var o, L, p := O[..k], Ls[..k], adds[0].0;
    assert AppendsAt(Ls, adds[0], k);
    assert forall i :: 0 <= i < |o| ==> o[i] == 0 + i;
    assert forall i :: p < i < |L| ==> L[i] > L[p] by {
      assert DeeperAfter(Ls, p, k);
    }
    AppendStep(o, L, adds, p);
    PrefixGrows(O, k);
    PrefixGrows(Ls, k);
    assert O[..k + 1] == o + [adds[0].1] && Ls[..k + 1] == L + [L[p] + 1];
  }

  /** The prefix as long as the list is the list. */
  lemma PrefixWhole(s: seq<nat>)
    ensures s[..|s|] == s
  {
  }

  /** The first `k + 1` elements are the first `k` followed by the next one. */
  lemma PrefixGrows(s: seq<nat>, k: nat)
    requires k < |s|
    ensures s[..k + 1] == s[..k] + [s[k]]
  {
  }

  /** The tests' calls each add the next node as the last child of an earlier one. */
  lemma AddsAppend()
    ensures Appends(Order, Levels, Adds, 1)
  {
    assert AppendsAt(Levels, Adds[0], 1);
    assert AppendsAt(Levels, Adds[1], 2);
    assert AppendsAt(Levels, Adds[2], 3);
    assert AppendsAt(Levels, Adds[3], 4);
    assert AppendsAt(Levels, Adds[4], 5);
    assert AppendsAt(Levels, Adds[5], 6);
    assert AppendsAt(Levels, Adds[6], 7);
    assert AppendsAt(Levels, Adds[7], 8);
    assert AppendsAt(Levels, Adds[8], 9);
    assert AppendsAt(Levels, Adds[9], 10);
    assert AppendsAt(Levels, Adds[10], 11);
    assert AppendsAt(Levels, Adds[11], 12);
    assert AppendsAt(Levels, Adds[12], 13);
  }

  /** Growing the root `A1` by the tests' calls lists the nodes in pre-order A1, B1, C1, D1, D2, D3, C2, C3, B2, C4, C5, C6, B3, C7 at the expected levels. */
  lemma {:induction false} BuiltInPreOrder()
    ensures Grow([0], [0], Adds) == (Order, Levels)
  {
    AddsAppend();
    GrowAppends(Order, Levels, Adds, 1);
    assert [0] == Order[..1] && [0] == Levels[..1] && Adds == Adds[0..];
  }

  /** The levels of the tree, position by position. */
  ghost predicate IsLevels(L: seq<nat>)
  {
    |L| == 14 && L[0] == 0 && L[1] == 1 && L[2] == 2 && L[3] == 3 && L[4] == 3 && L[5] == 3 && L[6] == 2 && L[7] == 2 && L[8] == 1 && L[9] == 2 && L[10] == 2 && L[11] == 2 && L[12] == 1 && L[13] == 2
  }

  /** The names of the tree, position by position. */
  ghost predicate IsTexts(N: seq<string>)
  {
    |N| == 14 && N[0] == "A1" && N[1] == "B1" && N[2] == "C1" && N[3] == "D1" && N[4] == "D2" && N[5] == "D3" && N[6] == "C2" && N[7] == "C3" && N[8] == "B2" && N[9] == "C4" && N[10] == "C5" && N[11] == "C6" && N[12] == "B3" && N[13] == "C7"
  }

  /** The tree's constants are those levels and names. */
  lemma ReferenceIs()
    ensures IsLevels(Levels) && IsTexts(Texts)
  {
  }

  /** The levels of the tree are those of a pre-order list with the root first. */
  lemma ReferenceShaped(L: seq<nat>)
    requires IsLevels(L)
    ensures Shaped(L) && L[0] == 0
  {
  }

  /** `B1`'s subtree runs from `B1` through `C3`, and `A1`'s covers the whole list. */
  lemma SubtreeEnds(L: seq<nat>)
    requires IsLevels(L)
    ensures SubtreeEnd(L, 1) == 8 && SubtreeEnd(L, 0) == 14
  {
    ScanForwardUnique(L, 2, 2, 8);
    ScanForwardUnique(L, 1, 1, 14);
  }

  /** A visit walks the class, after the node itself when asked for. */
  lemma VisitLength(L: seq<nat>, j: nat, c: TreeTypes.Visitation, includeThis: bool)
    requires j < |L|
    ensures |VisitPositions(L, j, c, includeThis)| == (if includeThis && c != AllNodes then 1 else 0) + |ClassPositions(L, j, c)|
  {
  }

  /** `C3` has the two ancestors `B1` and `A1`. */
  lemma {:induction false} AncestorsOfC3(L: seq<nat>)
    requires IsLevels(L)
    ensures |ClassPositions(L, 7, ParentNodes)| == 2
  {
    ReferenceShaped(L);
    ParentClassIsAncestors(L, 7);
  }

  /** From `C3`, seven nodes come before it: eight visits with the node itself, seven without. */
  lemma {:induction false} PrevCountFromC3(L: seq<nat>)
    requires IsLevels(L)
    ensures |VisitPositions(L, 7, PrevNodes, true)| == 8 && |VisitPositions(L, 7, PrevNodes, false)| == 7
  {
    PrevClassCountsDown(L, 7);
  }

  /** From `C3`, six nodes come after it: seven visits with the node itself, six without. */
  lemma {:induction false} NextCountFromC3(L: seq<nat>)
    requires IsLevels(L)
    ensures |VisitPositions(L, 7, NextNodes, true)| == 7 && |VisitPositions(L, 7, NextNodes, false)| == 6
  {
    NextClassIsTail(L, 7);
  }

  /** `C3` has the two ancestors `B1` and `A1`: three visits with the node itself, two without. */
  lemma {:induction false} ParentCountFromC3(L: seq<nat>)
    requires IsLevels(L)
    ensures |VisitPositions(L, 7, ParentNodes, true)| == 3 && |VisitPositions(L, 7, ParentNodes, false)| == 2
  {
    AncestorsOfC3(L);
    VisitLength(L, 7, ParentNodes, true);
    VisitLength(L, 7, ParentNodes, false);
  }

  /** `B1` has the three children `C1`, `C2`, `C3`: four visits with the node itself, three without. */
  lemma {:induction false} ChildCountFromB1(L: seq<nat>)
    requires IsLevels(L)
    ensures |VisitPositions(L, 1, ChildNodes, true)| == 4 && |VisitPositions(L, 1, ChildNodes, false)| == 3
  {
    ChildClassIsKids(L, 1);
    KidsOfB1(L);
  }

  /** The children of `B1` are at positions 2, 6 and 7. */
  lemma KidsOfB1(L: seq<nat>)
    requires IsLevels(L)
    ensures KidPositions(L, 1) == [2, 6, 7]
  {
    SubtreeEnds(L);
    assert L[2] == 2 && L[3] == 3 && L[4] == 3 && L[5] == 3 && L[6] == 2 && L[7] == 2;
    assert Matching(L, 8, 8, 2) == [];
    assert Matching(L, 7, 8, 2) == [7] + Matching(L, 8, 8, 2);
    assert Matching(L, 6, 8, 2) == [6] + Matching(L, 7, 8, 2);
    assert Matching(L, 3, 8, 2) == Matching(L, 6, 8, 2);
    assert Matching(L, 2, 8, 2) == [2] + Matching(L, 3, 8, 2);
  }

  /** `B1` has the six descendants `C1` through `C3`: seven visits with the node itself, six without. */
  lemma {:induction false} DescendantCountFromB1(L: seq<nat>)
    requires IsLevels(L)
    ensures |VisitPositions(L, 1, DescendantNodes, true)| == 7 && |VisitPositions(L, 1, DescendantNodes, false)| == 6
  {
    ReferenceShaped(L);
    SubtreeEnds(L);
    DescendantClassIsSubtree(L, 1);
  }

  /** `AllNodes` visits all fourteen nodes, whether or not the node itself is asked for. */
  lemma {:induction false} AllCount(L: seq<nat>)
    requires IsLevels(L)
    ensures |VisitPositions(L, 1, AllNodes, true)| == 14 && |VisitPositions(L, 1, AllNodes, false)| == 14
  {
    AllClassIsWholeList(L, 1);
  }

  /** `C1`'s parent is `B1`. */
  lemma ParentOfC1(L: seq<nat>)
    requires IsLevels(L)
    ensures Relative(L, 2, ParentNode) == Some(1)
  {
    ParentIsNearestShallower(L, 2, 1);
  }

  /** `C1`'s first sibling is `C1` itself and its last sibling is `C3`. */
  lemma SiblingsOfC1(L: seq<nat>)
    requires IsLevels(L)
    ensures Relative(L, 2, FirstSibNode) == Some(2)
    ensures Relative(L, 2, LastSibNode) == Some(7)
  {
    GroupOfC1(L);
    assert FirstAt(L, 2, 3, 2) == Some(2);
    assert LastAt(L, 2, 8, 2) == Some(7);
  }

  /** `C1`'s sibling group lies between `B1` and `B2`. */
  lemma GroupOfC1(L: seq<nat>)
    requires IsLevels(L)
    ensures GroupStart(L, 2) == 1 && GroupEnd(L, 2) == 8
  {
    ScanForwardUnique(L, 3, 2, 8);
  }

  /** `A1`'s first child is `B1`, its last child `B3` and its last descendant `C7`. */
  lemma ChildrenOfA1(L: seq<nat>)
    requires IsLevels(L)
    ensures Relative(L, 0, FirstChildNode) == Some(1)
    ensures Relative(L, 0, LastChildNode) == Some(12)
    ensures Relative(L, 0, LastDescNode) == Some(13)
  {
    SubtreeEnds(L);
  }

  /** `D3`'s ancestors are `C1`, `B1` and `A1`, and `A1` has none. */
  lemma AncestorsOfD3(L: seq<nat>)
    requires IsLevels(L)
    ensures Relative(L, 5, ParentNode) == Some(2)
    ensures Relative(L, 2, ParentNode) == Some(1)
    ensures Relative(L, 1, ParentNode) == Some(0)
    ensures Relative(L, 0, ParentNode) == None
  {
    ParentIsNearestShallower(L, 5, 2);
    ParentIsNearestShallower(L, 2, 1);
    ParentIsNearestShallower(L, 1, 0);
    ParentIsNearestShallower(L, 0, 0);
  }

  /** The text path of `D3` is `/A1/B1/C1/D3`. */
  lemma {:induction false} PathOfD3(N: seq<string>, L: seq<nat>)
    requires IsTexts(N) && IsLevels(L)
    ensures PathTo(N, L, 5, "/") == "/A1/B1/C1/D3"
  {
    AncestorsOfD3(L);
    assert PathTo(N, L, 0, "/") == "/A1";
    assert PathTo(N, L, 1, "/") == "/A1/B1";
    assert PathTo(N, L, 2, "/") == "/A1/B1/C1";
  }

  /** Stripping the leading delimiter from `/A1` leaves the single segment `A1`. */
  lemma StripsA1()
    ensures Strip("/A1", "/") == "A1" && SegmentEnd("A1", "/") == 2
    ensures "A1"[..2] == "A1" && "A1"[2..] == ""
  {
    assert "/A1"[0..1] == "/" && "/A1"[1..] == "A1";
    assert IndexOf("/A1", "/") == 0;
    assert !At("A1", "/", 0) && !At("A1", "/", 1) by {
      assert "A1"[0..1][0] == 'A' && "A1"[1..2][0] == '1' && "/"[0] == '/';
    }
    assert IndexOf("A1", "/") == -1;
    assert Strip("/A1", "/") == "A1";
    assert SegmentEnd("A1", "/") == 2 && "A1"[..2] == "A1" && "A1"[2..] == "";
  }

  /** Looking up `/A1` from `A1` finds `A1` itself. */
  lemma {:induction false} FindsA1(N: seq<string>, L: seq<nat>)
    requires IsTexts(N) && IsLevels(L)
    ensures Locate(N, L, 0, "/A1", "/") == Some(0)
  {
    StripsA1();
    assert FirstNamed(N, [0] + KidPositions(L, 0), "A1") == Some(0);
    assert Locate(N, L, 0, "", "/") == Some(0);
  }

  /** The first seven lines of `A1`'s text graph, from `A1` down to `C2`. */
  lemma {:induction false} GraphOfA1Head(N: seq<string>, L: seq<nat>)
    requires IsTexts(N) && IsLevels(L)
    ensures Rendered(N, L, 0, 7, true, "\t", "\n") == "A1\n\tB1\n\t\tC1\n\t\t\tD1\n\t\t\tD2\n\t\t\tD3\n\t\tC2"
  {
    SubtreeEnds(L);
    assert Rendered(N, L, 0, 1, true, "\t", "\n") == "A1";
    assert Rendered(N, L, 0, 2, true, "\t", "\n") == "A1\n\tB1";
    assert Rendered(N, L, 0, 3, true, "\t", "\n") == "A1\n\tB1\n\t\tC1";
    assert Rendered(N, L, 0, 4, true, "\t", "\n") == "A1\n\tB1\n\t\tC1\n\t\t\tD1";
    assert Rendered(N, L, 0, 5, true, "\t", "\n") == "A1\n\tB1\n\t\tC1\n\t\t\tD1\n\t\t\tD2";
    assert Rendered(N, L, 0, 6, true, "\t", "\n") == "A1\n\tB1\n\t\tC1\n\t\t\tD1\n\t\t\tD2\n\t\t\tD3";
  }

  /** The text graph of `A1`, with tabs for indents and newlines between lines. */
  lemma {:induction false} GraphOfA1(N: seq<string>, L: seq<nat>)
    requires IsTexts(N) && IsLevels(L)
    ensures Graph(N, L, 0, true, "\t", "\n") ==
      "A1\n\tB1\n\t\tC1\n\t\t\tD1\n\t\t\tD2\n\t\t\tD3\n\t\tC2\n\t\tC3\n\tB2\n\t\tC4\n\t\tC5\n\t\tC6\n\tB3\n\t\tC7"
  {
    SubtreeEnds(L);
    GraphOfA1Head(N, L);
    assert Rendered(N, L, 0, 8, true, "\t", "\n") == "A1\n\tB1\n\t\tC1\n\t\t\tD1\n\t\t\tD2\n\t\t\tD3\n\t\tC2\n\t\tC3";
    assert Rendered(N, L, 0, 9, true, "\t", "\n") == "A1\n\tB1\n\t\tC1\n\t\t\tD1\n\t\t\tD2\n\t\t\tD3\n\t\tC2\n\t\tC3\n\tB2";
    assert Rendered(N, L, 0, 10, true, "\t", "\n") == "A1\n\tB1\n\t\tC1\n\t\t\tD1\n\t\t\tD2\n\t\t\tD3\n\t\tC2\n\t\tC3\n\tB2\n\t\tC4";
    assert Rendered(N, L, 0, 11, true, "\t", "\n") == "A1\n\tB1\n\t\tC1\n\t\t\tD1\n\t\t\tD2\n\t\t\tD3\n\t\tC2\n\t\tC3\n\tB2\n\t\tC4\n\t\tC5";
    assert Rendered(N, L, 0, 12, true, "\t", "\n") == "A1\n\tB1\n\t\tC1\n\t\t\tD1\n\t\t\tD2\n\t\t\tD3\n\t\tC2\n\t\tC3\n\tB2\n\t\tC4\n\t\tC5\n\t\tC6";
    assert Rendered(N, L, 0, 13, true, "\t", "\n") == "A1\n\tB1\n\t\tC1\n\t\t\tD1\n\t\t\tD2\n\t\t\tD3\n\t\tC2\n\t\tC3\n\tB2\n\t\tC4\n\t\tC5\n\t\tC6\n\tB3";
    assert Rendered(N, L, 0, 14, true, "\t", "\n") == "A1\n\tB1\n\t\tC1\n\t\t\tD1\n\t\t\tD2\n\t\t\tD3\n\t\tC2\n\t\tC3\n\tB2\n\t\tC4\n\t\tC5\n\t\tC6\n\tB3\n\t\tC7";
  }
}
