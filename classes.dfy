/**
 * The nine classes of positions `VisitNodes` walks. Each class starts with one
 * relationship of the position it is called on, steps on by another, and the
 * child and descendant classes also stop at the first position that is not
 * deeper than the origin. This module defines the walk over the level
 * sequence and proves which positions each class covers.
 */
module VisitClasses {
  import opened Wrappers
  import opened TreeTypes
  import opened PreOrder
  import opened Splice

  /** The relationship a class starts with. */
  function Start(c: Visitation): Relationship
  {
    match c
    case AllNodes => FirstNode
    case PrevNodes => PrevNode
    case NextNodes => NextNode
    case ParentNodes => ParentNode
    case SiblingNodes => FirstSibNode
    case PrevSibNodes => PrevSibNode
    case NextSibNodes => NextSibNode
    case ChildNodes => FirstChildNode
    case DescendantNodes => FirstChildNode
  }

  /** The relationship a class steps on by. */
  function Step(c: Visitation): (r: Relationship)
    ensures Backward(r) || Forward(r)
  {
    match c
    case AllNodes => NextNode
    case PrevNodes => PrevNode
    case NextNodes => NextNode
    case ParentNodes => ParentNode
    case SiblingNodes => NextSibNode
    case PrevSibNodes => PrevSibNode
    case NextSibNodes => NextSibNode
    case ChildNodes => NextSibNode
    case DescendantNodes => NextNode
  }

  /** The classes that stop at the first position not deeper than the origin. */
  predicate DescendantsOnly(c: Visitation)
  {
    c == ChildNodes || c == DescendantNodes
  }

  /** Every position in `P` is below `n`. */
  ghost predicate Within(P: seq<nat>, n: nat)
  {
    forall i :: 0 <= i < |P| ==> P[i] < n
  }

  /**
   * The positions visited from position `p` on, for a walk from origin `j`:
   * `p` itself unless the bound stops it, then the walk after `p`.
   */
  function Walk(L: seq<nat>, j: nat, p: nat, step: Relationship, bounded: bool): (W: seq<nat>)
    requires j < |L| && p < |L| && (Backward(step) || Forward(step))
    ensures Within(W, |L|)
    decreases if Forward(step) then |L| - p else p, 1
  {
    if bounded && L[p] <= L[j] then [] else [p] + WalkAfter(L, j, p, step, bounded)
  }

  /** The walk on from `p`'s `step` relative, or nothing when there is none. */
  function WalkAfter(L: seq<nat>, j: nat, p: nat, step: Relationship, bounded: bool): (W: seq<nat>)
    requires j < |L| && p < |L| && (Backward(step) || Forward(step))
    ensures Within(W, |L|)
    decreases if Forward(step) then |L| - p else p, 0
  {
    match Relative(L, p, step)
    case None => []
    case Some(q) => Walk(L, j, q, step, bounded)
  }

  /** The positions class `c` visits from position `j`, in visiting order (the origin itself aside). */
  function ClassPositions(L: seq<nat>, j: nat, c: Visitation): (W: seq<nat>)
    requires j < |L|
    ensures Within(W, |L|)
  {
    match Relative(L, j, Start(c))
    case None => []
    case Some(p) => Walk(L, j, p, Step(c), DescendantsOnly(c))
  }

  /** A class whose start relationship answers `p` walks on from `p`. */
  lemma {:induction false} ClassStart(L: seq<nat>, j: nat, c: Visitation, start: Relationship, p: nat, step: Relationship, bounded: bool)
    requires start == Start(c) && step == Step(c) && bounded == DescendantsOnly(c)
    requires j < |L| && Relative(L, j, start) == Some(p)
    ensures ClassPositions(L, j, c) == Walk(L, j, p, step, bounded)
  {
  }

  /** The positions lo, lo + 1, ..., hi - 1. */
  function Span(lo: nat, hi: nat): (r: seq<nat>)
    requires lo <= hi
    ensures |r| == hi - lo
    ensures forall i :: 0 <= i < |r| ==> r[i] == lo + i
  {
    seq(hi - lo, i requires 0 <= i < hi - lo => lo + i)
  }

  /** The positions p, p - 1, ..., 0. */
  function CountDown(p: nat): (r: seq<nat>)
    ensures |r| == p + 1
    ensures forall i :: 0 <= i < |r| ==> r[i] == p - i
  {
    seq(p + 1, i requires 0 <= i < p + 1 => p - i)
  }

  /** Stepping by `NextNode` from `p`, within a bound all of `[p, e)` passes, covers exactly `[p, e)`. */
  lemma {:induction false} ForwardWalk(L: seq<nat>, j: nat, p: nat, e: nat, bounded: bool)
    requires j < |L| && p < e <= |L|
    requires bounded ==> (forall i :: p <= i < e ==> L[i] > L[j]) && (e < |L| ==> L[e] <= L[j])
    requires !bounded ==> e == |L|
    ensures Walk(L, j, p, NextNode, bounded) == Span(p, e)
    decreases e - p
  {
    assert Relative(L, p, NextNode) == if p + 1 < |L| then Some(p + 1) else None;
    if p + 1 < e {
      ForwardWalk(L, j, p + 1, e, bounded);
      assert [p] + Span(p + 1, e) == Span(p, e);
    } else if p + 1 < |L| {
      assert Walk(L, j, p + 1, NextNode, bounded) == [];
    }
  }

  /** Stepping by `PrevNode` from `p` covers p, p - 1, ..., 0. */
  lemma {:induction false} BackwardWalk(L: seq<nat>, j: nat, p: nat)
    requires j < |L| && p < |L|
    ensures Walk(L, j, p, PrevNode, false) == CountDown(p)
  {
    if p > 0 {
      BackwardWalk(L, j, p - 1);
      assert [p] + CountDown(p - 1) == CountDown(p);
    }
  }

  /** `AllNodes` visits every position once, from the head on, whatever the origin. */
  lemma {:induction false} AllClassIsWholeList(L: seq<nat>, j: nat)
    requires j < |L|
    ensures ClassPositions(L, j, AllNodes) == Span(0, |L|)
  {
    ForwardWalk(L, j, 0, |L|, false);
  }

  /** `PrevNodes` visits j - 1, j - 2, ..., 0: the `j` positions before the origin, nearest first. */
  lemma {:induction false} PrevClassCountsDown(L: seq<nat>, j: nat)
    requires j < |L|
    ensures ClassPositions(L, j, PrevNodes) == if j == 0 then [] else CountDown(j - 1)
    ensures |ClassPositions(L, j, PrevNodes)| == j
  {
    if j > 0 {
      BackwardWalk(L, j, j - 1);
    }
  }

  /** `NextNodes` visits every position after the origin, in list order. */
  lemma {:induction false} NextClassIsTail(L: seq<nat>, j: nat)
    requires j < |L|
    ensures ClassPositions(L, j, NextNodes) == Span(j + 1, |L|)
  {
    if j + 1 < |L| {
      ForwardWalk(L, j, j + 1, |L|, false);
    }
  }

  /** On a well-shaped list `DescendantNodes` visits exactly the subtree of the origin, from the next position through the last descendant. */
  lemma {:induction false} DescendantClassIsSubtree(L: seq<nat>, j: nat)
    requires Shaped(L) && j < |L|
    ensures ClassPositions(L, j, DescendantNodes) == Span(j + 1, SubtreeEnd(L, j))
    ensures Relative(L, j, LastDescNode).Some? ==>
      ClassPositions(L, j, DescendantNodes) == Span(j + 1, Relative(L, j, LastDescNode).value + 1)
  {
    var e := SubtreeEnd(L, j);
    FirstDescendantIsFirstChild(L, j);
    if e > j + 1 {
      ForwardWalk(L, j, j + 1, e, true);
    }
  }

  /**
   * Stepping by `NextSibNode` from a position `p` at level `v`, inside a run
   * `[p, e)` of levels at least `v` that ends at `e`, visits exactly the
   * level-`v` positions of the run.
   */
  lemma {:induction false} SiblingWalk(L: seq<nat>, j: nat, p: nat, e: nat, v: nat, bounded: bool)
    requires j < |L| && p < e <= |L| && L[p] == v
    requires forall i :: p <= i < e ==> L[i] >= v
    requires e < |L| ==> L[e] < v
    requires bounded ==> v > L[j]
    ensures Walk(L, j, p, NextSibNode, bounded) == Matching(L, p, e, v)
    decreases e - p
  {
    var next := FirstAt(L, p + 1, e, v);
    NextSibInRun(L, p, e, v);
    MatchingTake(L, p, e, v);
    MatchingFromFirst(L, p + 1, e, v);
    if next.Some? {
      SiblingWalk(L, j, next.value, e, v, bounded);
    }
  }

  /** `ScanForward` is pinned down by its contract. */
  lemma {:induction false} ScanForwardUnique(L: seq<nat>, k: nat, d: int, m: nat)
    requires k <= m <= |L|
    requires forall i :: k <= i < m ==> L[i] >= d
    requires m < |L| ==> L[m] < d
    ensures ScanForward(L, k, d) == m
  {
  }

  /** Inside a run of levels at least `v` closed by the run's end, the next sibling of a level-`v` position is the next level-`v` position of the run. */
  lemma {:induction false} NextSibInRun(L: seq<nat>, p: nat, e: nat, v: int)
    requires p < e <= |L| && L[p] == v
    requires forall i :: p <= i < e ==> L[i] >= v
    requires e < |L| ==> L[e] < v
    ensures Relative(L, p, NextSibNode) == FirstAt(L, p + 1, e, v)
  {
    ScanForwardUnique(L, p + 1, v, e);
  }

  /** The matches in a range start at the first one. */
  lemma {:induction false} MatchingFromFirst(L: seq<nat>, lo: nat, hi: nat, v: int)
    requires lo <= hi <= |L|
    ensures Matching(L, lo, hi, v) ==
      match FirstAt(L, lo, hi, v)
      case None => []
      case Some(q) => Matching(L, q, hi, v)
    decreases hi - lo
  {
    if lo < hi && L[lo] != v {
      MatchingSkip(L, lo, hi, v);
      MatchingFromFirst(L, lo + 1, hi, v);
    }
  }

  /** `ChildNodes` visits exactly the direct children of the origin, in list order. */
  lemma {:induction false} ChildClassIsKids(L: seq<nat>, j: nat)
    requires j < |L|
    ensures ClassPositions(L, j, ChildNodes) == KidPositions(L, j)
  {
    var e := SubtreeEnd(L, j);
    MatchingFromFirst(L, j + 1, e, L[j] + 1);
    var first := FirstKid(L, j, e);
    if first.Some? {
      SiblingWalk(L, j, first.value, e, L[j] + 1, true);
    }
  }

  /** `ChildNodes` starts at the first position one level down inside the subtree, which begins a run of such levels closed by the subtree's end. */
  lemma {:induction false} FirstKid(L: seq<nat>, j: nat, e: nat) returns (first: Option<nat>)
    requires j < |L| && e == SubtreeEnd(L, j)
    ensures first == FirstAt(L, j + 1, e, L[j] + 1)
    ensures first.None? ==> ClassPositions(L, j, ChildNodes) == []
    ensures first.Some? ==> ClassPositions(L, j, ChildNodes) == Walk(L, j, first.value, NextSibNode, true)
    ensures first.Some? ==> first.value < e <= |L| && L[first.value] == L[j] + 1
    ensures first.Some? ==> forall i :: first.value <= i < e ==> L[i] >= L[j] + 1
    ensures e < |L| ==> L[e] < L[j] + 1
  {
    first := FirstAt(L, j + 1, e, L[j] + 1);
    if first.Some? {
      ClassStart(L, j, ChildNodes, FirstChildNode, first.value, NextSibNode, true);
    }
  }

  /** `NextSibNodes` visits the later positions of the origin's sibling group at its level, in list order. */
  lemma {:induction false} NextSibClassIsLater(L: seq<nat>, j: nat)
    requires j < |L|
    ensures ClassPositions(L, j, NextSibNodes) == Matching(L, j + 1, GroupEnd(L, j), L[j])
  {
    var e := GroupEnd(L, j);
    MatchingFromFirst(L, j + 1, e, L[j]);
    var first := Relative(L, j, NextSibNode);
    if first.Some? {
      SiblingWalk(L, j, first.value, e, L[j], false);
    }
  }

  /** `PrevSibNodes` visits the earlier positions of the origin's sibling group at its level, nearest first. */
  lemma {:induction false} PrevSibClassIsEarlier(L: seq<nat>, j: nat)
    requires j < |L|
    ensures ClassPositions(L, j, PrevSibNodes) == MatchingDown(L, GroupStart(L, j) + 1, j, L[j])
  {
    var b, v := GroupStart(L, j), L[j];
    MatchingDownToLast(L, b + 1, j, v);
    var last := LastAt(L, b + 1, j, v);
    assert Relative(L, j, PrevSibNode) == last;
    if last.Some? {
      ClassStart(L, j, PrevSibNodes, PrevSibNode, last.value, PrevSibNode, false);
      PrevSiblingWalk(L, j, last.value, b, v);
    } else {
      assert ClassPositions(L, j, PrevSibNodes) == [];
    }
  }

  /** Equivalently, `PrevSibNodes` visits the earlier positions of the sibling group at the origin's level in reverse list order. */
  lemma {:induction false} PrevSibClassIsReversed(L: seq<nat>, j: nat)
    requires j < |L|
    ensures ClassPositions(L, j, PrevSibNodes) == Reversed(Matching(L, GroupStart(L, j) + 1, j, L[j]))
  {
    PrevSibClassIsEarlier(L, j);
    MatchingDownReversed(L, GroupStart(L, j) + 1, j, L[j]);
  }

  /** The positions in [lo, hi) whose level is `v`, from the last down to the first. */
  function MatchingDown(L: seq<nat>, lo: nat, hi: nat, v: int): (P: seq<nat>)
    requires lo <= hi <= |L|
    ensures forall i :: 0 <= i < |P| ==> lo <= P[i] < hi && L[P[i]] == v
    decreases hi - lo
  {
    if lo == hi then []
    else (if L[hi - 1] == v then [hi - 1] else []) + MatchingDown(L, lo, hi - 1, v)
  }

  /** A sequence in reverse order. */
  function Reversed(P: seq<nat>): (r: seq<nat>)
    ensures |r| == |P| && forall i :: 0 <= i < |P| ==> r[i] == P[|P| - 1 - i]
  {
    seq(|P|, i requires 0 <= i < |P| => P[|P| - 1 - i])
  }

  /** Reversing puts a last element (if any) first. */
  lemma {:induction false} ReversedStep(P: seq<nat>, tail: seq<nat>)
    requires |tail| <= 1
    ensures Reversed(P + tail) == tail + Reversed(P)
  {
    var r, r' := Reversed(P + tail), tail + Reversed(P);
    assert |r| == |r'|;
    forall i | 0 <= i < |r|
      ensures r[i] == r'[i]
    {
      if i < |tail| {
        assert r[i] == (P + tail)[|P|] == tail[0];
      } else {
        assert r'[i] == Reversed(P)[i - |tail|];
      }
    }
  }

  /** Listing the matches from the top down is listing them from the bottom up, reversed. */
  lemma {:induction false} MatchingDownReversed(L: seq<nat>, lo: nat, hi: nat, v: int)
    requires lo <= hi <= |L|
    ensures MatchingDown(L, lo, hi, v) == Reversed(Matching(L, lo, hi, v))
    decreases hi - lo
  {
    if lo == hi {
      assert Matching(L, lo, hi, v) == [] == MatchingDown(L, lo, hi, v);
    } else {
      var M := Matching(L, lo, hi - 1, v);
      var tail := if L[hi - 1] == v then [hi - 1] else [];
      MatchingDownReversed(L, lo, hi - 1, v);
      MatchingAppend(L, lo, hi - 1, v);
      ReversedStep(M, tail);
      assert MatchingDown(L, lo, hi, v) == tail + MatchingDown(L, lo, hi - 1, v);
    }
  }

  /** `GroupStart` is pinned down by its contract. */
  lemma {:induction false} GroupStartIs(L: seq<nat>, p: nat, b: int)
    requires -1 <= b < p < |L|
    requires b >= 0 ==> L[b] < L[p]
    requires forall i :: b < i <= p ==> L[i] >= L[p]
    ensures GroupStart(L, p) == b
  {
  }

  /** Inside a run `(b, p]` of levels at least `v` that starts after `b`, the previous sibling of a level-`v` position `p` is the last level-`v` position before it in the run. */
  lemma {:induction false} PrevSibInRun(L: seq<nat>, p: nat, b: int, v: nat)
    requires -1 <= b < p < |L| && L[p] == v
    requires forall i :: b < i <= p ==> L[i] >= v
    requires b >= 0 ==> L[b] < v
    ensures Relative(L, p, PrevSibNode) == LastAt(L, b + 1, p, v)
  {
    GroupStartIs(L, p, b);
    assert SiblingRelative(L, p, PrevSibNode) == LastAt(L, GroupStart(L, p) + 1, p, L[p]);
  }

  /** Widening a range by one position at its top end adds that position when it is at level `v`. */
  lemma {:induction false} MatchingAppend(L: seq<nat>, lo: nat, hi: nat, v: int)
    requires lo <= hi < |L|
    ensures Matching(L, lo, hi + 1, v) == Matching(L, lo, hi, v) + (if L[hi] == v then [hi] else [])
    decreases hi - lo
  {
    var tail := if L[hi] == v then [hi] else [];
    if lo == hi {
      assert Matching(L, lo, hi + 1, v) == tail + Matching(L, hi + 1, hi + 1, v);
    } else {
      MatchingAppend(L, lo + 1, hi, v);
      var head := if L[lo] == v then [lo] else [];
      assert Matching(L, lo, hi + 1, v) == head + Matching(L, lo + 1, hi + 1, v);
      assert Matching(L, lo, hi, v) == head + Matching(L, lo + 1, hi, v);
      assert head + (Matching(L, lo + 1, hi, v) + tail) == (head + Matching(L, lo + 1, hi, v)) + tail;
    }
  }

  /** The matches in a range, listed downwards, start at the last one. */
  lemma {:induction false} MatchingDownToLast(L: seq<nat>, lo: nat, hi: nat, v: int)
    requires lo <= hi <= |L|
    ensures MatchingDown(L, lo, hi, v) ==
      match LastAt(L, lo, hi, v)
      case None => []
      case Some(q) => MatchingDown(L, lo, q + 1, v)
    decreases hi - lo
  {
    if lo < hi && L[hi - 1] != v {
      assert MatchingDown(L, lo, hi, v) == [] + MatchingDown(L, lo, hi - 1, v);
      MatchingDownToLast(L, lo, hi - 1, v);
    }
  }

  /**
   * Stepping by `PrevSibNode` from a position `p` at level `v`, inside a run
   * `(b, p]` of levels at least `v` that starts after `b`, visits the
   * level-`v` positions of the run, nearest first.
   */
  lemma {:induction false} PrevSiblingWalk(L: seq<nat>, j: nat, p: nat, b: int, v: nat)
    requires j < |L| && -1 <= b < p < |L| && L[p] == v
    requires forall i :: b < i <= p ==> L[i] >= v
    requires b >= 0 ==> L[b] < v
    ensures Walk(L, j, p, PrevSibNode, false) == MatchingDown(L, b + 1, p + 1, v)
    decreases p
  {
    PrevSibInRun(L, p, b, v);
    MatchingDownToLast(L, b + 1, p, v);
    var q := LastAt(L, b + 1, p, v);
    assert MatchingDown(L, b + 1, p + 1, v) == [p] + MatchingDown(L, b + 1, p, v);
    assert Walk(L, j, p, PrevSibNode, false) == [p] + WalkAfter(L, j, p, PrevSibNode, false);
    if q.Some? {
      PrevSiblingWalk(L, j, q.value, b, v);
      assert WalkAfter(L, j, p, PrevSibNode, false) == Walk(L, j, q.value, PrevSibNode, false);
    } else {
      assert WalkAfter(L, j, p, PrevSibNode, false) == [];
    }
  }

  /** `SiblingNodes` visits every position at the origin's level in its sibling group, the origin included. */
  lemma {:induction false} SiblingClassIsGroup(L: seq<nat>, j: nat)
    requires j < |L|
    ensures ClassPositions(L, j, SiblingNodes) == Matching(L, GroupStart(L, j) + 1, GroupEnd(L, j), L[j])
  {
    var f := FirstSibling(L, j);
    SiblingGroupWalk(L, j, f);
  }

  /** The origin is among the positions `SiblingNodes` visits. */
  lemma {:induction false} SiblingClassHasOrigin(L: seq<nat>, j: nat)
    requires j < |L|
    ensures j in ClassPositions(L, j, SiblingNodes)
  {
    SiblingClassIsGroup(L, j);
    MatchingHas(L, GroupStart(L, j) + 1, GroupEnd(L, j), L[j], j);
  }

  /** The sibling class starts at the first position of the group at the origin's level, which always exists. */
  lemma {:induction false} FirstSibling(L: seq<nat>, j: nat) returns (f: nat)
    requires j < |L|
    ensures FirstAt(L, GroupStart(L, j) + 1, j + 1, L[j]) == Some(f)
    ensures ClassPositions(L, j, SiblingNodes) == Walk(L, j, f, NextSibNode, false)
  {
    var r := FirstAt(L, GroupStart(L, j) + 1, j + 1, L[j]);
    assert r.Some?;
    f := r.value;
    ClassStart(L, j, SiblingNodes, FirstSibNode, f, NextSibNode, false);
  }

  /** The walk by `NextSibNode` from the first position `f` of the origin's group at its level meets every position of the group at that level. */
  lemma {:induction false} SiblingGroupWalk(L: seq<nat>, j: nat, f: nat)
    requires j < |L| && FirstAt(L, GroupStart(L, j) + 1, j + 1, L[j]) == Some(f)
    ensures Walk(L, j, f, NextSibNode, false) == Matching(L, GroupStart(L, j) + 1, GroupEnd(L, j), L[j])
  {
    var b, e := GroupStart(L, j), GroupEnd(L, j);
    FirstOfGroup(L, j, b, e, f);
    MatchingFromFirst(L, b + 1, e, L[j]);
    SiblingWalk(L, j, f, e, L[j], false);
  }

  /** The first position `f` of the origin's group at its level starts a run of levels at least the origin's that ends where the group does. */
  lemma {:induction false} FirstOfGroup(L: seq<nat>, j: nat, b: int, e: nat, f: nat)
    requires j < |L| && b == GroupStart(L, j) && e == GroupEnd(L, j)
    requires FirstAt(L, b + 1, j + 1, L[j]) == Some(f)
    ensures FirstAt(L, b + 1, e, L[j]) == Some(f)
    ensures f < e <= |L| && L[f] == L[j]
    ensures forall i :: f <= i < e ==> L[i] >= L[j]
    ensures e < |L| ==> L[e] < L[j]
  {
    FirstAtUnique(L, b + 1, e, L[j], f);
  }

  /** `FirstAt` is pinned down by its contract. */
  lemma {:induction false} FirstAtUnique(L: seq<nat>, lo: nat, hi: nat, v: int, q: nat)
    requires lo <= q < hi <= |L| && L[q] == v
    requires forall i :: lo <= i < q ==> L[i] != v
    ensures FirstAt(L, lo, hi, v) == Some(q)
  {
  }

  /** Every position at level `v` in a range is among its matches. */
  lemma {:induction false} MatchingHas(L: seq<nat>, lo: nat, hi: nat, v: int, q: nat)
    requires lo <= q < hi <= |L| && L[q] == v
    ensures q in Matching(L, lo, hi, v)
    decreases hi - lo
  {
    if lo < q {
      MatchingHas(L, lo + 1, hi, v, q);
    }
  }

  /** On a well-shaped list starting at level 0, the parent of a position at level `d > 0` sits at level `d - 1`. */
  lemma {:induction false} ParentOneUp(L: seq<nat>, p: nat)
    requires Shaped(L) && p < |L| && L[0] == 0
    ensures Relative(L, p, ParentNode).Some? <==> L[p] > 0
    ensures Relative(L, p, ParentNode).Some? ==> L[Relative(L, p, ParentNode).value] == L[p] - 1
  {
    var b := GroupStart(L, p);
    if L[p] > 0 {
      assert L[0] < L[p];
      assert L[b + 1] >= L[p];
      assert NoJump(L, b + 1);
    }
  }

  /** On a well-shaped list starting at level 0, the ancestors walked from `p` (itself included) number `L[p] + 1`, one per level. */
  lemma {:induction false} AncestorWalk(L: seq<nat>, j: nat, p: nat)
    requires Shaped(L) && j < |L| && p < |L| && L[0] == 0
    ensures |Walk(L, j, p, ParentNode, false)| == L[p] + 1
    ensures forall i :: 0 <= i < |Walk(L, j, p, ParentNode, false)| ==>
      L[Walk(L, j, p, ParentNode, false)[i]] == L[p] - i
    decreases p
  {
    ParentOneUp(L, p);
    match Relative(L, p, ParentNode)
    case None =>
    case Some(q) =>
      AncestorWalk(L, j, q);
  }

  /** `ParentNodes` visits one ancestor per level above the origin, nearest first: `L[j]` of them. */
  lemma {:induction false} ParentClassIsAncestors(L: seq<nat>, j: nat)
    requires Shaped(L) && j < |L| && L[0] == 0
    ensures |ClassPositions(L, j, ParentNodes)| == L[j]
    ensures forall i :: 0 <= i < L[j] ==> L[ClassPositions(L, j, ParentNodes)[i]] == L[j] - 1 - i
  {
    ParentOneUp(L, j);
    match Relative(L, j, ParentNode)
    case None =>
    case Some(q) =>
      AncestorWalk(L, j, q);
  }
}
