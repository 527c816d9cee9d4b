/**
 * The tree as the library stores it: one pre-order list of positions, each
 * with an indent level. Nothing else is stored; every relationship is
 * recomputed by scanning the levels. This module states, over the level
 * sequence `L` (the indent of the node at each position), what each of the
 * fourteen relationships of `FindRelative` answers.
 */
module PreOrder {
  import opened Wrappers
  import opened TreeTypes

  /** Each level is at most one deeper than the one before it: the shape of a pre-order walk. */
  ghost predicate Shaped(L: seq<nat>)
  {
    forall i :: 0 < i < |L| ==> NoJump(L, i)
  }

  /** The level at position `i` is at most one deeper than the level before it. */
  ghost predicate NoJump(L: seq<nat>, i: nat)
    requires 0 < i < |L|
  {
    L[i] <= L[i - 1] + 1
  }

  /** Every position in [lo, hi) is deeper than level `d`. */
  ghost predicate Deeper(L: seq<nat>, lo: nat, hi: nat, d: int)
    requires hi <= |L|
  {
    forall m :: lo <= m < hi ==> Below(L, m, d)
  }

  /** The position `m` is deeper than level `d`. */
  ghost predicate Below(L: seq<nat>, m: nat, d: int)
    requires m < |L|
  {
    L[m] > d
  }

  /** The first position at or after `k` whose level is below `d`, or `|L|` when there is none. */
  function ScanForward(L: seq<nat>, k: nat, d: int): (m: nat)
    requires k <= |L|
    ensures k <= m <= |L|
    ensures m < |L| ==> L[m] < d
    ensures forall i :: k <= i < m ==> L[i] >= d
    decreases |L| - k
  {
    if k == |L| then k
    else if L[k] < d then k
    else ScanForward(L, k + 1, d)
  }

  /** The last position before `k` whose level is below `d`, or -1 when there is none. */
  function ScanBackward(L: seq<nat>, k: nat, d: int): (m: int)
    requires k <= |L|
    ensures -1 <= m < k
    ensures m >= 0 ==> L[m] < d
    ensures forall i :: m < i < k ==> L[i] >= d
  {
    if k == 0 then -1
    else if L[k - 1] < d then k - 1
    else ScanBackward(L, k - 1, d)
  }

  /** The first position in [lo, hi) at level `v`. */
  function FirstAt(L: seq<nat>, lo: nat, hi: nat, v: int): (r: Option<nat>)
    requires hi <= |L|
    ensures r.Some? ==> lo <= r.value < hi && L[r.value] == v
    ensures r.Some? ==> forall i :: lo <= i < r.value ==> L[i] != v
    ensures r.None? ==> forall i :: lo <= i < hi ==> L[i] != v
    decreases hi - lo
  {
    if lo >= hi then None
    else if L[lo] == v then Some(lo)
    else FirstAt(L, lo + 1, hi, v)
  }

  /** The last position in [lo, hi) at level `v`. */
  function LastAt(L: seq<nat>, lo: nat, hi: nat, v: int): (r: Option<nat>)
    requires hi <= |L|
    ensures r.Some? ==> lo <= r.value < hi && L[r.value] == v
    ensures r.Some? ==> forall i :: r.value < i < hi ==> L[i] != v
    ensures r.None? ==> forall i :: lo <= i < hi ==> L[i] != v
    decreases hi - lo
  {
    if lo >= hi then None
    else if L[hi - 1] == v then Some(hi - 1)
    else LastAt(L, lo, hi - 1, v)
  }

  /** The shallowest position at or before `j`; of several equally shallow ones, the nearest to `j`. */
  function RootAt(L: seq<nat>, j: nat): (r: nat)
    requires j < |L|
    ensures r <= j
    ensures forall i :: 0 <= i <= j ==> L[r] <= L[i]
    ensures forall i :: r < i <= j ==> L[r] < L[i]
  {
    if j == 0 then 0
    else
      var r := RootAt(L, j - 1);
      if L[j] <= L[r] then j else r
  }

  /** One past the last position of the run after `j` that is deeper than `j`: where `j`'s subtree ends. */
  function SubtreeEnd(L: seq<nat>, j: nat): (e: nat)
    requires j < |L|
    ensures j < e <= |L|
    ensures forall i :: j < i < e ==> L[i] > L[j]
    ensures e < |L| ==> L[e] <= L[j]
  {
    ScanForward(L, j + 1, L[j] + 1)
  }

  /** Where the last position at or before `j` shallower than `j` is, or -1: the boundary of `j`'s sibling group to the left. */
  function GroupStart(L: seq<nat>, j: nat): (b: int)
    requires j < |L|
    ensures -1 <= b < j
    ensures b >= 0 ==> L[b] < L[j]
    ensures forall i :: b < i <= j ==> L[i] >= L[j]
  {
    ScanBackward(L, j, L[j])
  }

  /** Where the first position after `j` shallower than `j` is, or |L|: the boundary of `j`'s sibling group to the right. */
  function GroupEnd(L: seq<nat>, j: nat): (e: nat)
    requires j < |L|
    ensures j < e <= |L|
    ensures e < |L| ==> L[e] < L[j]
    ensures forall i :: j <= i < e ==> L[i] >= L[j]
  {
    ScanForward(L, j + 1, L[j])
  }

  /** The relationships `VisitNodes` steps backwards by. */
  predicate Backward(rel: Relationship)
  {
    rel == PrevNode || rel == ParentNode || rel == PrevSibNode
  }

  /** The relationships `VisitNodes` steps forwards by. */
  predicate Forward(rel: Relationship)
  {
    rel == NextNode || rel == NextSibNode
  }

  /**
   * The position `FindRelative` answers for the node at position `j`, or None
   * for `null`. (On the tail, `LastNode` answers the node itself rather than
   * its owner; that difference is made where owners are known.)
   */
  function Relative(L: seq<nat>, j: nat, rel: Relationship): (r: Option<nat>)
    requires j < |L|
    ensures r.Some? ==> r.value < |L|
    ensures r.Some? && Backward(rel) ==> r.value < j
    ensures r.Some? && Forward(rel) ==> r.value > j
  {
    var d := L[j];
    match rel
    case PrevNode => if j > 0 then Some(j - 1) else None
    case NextNode => if j + 1 < |L| then Some(j + 1) else None
    case FirstNode => Some(0)
    case LastNode => Some(|L| - 1)
    case RootNode => Some(RootAt(L, j))
    case ParentNode => var b := GroupStart(L, j); if b >= 0 then Some(b) else None
    case PrevSibNode => SiblingRelative(L, j, rel)
    case NextSibNode => SiblingRelative(L, j, rel)
    case FirstSibNode => SiblingRelative(L, j, rel)
    case LastSibNode => SiblingRelative(L, j, rel)
    case FirstChildNode => DescendantRelative(L, j, rel)
    case LastChildNode => DescendantRelative(L, j, rel)
    case FirstDescNode => DescendantRelative(L, j, rel)
    case LastDescNode => DescendantRelative(L, j, rel)
  }

  /** The sibling cases of `Relative`: searches at the same level inside the group of `j`. */
  function SiblingRelative(L: seq<nat>, j: nat, rel: Relationship): (r: Option<nat>)
    requires j < |L|
    requires rel.PrevSibNode? || rel.NextSibNode? || rel.FirstSibNode? || rel.LastSibNode?
    ensures r.Some? ==> r.value < |L| && L[r.value] == L[j]
    ensures r.Some? && rel.PrevSibNode? ==> r.value < j
    ensures r.Some? && rel.NextSibNode? ==> r.value > j
  {
    var d := L[j];
    match rel
    case PrevSibNode => LastAt(L, GroupStart(L, j) + 1, j, d)
    case NextSibNode => FirstAt(L, j + 1, GroupEnd(L, j), d)
    case FirstSibNode => FirstAt(L, GroupStart(L, j) + 1, j + 1, d)
    case LastSibNode => LastAt(L, j, GroupEnd(L, j), d)
  }

  /** The child and descendant cases of `Relative`: searches inside the subtree of `j`. */
  function DescendantRelative(L: seq<nat>, j: nat, rel: Relationship): (r: Option<nat>)
    requires j < |L|
    requires rel.FirstChildNode? || rel.LastChildNode? || rel.FirstDescNode? || rel.LastDescNode?
    ensures r.Some? ==> j < r.value < SubtreeEnd(L, j)
  {
    var d := L[j];
    match rel
    case FirstChildNode => FirstAt(L, j + 1, SubtreeEnd(L, j), d + 1)
    case LastChildNode => LastAt(L, j + 1, SubtreeEnd(L, j), d + 1)
    case FirstDescNode => if j + 1 < |L| && L[j + 1] > d then Some(j + 1) else None
    case LastDescNode => var e := SubtreeEnd(L, j); if e > j + 1 then Some(e - 1) else None
  }

  /** The parent is the nearest earlier position that is shallower; there is none exactly when no earlier position is. */
  lemma {:induction false} ParentIsNearestShallower(L: seq<nat>, j: nat, p: nat)
    requires j < |L|
    ensures Relative(L, j, ParentNode) == Some(p) <==>
      p < j && L[p] < L[j] && forall i :: p < i < j ==> L[i] >= L[j]
    ensures Relative(L, j, ParentNode) == None <==> forall i :: 0 <= i < j ==> L[i] >= L[j]
  {
  }

  /** The previous sibling is the nearest earlier position at the same level with only deeper positions in between. */
  lemma {:induction false} PrevSiblingIsNearestLevel(L: seq<nat>, j: nat, p: nat)
    requires j < |L|
    ensures Relative(L, j, PrevSibNode) == Some(p) <==>
      p < j && L[p] == L[j] && forall i :: p < i < j ==> L[i] > L[j]
  {
    if p < j && L[p] == L[j] && forall i :: p < i < j ==> L[i] > L[j] {
      var b := GroupStart(L, j);
      assert b < p;
    }
  }

  /** The next sibling is the nearest later position at the same level with only deeper positions in between. */
  lemma {:induction false} NextSiblingIsNearestLevel(L: seq<nat>, j: nat, q: nat)
    requires j < |L|
    ensures Relative(L, j, NextSibNode) == Some(q) <==>
      j < q < |L| && L[q] == L[j] && forall i :: j < i < q ==> L[i] > L[j]
  {
    if j < q < |L| && L[q] == L[j] && forall i :: j < i < q ==> L[i] > L[j] {
      var e := GroupEnd(L, j);
      assert q < e;
    }
  }

  /** The first and last siblings always exist, sit at the same level, and bound the group that holds `j`. */
  lemma {:induction false} SiblingGroupBounds(L: seq<nat>, j: nat)
    requires j < |L|
    ensures Relative(L, j, FirstSibNode).Some? && Relative(L, j, LastSibNode).Some?
    ensures var f := Relative(L, j, FirstSibNode).value;
      f <= j && L[f] == L[j] && forall i :: f <= i <= j ==> L[i] >= L[j]
    ensures var l := Relative(L, j, LastSibNode).value;
      j <= l && L[l] == L[j] && forall i :: j <= i <= l ==> L[i] >= L[j]
  {
  }

  /**
   * The first child is the first position at level `d + 1` in the run of
   * deeper positions after `j`; the position that ends the run is never it.
   */
  lemma {:induction false} FirstChildIsFirstInRun(L: seq<nat>, j: nat, c: nat)
    requires j < |L|
    ensures Relative(L, j, FirstChildNode) == Some(c) <==>
      j < c < |L| && L[c] == L[j] + 1 && forall i :: j < i < c ==> L[i] > L[j] + 1
  {
    if j < c < |L| && L[c] == L[j] + 1 && forall i :: j < i < c ==> L[i] > L[j] + 1 {
      assert c < SubtreeEnd(L, j);
    }
  }

  /** The last descendant ends the run of deeper positions after `j`. */
  lemma {:induction false} LastDescendantEndsRun(L: seq<nat>, j: nat, e: nat)
    requires j < |L|
    ensures Relative(L, j, LastDescNode) == Some(e) <==>
      j < e < |L| && (forall i :: j < i <= e ==> L[i] > L[j]) && (e + 1 < |L| ==> L[e + 1] <= L[j])
  {
  }

  /** On a well-shaped list the first descendant and the first child coincide. */
  lemma {:induction false} FirstDescendantIsFirstChild(L: seq<nat>, j: nat)
    requires Shaped(L) && j < |L|
    ensures Relative(L, j, FirstDescNode) == Relative(L, j, FirstChildNode)
  {
    if j + 1 < |L| && L[j + 1] > L[j] {
      assert NoJump(L, j + 1);
      assert SubtreeEnd(L, j) > j + 1;
    }
  }

  /** On a well-shaped list, `p` is the parent of `c` exactly when `c` is a child of `p`: at level `L[p] + 1` inside `p`'s subtree. */
  lemma {:induction false} ParentChildDuality(L: seq<nat>, p: nat, c: nat)
    requires Shaped(L) && p < c < |L|
    ensures Relative(L, c, ParentNode) == Some(p) <==> c < SubtreeEnd(L, p) && L[c] == L[p] + 1
  {
    if Relative(L, c, ParentNode) == Some(p) {
      ParentIsNearestShallower(L, c, p);
      if p + 1 < c {
        assert L[p + 1] >= L[c];
      }
      assert NoJump(L, p + 1);
    }
    if c < SubtreeEnd(L, p) && L[c] == L[p] + 1 {
      ParentIsNearestShallower(L, c, p);
    }
  }
}
