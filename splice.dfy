/**
 * How the list changes when `AddChild` splices a node in or `RemoveChild` /
 * `RemoveChildren` cut a subtree out: the slot `AddChild` picks, the direct
 * children of a position, and the proofs that splicing keeps the pre-order
 * shape and moves the children exactly as the library promises.
 */
module Splice {
  import opened Wrappers
  import opened PreOrder
  import opened Chains

  /** The level of each listed node: `indent[o[i]]` at position `i`. */
  function Levels(o: seq<nat>, indent: seq<nat>): (L: seq<nat>)
    requires forall i :: 0 <= i < |o| ==> o[i] < |indent|
    ensures |L| == |o|
    ensures forall i :: 0 <= i < |o| ==> L[i] == indent[o[i]]
  {
    seq(|o|, i requires 0 <= i < |o| => indent[o[i]])
  }

  /** The nodes at positions [lo, hi) whose level is `v`, in list order. */
  function Select(o: seq<nat>, L: seq<nat>, lo: nat, hi: nat, v: int): (r: seq<nat>)
    requires |o| == |L| && lo <= hi <= |L|
    ensures |r| <= hi - lo
    decreases hi - lo
  {
    if lo == hi then []
    else (if L[lo] == v then [o[lo]] else []) + Select(o, L, lo + 1, hi, v)
  }

  /** `c` with `x` inserted before its `k`-th element, or appended when `k` is not an index of `c`. */
  function InsertAt(c: seq<nat>, k: int, x: nat): (r: seq<nat>)
    ensures |r| == |c| + 1
    ensures 0 <= k < |c| ==> r[k] == x && r[..k] == c[..k] && r[k + 1..] == c[k..]
    ensures !(0 <= k < |c|) ==> r == c + [x]
  {
    if 0 <= k < |c| then
      var r := c[..k] + [x] + c[k..];
      assert r[k + 1..] == c[k..];
      r
    else c + [x]
  }

  /**
   * Where `AddChild` splices the new node, scanning from position `i` with
   * `k` direct children (level `d + 1`) still to pass: before the child it
   * reaches with `k` at 0, before the first position at level `d` or less,
   * or at the end of the list.
   */
  function Slot(L: seq<nat>, i: nat, d: nat, k: int): (s: nat)
    requires i <= |L|
    ensures i <= s <= |L|
    ensures Deeper(L, i, s, d)
    ensures s < |L| ==> L[s] <= d + 1
    decreases |L| - i
  {
    if i == |L| then i
    else if L[i] == d + 1 then (if k == 0 then i else Slot(L, i + 1, d, k - 1))
    else if L[i] <= d then i
    else Slot(L, i + 1, d, k)
  }

  /** Splitting a range of positions at `m` splits what is selected from it. */
  lemma {:induction false} SelectSplit(o: seq<nat>, L: seq<nat>, lo: nat, m: nat, hi: nat, v: int)
    requires |o| == |L| && lo <= m <= hi <= |L|
    ensures Select(o, L, lo, hi, v) == Select(o, L, lo, m, v) + Select(o, L, m, hi, v)
    decreases m - lo
  {
    if lo < m {
      var h := if L[lo] == v then [o[lo]] else [];
      SelectSplit(o, L, lo + 1, m, hi, v);
      assert h + (Select(o, L, lo + 1, m, v) + Select(o, L, m, hi, v)) ==
        (h + Select(o, L, lo + 1, m, v)) + Select(o, L, m, hi, v);
    }
  }

  /** Nothing is selected where no level matches. */
  lemma {:induction false} SelectNone(o: seq<nat>, L: seq<nat>, lo: nat, hi: nat, v: int)
    requires |o| == |L| && lo <= hi <= |L|
    requires forall m :: lo <= m < hi ==> L[m] != v
    ensures Select(o, L, lo, hi, v) == []
    decreases hi - lo
  {
    if lo < hi {
      SelectNone(o, L, lo + 1, hi, v);
    }
  }

  /** Selection depends only on the nodes and levels in its range: the same run placed elsewhere selects the same. */
  lemma {:induction false} SelectMoved(o: seq<nat>, L: seq<nat>, lo: nat, hi: nat, o': seq<nat>, L': seq<nat>, lo': nat, v: int)
    requires |o| == |L| && lo <= hi <= |L|
    requires |o'| == |L'| && lo' + (hi - lo) <= |L'|
    requires forall m :: lo <= m < hi ==> o'[lo' + (m - lo)] == o[m] && L'[lo' + (m - lo)] == L[m]
    ensures Select(o', L', lo', lo' + (hi - lo), v) == Select(o, L, lo, hi, v)
    decreases hi - lo
  {
    if lo < hi {
      assert o'[lo'] == o[lo] && L'[lo'] == L[lo];
      SelectMoved(o, L, lo + 1, hi, o', L', lo' + 1, v);
    }
  }

  /**
   * What the slot found by scanning from `i` is: the `k`-th direct child when
   * there is one, and otherwise the end of the run of positions deeper than
   * `d` (where appending belongs).
   */
  ghost predicate SlotIsKth(o: seq<nat>, L: seq<nat>, i: nat, d: nat, k: int)
    requires |o| == |L| && i <= |L|
  {
    var e := ScanForward(L, i, d + 1);
    var s := Slot(L, i, d, k);
    var c := Select(o, L, i, e, d + 1);
    s <= e &&
    (0 <= k < |c| ==> s < e && L[s] == d + 1 && |Select(o, L, i, s, d + 1)| == k) &&
    (!(0 <= k < |c|) ==> s == e)
  }

  /** `AddChild`'s slot is the `k`-th direct child, or the end of the parent's subtree. */
  lemma {:induction false} SlotMeaning(o: seq<nat>, L: seq<nat>, i: nat, d: nat, k: int)
    requires |o| == |L| && i <= |L|
    ensures SlotIsKth(o, L, i, d, k)
    decreases |L| - i, 1
  {
    if i < |L| && L[i] > d {
      SlotMeaningStep(o, L, i, d, k);
    } else {
      assert ScanForward(L, i, d + 1) == i && Slot(L, i, d, k) == i;
    }
  }

  /** The inductive step of `SlotMeaning`: position `i` is inside the run. */
  lemma {:induction false} SlotMeaningStep(o: seq<nat>, L: seq<nat>, i: nat, d: nat, k: int)
    requires |o| == |L| && i < |L| && L[i] > d
    ensures SlotIsKth(o, L, i, d, k)
    decreases |L| - i, 0
  {
    var e := ScanForward(L, i, d + 1);
    var s := Slot(L, i, d, k);
    assert e == ScanForward(L, i + 1, d + 1);
    if L[i] == d + 1 && k == 0 {
      assert s == i;
    } else {
      var k' := if L[i] == d + 1 then k - 1 else k;
      SlotMeaning(o, L, i + 1, d, k');
      assert s == Slot(L, i + 1, d, k');
    }
  }

  /** Levels follow the nodes when a new node is inserted. */
  lemma {:induction false} LevelsInsert(o: seq<nat>, indent: seq<nat>, s: nat, n: nat, v: nat)
    requires forall i :: 0 <= i < |o| ==> o[i] < |indent|
    requires s <= |o| && n < |indent| && n !in o
    ensures Levels(Insert(o, s, n), indent[n := v]) == Insert(Levels(o, indent), s, v)
  {
    var o' := Insert(o, s, n);
    assert forall i :: 0 <= i < |o'| ==> o'[i] < |indent| by {
      forall i | 0 <= i < |o'| ensures o'[i] < |indent| {
        if i < s {
          assert o'[i] == o[i];
        } else if i > s {
          assert o'[i] == o[i - 1];
        }
      }
    }
  }

  /** Levels follow the nodes when a run is cut out. */
  lemma {:induction false} LevelsCut(o: seq<nat>, indent: seq<nat>, a: nat, b: nat, indent': seq<nat>)
    requires forall i :: 0 <= i < |o| ==> o[i] < |indent|
    requires a <= b <= |o| && |indent'| == |indent|
    requires forall i :: 0 <= i < |o| && !(a <= i < b) ==> indent'[o[i]] == indent[o[i]]
    ensures Levels(Cut(o, a, b), indent') == Cut(Levels(o, indent), a, b)
  {
  }

  /** Splicing a node in at `AddChild`'s slot, one level below the parent, keeps the pre-order shape. */
  lemma {:induction false} InsertShaped(L: seq<nat>, j: nat, s: nat)
    requires Shaped(L) && j < s <= |L|
    requires Deeper(L, j + 1, s, L[j])
    requires s < |L| ==> L[s] <= L[j] + 1
    ensures Shaped(Insert(L, s, L[j] + 1))
  {
    var L' := Insert(L, s, L[j] + 1);
    forall i | 0 < i < |L'|
      ensures NoJump(L', i)
    {
      if i < s {
        assert NoJump(L, i);
      } else if i == s && s - 1 > j {
        assert Below(L, s - 1, L[j]);
      } else if i > s + 1 {
        assert NoJump(L, i - 1);
        assert L'[i] == L[i - 1] && L'[i - 1] == L[i - 2];
      }
    }
  }

  /** Cutting out a run whose successor is no deeper than one below its predecessor keeps the shape. */
  lemma {:induction false} CutShaped(L: seq<nat>, a: nat, b: nat)
    requires Shaped(L) && a <= b <= |L|
    requires 0 < a && b < |L| ==> L[b] <= L[a - 1] + 1
    ensures Shaped(Cut(L, a, b))
  {
    var L' := Cut(L, a, b);
    forall i | 0 < i < |L'|
      ensures NoJump(L', i)
    {
      if i < a {
        assert NoJump(L, i);
      } else if i > a {
        assert NoJump(L, i + (b - a));
        assert L'[i] == L[i + (b - a)] && L'[i - 1] == L[i - 1 + (b - a)];
      }
    }
  }

  /** Splicing at `AddChild`'s slot lengthens the parent's subtree, ending at `e`, by exactly the new node. */
  lemma {:induction false} SubtreeEndAfterInsert(L: seq<nat>, j: nat, s: nat, e: nat)
    requires j < |L| && e == SubtreeEnd(L, j) && j < s <= e
    ensures SubtreeEnd(Insert(L, s, L[j] + 1), j) == e + 1
  {
    var L' := Insert(L, s, L[j] + 1);
    forall m | j < m < e + 1
      ensures L'[m] > L'[j]
    {
      if m > s {
        assert L'[m] == L[m - 1];
      }
    }
    if e < |L| {
      assert L'[e + 1] == L[e];
    }
    SubtreeEndUnique(L', j, e + 1);
  }

  /** What a range holds after a node is spliced in at `s`: the part before `s`, the new node, the rest. */
  lemma {:induction false} SelectAfterInsert(o: seq<nat>, L: seq<nat>, o': seq<nat>, L': seq<nat>, lo: nat, s: nat, e: nat, n: nat, v: int)
    requires |o| == |L| && lo <= s <= e <= |L| && |o'| == |L'| == |L| + 1
    requires forall m :: lo <= m < s ==> o'[m] == o[m] && L'[m] == L[m]
    requires o'[s] == n && L'[s] == v
    requires forall m :: s <= m < e ==> o'[m + 1] == o[m] && L'[m + 1] == L[m]
    ensures Select(o', L', lo, e + 1, v) == Select(o, L, lo, s, v) + [n] + Select(o, L, s, e, v)
  {
    SelectSplit(o', L', lo, s, e + 1, v);
    SelectSplit(o', L', s, s + 1, e + 1, v);
    assert Select(o', L', s, s + 1, v) == [n];
    SelectMoved(o, L, lo, s, o', L', lo, v);
    SelectMoved(o, L, s, e, o', L', s + 1, v);
    Regroup(Select(o, L, lo, s, v), [n], Select(o, L, s, e, v));
  }

  /**
   * After splicing node `n` in at `AddChild`'s slot, the parent's children
   * are the old children with `n` inserted before the `k`-th, or appended
   * when `k` is not an index of them.
   */
  lemma {:induction false} KidsAfterInsert(o: seq<nat>, L: seq<nat>, j: nat, k: int, n: nat)
    requires |o| == |L| && j < |L|
    ensures var s := Slot(L, j + 1, L[j], k);
            Kids(Insert(o, s, n), Insert(L, s, L[j] + 1), j) == InsertAt(Kids(o, L, j), k, n)
  {
    var s := Slot(L, j + 1, L[j], k);
    KidsAtSlot(o, L, j, k, n, s, SubtreeEnd(L, j));
  }

  /** `KidsAfterInsert`, with the slot `s` and the end `e` of the parent's subtree named. */
  lemma {:induction false} KidsAtSlot(o: seq<nat>, L: seq<nat>, j: nat, k: int, n: nat, s: nat, e: nat)
    requires |o| == |L| && j < |L|
    requires s == Slot(L, j + 1, L[j], k) && e == SubtreeEnd(L, j)
    ensures Kids(Insert(o, s, n), Insert(L, s, L[j] + 1), j) == InsertAt(Kids(o, L, j), k, n)
  {
    SlotSplits(o, L, j, k, s, e);
    var A := Select(o, L, j + 1, s, L[j] + 1);
    var B := Select(o, L, s, e, L[j] + 1);
    assert Kids(o, L, j) == A + B by {
      KidsSelect(o, L, j, e);
      SelectSplit(o, L, j + 1, s, e, L[j] + 1);
    }
    KidsAfterSplice(o, L, j, s, e, n);
    InsertAtJoin(A, B, k, n);
  }

  /** Splicing a direct child in at `s` inside the parent's subtree puts it between the children before and after `s`. */
  lemma {:induction false} KidsAfterSplice(o: seq<nat>, L: seq<nat>, j: nat, s: nat, e: nat, n: nat)
    requires |o| == |L| && j < |L| && e == SubtreeEnd(L, j) && j < s <= e
    ensures Kids(Insert(o, s, n), Insert(L, s, L[j] + 1), j) ==
      Select(o, L, j + 1, s, L[j] + 1) + [n] + Select(o, L, s, e, L[j] + 1)
  {
    var o' := Insert(o, s, n);
    var L' := Insert(L, s, L[j] + 1);
    assert L'[j] == L[j];
    SubtreeEndAfterInsert(L, j, s, e);
    KidsSelect(o', L', j, e + 1);
    SelectAfterInsert(o, L, o', L', j + 1, s, e, n, L[j] + 1);
  }

  /** The slot inside the parent's subtree has exactly `k` children before it, or none after it. */
  lemma {:induction false} SlotSplits(o: seq<nat>, L: seq<nat>, j: nat, k: int, s: nat, e: nat)
    requires |o| == |L| && j < |L|
    requires s == Slot(L, j + 1, L[j], k) && e == SubtreeEnd(L, j)
    ensures j < s <= e
    ensures var A := Select(o, L, j + 1, s, L[j] + 1);
            var B := Select(o, L, s, e, L[j] + 1);
            (0 <= k < |A + B| ==> |A| == k) && (!(0 <= k < |A + B|) ==> B == [])
  {
    SlotMeaning(o, L, j + 1, L[j], k);
    assert SlotIsKth(o, L, j + 1, L[j], k);
    SelectSplit(o, L, j + 1, s, e, L[j] + 1);
  }

  /** Inserting at the boundary between two parts, when the first part has `k` elements or the second is empty. */
  lemma {:induction false} InsertAtJoin(A: seq<nat>, B: seq<nat>, k: int, n: nat)
    requires 0 <= k < |A + B| ==> |A| == k
    requires !(0 <= k < |A + B|) ==> B == []
    ensures InsertAt(A + B, k, n) == A + [n] + B
  {
    if 0 <= k < |A + B| {
      assert (A + B)[..k] == A;
      assert (A + B)[k..] == B;
    }
  }

  /** The end of a subtree is the one position that closes the run of deeper positions. */
  lemma {:induction false} SubtreeEndUnique(L: seq<nat>, j: nat, e: nat)
    requires j < e <= |L|
    requires forall m :: j < m < e ==> L[m] > L[j]
    requires e < |L| ==> L[e] <= L[j]
    ensures SubtreeEnd(L, j) == e
  {
  }

  /** The positions in [lo, hi) at level `v`, in increasing order. */
  function Matching(L: seq<nat>, lo: nat, hi: nat, v: int): (P: seq<nat>)
    requires lo <= hi <= |L|
    ensures forall i :: 0 <= i < |P| ==> lo <= P[i] < hi && L[P[i]] == v
    decreases hi - lo
  {
    if lo == hi then []
    else (if L[lo] == v then [lo] else []) + Matching(L, lo + 1, hi, v)
  }

  /** The positions of the direct children of the node at position `j`: the level `L[j] + 1` positions of its subtree. */
  function KidPositions(L: seq<nat>, j: nat): seq<nat>
    requires j < |L|
  {
    Matching(L, j + 1, SubtreeEnd(L, j), L[j] + 1)
  }

  /** The direct children of the node at position `j`, in list order: the level `L[j] + 1` nodes of its subtree. */
  function Kids(o: seq<nat>, L: seq<nat>, j: nat): (c: seq<nat>)
    requires |o| == |L| && j < |L|
    ensures |c| == |KidPositions(L, j)|
  {
    SelectLength(o, L, j + 1, SubtreeEnd(L, j), L[j] + 1);
    Select(o, L, j + 1, SubtreeEnd(L, j), L[j] + 1)
  }

  /** As many nodes are selected as there are matching positions. */
  lemma {:induction false} SelectLength(o: seq<nat>, L: seq<nat>, lo: nat, hi: nat, v: int)
    requires |o| == |L| && lo <= hi <= |L|
    ensures |Select(o, L, lo, hi, v)| == |Matching(L, lo, hi, v)|
    decreases hi - lo
  {
    if lo < hi {
      SelectLength(o, L, lo + 1, hi, v);
    }
  }

  /** The `i`-th selected node is the node at the `i`-th matching position. */
  lemma {:induction false} SelectAt(o: seq<nat>, L: seq<nat>, lo: nat, hi: nat, v: int, i: nat)
    requires |o| == |L| && lo <= hi <= |L| && i < |Matching(L, lo, hi, v)|
    ensures i < |Select(o, L, lo, hi, v)| && Select(o, L, lo, hi, v)[i] == o[Matching(L, lo, hi, v)[i]]
    decreases hi - lo
  {
    SelectLength(o, L, lo, hi, v);
    if L[lo] != v {
      MatchingSkip(L, lo, hi, v);
      SelectAt(o, L, lo + 1, hi, v, i);
    } else if i > 0 {
      MatchingTake(L, lo, hi, v);
      SelectAt(o, L, lo + 1, hi, v, i - 1);
    } else {
      MatchingTake(L, lo, hi, v);
    }
  }

  /** The `i`-th child is the node at the `i`-th child position. */
  lemma {:induction false} KidAt(o: seq<nat>, L: seq<nat>, j: nat, i: nat)
    requires |o| == |L| && j < |L| && i < |KidPositions(L, j)|
    ensures Kids(o, L, j)[i] == o[KidPositions(L, j)[i]]
  {
    SelectAt(o, L, j + 1, SubtreeEnd(L, j), L[j] + 1, i);
  }

  /** Concatenation is associative. */
  lemma {:induction false} Regroup(A: seq<nat>, B: seq<nat>, C: seq<nat>)
    ensures A + (B + C) == A + B + C
  {
  }

  /** The children are the nodes of the subtree, ending at `e`, selected at level `L[j] + 1`. */
  lemma {:induction false} KidsSelect(o: seq<nat>, L: seq<nat>, j: nat, e: nat)
    requires |o| == |L| && j < |L| && SubtreeEnd(L, j) == e
    ensures j < e <= |L| && Kids(o, L, j) == Select(o, L, j + 1, e, L[j] + 1)
  {
  }

  /** The matching positions before the `i`-th one are exactly the `i` that precede it in the list. */
  lemma {:induction false} MatchingBefore(L: seq<nat>, lo: nat, hi: nat, v: int, i: nat)
    requires lo <= hi <= |L|
    requires i < |Matching(L, lo, hi, v)|
    ensures Matching(L, lo, Matching(L, lo, hi, v)[i], v) == Matching(L, lo, hi, v)[..i]
    decreases hi - lo
  {
    var P := Matching(L, lo, hi, v);
    var P1 := Matching(L, lo + 1, hi, v);
    if L[lo] != v {
      MatchingSkip(L, lo, hi, v);
      var c := P1[i];
      MatchingBefore(L, lo + 1, hi, v, i);
      MatchingSkip(L, lo, c, v);
    } else if i == 0 {
      MatchingTake(L, lo, hi, v);
    } else {
      MatchingTake(L, lo, hi, v);
      var c := P1[i - 1];
      MatchingBefore(L, lo + 1, hi, v, i - 1);
      MatchingTake(L, lo, c, v);
      ConsSlices(lo, P1, i);
    }
  }

  /** A position not at level `v` adds nothing to the matches. */
  lemma {:induction false} MatchingSkip(L: seq<nat>, lo: nat, hi: nat, v: int)
    requires lo < hi <= |L| && L[lo] != v
    ensures Matching(L, lo, hi, v) == Matching(L, lo + 1, hi, v)
  {
  }

  /** A position at level `v` heads the matches. */
  lemma {:induction false} MatchingTake(L: seq<nat>, lo: nat, hi: nat, v: int)
    requires lo < hi <= |L| && L[lo] == v
    ensures Matching(L, lo, hi, v) == [lo] + Matching(L, lo + 1, hi, v)
  {
  }

  /** Slicing a sequence with one element in front of it. */
  lemma {:induction false} ConsSlices(x: nat, P: seq<nat>, i: nat)
    requires 0 < i <= |P|
    ensures ([x] + P)[i] == P[i - 1] && ([x] + P)[..i] == [x] + P[..i - 1]
  {
  }

  /** A child's subtree lies inside its parent's. */
  lemma {:induction false} ChildSubtreeInside(L: seq<nat>, j: nat, c: nat)
    requires j < |L| && j < c < SubtreeEnd(L, j) && L[c] == L[j] + 1
    ensures SubtreeEnd(L, c) <= SubtreeEnd(L, j)
  {
  }

  /** The children before the `i`-th child, at position `c`, number exactly `i`. */
  lemma {:induction false} KidsBefore(o: seq<nat>, L: seq<nat>, j: nat, i: nat, c: nat)
    requires |o| == |L| && j < |L|
    requires i < |KidPositions(L, j)| && c == KidPositions(L, j)[i]
    ensures j < c < SubtreeEnd(L, j) && L[c] == L[j] + 1
    ensures |Select(o, L, j + 1, c, L[j] + 1)| == i
  {
    var P := KidPositions(L, j);
    assert Matching(L, j + 1, c, L[j] + 1) == P[..i] by {
      MatchingBefore(L, j + 1, SubtreeEnd(L, j), L[j] + 1, i);
    }
    SelectLength(o, L, j + 1, c, L[j] + 1);
  }

  /** A run that only its first position `c` matches contributes just that node. */
  lemma {:induction false} SelectAround(o: seq<nat>, L: seq<nat>, lo: nat, c: nat, ce: nat, e: nat, v: int)
    requires |o| == |L| && lo <= c < ce <= e <= |L| && L[c] == v
    requires forall m :: c < m < ce ==> L[m] > v
    ensures Select(o, L, lo, e, v) == Select(o, L, lo, c, v) + [o[c]] + Select(o, L, ce, e, v)
  {
    SelectSingle(o, L, c, ce, v);
    SelectSplit(o, L, c, ce, e, v);
    SelectSplit(o, L, lo, c, e, v);
    Regroup(Select(o, L, lo, c, v), [o[c]], Select(o, L, ce, e, v));
  }

  /** A run that only its first position matches selects just that node. */
  lemma {:induction false} SelectSingle(o: seq<nat>, L: seq<nat>, c: nat, ce: nat, v: int)
    requires |o| == |L| && c < ce <= |L| && L[c] == v
    requires forall m :: c < m < ce ==> L[m] > v
    ensures Select(o, L, c, ce, v) == [o[c]]
  {
    SelectNone(o, L, c + 1, ce, v);
  }

  /** The parent's children are the ones before the child at `c`, that child, and the ones after its subtree. */
  lemma {:induction false} KidsAroundChild(o: seq<nat>, L: seq<nat>, j: nat, c: nat, ce: nat, e: nat)
    requires |o| == |L| && j < |L| && e == SubtreeEnd(L, j)
    requires j < c < e && L[c] == L[j] + 1 && ce == SubtreeEnd(L, c)
    ensures c < ce <= e
    ensures Kids(o, L, j) == Select(o, L, j + 1, c, L[j] + 1) + [o[c]] + Select(o, L, ce, e, L[j] + 1)
  {
    ChildSubtreeInside(L, j, c);
    SelectAround(o, L, j + 1, c, ce, e, L[j] + 1);
    KidsSelect(o, L, j, e);
  }

  /** Cutting out a child's subtree shortens the parent's subtree by exactly that run. */
  lemma {:induction false} SubtreeEndAfterCut(L: seq<nat>, j: nat, c: nat, ce: nat, e: nat)
    requires j < |L| && e == SubtreeEnd(L, j)
    requires j < c < e && L[c] == L[j] + 1 && ce == SubtreeEnd(L, c)
    ensures ce <= e && SubtreeEnd(Cut(L, c, ce), j) == e - (ce - c)
  {
    ChildSubtreeInside(L, j, c);
    var L' := Cut(L, c, ce);
    var e' := e - (ce - c);
    forall m | j < m < e'
      ensures L'[m] > L'[j]
    {
      if m >= c {
        assert L'[m] == L[m + (ce - c)];
      }
    }
    if e' < |L'| {
      assert L'[e'] == L[e];
    }
    SubtreeEndUnique(L', j, e');
  }

  /** What a range holds after the run [c, ce) inside it is cut out: the part before the run and the part after it. */
  lemma {:induction false} SelectAfterCut(o: seq<nat>, L: seq<nat>, o': seq<nat>, L': seq<nat>, lo: nat, c: nat, ce: nat, e: nat, v: int)
    requires |o| == |L| && lo <= c <= ce <= e <= |L| && |o'| == |L'| == |L| - (ce - c)
    requires forall m :: lo <= m < c ==> o'[m] == o[m] && L'[m] == L[m]
    requires forall m :: ce <= m < e ==> o'[m - (ce - c)] == o[m] && L'[m - (ce - c)] == L[m]
    ensures Select(o', L', lo, e - (ce - c), v) == Select(o, L, lo, c, v) + Select(o, L, ce, e, v)
  {
    SelectSplit(o', L', lo, c, e - (ce - c), v);
    SelectMoved(o, L, lo, c, o', L', lo, v);
    SelectMoved(o, L, ce, e, o', L', c, v);
  }

  /**
   * Cutting out the subtree of the `i`-th child of `j` removes exactly that
   * child from `j`'s children, and keeps the shape.
   */
  lemma {:induction false} KidsAfterSubtreeCut(o: seq<nat>, L: seq<nat>, j: nat, i: nat)
    requires |o| == |L| && j < |L| && Shaped(L)
    requires i < |KidPositions(L, j)|
    ensures var c := KidPositions(L, j)[i];
            var ce := SubtreeEnd(L, c);
            Shaped(Cut(L, c, ce)) &&
            Kids(Cut(o, c, ce), Cut(L, c, ce), j) == Kids(o, L, j)[..i] + Kids(o, L, j)[i + 1..]
  {
    var c := KidPositions(L, j)[i];
    KidsBefore(o, L, j, i, c);
    ChildCutShaped(L, j, c);
    KidsAfterChildCut(o, L, j, i, c, SubtreeEnd(L, c), SubtreeEnd(L, j));
  }

  /** `KidsAfterSubtreeCut` without the shape, with the child `c`, its subtree's end `ce` and the parent's `e` named. */
  lemma {:induction false} KidsAfterChildCut(o: seq<nat>, L: seq<nat>, j: nat, i: nat, c: nat, ce: nat, e: nat)
    requires |o| == |L| && j < |L| && e == SubtreeEnd(L, j)
    requires i < |KidPositions(L, j)| && c == KidPositions(L, j)[i] && ce == SubtreeEnd(L, c)
    ensures c < ce <= e
    ensures Kids(Cut(o, c, ce), Cut(L, c, ce), j) == Kids(o, L, j)[..i] + Kids(o, L, j)[i + 1..]
  {
    var d := L[j];
    KidsBefore(o, L, j, i, c);
    var X := Select(o, L, j + 1, c, d + 1);
    var Y := Select(o, L, ce, e, d + 1);
    KidsAroundChild(o, L, j, c, ce, e);
    KidsAfterCut(o, L, j, c, ce, e);
    DropMiddle(Kids(o, L, j), X, o[c], Y);
  }

  /** After cutting out the subtree [c, ce) of a child, the parent's children are those before `c` and those after `ce`. */
  lemma {:induction false} KidsAfterCut(o: seq<nat>, L: seq<nat>, j: nat, c: nat, ce: nat, e: nat)
    requires |o| == |L| && j < |L| && e == SubtreeEnd(L, j)
    requires j < c < e && L[c] == L[j] + 1 && ce == SubtreeEnd(L, c)
    ensures Kids(Cut(o, c, ce), Cut(L, c, ce), j) == Select(o, L, j + 1, c, L[j] + 1) + Select(o, L, ce, e, L[j] + 1)
  {
    var o' := Cut(o, c, ce);
    var L' := Cut(L, c, ce);
    assert SubtreeEnd(L', j) == e - (ce - c) && L'[j] == L[j] by {
      SubtreeEndAfterCut(L, j, c, ce, e);
    }
    KidsAfterGap(o, L, o', L', j, c, ce, e);
  }

  /** `KidsAfterCut` over any sequences that agree with the cut ones position by position. */
  lemma {:induction false} KidsAfterGap(o: seq<nat>, L: seq<nat>, o': seq<nat>, L': seq<nat>, j: nat, c: nat, ce: nat, e: nat)
    requires |o| == |L| && j < c <= ce <= e <= |L| && |o'| == |L'| == |L| - (ce - c)
    requires forall m :: j + 1 <= m < c ==> o'[m] == o[m] && L'[m] == L[m]
    requires forall m :: ce <= m < e ==> o'[m - (ce - c)] == o[m] && L'[m - (ce - c)] == L[m]
    requires L'[j] == L[j] && SubtreeEnd(L', j) == e - (ce - c)
    ensures Kids(o', L', j) == Select(o, L, j + 1, c, L[j] + 1) + Select(o, L, ce, e, L[j] + 1)
  {
    SelectAfterCut(o, L, o', L', j + 1, c, ce, e, L[j] + 1);
  }

  /** Cutting out a child's subtree keeps the shape. */
  lemma {:induction false} ChildCutShaped(L: seq<nat>, j: nat, c: nat)
    requires Shaped(L) && j < |L| && j < c < SubtreeEnd(L, j) && L[c] == L[j] + 1
    ensures Shaped(Cut(L, c, SubtreeEnd(L, c)))
  {
    assert L[c - 1] >= L[j];
    CutShaped(L, c, SubtreeEnd(L, c));
  }

  /** Removing the element after the first part of a three-part sequence leaves the other two parts. */
  lemma {:induction false} DropMiddle(K: seq<nat>, X: seq<nat>, x: nat, Y: seq<nat>)
    requires K == X + [x] + Y
    ensures K[..|X|] == X && K[|X| + 1..] == Y
  {
  }

  /**
   * Cutting off everything from the `i`-th child of `j` onwards leaves `j`
   * with only its first `i` children, and keeps the shape.
   */
  lemma {:induction false} KidsAfterTruncation(o: seq<nat>, L: seq<nat>, j: nat, i: nat)
    requires |o| == |L| && j < |L| && Shaped(L)
    requires i < |KidPositions(L, j)|
    ensures var c := KidPositions(L, j)[i];
            Shaped(Cut(L, c, |L|)) &&
            Kids(Cut(o, c, |o|), Cut(L, c, |L|), j) == Kids(o, L, j)[..i]
  {
    var c := KidPositions(L, j)[i];
    KidsBefore(o, L, j, i, c);
    CutShaped(L, c, |L|);
    KidsAfterChildTail(o, L, j, i, c);
  }

  /** `KidsAfterTruncation` without the shape, with the child's position `c` named. */
  lemma {:induction false} KidsAfterChildTail(o: seq<nat>, L: seq<nat>, j: nat, i: nat, c: nat)
    requires |o| == |L| && j < |L|
    requires i < |KidPositions(L, j)| && c == KidPositions(L, j)[i]
    ensures j < c < |L|
    ensures Kids(Cut(o, c, |o|), Cut(L, c, |L|), j) == Kids(o, L, j)[..i]
  {
    var d := L[j];
    KidsBefore(o, L, j, i, c);
    var X := Select(o, L, j + 1, c, d + 1);
    var o' := Cut(o, c, |o|);
    var L' := Cut(L, c, |L|);
    assert Kids(o', L', j) == X by {
      SubtreeEndUnique(L', j, c);
      SelectMoved(o, L, j + 1, c, o', L', j + 1, d + 1);
      KidsSelect(o', L', j, c);
    }
    var ce := SubtreeEnd(L, c);
    var e := SubtreeEnd(L, j);
    KidsAroundChild(o, L, j, c, ce, e);
    DropMiddle(Kids(o, L, j), X, o[c], Select(o, L, ce, e, d + 1));
  }

  /** Cutting out the whole subtree of `j` leaves it with no children, and keeps the shape. */
  lemma {:induction false} KidsAfterDescendantsCut(o: seq<nat>, L: seq<nat>, j: nat)
    requires |o| == |L| && j < |L| && Shaped(L)
    ensures var e := SubtreeEnd(L, j);
            Shaped(Cut(L, j + 1, e)) && Kids(Cut(o, j + 1, e), Cut(L, j + 1, e), j) == []
  {
    var e := SubtreeEnd(L, j);
    CutShaped(L, j + 1, e);
    var L' := Cut(L, j + 1, e);
    if j + 1 < |L'| {
      assert L'[j + 1] == L[e];
    }
    SubtreeEndUnique(L', j, j + 1);
    assert KidPositions(L', j) == [];
  }
}
