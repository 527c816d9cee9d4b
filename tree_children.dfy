/**
 * The children helpers: counting, collecting and indexing the direct
 * children and the descendants of a node through `VisitNodes`, adding
 * several children at once, and cutting children out of the list.
 */
module Children {
  import opened Wrappers
  import opened TreeTypes
  import opened PreOrder
  import opened Chains
  import opened Splice
  import opened LibTree
  import opened VisitClasses
  import opened Navigation
  import opened Visitation

  /** The visitor the counting and collecting helpers pass: it answers `undefined` for every item. */
  function Silent(x: nat): Option<nat>
  {
    None
  }

  /** The owners of the nodes at positions `P`, in order. */
  function OwnersAt(o: seq<nat>, owner: seq<nat>, P: seq<nat>): (r: seq<nat>)
    requires Within(P, |o|) && Within(o, |owner|)
    ensures |r| == |P|
    ensures forall i :: 0 <= i < |P| ==> r[i] == owner[o[P[i]]]
  {
    seq(|P|, i requires 0 <= i < |P| => owner[o[P[i]]])
  }

  /** A visitor that never answers is handed the owner of every position, in order, and the visit returns `undefined`. */
  lemma {:induction false} SilentVisit(o: seq<nat>, owner: seq<nat>, P: seq<nat>)
    requires Within(P, |o|) && Within(o, |owner|)
    ensures Trace(o, owner, P, Silent) == Visit(OwnersAt(o, owner, P), Finished)
  {
    TraceStopsAtFirstAnswer(o, owner, P, Silent);
  }

  /** The owners of the children: the owners of the nodes at the child positions. */
  lemma {:induction false} KidOwners(o: seq<nat>, owner: seq<nat>, L: seq<nat>, j: nat)
    requires |o| == |L| && Within(o, |owner|) && j < |L|
    ensures Within(Kids(o, L, j), |owner|)
    ensures OwnersAt(o, owner, KidPositions(L, j)) == Owners(owner, Kids(o, L, j))
  {
    var K := Kids(o, L, j);
    forall i | 0 <= i < |K|
      ensures K[i] == o[KidPositions(L, j)[i]]
    {
      KidAt(o, L, j, i);
    }
  }

  /** A silent visit of the child class hands the visitor the owners of the children, in list order. */
  lemma {:induction false} ChildVisit(o: seq<nat>, owner: seq<nat>, L: seq<nat>, j: nat)
    requires |o| == |L| && Within(o, |owner|) && j < |L|
    ensures Within(Kids(o, L, j), |owner|)
    ensures Trace(o, owner, VisitPositions(L, j, ChildNodes, false), Silent) == Visit(Owners(owner, Kids(o, L, j)), Finished)
  {
    ChildClassIsKids(L, j);
    assert VisitPositions(L, j, ChildNodes, false) == KidPositions(L, j);
    SilentVisit(o, owner, KidPositions(L, j));
    KidOwners(o, owner, L, j);
  }

  /** The owners of the nodes at the positions `lo` up to `hi` are the owners of that slice of the list. */
  lemma {:induction false} SliceOwners(o: seq<nat>, owner: seq<nat>, lo: nat, hi: nat)
    requires lo <= hi <= |o| && Within(o, |owner|)
    ensures Within(Span(lo, hi), |o|) && Within(o[lo..hi], |owner|)
    ensures OwnersAt(o, owner, Span(lo, hi)) == Owners(owner, o[lo..hi])
  {
    var P := Span(lo, hi);
    assert Within(o[lo..hi], |owner|) by {
      forall i | 0 <= i < hi - lo
        ensures o[lo..hi][i] < |owner|
      {
        assert o[lo..hi][i] == o[lo + i];
      }
    }
  }

  /** A silent visit of the descendant class hands the visitor the owners of the subtree below `j`, in list order. */
  lemma {:induction false} DescendantVisit(o: seq<nat>, owner: seq<nat>, L: seq<nat>, j: nat)
    requires |o| == |L| && Within(o, |owner|) && j < |L| && Shaped(L)
    ensures Within(o[j + 1..SubtreeEnd(L, j)], |owner|)
    ensures Trace(o, owner, VisitPositions(L, j, DescendantNodes, false), Silent) ==
      Visit(Owners(owner, o[j + 1..SubtreeEnd(L, j)]), Finished)
  {
    var e := SubtreeEnd(L, j);
    DescendantClassIsSubtree(L, j);
    assert VisitPositions(L, j, DescendantNodes, false) == Span(j + 1, e);
    SliceOwners(o, owner, j + 1, e);
    SilentVisit(o, owner, Span(j + 1, e));
  }

  /** The visit log of a silent visit of class `c` from the node at position `j`. */
  method VisitSilently(t: Tree, n: nat, ghost j: nat, c: TreeTypes.Visitation) returns (items: seq<nat>)
    requires Listed(t, n, j) && t.Owned()
    ensures Trace(t.order, t.owner, VisitPositions(t.depths, j, c, false), Silent) == Visit(items, Finished)
  {
    VisitationArgSelects(c);
    ghost var T := Trace(t.order, t.owner, VisitPositions(t.depths, j, c, false), Silent);
    SilentVisit(t.order, t.owner, VisitPositions(t.depths, j, c, false));
    var r;
    r, items := VisitNodes(t, n, j, VisitationArg(c), Some(Silent), false);
  }

  /** `Children`: the owners of the direct children, in list order. */
  method Children(t: Tree, n: nat, ghost j: nat) returns (items: seq<nat>)
    requires Listed(t, n, j) && t.Owned()
    ensures Within(Kids(t.order, t.depths, j), |t.owner|)
    ensures items == Owners(t.owner, Kids(t.order, t.depths, j))
  {
    items := VisitSilently(t, n, j, ChildNodes);
    ChildVisit(t.order, t.owner, t.depths, j);
  }

  /** `ChildCount`: the number of direct children. */
  method ChildCount(t: Tree, n: nat, ghost j: nat) returns (count: nat)
    requires Listed(t, n, j) && t.Owned()
    ensures count == |Kids(t.order, t.depths, j)| == |KidPositions(t.depths, j)|
  {
    var items := VisitSilently(t, n, j, ChildNodes);
    ChildVisit(t.order, t.owner, t.depths, j);
    count := |items|;
  }

  /** `Child`: the owner of the `index`-th direct child, or `null` when there is none (a negative index included). */
  method Child(t: Tree, n: nat, ghost j: nat, index: int) returns (item: Option<nat>)
    requires Listed(t, n, j) && t.Owned()
    ensures Within(Kids(t.order, t.depths, j), |t.owner|)
    ensures var K := Kids(t.order, t.depths, j);
      item == if 0 <= index < |K| then Some(t.owner[K[index]]) else None
  {
    var items := VisitSilently(t, n, j, ChildNodes);
    ChildVisit(t.order, t.owner, t.depths, j);
    item := if 0 <= index < |items| then Some(items[index]) else None;
  }

  /** `Descendants`: the owners of the nodes of the subtree below this one, in list order. */
  method Descendants(t: Tree, n: nat, ghost j: nat) returns (items: seq<nat>)
    requires Listed(t, n, j) && t.Owned()
    ensures Within(t.order[j + 1..SubtreeEnd(t.depths, j)], |t.owner|)
    ensures items == Owners(t.owner, t.order[j + 1..SubtreeEnd(t.depths, j)])
  {
    items := VisitSilently(t, n, j, DescendantNodes);
    DescendantVisit(t.order, t.owner, t.depths, j);
  }

  /** `DescendantCount`: the size of the subtree below this node. */
  method DescendantCount(t: Tree, n: nat, ghost j: nat) returns (count: nat)
    requires Listed(t, n, j) && t.Owned()
    ensures count == SubtreeEnd(t.depths, j) - j - 1
  {
    var items := VisitSilently(t, n, j, DescendantNodes);
    DescendantVisit(t.order, t.owner, t.depths, j);
    count := |items|;
  }

  /** `Descendant`: the owner of the `index`-th node below this one in list order, or `null` when there is none. */
  method Descendant(t: Tree, n: nat, ghost j: nat, index: int) returns (item: Option<nat>)
    requires Listed(t, n, j) && t.Owned()
    ensures item == if 0 <= index < SubtreeEnd(t.depths, j) - j - 1 then Some(t.owner[t.order[j + 1 + index]]) else None
  {
    var items := VisitSilently(t, n, j, DescendantNodes);
    DescendantVisit(t.order, t.owner, t.depths, j);
    item := if 0 <= index < |items| then Some(items[index]) else None;
  }

  /** The item `Node` fields after `delete Item.Node` on each of `items`. */
  function Deleted(nodeOf: seq<Option<nat>>, items: seq<nat>): (r: seq<Option<nat>>)
    requires Within(items, |nodeOf|)
    ensures |r| == |nodeOf|
    ensures forall x :: 0 <= x < |nodeOf| ==> r[x] == if x in items then None else nodeOf[x]
    decreases |items|
  {
    if items == [] then nodeOf
    else
      var m := |items| - 1;
      assert forall x :: x in items <==> x in items[..m] || x == items[m];
      Deleted(nodeOf, items[..m])[items[m] := None]
  }

  /** Deleting the `Node` of one item. */
  lemma {:induction false} DeletedOne(nodeOf: seq<Option<nat>>, x: nat)
    requires x < |nodeOf|
    ensures Within([x], |nodeOf|) && Deleted(nodeOf, [x]) == nodeOf[x := None]
  {
    assert Deleted(nodeOf, []) == nodeOf;
  }

  /**
   * Cutting the run [a, b) out of the list and deleting the `Node` of items
   * that own nodes in the run keeps every listed node its owner's `Node`.
   */
  lemma {:induction false} CutOwnership(nodeOf: seq<Option<nat>>, owner: seq<nat>, o: seq<nat>, a: nat, b: nat,
                                        items: seq<nat>, P: seq<nat>)
    requires a <= b <= |o| && Distinct(o)
    requires forall i :: 0 <= i < |o| ==> o[i] < |owner|
    requires forall m :: 0 <= m < |owner| ==> owner[m] < |nodeOf|
    requires OwnedBy(nodeOf, owner, o)
    requires |P| == |items|
    requires forall k :: 0 <= k < |P| ==> a <= P[k] < b && items[k] == owner[o[P[k]]]
    ensures Within(items, |nodeOf|)
    ensures OwnedBy(Deleted(nodeOf, items), owner, Cut(o, a, b))
  {
    var D := Deleted(nodeOf, items);
    var o' := Cut(o, a, b);
    forall i | 0 <= i < |o'|
      ensures D[owner[o'[i]]] == Some(o'[i])
    {
      var i' := if i < a then i else i + (b - a);
      assert o'[i] == o[i'];
      if owner[o[i']] in items {
        var k :| 0 <= k < |items| && items[k] == owner[o[i']];
        assert nodeOf[owner[o[P[k]]]] == Some(o[P[k]]);
        Differ(o, i', P[k]);
        assert false;
      }
    }
  }

  /**
   * Pointing the node before the run [a, b) forwards at the node after it,
   * and that node back at it, cuts the run out of the list and keeps the
   * arena consistent, provided what is left keeps its shape.
   */
  lemma {:induction false} Detached(text: seq<string>, nodeOf: seq<Option<nat>>, owner: seq<nat>,
                                    prev: seq<Option<nat>>, next: seq<Option<nat>>, indent: seq<nat>, o: seq<nat>,
                                    a: nat, b: nat, prev': seq<Option<nat>>, next': seq<Option<nat>>)
    requires Wellformed(text, nodeOf, owner, prev, next, indent, o)
    requires 0 < a <= b <= |o| && Shaped(Cut(Levels(o, indent), a, b))
    requires next' == next[o[a - 1] := NodeAt(o, b)]
    requires prev' == if b < |o| then prev[o[b] := Some(o[a - 1])] else prev
    ensures Wellformed(text, nodeOf, owner, prev', next', indent, Cut(o, a, b))
    ensures Levels(Cut(o, a, b), indent) == Cut(Levels(o, indent), a, b)
  {
    JoinLinks(o, prev, next, a, b, prev', next');
    OutlineCut(o, indent, a, b);
  }

  /** The two link writes that join the node before the run [a, b) to the node after it cut the run out of the chain. */
  lemma {:induction false} JoinLinks(o: seq<nat>, prev: seq<Option<nat>>, next: seq<Option<nat>>, a: nat, b: nat,
                                     prev': seq<Option<nat>>, next': seq<Option<nat>>)
    requires Chain(o, prev, next) && InRange(prev, next) && 0 < a <= b <= |o|
    requires next' == next[o[a - 1] := NodeAt(o, b)]
    requires prev' == if b < |o| then prev[o[b] := Some(o[a - 1])] else prev
    ensures InRange(prev', next') && Chain(Cut(o, a, b), prev', next')
  {
    if b < |o| {
      Differ(o, a - 1, b);
    }
    forall i | 0 <= i < |o| && i != a - 1 && i != b && !(a <= i < b)
      ensures prev'[o[i]] == prev[o[i]] && next'[o[i]] == next[o[i]]
    {
      Differ(o, i, a - 1);
      if b < |o| {
        Differ(o, i, b);
      }
    }
    CutJoins(o, prev, next, a, b, prev', next');
  }

  /**
   * The three link writes of `RemoveChildren` on the node at position `j`,
   * whose subtree ends at `e`, cut the subtree out of the chain: the write to
   * the last descendant touches a node that leaves the list.
   */
  lemma {:induction false} StrayJoinLinks(o: seq<nat>, prev: seq<Option<nat>>, next: seq<Option<nat>>, j: nat, e: nat,
                                          prev': seq<Option<nat>>, next': seq<Option<nat>>)
    requires Chain(o, prev, next) && InRange(prev, next) && j + 1 < e <= |o|
    requires next' == next[o[j] := NodeAt(o, e)]
    requires prev' == if e < |o| then prev[o[e - 1] := Some(o[j])][o[e] := Some(o[j])] else prev[o[e - 1] := Some(o[j])]
    ensures InRange(prev', next')
    ensures Chain(Cut(o, j + 1, e), prev', next')
  {
    assert InRange(prev', next');
    StrayFrame(o, prev, next, j, e, prev', next');
    Differ(o, j, e - 1);
    if e < |o| {
      Differ(o, j, e);
      Differ(o, e - 1, e);
    }
    CutJoins(o, prev, next, j + 1, e, prev', next');
  }

  /** The writes of `RemoveChildren` leave the links of every node outside the subtree and its two neighbours as they were. */
  lemma {:induction false} StrayFrame(o: seq<nat>, prev: seq<Option<nat>>, next: seq<Option<nat>>, j: nat, e: nat,
                                      prev': seq<Option<nat>>, next': seq<Option<nat>>)
    requires Distinct(o) && j + 1 < e <= |o|
    requires forall i :: 0 <= i < |o| ==> o[i] < |prev| == |next|
    requires next' == next[o[j] := NodeAt(o, e)]
    requires prev' == if e < |o| then prev[o[e - 1] := Some(o[j])][o[e] := Some(o[j])] else prev[o[e - 1] := Some(o[j])]
    ensures forall i {:trigger prev'[o[i]]} {:trigger next'[o[i]]} :: 0 <= i < |o| && i != j && i != e && !(j + 1 <= i < e) ==>
      prev'[o[i]] == prev[o[i]] && next'[o[i]] == next[o[i]]
  {
    forall i | 0 <= i < |o| && i != j && i != e && !(j + 1 <= i < e)
      ensures prev'[o[i]] == prev[o[i]] && next'[o[i]] == next[o[i]]
    {
      Differ(o, i, j);
      Differ(o, i, e - 1);
      if e < |o| {
        Differ(o, i, e);
      }
    }
  }

  /** Cutting out a run after the head keeps the outline, provided the levels left keep their shape. */
  lemma {:induction false} OutlineCut(o: seq<nat>, indent: seq<nat>, a: nat, b: nat)
    requires Outline(o, indent) && 0 < a <= b <= |o| && Shaped(Cut(Levels(o, indent), a, b))
    ensures Outline(Cut(o, a, b), indent)
    ensures Levels(Cut(o, a, b), indent) == Cut(Levels(o, indent), a, b)
  {
    LevelsCut(o, indent, a, b, indent);
  }

  /**
   * Removing the descendants of the node at position `j`, ending at `e`:
   * the last descendant's `PrevNode` set to the node, the node's `NextNode`
   * set to the node after the subtree, and that node's `PrevNode` back to
   * the node, cut the descendants out and keep the arena consistent.
   */
  lemma {:induction false} DescendantsDetached(text: seq<string>, nodeOf: seq<Option<nat>>, owner: seq<nat>,
                                               prev: seq<Option<nat>>, next: seq<Option<nat>>, indent: seq<nat>, o: seq<nat>,
                                               j: nat, e: nat, prev': seq<Option<nat>>, next': seq<Option<nat>>)
    requires Wellformed(text, nodeOf, owner, prev, next, indent, o)
    requires j + 1 < e <= |o| && Shaped(Cut(Levels(o, indent), j + 1, e))
    requires next' == next[o[j] := NodeAt(o, e)]
    requires prev' == if e < |o| then prev[o[e - 1] := Some(o[j])][o[e] := Some(o[j])] else prev[o[e - 1] := Some(o[j])]
    ensures Wellformed(text, nodeOf, owner, prev', next', indent, Cut(o, j + 1, e))
    ensures Levels(Cut(o, j + 1, e), indent) == Cut(Levels(o, indent), j + 1, e)
  {
    StrayJoinLinks(o, prev, next, j, e, prev', next');
    OutlineCut(o, indent, j + 1, e);
  }

  /**
   * The join both child removals end with: the node `p` before the run
   * [a, b) gets the node `after` at the end of the run as its `NextNode`,
   * and that node, when there is one, gets `p` as its `PrevNode`.
   */
  method CutOut(t: Tree, p: nat, after: Option<nat>, ghost a: nat, ghost b: nat)
    requires t.Valid() && 0 < a <= b <= |t.order| && p == t.order[a - 1] && after == NodeAt(t.order, b)
    requires Shaped(Cut(t.depths, a, b))
    modifies t
    ensures t.Valid()
    ensures t.order == Cut(old(t.order), a, b) && t.depths == Cut(old(t.depths), a, b)
    ensures t.next == old(t.next)[p := after]
    ensures t.prev == if after.Some? then old(t.prev)[after.value := Some(p)] else old(t.prev)
    ensures t.text == old(t.text) && t.nodeOf == old(t.nodeOf) && t.owner == old(t.owner) && t.indent == old(t.indent)
  {
    ghost var o, prev0, next0 := t.order, t.prev, t.next;
    t.next := t.next[p := after];
    if after.Some? {
      t.prev := t.prev[after.value := Some(p)];
      Detached(t.text, t.nodeOf, t.owner, prev0, next0, t.indent, o, a, b, t.prev, t.next);
    } else {
      Detached(t.text, t.nodeOf, t.owner, prev0, next0, t.indent, o, a, b, t.prev, t.next);
    }
    t.order, t.depths := Cut(t.order, a, b), Cut(t.depths, a, b);
  }

  /**
   * Where the run `RemoveChild` cuts out for the child at position `c`
   * ends: at the end of the child's subtree when it has descendants, and at
   * the end of the whole list when it has none, because then the node
   * before the child is given no `NextNode` at all.
   */
  function RemovedUpTo(L: seq<nat>, c: nat): (b: nat)
    requires c < |L|
    ensures c < b <= |L|
    ensures b == |L| || b == SubtreeEnd(L, c)
  {
    var ce := SubtreeEnd(L, c);
    if ce > c + 1 then ce else |L|
  }

  /**
   * The list, its levels, links and item `Node` fields after the run [c, b)
   * was cut out by joining the node before it to the node at `b` (or `null`),
   * and the item `x` lost its `Node`.
   */
  ghost predicate Unhooked(o: seq<nat>, L: seq<nat>, prev: seq<Option<nat>>, next: seq<Option<nat>>,
                           nodeOf: seq<Option<nat>>, c: nat, b: nat, x: nat,
                           o': seq<nat>, L': seq<nat>, prev': seq<Option<nat>>, next': seq<Option<nat>>,
                           nodeOf': seq<Option<nat>>)
    requires 0 < c <= b <= |o| == |L| && Within(o, |prev|) && |prev| == |next| && x < |nodeOf|
  {
    var after := NodeAt(o, b);
    o' == Cut(o, c, b) && L' == Cut(L, c, b) && nodeOf' == nodeOf[x := None] &&
    next' == next[o[c - 1] := after] &&
    prev' == if after.Some? then prev[after.value := Some(o[c - 1])] else prev
  }

  /** `delete Item.Node` on the item `x`: the links never depend on it. */
  method DeleteNode(t: Tree, x: nat)
    requires t.Valid() && x < |t.nodeOf|
    modifies t
    ensures t.Valid() && t.nodeOf == old(t.nodeOf)[x := None]
    ensures t.text == old(t.text) && t.owner == old(t.owner) && t.indent == old(t.indent)
    ensures t.prev == old(t.prev) && t.next == old(t.next) && t.order == old(t.order) && t.depths == old(t.depths)
  {
    NodeDeleted(t.text, t.nodeOf, t.owner, t.prev, t.next, t.indent, t.order, x);
    t.nodeOf := t.nodeOf[x := None];
  }

  /**
   * The step both child removals end with: cuts the run [c, b) out of the
   * list (`CutOut`) and deletes the `Node` of the item `x` that owns the
   * node at `c`.
   */
  method Unhook(t: Tree, x: nat, p: nat, after: Option<nat>, ghost c: nat, ghost b: nat)
    requires t.Valid() && t.Owned() && 0 < c < b <= |t.order|
    requires p == t.order[c - 1] && after == NodeAt(t.order, b) && x == t.owner[t.order[c]]
    requires Shaped(Cut(t.depths, c, b))
    modifies t
    ensures t.Valid() && t.Owned()
    ensures Unhooked(old(t.order), old(t.depths), old(t.prev), old(t.next), old(t.nodeOf), c, b, x,
                     t.order, t.depths, t.prev, t.next, t.nodeOf)
    ensures t.text == old(t.text) && t.owner == old(t.owner) && t.indent == old(t.indent)
  {
    ghost var o, L, prev0, next0, nodeOf0 := t.order, t.depths, t.prev, t.next, t.nodeOf;
    OneOwnerCut(t.nodeOf, t.owner, o, c, b, x);
    CutOut(t, p, after, c, b);
    DeleteNode(t, x);
    assert Unhooked(o, L, prev0, next0, nodeOf0, c, b, x, t.order, t.depths, t.prev, t.next, t.nodeOf);
  }

  /** Cutting out the run [c, b) and deleting the `Node` of the owner of the node at `c` keeps the rest owned. */
  lemma {:induction false} OneOwnerCut(nodeOf: seq<Option<nat>>, owner: seq<nat>, o: seq<nat>, c: nat, b: nat, x: nat)
    requires c < b <= |o| && Distinct(o)
    requires forall i :: 0 <= i < |o| ==> o[i] < |owner|
    requires forall m :: 0 <= m < |owner| ==> owner[m] < |nodeOf|
    requires OwnedBy(nodeOf, owner, o) && x == owner[o[c]]
    ensures x < |nodeOf| && OwnedBy(nodeOf[x := None], owner, Cut(o, c, b))
  {
    CutOwnership(nodeOf, owner, o, c, b, [x], [c]);
    DeletedOne(nodeOf, x);
  }

  /** Deleting an item's `Node` keeps the arena consistent. */
  lemma {:induction false} NodeDeleted(text: seq<string>, nodeOf: seq<Option<nat>>, owner: seq<nat>,
                                       prev: seq<Option<nat>>, next: seq<Option<nat>>, indent: seq<nat>, o: seq<nat>, x: nat)
    requires Wellformed(text, nodeOf, owner, prev, next, indent, o) && x < |nodeOf|
    ensures Wellformed(text, nodeOf[x := None], owner, prev, next, indent, o)
  {
  }

  /** The node at position `k` is its owner's `Node`, and its links name its neighbours in the list. */
  lemma {:induction false} NodeFacts(t: Tree, k: nat)
    requires t.Valid() && t.Owned() && k < |t.order|
    ensures t.owner[t.order[k]] < |t.nodeOf| && t.nodeOf[t.owner[t.order[k]]] == Some(t.order[k])
    ensures t.prev[t.order[k]] == NodeBefore(t.order, k) && t.next[t.order[k]] == NodeAt(t.order, k + 1)
  {
  }

  /** What `FindRelative(LastDescNode)` answers for the node at position `c`: the owner of the last node of its subtree, if it has descendants. */
  lemma {:induction false} LastDescAnswer(o: seq<nat>, owner: seq<nat>, L: seq<nat>, c: nat)
    requires |o| == |L| && c < |L| && forall i :: 0 <= i < |o| ==> o[i] < |owner|
    ensures var ce := SubtreeEnd(L, c);
      Answer(o, owner, L, c, LastDescNode) == if ce > c + 1 then Item(owner[o[ce - 1]]) else Absent
  {
  }

  /**
   * `FindRelative(LastDescNode)` followed to the answer's `Node`: the last
   * node of the subtree of the node `n` at position `j`, or `null` when it
   * has no descendants.
   */
  method LastDescendant(t: Tree, n: nat, ghost j: nat) returns (last: Option<nat>)
    requires Listed(t, n, j) && t.Owned()
    ensures var e := SubtreeEnd(t.depths, j);
      last == (if e > j + 1 then Some(t.order[e - 1]) else None) &&
      (last.Some? ==> t.next[last.value] == NodeAt(t.order, e))
  {
    ghost var e := SubtreeEnd(t.depths, j);
    var lastDesc := FindLastDescendantNode(t, n, j);
    LastDescAnswer(t.order, t.owner, t.depths, j);
    if lastDesc.Item? {
      NodeFacts(t, e - 1);
      last := Some(t.nodeOf[lastDesc.x].value);
      assert last == Some(t.order[e - 1]);
    } else {
      assert e <= j + 1;
      last := None;
    }
  }

  /**
   * The lookups a child removal makes from the item `x` that owns the node
   * at position `c`: the item's `Node`, that node's `PrevNode`, and the last
   * node of its subtree, if it has descendants.
   */
  method SubtreeBounds(t: Tree, x: nat, ghost c: nat) returns (child: nat, p: nat, last: Option<nat>)
    requires t.Valid() && t.Owned() && 0 < c < |t.order| && x == t.owner[t.order[c]]
    ensures child == t.order[c] && p == t.order[c - 1]
    ensures var ce := SubtreeEnd(t.depths, c);
      last == (if ce > c + 1 then Some(t.order[ce - 1]) else None) &&
      (last.Some? ==> t.next[last.value] == NodeAt(t.order, ce)) &&
      (last.None? ==> t.next[child] == NodeAt(t.order, ce))
  {
    NodeFacts(t, c);
    child := t.nodeOf[x].value;
    last := LastDescendant(t, child, c);
    p := t.prev[child].value;
  }

  /**
   * What `RemoveChild` as written leaves of the children of the node at
   * position `j` when it removes the `i`-th: the others when that child has
   * descendants, only those before it when it has none.
   */
  lemma {:induction false} RemovalKids(o: seq<nat>, L: seq<nat>, j: nat, i: nat)
    requires |o| == |L| && j < |L| && Shaped(L) && i < |KidPositions(L, j)|
    ensures var c := KidPositions(L, j)[i];
      var b := RemovedUpTo(L, c);
      var K := Kids(o, L, j);
      0 < c && Shaped(Cut(L, c, b)) &&
      Kids(Cut(o, c, b), Cut(L, c, b), j) == if SubtreeEnd(L, c) > c + 1 then K[..i] + K[i + 1..] else K[..i]
  {
    var c := KidPositions(L, j)[i];
    KidsBefore(o, L, j, i, c);
    if SubtreeEnd(L, c) > c + 1 {
      KidsAfterSubtreeCut(o, L, j, i);
    } else {
      KidsAfterTruncation(o, L, j, i);
    }
  }

  /**
   * `RemoveChild` as written: looks the child up with `Child`, joins the node
   * before it to the node after its last descendant, and deletes the child's
   * `Node`. For a child without descendants the node before it is given
   * `null` as `NextNode`, so everything after the child leaves the list too
   * and the node keeps only the children before it.
   */
  method RemoveChild(t: Tree, n: nat, ghost j: nat, childIndex: int) returns (removed: Option<nat>)
    requires Listed(t, n, j) && t.Owned()
    modifies t
    ensures Listed(t, n, j) && t.Owned()
    ensures t.text == old(t.text) && t.owner == old(t.owner) && t.indent == old(t.indent)
    ensures !(0 <= childIndex < old(|KidPositions(t.depths, j)|)) ==>
      removed == None && t.order == old(t.order) && t.depths == old(t.depths) && t.nodeOf == old(t.nodeOf) &&
      t.prev == old(t.prev) && t.next == old(t.next)
    ensures 0 <= childIndex < old(|KidPositions(t.depths, j)|) ==>
      var c := old(KidPositions(t.depths, j))[childIndex];
      removed == Some(old(t.owner[t.order[c]])) &&
      Unhooked(old(t.order), old(t.depths), old(t.prev), old(t.next), old(t.nodeOf), c, old(RemovedUpTo(t.depths, c)),
               removed.value, t.order, t.depths, t.prev, t.next, t.nodeOf)
    ensures 0 <= childIndex < old(|KidPositions(t.depths, j)|) ==>
      var K := old(Kids(t.order, t.depths, j));
      var c := old(KidPositions(t.depths, j))[childIndex];
      Kids(t.order, t.depths, j) ==
        if old(SubtreeEnd(t.depths, c)) > c + 1 then K[..childIndex] + K[childIndex + 1..] else K[..childIndex]
  {
    ghost var o, L := t.order, t.depths;
    var childItem := Child(t, n, j, childIndex);
    if childItem.None? {
      return None;
    }
    ghost var i: nat := childIndex;
    ghost var c := KidPositions(L, j)[i];
    ghost var ce := SubtreeEnd(L, c);
    KidAt(o, L, j, i);
    KidsBefore(o, L, j, i, c);
    var x := childItem.value;
    var child, p, last := SubtreeBounds(t, x, c);
    var after := if last.Some? then t.next[last.value] else None;
    RemovalKids(o, L, j, i);
    Unhook(t, x, p, after, c, RemovedUpTo(L, c));
    assert t.order == Cut(o, c, RemovedUpTo(L, c)) && t.depths == Cut(L, c, RemovedUpTo(L, c));
    removed := Some(x);
  }

  /**
   * `RemoveChild` as evidently intended: a child without descendants is its
   * own last node, so the node before it is joined to the node after it and
   * only the child's subtree leaves the list. The node keeps all its other
   * children, in order.
   */
  method RemoveChildCorrected(t: Tree, n: nat, ghost j: nat, childIndex: int) returns (removed: Option<nat>)
    requires Listed(t, n, j) && t.Owned()
    modifies t
    ensures Listed(t, n, j) && t.Owned()
    ensures t.text == old(t.text) && t.owner == old(t.owner) && t.indent == old(t.indent)
    ensures !(0 <= childIndex < old(|KidPositions(t.depths, j)|)) ==>
      removed == None && t.order == old(t.order) && t.depths == old(t.depths) && t.nodeOf == old(t.nodeOf) &&
      t.prev == old(t.prev) && t.next == old(t.next)
    ensures 0 <= childIndex < old(|KidPositions(t.depths, j)|) ==>
      var c := old(KidPositions(t.depths, j))[childIndex];
      removed == Some(old(t.owner[t.order[c]])) &&
      Unhooked(old(t.order), old(t.depths), old(t.prev), old(t.next), old(t.nodeOf), c, old(SubtreeEnd(t.depths, c)),
               removed.value, t.order, t.depths, t.prev, t.next, t.nodeOf)
    ensures 0 <= childIndex < old(|KidPositions(t.depths, j)|) ==>
      var K := old(Kids(t.order, t.depths, j));
      Kids(t.order, t.depths, j) == K[..childIndex] + K[childIndex + 1..]
  {
    ghost var o, L := t.order, t.depths;
    var childItem := Child(t, n, j, childIndex);
    if childItem.None? {
      return None;
    }
    ghost var i: nat := childIndex;
    ghost var c := KidPositions(L, j)[i];
    ghost var ce := SubtreeEnd(L, c);
    KidAt(o, L, j, i);
    KidsBefore(o, L, j, i, c);
    var x := childItem.value;
    var child, p, last := SubtreeBounds(t, x, c);
    var after := if last.Some? then t.next[last.value] else t.next[child];
    KidsAfterSubtreeCut(o, L, j, i);
    Unhook(t, x, p, after, c, ce);
    assert t.order == Cut(o, c, ce) && t.depths == Cut(L, c, ce);
    removed := Some(x);
  }

  /** A root with three children and no grandchildren. */
  lemma {:induction false} ThreeLeaves(o: seq<nat>, L: seq<nat>)
    requires o == [0, 1, 2, 3] && L == [0, 1, 1, 1]
    ensures Shaped(L)
    ensures SubtreeEnd(L, 1) == 2 && KidPositions(L, 0) == [1, 2, 3] && Kids(o, L, 0) == [1, 2, 3]
  {
    assert SubtreeEnd(L, 1) == 2;
    assert SubtreeEnd(L, 0) == 4;
    assert Matching(L, 1, 4, 1) == [1, 2, 3] by {
      assert Matching(L, 4, 4, 1) == [];
      assert Matching(L, 3, 4, 1) == [3];
      assert Matching(L, 2, 4, 1) == [2, 3];
    }
    assert Select(o, L, 1, 4, 1) == [1, 2, 3] by {
      assert Select(o, L, 4, 4, 1) == [];
      assert Select(o, L, 3, 4, 1) == [3];
      assert Select(o, L, 2, 4, 1) == [2, 3];
    }
  }

  /**
   * The input that shows `RemoveChild` as written losing siblings: a root
   * with three children and no grandchildren. Removing child 0 leaves the
   * root with no children at all, where the corrected removal leaves the
   * other two.
   */
  lemma {:induction false} LeafRemovalTruncates(o: seq<nat>, L: seq<nat>)
    requires o == [0, 1, 2, 3] && L == [0, 1, 1, 1]
    ensures Kids(o, L, 0) == [1, 2, 3] && KidPositions(L, 0)[0] == 1
    ensures Kids(Cut(o, 1, RemovedUpTo(L, 1)), Cut(L, 1, RemovedUpTo(L, 1)), 0) == []
    ensures Kids(Cut(o, 1, SubtreeEnd(L, 1)), Cut(L, 1, SubtreeEnd(L, 1)), 0) == [2, 3]
  {
    ThreeLeaves(o, L);
    RemovalKids(o, L, 0, 0);
    KidsAfterSubtreeCut(o, L, 0, 0);
  }

  /** Deleting the `Node` of any items leaves the arena consistent: the links never depend on those fields. */
  lemma {:induction false} ItemsDeleted(text: seq<string>, nodeOf: seq<Option<nat>>, owner: seq<nat>,
                                        prev: seq<Option<nat>>, next: seq<Option<nat>>, indent: seq<nat>, o: seq<nat>,
                                        items: seq<nat>)
    requires Wellformed(text, nodeOf, owner, prev, next, indent, o) && Within(items, |nodeOf|)
    ensures Wellformed(text, Deleted(nodeOf, items), owner, prev, next, indent, o)
    decreases |items|
  {
    if items != [] {
      var m := |items| - 1;
      ItemsDeleted(text, nodeOf, owner, prev, next, indent, o, items[..m]);
      NodeDeleted(text, Deleted(nodeOf, items[..m]), owner, prev, next, indent, o, items[m]);
    }
  }

  /**
   * The owners of the children of the node at position `j` are items with a
   * `Node`, and once those `Node` fields are deleted every node left after
   * the subtree's descendants are cut out is still its owner's `Node`.
   */
  lemma {:induction false} ChildrenReleased(nodeOf: seq<Option<nat>>, owner: seq<nat>, o: seq<nat>, L: seq<nat>, j: nat)
    requires |o| == |L| && j < |L| && Distinct(o) && Within(o, |owner|)
    requires forall m :: 0 <= m < |owner| ==> owner[m] < |nodeOf|
    requires OwnedBy(nodeOf, owner, o)
    ensures Within(Kids(o, L, j), |owner|)
    ensures var items := Owners(owner, Kids(o, L, j));
      Within(items, |nodeOf|) && OwnedBy(Deleted(nodeOf, items), owner, Cut(o, j + 1, SubtreeEnd(L, j)))
  {
    KidOwners(o, owner, L, j);
    var P := KidPositions(L, j);
    var items := Owners(owner, Kids(o, L, j));
    assert items == OwnersAt(o, owner, P);
    CutOwnership(nodeOf, owner, o, j + 1, SubtreeEnd(L, j), items, P);
  }

  /**
   * The list and links after `RemoveChildren` on the node at position `j`:
   * the descendants are cut out; when there are any, the node points
   * forwards past them, the last descendant and the node after them point
   * back at it.
   */
  ghost predicate ChildrenCut(o: seq<nat>, L: seq<nat>, prev: seq<Option<nat>>, next: seq<Option<nat>>, j: nat,
                              o': seq<nat>, L': seq<nat>, prev': seq<Option<nat>>, next': seq<Option<nat>>)
    requires |o| == |L| && j < |L| && Within(o, |prev|) && |prev| == |next|
  {
    var e := SubtreeEnd(L, j);
    o' == Cut(o, j + 1, e) && L' == Cut(L, j + 1, e) &&
    if e > j + 1 then
      next' == next[o[j] := NodeAt(o, e)] &&
      prev' == (if e < |o| then prev[o[e - 1] := Some(o[j])][o[e] := Some(o[j])] else prev[o[e - 1] := Some(o[j])])
    else
      prev' == prev && next' == next
  }

  /** `forEach(Item => delete Item.Node)`: the items lose their `Node`, one after the other. */
  method DeleteNodes(t: Tree, items: seq<nat>)
    requires Within(items, |t.nodeOf|)
    modifies t
    ensures t.nodeOf == Deleted(old(t.nodeOf), items)
    ensures t.text == old(t.text) && t.owner == old(t.owner) && t.indent == old(t.indent)
    ensures t.prev == old(t.prev) && t.next == old(t.next)
    ensures t.order == old(t.order) && t.depths == old(t.depths)
  {
    var k := 0;
    while k < |items|
      invariant k <= |items|
      invariant t.nodeOf == Deleted(old(t.nodeOf), items[..k])
      invariant t.text == old(t.text) && t.owner == old(t.owner) && t.indent == old(t.indent)
      invariant t.prev == old(t.prev) && t.next == old(t.next)
      invariant t.order == old(t.order) && t.depths == old(t.depths)
    {
      assert items[..k + 1][..k] == items[..k];
      t.nodeOf := t.nodeOf[items[k] := None];
      k := k + 1;
    }
    assert items[..k] == items;
  }

  /**
   * The writes `RemoveChildren` makes when the node `n` at position `j` has
   * descendants, the last of them `last`: `last` points back at `n`, `n`
   * points forwards at the node that followed `last`, and that node, if
   * any, points back at `n`.
   */
  method LinkPast(t: Tree, n: nat, last: nat, ghost j: nat, ghost e: nat)
    requires t.Valid() && j + 1 < e <= |t.order| && n == t.order[j] && last == t.order[e - 1]
    requires Shaped(Cut(t.depths, j + 1, e))
    modifies t
    ensures t.Valid()
    ensures t.order == Cut(old(t.order), j + 1, e) && t.depths == Cut(old(t.depths), j + 1, e)
    ensures t.next == old(t.next)[n := NodeAt(old(t.order), e)]
    ensures t.prev == if e < |old(t.order)| then old(t.prev)[last := Some(n)][old(t.order)[e] := Some(n)]
                      else old(t.prev)[last := Some(n)]
    ensures t.text == old(t.text) && t.nodeOf == old(t.nodeOf) && t.owner == old(t.owner) && t.indent == old(t.indent)
  {
    ghost var o, prev0, next0 := t.order, t.prev, t.next;
    t.prev := t.prev[last := Some(n)];
    var after := t.next[last];
    t.next := t.next[n := after];
    if after.Some? {
      t.prev := t.prev[after.value := Some(n)];
      DescendantsDetached(t.text, t.nodeOf, t.owner, prev0, next0, t.indent, o, j, e, t.prev, t.next);
    } else {
      DescendantsDetached(t.text, t.nodeOf, t.owner, prev0, next0, t.indent, o, j, e, t.prev, t.next);
    }
    t.order, t.depths := Cut(t.order, j + 1, e), Cut(t.depths, j + 1, e);
  }

  /**
   * The relinking `RemoveChildren` does once `FindRelative(LastDescNode)`
   * answers: the last descendant and the node after it point back at the
   * node, and the node points forwards past its descendants.
   */
  method DetachDescendants(t: Tree, n: nat, ghost j: nat)
    requires Listed(t, n, j) && t.Owned()
    modifies t
    ensures Listed(t, n, j)
    ensures t.text == old(t.text) && t.nodeOf == old(t.nodeOf) && t.owner == old(t.owner) && t.indent == old(t.indent)
    ensures ChildrenCut(old(t.order), old(t.depths), old(t.prev), old(t.next), j, t.order, t.depths, t.prev, t.next)
  {
    ghost var o, L := t.order, t.depths;
    ghost var e := SubtreeEnd(L, j);
    var last := LastDescendant(t, n, j);
    KidsAfterDescendantsCut(o, L, j);
    if last.Some? {
      LinkPast(t, n, last.value, j, e);
      assert ChildrenCut(o, L, old(t.prev), old(t.next), j, t.order, t.depths, t.prev, t.next);
    } else {
      assert Cut(o, j + 1, e) == o && Cut(L, j + 1, e) == L;
      assert ChildrenCut(o, L, old(t.prev), old(t.next), j, t.order, t.depths, t.prev, t.next);
    }
  }

  /**
   * `RemoveChildren`: the child items, as `Children` lists them; the node is
   * joined to whatever followed its last descendant, every descendant leaves
   * the list, and the child items lose their `Node`.
   */
  method RemoveChildren(t: Tree, n: nat, ghost j: nat) returns (removed: seq<nat>)
    requires Listed(t, n, j) && t.Owned()
    modifies t
    ensures Listed(t, n, j) && t.Owned()
    ensures t.text == old(t.text) && t.owner == old(t.owner) && t.indent == old(t.indent)
    ensures old(Within(Kids(t.order, t.depths, j), |t.owner|))
    ensures removed == old(Owners(t.owner, Kids(t.order, t.depths, j)))
    ensures Within(removed, |old(t.nodeOf)|) && t.nodeOf == Deleted(old(t.nodeOf), removed)
    ensures ChildrenCut(old(t.order), old(t.depths), old(t.prev), old(t.next), j, t.order, t.depths, t.prev, t.next)
    ensures Kids(t.order, t.depths, j) == []
  {
    ghost var o, L, nodeOf0 := t.order, t.depths, t.nodeOf;
    removed := Children(t, n, j);
    ChildrenReleased(nodeOf0, t.owner, o, L, j);
    KidsAfterDescendantsCut(o, L, j);
    DetachDescendants(t, n, j);
    ghost var prev1, next1 := t.prev, t.next;
    assert Wellformed(t.text, nodeOf0, t.owner, prev1, next1, t.indent, t.order);
    DeleteNodes(t, removed);
    ItemsDeleted(t.text, nodeOf0, t.owner, prev1, next1, t.indent, t.order, removed);
  }

  /** The node `m` belongs to the item the argument `arg` names: that very item, or one holding its value. */
  ghost predicate AddedFor(text: seq<string>, owner: seq<nat>, m: nat, arg: ItemArg)
  {
    m < |owner| &&
    match arg
    case Object(item) => owner[m] == item
    case Value(data) => owner[m] < |text| && text[owner[m]] == data
  }

  /** Each argument has its node, numbered in turn from `N0`. */
  ghost predicate AllAdded(text: seq<string>, owner: seq<nat>, N0: nat, args: seq<ItemArg>)
  {
    forall i :: 0 <= i < |args| ==> AddedFor(text, owner, N0 + i, args[i])
  }

  /**
   * After the first `k` arguments have been added below a node whose
   * children were `K0`: the item and node arrays have grown at their ends,
   * one node per argument, and those nodes follow `K0` as children.
   */
  ghost predicate Progress(text0: seq<string>, owner0: seq<nat>, K0: seq<nat>, args: seq<ItemArg>, k: nat,
                           text: seq<string>, owner: seq<nat>, K: seq<nat>)
  {
    k <= |args| && text0 <= text && owner0 <= owner && |owner| == |owner0| + k &&
    AllAdded(text, owner, |owner0|, args[..k]) && K == K0 + Span(|owner0|, |owner0| + k)
  }

  /** A prefix of a prefix is a prefix. */
  lemma {:induction false} PrefixGrows<T>(a: seq<T>, b: seq<T>, c: seq<T>)
    requires a <= b && b <= c
    ensures a <= c
  {
    assert c[..|a|] == b[..|a|];
  }

  /** Adding the node for argument `k` as the last child extends the progress by one. */
  lemma {:induction false} ProgressStep(text0: seq<string>, owner0: seq<nat>, K0: seq<nat>, args: seq<ItemArg>, k: nat,
                                        text: seq<string>, owner: seq<nat>, K: seq<nat>,
                                        text': seq<string>, owner': seq<nat>, K': seq<nat>)
    requires Progress(text0, owner0, K0, args, k, text, owner, K) && k < |args|
    requires text <= text' && owner <= owner' && |owner'| == |owner| + 1
    requires AddedFor(text', owner', |owner|, args[k]) && K' == K + [|owner|]
    ensures Progress(text0, owner0, K0, args, k + 1, text', owner', K')
  {
    var N0 := |owner0|;
    PrefixGrows(text0, text, text');
    PrefixGrows(owner0, owner, owner');
    forall i | 0 <= i < k + 1
      ensures AddedFor(text', owner', N0 + i, args[i])
    {
      if i < k {
        assert AddedFor(text, owner, N0 + i, args[..k][i]);
        assert owner'[N0 + i] == owner[N0 + i];
      }
    }
    assert Span(N0, N0 + k) + [N0 + k] == Span(N0, N0 + k + 1);
  }

  /**
   * `AddChild(Item)` with no child index (`ChildIndex` -1): the argument's
   * item gets a fresh node, which is spliced in at the end of the subtree of
   * the node `n` at position `j`, one level below it, so it becomes `n`'s
   * last child. Nodes outside the list are left as they were.
   */
  method AppendChild(t: Tree, n: nat, ghost j: nat, arg: ItemArg) returns (x: nat)
    requires t.Valid() && j < |t.order| && t.order[j] == n
    requires arg.Object? ==> arg.item < |t.text|
    modifies t
    ensures t.Valid() && j < |t.order| && t.order[j] == n
    ensures x == (if arg.Object? then arg.item else old(|t.text|))
    ensures old(t.text) <= t.text && t.owner == old(t.owner) + [x]
    ensures AddedFor(t.text, t.owner, old(|t.owner|), arg)
    ensures t.nodeOf == (if arg.Object? then old(t.nodeOf) else old(t.nodeOf) + [None])[x := Some(old(|t.owner|))]
    ensures var e := old(SubtreeEnd(t.depths, j));
            t.order == Insert(old(t.order), e, old(|t.owner|)) && t.depths == Insert(old(t.depths), e, old(t.depths[j]) + 1)
    ensures Kids(t.order, t.depths, j) == old(Kids(t.order, t.depths, j)) + [old(|t.owner|)]
    ensures KeptOutside(old(t.prev), old(t.next), old(t.indent), t.prev, t.next, t.indent, old(t.order), old(|t.owner|))
    ensures old(t.Owned()) && arg.Value? ==> t.Owned()
  {
    ghost var o0, L0 := t.order, t.depths;
    x := t.AddChild(n, j, arg, -1);
    LastChildAdded(o0, L0, j, old(|t.owner|), t.order, t.depths);
  }

  /** Adding a child with no index puts it at the end of the parent's subtree, after the old children. */
  lemma {:induction false} LastChildAdded(o: seq<nat>, L: seq<nat>, j: nat, n: nat, o': seq<nat>, L': seq<nat>)
    requires |o| == |L| && j < |L| && ChildAdded(o, L, j, -1, n, o', L')
    ensures var e := SubtreeEnd(L, j); o' == Insert(o, e, n) && L' == Insert(L, e, L[j] + 1)
    ensures j < |o'| && o'[j] == o[j]
    ensures |o'| == |L'| && Kids(o', L', j) == Kids(o, L, j) + [n]
  {
    SlotMeaning(o, L, j + 1, L[j], -1);
    assert Slot(L, j + 1, L[j], -1) == SubtreeEnd(L, j);
  }

  /** `k` copies of the level `v`. */
  function Repeat(v: nat, k: nat): (r: seq<nat>)
    ensures |r| == k && forall i :: 0 <= i < k ==> r[i] == v
  {
    seq(k, _ => v)
  }

  /** Argument `i` is the last to name its item: a plain value always is, an object when no later argument is the same object. */
  ghost predicate LastNaming(args: seq<ItemArg>, i: nat)
    requires i < |args|
  {
    args[i].Value? || forall i' :: i < i' < |args| ==> args[i'] != args[i]
  }

  /** No argument is the object `x`. */
  ghost predicate Unnamed(args: seq<ItemArg>, x: nat)
  {
    forall i :: 0 <= i < |args| ==> args[i] != Object(x)
  }

  /**
   * The `Node` of every item after adding the nodes numbered from `N0` for
   * `args`, given the `Node`s `nodeOf0` of the `T0` items before: an item no
   * argument names keeps its `Node`; the item of the last argument naming it
   * has that argument's node; a plain value's item is new.
   */
  ghost predicate NodesInstalled(nodeOf0: seq<Option<nat>>, T0: nat, N0: nat, args: seq<ItemArg>,
                                 nodeOf: seq<Option<nat>>, owner: seq<nat>)
  {
    |nodeOf0| == T0 <= |nodeOf| && N0 + |args| <= |owner| &&
    (forall x {:trigger Unnamed(args, x)} :: 0 <= x < T0 && Unnamed(args, x) ==> nodeOf[x] == nodeOf0[x]) &&
    (forall i :: 0 <= i < |args| ==> if args[i].Object? then owner[N0 + i] == args[i].item else T0 <= owner[N0 + i]) &&
    (forall i :: 0 <= i < |args| && LastNaming(args, i) ==> owner[N0 + i] < |nodeOf| && nodeOf[owner[N0 + i]] == Some(N0 + i))
  }

  /**
   * The list and levels after the nodes numbered `N0` up to `N0 + k` were
   * appended as last children at the end `e` of the subtree of position `j`,
   * at level `d + 1`: spliced in together, in order, at `e`.
   */
  ghost predicate Appended(o0: seq<nat>, L0: seq<nat>, j: nat, e: nat, d: nat, N0: nat, k: nat, o: seq<nat>, L: seq<nat>)
  {
    j < e <= |o0| == |L0| && o == o0[..e] + Span(N0, N0 + k) + o0[e..] && L == L0[..e] + Repeat(d + 1, k) + L0[e..]
  }

  /** Splicing one more node in at the end of the appended run extends it. */
  lemma {:induction false} AppendedStep(o0: seq<nat>, L0: seq<nat>, j: nat, e: nat, d: nat, N0: nat, k: nat,
                                        o: seq<nat>, L: seq<nat>)
    requires Appended(o0, L0, j, e, d, N0, k, o, L)
    ensures e + k <= |o| && e + k <= |L|
    ensures Appended(o0, L0, j, e, d, N0, k + 1, Insert(o, e + k, N0 + k), Insert(L, e + k, d + 1))
  {
    assert Span(N0, N0 + k) + [N0 + k] == Span(N0, N0 + k + 1);
    assert Repeat(d + 1, k) + [d + 1] == Repeat(d + 1, k + 1);
    assert o[..e + k] == o0[..e] + Span(N0, N0 + k) && o[e + k..] == o0[e..];
    assert L[..e + k] == L0[..e] + Repeat(d + 1, k) && L[e + k..] == L0[e..];
  }

  /** The list after appending holds the old nodes and the new ones, numbered from `N0`. */
  lemma {:induction false} AppendedNodes(o0: seq<nat>, L0: seq<nat>, j: nat, e: nat, d: nat, N0: nat, k: nat,
                                         o: seq<nat>, L: seq<nat>)
    requires Appended(o0, L0, j, e, d, N0, k, o, L)
    ensures forall i :: 0 <= i < |o| ==> o[i] in o0 || o[i] >= N0
  {
    forall i | 0 <= i < |o|
      ensures o[i] in o0 || o[i] >= N0
    {
      if i < e {
        assert o[i] == o0[i];
      } else if i < e + k {
        assert o[i] == N0 + (i - e);
      } else {
        assert o[i] == o0[i - k];
      }
    }
  }

  /** `AddChild` with no index on position `j` appends one more node to the run. */
  lemma {:induction false} AppendedGrows(o0: seq<nat>, L0: seq<nat>, j: nat, e: nat, d: nat, N0: nat, k: nat,
                                         o1: seq<nat>, L1: seq<nat>, M: nat, o: seq<nat>, L: seq<nat>)
    requires Appended(o0, L0, j, e, d, N0, k, o1, L1) && e == SubtreeEnd(L0, j) && d == L0[j] && M == N0 + k
    requires j < |L1| && o == Insert(o1, SubtreeEnd(L1, j), M) && L == Insert(L1, SubtreeEnd(L1, j), L1[j] + 1)
    ensures Appended(o0, L0, j, e, d, N0, k + 1, o, L)
  {
    AppendedBounds(o0, L0, j, e, d, N0, k, o1, L1);
    AppendedStep(o0, L0, j, e, d, N0, k, o1, L1);
  }

  /** While the run is appended, position `j` keeps its node and level, and its subtree ends after the run. */
  lemma {:induction false} AppendedBounds(o0: seq<nat>, L0: seq<nat>, j: nat, e: nat, d: nat, N0: nat, k: nat,
                                          o: seq<nat>, L: seq<nat>)
    requires Appended(o0, L0, j, e, d, N0, k, o, L) && e == SubtreeEnd(L0, j) && d == L0[j]
    ensures j < |o| == |L| && o[j] == o0[j] && L[j] == d && SubtreeEnd(L, j) == e + k
  {
    var m := e + k;
    forall i | j < i < m
      ensures L[i] > L[j]
    {
      if i >= e {
        assert L[i] == d + 1;
      } else {
        assert L[i] == L0[i];
      }
    }
    if m < |L| {
      assert L[m] == L0[e];
    }
    SubtreeEndIs(L, j, m);
  }

  /** The end of a deeper run after `j` that stops at a position no deeper than `j`, or at the end, is `j`'s subtree end. */
  lemma {:induction false} SubtreeEndIs(L: seq<nat>, j: nat, m: nat)
    requires j < m <= |L|
    requires forall i :: j < i < m ==> L[i] > L[j]
    requires m < |L| ==> L[m] <= L[j]
    ensures SubtreeEnd(L, j) == m
  {
  }

  /** Installing the node for one more argument extends what is known of the items' `Node`s. */
  lemma {:induction false} InstalledStep(nodeOf0: seq<Option<nat>>, T0: nat, N0: nat, args: seq<ItemArg>, k: nat,
                                         nodeOf: seq<Option<nat>>, owner: seq<nat>, T: nat, x: nat,
                                         nodeOf': seq<Option<nat>>, owner': seq<nat>)
    requires k < |args| && NodesInstalled(nodeOf0, T0, N0, args[..k], nodeOf, owner)
    requires forall i :: 0 <= i < |args| && args[i].Object? ==> args[i].item < T0
    requires |owner| == N0 + k && |nodeOf| == T && forall m :: 0 <= m < |owner| ==> owner[m] < T
    requires x == (if args[k].Object? then args[k].item else T)
    requires nodeOf' == (if args[k].Object? then nodeOf else nodeOf + [None])[x := Some(|owner|)]
    requires owner' == owner + [x]
    ensures NodesInstalled(nodeOf0, T0, N0, args[..k + 1], nodeOf', owner')
  {
    var a, a' := args[..k], args[..k + 1];
    forall y | 0 <= y < T0 && Unnamed(a', y)
      ensures nodeOf'[y] == nodeOf0[y]
    {
      assert a'[k] != Object(y);
      assert Unnamed(a, y) by {
        forall i | 0 <= i < k ensures a[i] != Object(y) {
          assert a'[i] != Object(y);
        }
      }
    }
    forall i | 0 <= i < k + 1
      ensures if a'[i].Object? then owner'[N0 + i] == a'[i].item else T0 <= owner'[N0 + i]
    {
      if i < k {
        assert a[i] == a'[i];
      }
    }
    forall i | 0 <= i < k + 1 && LastNaming(a', i)
      ensures owner'[N0 + i] < |nodeOf'| && nodeOf'[owner'[N0 + i]] == Some(N0 + i)
    {
      if i < k {
        assert a[i] == a'[i];
        assert LastNaming(a, i);
        var y := owner[N0 + i];
        assert owner'[N0 + i] == y;
        if a'[i].Object? {
          assert a'[k] != a'[i];
        } else {
          assert T0 <= y;
        }
        assert y != x;
      }
    }
  }

  /**
   * `AddChildren`: `AddChild` on each argument in turn, with no child index,
   * so each new node becomes the last child; the arguments are returned. The
   * new nodes are spliced in together, in argument order, at the end of the
   * parent's subtree, and each item named by an argument ends with the node
   * of the last argument naming it.
   */
  method AddChildren(t: Tree, n: nat, ghost j: nat, childItems: seq<ItemArg>) returns (result: seq<ItemArg>)
    requires t.Valid() && j < |t.order| && t.order[j] == n
    requires forall i :: 0 <= i < |childItems| && childItems[i].Object? ==> childItems[i].item < |t.text|
    modifies t
    ensures result == childItems
    ensures t.Valid() && j < |t.order| && t.order[j] == n
    ensures old(t.text) <= t.text && old(t.owner) <= t.owner && |t.owner| == old(|t.owner|) + |childItems|
    ensures AllAdded(t.text, t.owner, old(|t.owner|), childItems)
    ensures NodesInstalled(old(t.nodeOf), old(|t.text|), old(|t.owner|), childItems, t.nodeOf, t.owner)
    ensures Appended(old(t.order), old(t.depths), j, old(SubtreeEnd(t.depths, j)), old(t.depths[j]),
                     old(|t.owner|), |childItems|, t.order, t.depths)
    ensures Kids(t.order, t.depths, j) == old(Kids(t.order, t.depths, j)) + Span(old(|t.owner|), |t.owner|)
    ensures KeptOutside(old(t.prev), old(t.next), old(t.indent), t.prev, t.next, t.indent, old(t.order), old(|t.owner|))
    ensures old(t.Owned()) && (forall i :: 0 <= i < |childItems| ==> childItems[i].Value?) ==> t.Owned()
  {
    ghost var text0, owner0, nodeOf0 := t.text, t.owner, t.nodeOf;
    ghost var o0, L0, prev0, next0, indent0 := t.order, t.depths, t.prev, t.next, t.indent;
    ghost var K0 := Kids(t.order, t.depths, j);
    ghost var e, d := SubtreeEnd(t.depths, j), t.depths[j];
    ghost var keepsOwned := t.Owned() && forall i :: 0 <= i < |childItems| ==> childItems[i].Value?;
    AppendStart(text0, owner0, nodeOf0, K0, childItems, o0, L0, j);
    KeptSelf(prev0, next0, indent0, o0, |owner0|);
    AppendAll(t, n, j, childItems, text0, owner0, nodeOf0, K0, o0, L0, prev0, next0, indent0, e, d, keepsOwned);
    AddedAll(text0, owner0, nodeOf0, K0, o0, L0, prev0, next0, indent0, j, e, d, childItems,
             t.text, t.owner, t.nodeOf, t.order, t.depths, t.prev, t.next, t.indent);
    result := childItems;
  }

  /** Before `AddChildren`'s loop, nothing has been added yet. */
  lemma {:induction false} AppendStart(text0: seq<string>, owner0: seq<nat>, nodeOf0: seq<Option<nat>>, K0: seq<nat>,
                                       args: seq<ItemArg>, o0: seq<nat>, L0: seq<nat>, j: nat)
    requires |nodeOf0| == |text0| && j < |o0| == |L0|
    ensures Progress(text0, owner0, K0, args, 0, text0, owner0, K0)
    ensures Appended(o0, L0, j, SubtreeEnd(L0, j), L0[j], |owner0|, 0, o0, L0)
    ensures NodesInstalled(nodeOf0, |text0|, |owner0|, args[..0], nodeOf0, owner0)
  {
    var e := SubtreeEnd(L0, j);
    assert o0[..e] + Span(|owner0|, |owner0|) + o0[e..] == o0;
    assert L0[..e] + Repeat(L0[j] + 1, 0) + L0[e..] == L0;
  }

  /** Every node keeps its links and indent when nothing changes. */
  lemma {:induction false} KeptSelf(prev: seq<Option<nat>>, next: seq<Option<nat>>, indent: seq<nat>, o: seq<nat>, n: nat)
    requires |prev| == |next| == |indent|
    ensures KeptOutside(prev, next, indent, prev, next, indent, o, n)
  {
    forall m | 0 <= m < |prev| && Outside(o, n, m)
      ensures SameAt(prev, next, indent, prev, next, indent, m)
    {
    }
  }

  /**
   * Fields kept outside `o0` up to one state, then outside its extension
   * `o1` (other than the new node `n1`) up to the next, are kept outside
   * `o0` throughout, for the nodes there were at first.
   */
  lemma {:induction false} KeptThrough(prev0: seq<Option<nat>>, next0: seq<Option<nat>>, indent0: seq<nat>,
                                       prev1: seq<Option<nat>>, next1: seq<Option<nat>>, indent1: seq<nat>,
                                       prev2: seq<Option<nat>>, next2: seq<Option<nat>>, indent2: seq<nat>,
                                       o0: seq<nat>, o1: seq<nat>, N0: nat, n1: nat)
    requires KeptOutside(prev0, next0, indent0, prev1, next1, indent1, o0, N0)
    requires KeptOutside(prev1, next1, indent1, prev2, next2, indent2, o1, n1)
    requires N0 == |prev0| <= n1 && forall i :: 0 <= i < |o1| ==> o1[i] in o0 || o1[i] >= N0
    ensures KeptOutside(prev0, next0, indent0, prev2, next2, indent2, o0, N0)
  {
    forall m | 0 <= m < |prev0| && Outside(o0, N0, m)
      ensures SameAt(prev0, next0, indent0, prev2, next2, indent2, m)
    {
      assert SameAt(prev0, next0, indent0, prev1, next1, indent1, m);
      assert Outside(o1, n1, m);
      assert SameAt(prev1, next1, indent1, prev2, next2, indent2, m);
    }
  }

  /**
   * What is known after `AddChildren` has added its first `k` arguments to
   * the state whose items, nodes, list, levels and links were `text0`,
   * `owner0`, `nodeOf0`, `o0`, `L0`, `prev0`, `next0` and `indent0`.
   */
  ghost predicate AddedSoFar(text0: seq<string>, owner0: seq<nat>, nodeOf0: seq<Option<nat>>, K0: seq<nat>,
                             o0: seq<nat>, L0: seq<nat>,
                             prev0: seq<Option<nat>>, next0: seq<Option<nat>>, indent0: seq<nat>,
                             j: nat, e: nat, d: nat, args: seq<ItemArg>, k: nat,
                             text: seq<string>, owner: seq<nat>, nodeOf: seq<Option<nat>>, o: seq<nat>, L: seq<nat>,
                             prev: seq<Option<nat>>, next: seq<Option<nat>>, indent: seq<nat>)
  {
    k <= |args| && |o| == |L| && j < |L| &&
    Progress(text0, owner0, K0, args, k, text, owner, Kids(o, L, j)) &&
    Appended(o0, L0, j, e, d, |owner0|, k, o, L) &&
    NodesInstalled(nodeOf0, |text0|, |owner0|, args[..k], nodeOf, owner) &&
    KeptOutside(prev0, next0, indent0, prev, next, indent, o0, |owner0|)
  }

  /** Once every argument has been added, all of them have. */
  lemma {:induction false} AddedAll(text0: seq<string>, owner0: seq<nat>, nodeOf0: seq<Option<nat>>, K0: seq<nat>,
                                    o0: seq<nat>, L0: seq<nat>,
                                    prev0: seq<Option<nat>>, next0: seq<Option<nat>>, indent0: seq<nat>,
                                    j: nat, e: nat, d: nat, args: seq<ItemArg>,
                                    text: seq<string>, owner: seq<nat>, nodeOf: seq<Option<nat>>, o: seq<nat>, L: seq<nat>,
                                    prev: seq<Option<nat>>, next: seq<Option<nat>>, indent: seq<nat>)
    requires AddedSoFar(text0, owner0, nodeOf0, K0, o0, L0, prev0, next0, indent0, j, e, d, args, |args|,
                        text, owner, nodeOf, o, L, prev, next, indent)
    ensures text0 <= text && owner0 <= owner && |owner| == |owner0| + |args|
    ensures AllAdded(text, owner, |owner0|, args)
    ensures NodesInstalled(nodeOf0, |text0|, |owner0|, args, nodeOf, owner)
    ensures Appended(o0, L0, j, e, d, |owner0|, |args|, o, L)
    ensures |o| == |L| && j < |L| && Kids(o, L, j) == K0 + Span(|owner0|, |owner|)
    ensures KeptOutside(prev0, next0, indent0, prev, next, indent, o0, |owner0|)
  {
    assert args[..|args|] == args;
  }

  /** `AddChildren`'s loop: `AddChild` with no index on each argument in turn. */
  method AppendAll(t: Tree, n: nat, ghost j: nat, childItems: seq<ItemArg>,
                   ghost text0: seq<string>, ghost owner0: seq<nat>, ghost nodeOf0: seq<Option<nat>>, ghost K0: seq<nat>,
                   ghost o0: seq<nat>, ghost L0: seq<nat>,
                   ghost prev0: seq<Option<nat>>, ghost next0: seq<Option<nat>>, ghost indent0: seq<nat>,
                   ghost e: nat, ghost d: nat, ghost keepsOwned: bool)
    requires j < |L0| && e == SubtreeEnd(L0, j) && d == L0[j] && |prev0| == |owner0|
    requires forall i :: 0 <= i < |childItems| && childItems[i].Object? ==> childItems[i].item < |text0|
    requires keepsOwned ==> forall i :: 0 <= i < |childItems| ==> childItems[i].Value?
    requires t.Valid() && j < |t.order| && t.order[j] == n
    requires AddedSoFar(text0, owner0, nodeOf0, K0, o0, L0, prev0, next0, indent0, j, e, d, childItems, 0,
                        t.text, t.owner, t.nodeOf, t.order, t.depths, t.prev, t.next, t.indent)
    requires keepsOwned ==> t.Owned()
    modifies t
    ensures t.Valid() && j < |t.order| && t.order[j] == n
    ensures AddedSoFar(text0, owner0, nodeOf0, K0, o0, L0, prev0, next0, indent0, j, e, d, childItems, |childItems|,
                       t.text, t.owner, t.nodeOf, t.order, t.depths, t.prev, t.next, t.indent)
    ensures keepsOwned ==> t.Owned()
  {
    var k := 0;
    while k < |childItems|
      invariant k <= |childItems|
      invariant t.Valid() && j < |t.order| && t.order[j] == n
      invariant AddedSoFar(text0, owner0, nodeOf0, K0, o0, L0, prev0, next0, indent0, j, e, d, childItems, k,
                           t.text, t.owner, t.nodeOf, t.order, t.depths, t.prev, t.next, t.indent)
      invariant keepsOwned ==> t.Owned()
    {
      AppendNext(t, n, j, childItems, k, text0, owner0, nodeOf0, K0, o0, L0, prev0, next0, indent0, e, d, keepsOwned);
      k := k + 1;
    }
  }

  /** One turn of `AddChildren`'s loop: `AddChild` with no index on argument `k`, which extends everything known after `k` arguments to `k + 1`. */
  method AppendNext(t: Tree, n: nat, ghost j: nat, childItems: seq<ItemArg>, k: nat,
                    ghost text0: seq<string>, ghost owner0: seq<nat>, ghost nodeOf0: seq<Option<nat>>, ghost K0: seq<nat>,
                    ghost o0: seq<nat>, ghost L0: seq<nat>,
                    ghost prev0: seq<Option<nat>>, ghost next0: seq<Option<nat>>, ghost indent0: seq<nat>,
                    ghost e: nat, ghost d: nat, ghost keepsOwned: bool)
    requires k < |childItems| && j < |L0| && e == SubtreeEnd(L0, j) && d == L0[j] && |prev0| == |owner0|
    requires forall i :: 0 <= i < |childItems| && childItems[i].Object? ==> childItems[i].item < |text0|
    requires keepsOwned ==> forall i :: 0 <= i < |childItems| ==> childItems[i].Value?
    requires t.Valid() && j < |t.order| && t.order[j] == n
    requires AddedSoFar(text0, owner0, nodeOf0, K0, o0, L0, prev0, next0, indent0, j, e, d, childItems, k,
                        t.text, t.owner, t.nodeOf, t.order, t.depths, t.prev, t.next, t.indent)
    requires keepsOwned ==> t.Owned()
    modifies t
    ensures t.Valid() && j < |t.order| && t.order[j] == n
    ensures AddedSoFar(text0, owner0, nodeOf0, K0, o0, L0, prev0, next0, indent0, j, e, d, childItems, k + 1,
                       t.text, t.owner, t.nodeOf, t.order, t.depths, t.prev, t.next, t.indent)
    ensures keepsOwned ==> t.Owned()
  {
    var N0 := |owner0|;
    ghost var text1, owner1, nodeOf1, K1 := t.text, t.owner, t.nodeOf, Kids(t.order, t.depths, j);
    ghost var o1, L1, prev1, next1, indent1 := t.order, t.depths, t.prev, t.next, t.indent;
    assert |owner1| == N0 + k && j < |L1|;
    assert forall m :: 0 <= m < |owner1| ==> owner1[m] < |text1|;
    var x := AppendChild(t, n, j, childItems[k]);
    ProgressStep(text0, owner0, K0, childItems, k, text1, owner1, K1, t.text, t.owner, Kids(t.order, t.depths, j));
    assert t.order == Insert(o1, SubtreeEnd(L1, j), |owner1|);
    assert t.depths == Insert(L1, SubtreeEnd(L1, j), L1[j] + 1);
    AppendedGrows(o0, L0, j, e, d, N0, k, o1, L1, |owner1|, t.order, t.depths);
    InstalledStep(nodeOf0, |text0|, N0, childItems, k, nodeOf1, owner1, |text1|, x, t.nodeOf, t.owner);
    AppendedNodes(o0, L0, j, e, d, N0, k, o1, L1);
    KeptThrough(prev0, next0, indent0, prev1, next1, indent1, t.prev, t.next, t.indent, o0, o1, N0, |owner1|);
  }
}
