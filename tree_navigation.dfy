/**
 * `FindRelative` and its fourteen wrappers: from a node of the list, walk
 * the `PrevNode`/`NextNode` links comparing indents until the asked-for
 * relative is found. Each walk is proved to answer the position `Relative`
 * describes, so the properties proved of `Relative` hold of the walks.
 *
 * Not every wrapper reaches a node: `AsNode` (src/lib-tree.js:162-175)
 * installs `FindFirstDescendentNode` and `FindLastDescendentNode`, spelled
 * with "ent", from module exports spelled with "ant", so both node members
 * are `undefined`; and it installs neither `FindPrevNode` nor
 * `FindNextNode`. These wrappers are modelled as the module functions
 * they are, reachable only through `FindRelative` on a node.
 */
module Navigation {
  import opened Wrappers
  import opened TreeTypes
  import opened PreOrder
  import opened Chains
  import opened LibTree

  /** What a search returns: `null`, an item (a node's `Owner`), or, for `LastNode` on the tail, the node itself. */
  datatype Found = Absent | Item(x: nat) | Node(n: nat)

  /**
   * The answer for the node at position `j`: the owner of the node at the
   * position `Relative` gives, `null` when it gives none, and the node
   * itself when `LastNode` is asked of the tail.
   */
  function Answer(o: seq<nat>, owner: seq<nat>, L: seq<nat>, j: nat, rel: Relationship): Found
    requires |o| == |L| && j < |L|
    requires forall i :: 0 <= i < |o| ==> o[i] < |owner|
  {
    match Relative(L, j, rel)
    case None => Absent
    case Some(p) => if rel == LastNode && p == j then Node(o[j]) else Item(owner[o[p]])
  }

  /** The node `n` sits at position `j` of the list of a consistent arena. */
  ghost predicate Listed(t: Tree, n: nat, j: nat)
    reads t
  {
    t.Valid() && j < |t.order| && t.order[j] == n
  }

  /** `FirstNode`: back along `PrevNode` to the node whose `PrevNode` is `null`. */
  method ScanFirst(t: Tree, n: nat, ghost j: nat) returns (f: Found)
    requires Listed(t, n, j)
    ensures f == Answer(t.order, t.owner, t.depths, j, FirstNode)
  {
    ghost var o := t.order;
    var nodePrev := t.prev[n];
    if nodePrev.None? {
      return Item(t.owner[n]);
    }
    ghost var i: nat := j - 1;
    while true
      invariant i < |o| && nodePrev == Some(o[i])
      decreases i
    {
      var m := nodePrev.value;
      if t.prev[m].None? {
        return Item(t.owner[m]);
      }
      nodePrev := t.prev[m];
      i := i - 1;
    }
  }

  /** `LastNode`: forward along `NextNode` to the node whose `NextNode` is `null`; on the tail, the node itself. */
  method ScanLast(t: Tree, n: nat, ghost j: nat) returns (f: Found)
    requires Listed(t, n, j)
    ensures f == Answer(t.order, t.owner, t.depths, j, LastNode)
  {
    ghost var o := t.order;
    var nodeNext := t.next[n];
    if nodeNext.None? {
      return Node(n);
    }
    ghost var i: nat := j + 1;
    while true
      invariant j < i < |o| && nodeNext == Some(o[i])
      decreases |o| - i
    {
      var m := nodeNext.value;
      if t.next[m].None? {
        return Item(t.owner[m]);
      }
      nodeNext := t.next[m];
      i := i + 1;
    }
  }

  /** `RootNode`: back to the head, keeping the last node met that is strictly shallower than the one kept so far. */
  method ScanRoot(t: Tree, n: nat, ghost j: nat) returns (f: Found)
    requires Listed(t, n, j)
    ensures f == Answer(t.order, t.owner, t.depths, j, RootNode)
  {
    ghost var o, L := t.order, t.depths;
    var nodeRoot := n;
    ghost var r := j;
    var nodePrev := t.prev[n];
    ghost var i: nat := j;
    while nodePrev.Some?
      invariant i <= r <= j && nodePrev == NodeBefore(o, i) && nodeRoot == o[r]
      invariant forall k :: i <= k <= j ==> L[r] <= L[k]
      invariant forall k :: r < k <= j ==> L[r] < L[k]
      decreases i
    {
      var m := nodePrev.value;
      if t.indent[m] < t.indent[nodeRoot] {
        nodeRoot, r := m, i - 1;
      }
      nodePrev := t.prev[m];
      i := i - 1;
    }
    RootUnique(L, j, r);
    return Item(t.owner[nodeRoot]);
  }

  /** `ParentNode`: back to the first node shallower than this one, or `null` at the head. */
  method ScanParent(t: Tree, n: nat, ghost j: nat) returns (f: Found)
    requires Listed(t, n, j)
    ensures f == Answer(t.order, t.owner, t.depths, j, ParentNode)
  {
    ghost var o, L := t.order, t.depths;
    var d := t.indent[n];
    var nodePrev := t.prev[n];
    ghost var i: nat := j;
    while nodePrev.Some?
      invariant i <= j && nodePrev == NodeBefore(o, i)
      invariant forall k :: i <= k < j ==> L[k] >= d
      decreases i
    {
      var m := nodePrev.value;
      if t.indent[m] < d {
        assert GroupStart(L, j) == i - 1;
        return Item(t.owner[m]);
      }
      nodePrev := t.prev[m];
      i := i - 1;
    }
    return Absent;
  }

  /** `PrevSibNode`: back past deeper nodes to one at the same indent; `null` at a shallower one or the head. */
  method ScanPrevSib(t: Tree, n: nat, ghost j: nat) returns (f: Found)
    requires Listed(t, n, j)
    ensures f == Answer(t.order, t.owner, t.depths, j, PrevSibNode)
  {
    ghost var o, L := t.order, t.depths;
    var d := t.indent[n];
    var nodePrev := t.prev[n];
    ghost var i: nat := j;
    while nodePrev.Some?
      invariant i <= j && nodePrev == NodeBefore(o, i)
      invariant forall k :: i <= k < j ==> L[k] > d
      decreases i
    {
      var m := nodePrev.value;
      if t.indent[m] < d {
        assert GroupStart(L, j) == i - 1;
        return Absent;
      }
      if t.indent[m] == d {
        PrevSiblingIsNearestLevel(L, j, i - 1);
        return Item(t.owner[m]);
      }
      nodePrev := t.prev[m];
      i := i - 1;
    }
    return Absent;
  }

  /** `NextSibNode`: forward past deeper nodes to one at the same indent; `null` at a shallower one or the tail. */
  method ScanNextSib(t: Tree, n: nat, ghost j: nat) returns (f: Found)
    requires Listed(t, n, j)
    ensures f == Answer(t.order, t.owner, t.depths, j, NextSibNode)
  {
    ghost var o, L := t.order, t.depths;
    var d := t.indent[n];
    var nodeNext := t.next[n];
    ghost var i: nat := j + 1;
    while nodeNext.Some?
      invariant j < i <= |o| && nodeNext == NodeAt(o, i)
      invariant forall k :: j < k < i ==> L[k] > d
      decreases |o| - i
    {
      var m := nodeNext.value;
      if t.indent[m] < d {
        assert GroupEnd(L, j) == i;
        return Absent;
      }
      if t.indent[m] == d {
        NextSiblingIsNearestLevel(L, j, i);
        return Item(t.owner[m]);
      }
      nodeNext := t.next[m];
      i := i + 1;
    }
    return Absent;
  }

  /** `FirstSibNode`: back to the head or a shallower node, keeping the last node met at the same indent. */
  method ScanFirstSib(t: Tree, n: nat, ghost j: nat) returns (f: Found)
    requires Listed(t, n, j)
    ensures f == Answer(t.order, t.owner, t.depths, j, FirstSibNode)
  {
    ghost var o, L := t.order, t.depths;
    var d := t.indent[n];
    var nodeSib := n;
    ghost var s := j;
    var nodePrev := t.prev[n];
    ghost var i: nat := j;
    while nodePrev.Some?
      invariant i <= s <= j && nodePrev == NodeBefore(o, i) && nodeSib == o[s]
      invariant FirstAt(L, i, j + 1, d) == Some(s)
      invariant forall k :: i <= k <= j ==> L[k] >= d
      decreases i
    {
      var m := nodePrev.value;
      if t.indent[m] < d {
        FirstSibFound(L, j, i, s);
        return Item(t.owner[nodeSib]);
      }
      if t.indent[m] == d {
        nodeSib, s := m, i - 1;
      }
      nodePrev := t.prev[m];
      i := i - 1;
    }
    FirstSibFound(L, j, i, s);
    return Item(t.owner[nodeSib]);
  }

  /** `LastSibNode`: forward to the tail or a shallower node, keeping the last node met at the same indent. */
  method ScanLastSib(t: Tree, n: nat, ghost j: nat) returns (f: Found)
    requires Listed(t, n, j)
    ensures f == Answer(t.order, t.owner, t.depths, j, LastSibNode)
  {
    ghost var o, L := t.order, t.depths;
    var d := t.indent[n];
    var nodeSib := n;
    ghost var s := j;
    var nodeNext := t.next[n];
    ghost var i: nat := j + 1;
    while nodeNext.Some?
      invariant j <= s < i <= |o| && nodeNext == NodeAt(o, i) && nodeSib == o[s]
      invariant LastAt(L, j, i, d) == Some(s)
      invariant forall k :: j <= k < i ==> L[k] >= d
      decreases |o| - i
    {
      var m := nodeNext.value;
      if t.indent[m] < d {
        LastSibFound(L, j, i, s);
        return Item(t.owner[nodeSib]);
      }
      if t.indent[m] == d {
        nodeSib, s := m, i;
      }
      nodeNext := t.next[m];
      i := i + 1;
    }
    LastSibFound(L, j, i, s);
    return Item(t.owner[nodeSib]);
  }

  /** `FirstChildNode`: forward through the deeper run to the first node one level down; `null` if the run ends first. */
  method ScanFirstChild(t: Tree, n: nat, ghost j: nat) returns (f: Found)
    requires Listed(t, n, j)
    ensures f == Answer(t.order, t.owner, t.depths, j, FirstChildNode)
  {
    ghost var o, L := t.order, t.depths;
    var d := t.indent[n];
    var nodeNext := t.next[n];
    ghost var i: nat := j + 1;
    while nodeNext.Some?
      invariant j < i <= |o| && nodeNext == NodeAt(o, i)
      invariant forall k :: j < k < i ==> L[k] > d + 1
      decreases |o| - i
    {
      var m := nodeNext.value;
      if t.indent[m] <= d {
        break;
      }
      if t.indent[m] == d + 1 {
        FirstChildIsFirstInRun(L, j, i);
        return Item(t.owner[m]);
      }
      nodeNext := t.next[m];
      i := i + 1;
    }
    assert SubtreeEnd(L, j) == i;
    return Absent;
  }

  /** `LastChildNode`: forward to the end of the deeper run, keeping the last node met one level down. */
  method ScanLastChild(t: Tree, n: nat, ghost j: nat) returns (f: Found)
    requires Listed(t, n, j)
    ensures f == Answer(t.order, t.owner, t.depths, j, LastChildNode)
  {
    ghost var o, L := t.order, t.depths;
    var d := t.indent[n];
    var nodeChild: Option<nat> := None;
    ghost var c: Option<nat> := None;
    var nodeNext := t.next[n];
    ghost var i: nat := j + 1;
    while nodeNext.Some?
      invariant j < i <= |o| && nodeNext == NodeAt(o, i)
      invariant c == LastAt(L, j + 1, i, d + 1)
      invariant nodeChild == if c.Some? then Some(o[c.value]) else None
      invariant forall k :: j < k < i ==> L[k] > d
      decreases |o| - i
    {
      var m := nodeNext.value;
      if t.indent[m] <= d {
        break;
      }
      if t.indent[m] == d + 1 {
        nodeChild, c := Some(m), Some(i);
      }
      nodeNext := t.next[m];
      i := i + 1;
    }
    LastChildFound(L, j, i, c);
    return if nodeChild.Some? then Item(t.owner[nodeChild.value]) else Absent;
  }

  /** `FirstDescNode`: the next node when it is deeper than this one, else `null`. */
  method ScanFirstDesc(t: Tree, n: nat, ghost j: nat) returns (f: Found)
    requires Listed(t, n, j)
    ensures f == Answer(t.order, t.owner, t.depths, j, FirstDescNode)
  {
    var nodeNext := t.next[n];
    if nodeNext.Some? && t.indent[nodeNext.value] > t.indent[n] {
      return Item(t.owner[nodeNext.value]);
    }
    return Absent;
  }

  /** `LastDescNode`: forward to the end of the deeper run, keeping the last node met in it. */
  method ScanLastDesc(t: Tree, n: nat, ghost j: nat) returns (f: Found)
    requires Listed(t, n, j)
    ensures f == Answer(t.order, t.owner, t.depths, j, LastDescNode)
  {
    ghost var o, L := t.order, t.depths;
    var d := t.indent[n];
    var nodeChild: Option<nat> := None;
    var nodeNext := t.next[n];
    ghost var i: nat := j + 1;
    while nodeNext.Some?
      invariant j < i <= |o| && nodeNext == NodeAt(o, i)
      invariant nodeChild == if i > j + 1 then Some(o[i - 1]) else None
      invariant forall k :: j < k < i ==> L[k] > d
      decreases |o| - i
    {
      var m := nodeNext.value;
      if t.indent[m] <= d {
        break;
      }
      if t.indent[m] > d {
        nodeChild := Some(m);
      }
      nodeNext := t.next[m];
      i := i + 1;
    }
    assert SubtreeEnd(L, j) == i;
    return if nodeChild.Some? then Item(t.owner[nodeChild.value]) else Absent;
  }

  /** `FindPrevNode` (not installed on nodes): the owner of the node before this one, or `null` at the head. */
  method FindPrevNode(t: Tree, n: nat, ghost j: nat) returns (f: Found)
    requires Listed(t, n, j)
    ensures f == Answer(t.order, t.owner, t.depths, j, PrevNode)
  {
    f := if t.prev[n].Some? then Item(t.owner[t.prev[n].value]) else Absent;
  }

  /** `FindNextNode` (not installed on nodes): the owner of the node after this one, or `null` at the tail. */
  method FindNextNode(t: Tree, n: nat, ghost j: nat) returns (f: Found)
    requires Listed(t, n, j)
    ensures f == Answer(t.order, t.owner, t.depths, j, NextNode)
  {
    f := if t.next[n].Some? then Item(t.owner[t.next[n].value]) else Absent;
  }

  /**
   * `FindRelative` on the node at position `j`: throws `Unknown
   * RelationshipType` for an argument that is not one of the fourteen
   * published values, and otherwise answers the relative `Relative`
   * describes.
   */
  method FindRelative(t: Tree, n: nat, ghost j: nat, relationshipType: JsValue) returns (r: Result<Found, Error>)
    requires Listed(t, n, j)
    ensures RelationshipFrom(relationshipType).None? ==> r == Failure(UnknownRelationshipType)
    ensures RelationshipFrom(relationshipType).Some? ==>
      r == Success(Answer(t.order, t.owner, t.depths, j, RelationshipFrom(relationshipType).value))
  {
    var rel := RelationshipFrom(relationshipType);
    if rel.None? {
      return Failure(UnknownRelationshipType);
    }
    var f: Found;
    match rel.value {
      case PrevNode => f := FindPrevNode(t, n, j);
      case NextNode => f := FindNextNode(t, n, j);
      case FirstNode => f := ScanFirst(t, n, j);
      case LastNode => f := ScanLast(t, n, j);
      case RootNode => f := ScanRoot(t, n, j);
      case ParentNode => f := ScanParent(t, n, j);
      case PrevSibNode => f := ScanPrevSib(t, n, j);
      case NextSibNode => f := ScanNextSib(t, n, j);
      case FirstSibNode => f := ScanFirstSib(t, n, j);
      case LastSibNode => f := ScanLastSib(t, n, j);
      case FirstChildNode => f := ScanFirstChild(t, n, j);
      case LastChildNode => f := ScanLastChild(t, n, j);
      case FirstDescNode => f := ScanFirstDesc(t, n, j);
      case LastDescNode => f := ScanLastDesc(t, n, j);
    }
    return Success(f);
  }

  /** `FindFirstNode`: `FindRelative(RelationshipTypes.FirstNode)`, which cannot throw: the first node of the list. */
  method FindFirstNode(t: Tree, n: nat, ghost j: nat) returns (f: Found)
    requires Listed(t, n, j)
    ensures f == Answer(t.order, t.owner, t.depths, j, FirstNode)
  {
    RelationshipArgSelects(FirstNode);
    var r := FindRelative(t, n, j, RelationshipArg(FirstNode));
    f := r.value;
  }

  /** `FindLastNode`: `FindRelative(RelationshipTypes.LastNode)`, which cannot throw: the last node of the list (the node itself on the tail). */
  method FindLastNode(t: Tree, n: nat, ghost j: nat) returns (f: Found)
    requires Listed(t, n, j)
    ensures f == Answer(t.order, t.owner, t.depths, j, LastNode)
  {
    RelationshipArgSelects(LastNode);
    var r := FindRelative(t, n, j, RelationshipArg(LastNode));
    f := r.value;
  }

  /** `FindRootNode`: `FindRelative(RelationshipTypes.RootNode)`, which cannot throw: the root. */
  method FindRootNode(t: Tree, n: nat, ghost j: nat) returns (f: Found)
    requires Listed(t, n, j)
    ensures f == Answer(t.order, t.owner, t.depths, j, RootNode)
  {
    RelationshipArgSelects(RootNode);
    var r := FindRelative(t, n, j, RelationshipArg(RootNode));
    f := r.value;
  }

  /** `FindParentNode`: `FindRelative(RelationshipTypes.ParentNode)`, which cannot throw: the parent. */
  method FindParentNode(t: Tree, n: nat, ghost j: nat) returns (f: Found)
    requires Listed(t, n, j)
    ensures f == Answer(t.order, t.owner, t.depths, j, ParentNode)
  {
    RelationshipArgSelects(ParentNode);
    var r := FindRelative(t, n, j, RelationshipArg(ParentNode));
    f := r.value;
  }

  /** `FindPrevSiblingNode`: `FindRelative(RelationshipTypes.PrevSibNode)`, which cannot throw: the previous sibling. */
  method FindPrevSiblingNode(t: Tree, n: nat, ghost j: nat) returns (f: Found)
    requires Listed(t, n, j)
    ensures f == Answer(t.order, t.owner, t.depths, j, PrevSibNode)
  {
    RelationshipArgSelects(PrevSibNode);
    var r := FindRelative(t, n, j, RelationshipArg(PrevSibNode));
    f := r.value;
  }

  /** `FindNextSiblingNode`: `FindRelative(RelationshipTypes.NextSibNode)`, which cannot throw: the next sibling. */
  method FindNextSiblingNode(t: Tree, n: nat, ghost j: nat) returns (f: Found)
    requires Listed(t, n, j)
    ensures f == Answer(t.order, t.owner, t.depths, j, NextSibNode)
  {
    RelationshipArgSelects(NextSibNode);
    var r := FindRelative(t, n, j, RelationshipArg(NextSibNode));
    f := r.value;
  }

  /** `FindFirstSiblingNode`: `FindRelative(RelationshipTypes.FirstSibNode)`, which cannot throw: the first sibling. */
  method FindFirstSiblingNode(t: Tree, n: nat, ghost j: nat) returns (f: Found)
    requires Listed(t, n, j)
    ensures f == Answer(t.order, t.owner, t.depths, j, FirstSibNode)
  {
    RelationshipArgSelects(FirstSibNode);
    var r := FindRelative(t, n, j, RelationshipArg(FirstSibNode));
    f := r.value;
  }

  /** `FindLastSiblingNode`: `FindRelative(RelationshipTypes.LastSibNode)`, which cannot throw: the last sibling. */
  method FindLastSiblingNode(t: Tree, n: nat, ghost j: nat) returns (f: Found)
    requires Listed(t, n, j)
    ensures f == Answer(t.order, t.owner, t.depths, j, LastSibNode)
  {
    RelationshipArgSelects(LastSibNode);
    var r := FindRelative(t, n, j, RelationshipArg(LastSibNode));
    f := r.value;
  }

  /** `FindFirstChildNode`: `FindRelative(RelationshipTypes.FirstChildNode)`, which cannot throw: the first child. */
  method FindFirstChildNode(t: Tree, n: nat, ghost j: nat) returns (f: Found)
    requires Listed(t, n, j)
    ensures f == Answer(t.order, t.owner, t.depths, j, FirstChildNode)
  {
    RelationshipArgSelects(FirstChildNode);
    var r := FindRelative(t, n, j, RelationshipArg(FirstChildNode));
    f := r.value;
  }

  /** `FindLastChildNode`: `FindRelative(RelationshipTypes.LastChildNode)`, which cannot throw: the last child. */
  method FindLastChildNode(t: Tree, n: nat, ghost j: nat) returns (f: Found)
    requires Listed(t, n, j)
    ensures f == Answer(t.order, t.owner, t.depths, j, LastChildNode)
  {
    RelationshipArgSelects(LastChildNode);
    var r := FindRelative(t, n, j, RelationshipArg(LastChildNode));
    f := r.value;
  }

  /** `FindFirstDescendantNode` (installed on nodes under a misspelled name, as `undefined`): `FindRelative(RelationshipTypes.FirstDescNode)`, which cannot throw: the first descendant. */
  method FindFirstDescendantNode(t: Tree, n: nat, ghost j: nat) returns (f: Found)
    requires Listed(t, n, j)
    ensures f == Answer(t.order, t.owner, t.depths, j, FirstDescNode)
  {
    RelationshipArgSelects(FirstDescNode);
    var r := FindRelative(t, n, j, RelationshipArg(FirstDescNode));
    f := r.value;
  }

  /** `FindLastDescendantNode` (installed on nodes under a misspelled name, as `undefined`): `FindRelative(RelationshipTypes.LastDescNode)`, which cannot throw: the last descendant. */
  method FindLastDescendantNode(t: Tree, n: nat, ghost j: nat) returns (f: Found)
    requires Listed(t, n, j)
    ensures f == Answer(t.order, t.owner, t.depths, j, LastDescNode)
  {
    RelationshipArgSelects(LastDescNode);
    var r := FindRelative(t, n, j, RelationshipArg(LastDescNode));
    f := r.value;
  }

  /** Where the backward walk of `FirstSibNode` stops, the sibling it kept is the first one. */
  lemma {:induction false} FirstSibFound(L: seq<nat>, j: nat, i: nat, s: nat)
    requires i <= s <= j < |L| && FirstAt(L, i, j + 1, L[j]) == Some(s)
    requires forall k :: i <= k <= j ==> L[k] >= L[j]
    requires i > 0 ==> L[i - 1] < L[j]
    ensures Relative(L, j, FirstSibNode) == Some(s)
  {
    assert GroupStart(L, j) == i - 1;
  }

  /** Where the forward walk of `LastSibNode` stops, the sibling it kept is the last one. */
  lemma {:induction false} LastSibFound(L: seq<nat>, j: nat, i: nat, s: nat)
    requires j <= s < i <= |L| && LastAt(L, j, i, L[j]) == Some(s)
    requires forall k :: j <= k < i ==> L[k] >= L[j]
    requires i < |L| ==> L[i] < L[j]
    ensures Relative(L, j, LastSibNode) == Some(s)
  {
    assert GroupEnd(L, j) == i;
  }

  /** Where the forward walk of `LastChildNode` stops, the child it kept, if any, is the last one. */
  lemma {:induction false} LastChildFound(L: seq<nat>, j: nat, i: nat, c: Option<nat>)
    requires j < i <= |L| && c == LastAt(L, j + 1, i, L[j] + 1)
    requires forall k :: j < k < i ==> L[k] > L[j]
    requires i < |L| ==> L[i] <= L[j]
    ensures Relative(L, j, LastChildNode) == c
  {
    assert SubtreeEnd(L, j) == i;
  }

  /** Two positions that are both the nearest shallowest at or before `j` are the same one. */
  lemma {:induction false} RootUnique(L: seq<nat>, j: nat, r: nat)
    requires r <= j < |L|
    requires forall k :: 0 <= k <= j ==> L[r] <= L[k]
    requires forall k :: r < k <= j ==> L[r] < L[k]
    ensures RootAt(L, j) == r
  {
  }
}
