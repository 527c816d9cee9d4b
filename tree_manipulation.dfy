/**
 * The stand-alone list primitives of `tree-manipulation`: `Link` splices one
 * node in between two neighbours, `Unlink` takes one out and rejoins its
 * neighbours, and the older `AddChild` finds a child's slot by the same walk
 * as the live one and links the node there. They act on the `_hn*` link and
 * indent fields of a node, modelled here as the node slots of the arena.
 */
module Manipulation {
  import opened Wrappers
  import opened TreeTypes
  import opened PreOrder
  import opened Chains
  import opened Splice
  import opened LibTree

  /**
   * `Link`: refuses a node that already has a link; otherwise sets the
   * node's links to `p` and `q` and points `p` forwards and `q` backwards at
   * it. Nothing else changes.
   */
  method Link(t: Tree, n: nat, p: Option<nat>, q: Option<nat>) returns (r: Result<nat, Error>)
    requires n < |t.prev| == |t.next| && (p.Some? ==> p.value < |t.next|) && (q.Some? ==> q.value < |t.prev|)
    modifies t
    ensures r == (if old(t.prev[n]).Some? || old(t.next[n]).Some? then Failure(AlreadyLinked) else Success(n))
    ensures r.Failure? ==> t.prev == old(t.prev) && t.next == old(t.next)
    ensures r.Success? ==> t.prev == LinkedPrev(old(t.prev), n, p, q) && t.next == LinkedNext(old(t.next), n, p, q)
    ensures t.text == old(t.text) && t.nodeOf == old(t.nodeOf) && t.owner == old(t.owner) && t.indent == old(t.indent)
    ensures t.order == old(t.order) && t.depths == old(t.depths)
  {
    if t.prev[n].Some? || t.next[n].Some? {
      return Failure(AlreadyLinked);
    }
    t.prev := t.prev[n := p];
    t.next := t.next[n := q];
    if p.Some? {
      t.next := t.next[p.value := Some(n)];
    }
    if q.Some? {
      t.prev := t.prev[q.value := Some(n)];
    }
    return Success(n);
  }

  /**
   * `Unlink`: deletes the node's links and its indent, then points its old
   * predecessor forwards at its old successor and that successor back at the
   * predecessor.
   */
  method Unlink(t: Tree, n: nat) returns (r: nat)
    requires InRange(t.prev, t.next) && n < |t.prev| == |t.indent|
    modifies t
    ensures r == n
    ensures t.prev == UnlinkedPrev(old(t.prev), old(t.next), n) && t.next == UnlinkedNext(old(t.prev), old(t.next), n)
    ensures t.indent == old(t.indent)[n := 0]
    ensures t.text == old(t.text) && t.nodeOf == old(t.nodeOf) && t.owner == old(t.owner)
    ensures t.order == old(t.order) && t.depths == old(t.depths)
  {
    var prevNode := t.prev[n];
    var nextNode := t.next[n];
    t.prev := t.prev[n := None];
    t.next := t.next[n := None];
    t.indent := t.indent[n := 0];
    if prevNode.Some? {
      t.next := t.next[prevNode.value := nextNode];
    }
    if nextNode.Some? {
      t.prev := t.prev[nextNode.value := prevNode];
    }
    return n;
  }

  /**
   * Unlinking the node just linked in between the nodes on either side of
   * position `s` gives back the very links and list there were before.
   */
  lemma {:induction false} LinkUnlinkRestores(o: seq<nat>, prev: seq<Option<nat>>, next: seq<Option<nat>>, n: nat, s: nat)
    requires Chain(o, prev, next) && InRange(prev, next) && n < |prev| && n !in o && s <= |o|
    requires prev[n] == None && next[n] == None
    ensures var prev1 := LinkedPrev(prev, n, NodeBefore(o, s), NodeAt(o, s));
            var next1 := LinkedNext(next, n, NodeBefore(o, s), NodeAt(o, s));
            InRange(prev1, next1) && Insert(o, s, n)[s] == n &&
            UnlinkedPrev(prev1, next1, n) == prev && UnlinkedNext(prev1, next1, n) == next &&
            Cut(Insert(o, s, n), s, s + 1) == o
  {
    LinkUnlinkRoundTrip(o, prev, next, n, s);
    assert Cut(Insert(o, s, n), s, s + 1) == o;
  }

  /** A node outside the list can have its links and indent reset without disturbing the arena. */
  lemma {:induction false} ResetKeeps(text: seq<string>, nodeOf: seq<Option<nat>>, owner: seq<nat>,
                                      prev: seq<Option<nat>>, next: seq<Option<nat>>, indent: seq<nat>, o: seq<nat>, n: nat)
    requires Wellformed(text, nodeOf, owner, prev, next, indent, o) && n < |prev| && n !in o
    ensures Wellformed(text, nodeOf, owner, prev[n := None], next[n := None], indent[n := 0], o)
    ensures Levels(o, indent[n := 0]) == Levels(o, indent)
  {
    var prev', next' := prev[n := None], next[n := None];
    forall i | 0 <= i < |o|
      ensures prev'[o[i]] == prev[o[i]] && next'[o[i]] == next[o[i]]
    {
      assert o[i] != n;
    }
    ChainFrame(o, prev, next, prev', next');
    assert Levels(o, indent[n := 0]) == Levels(o, indent);
  }

  /**
   * The three exits of the older `AddChild`: `Link` the node between the
   * nodes on either side of the slot `s`, which cannot fail on a node whose
   * links were just reset, then set its indent one below the parent's.
   */
  method LinkAt(t: Tree, n: nat, prevNode: nat, nextNode: Option<nat>, d: nat, ghost j: nat, ghost s: nat)
    returns (r: nat)
    requires t.Valid() && j < s <= |t.order| && d == t.depths[j]
    requires Deeper(t.depths, j + 1, s, d) && (s < |t.order| ==> t.depths[s] <= d + 1)
    requires n < |t.prev| && n !in t.order && t.prev[n] == None && t.next[n] == None
    requires prevNode == t.order[s - 1] && nextNode == NodeAt(t.order, s)
    modifies t
    ensures r == n && t.Valid()
    ensures t.order == Insert(old(t.order), s, n) && t.depths == Insert(old(t.depths), s, d + 1)
    ensures t.text == old(t.text) && t.nodeOf == old(t.nodeOf) && t.owner == old(t.owner)
    ensures KeptOutside(old(t.prev), old(t.next), old(t.indent), t.prev, t.next, t.indent, old(t.order), n)
  {
    ghost var o, L, prev1, next1, indent1 := t.order, t.depths, t.prev, t.next, t.indent;
    var linked := Link(t, n, Some(prevNode), nextNode);
    assert linked == Success(n);
    Attached(t.text, t.nodeOf, t.owner, prev1, next1, indent1, o, L, n, j, s, Insert(o, s, n), t.prev, t.next, indent1[n := d + 1]);
    t.indent := t.indent[n := d + 1];
    t.order, t.depths := Insert(o, s, n), Insert(L, s, d + 1);
    r := n;
    LinkKeepsOutside(prev1, next1, indent1, o, n, Some(prevNode), nextNode, d + 1);
  }

  /** A node other than `n` that kept its fields through the reset of `n` and then through the linking has kept them throughout. */
  lemma {:induction false} KeptPastReset(prev0: seq<Option<nat>>, next0: seq<Option<nat>>, indent0: seq<nat>,
                                         prev2: seq<Option<nat>>, next2: seq<Option<nat>>, indent2: seq<nat>,
                                         o: seq<nat>, n: nat)
    requires n < |prev0| == |next0| == |indent0|
    requires KeptOutside(prev0[n := None], next0[n := None], indent0[n := 0], prev2, next2, indent2, o, n)
    ensures KeptOutside(prev0, next0, indent0, prev2, next2, indent2, o, n)
  {
    forall m | 0 <= m < |prev0| && Outside(o, n, m)
      ensures SameAt(prev0, next0, indent0, prev2, next2, indent2, m)
    {
      assert SameAt(prev0[n := None], next0[n := None], indent0[n := 0], prev2, next2, indent2, m);
    }
  }

  /**
   * The older `AddChild`: resets the node's links and indent, walks forward
   * from the parent past `childIndex` direct children, stopping early at the
   * end of the parent's subtree or of the list, and links the node there one
   * level below the parent. The walk is the live `AddChild`'s walk
   * (`FindSlot`), so the node goes to the same slot.
   */
  method AddChild(t: Tree, parent: nat, ghost j: nat, n: nat, childIndex: int) returns (r: nat)
    requires t.Valid() && j < |t.order| && t.order[j] == parent
    requires n < |t.prev| && n !in t.order
    modifies t
    ensures r == n && t.Valid()
    ensures ChildAdded(old(t.order), old(t.depths), j, childIndex, n, t.order, t.depths)
    ensures t.text == old(t.text) && t.nodeOf == old(t.nodeOf) && t.owner == old(t.owner)
    ensures KeptOutside(old(t.prev), old(t.next), old(t.indent), t.prev, t.next, t.indent, old(t.order), n)
  {
    ghost var prev0, next0, indent0 := t.prev, t.next, t.indent;
    AddedAtSlot(t.order, t.depths, j, childIndex, n);
    ResetKeeps(t.text, t.nodeOf, t.owner, t.prev, t.next, t.indent, t.order, n);
    t.prev := t.prev[n := None];
    t.next := t.next[n := None];
    t.indent := t.indent[n := 0];
    var prevNode, nextNode, s' := t.FindSlot(parent, j, childIndex);
    r := LinkAt(t, n, prevNode, nextNode, t.indent[parent], j, s');
    KeptPastReset(prev0, next0, indent0, t.prev, t.next, t.indent, old(t.order), n);
  }
}
