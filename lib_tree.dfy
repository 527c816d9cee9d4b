/**
 * The items and nodes of `lib-tree`, held in one arena. An item is the data
 * object the caller sees; `AsNode` installs a node in it (`Item.Node`), whose
 * fields are its `Owner`, its `PrevNode`/`NextNode` links and its `Indent`.
 * Items and nodes are numbered separately, because `AsNode` gives an item a
 * new node while its old node may still be linked into a list.
 */
module LibTree {
  import opened Wrappers
  import opened TreeTypes
  import opened PreOrder
  import opened Chains
  import opened Splice

  /** An argument that `AsNode`/`AddChild` turn into an item: an existing object, or any other value, to be wrapped as `{ Data: value }`. */
  datatype ItemArg = Object(item: nat) | Value(data: string)

  /** Every item's `Node` is a node it owns, and every node's `Owner` is an item. */
  ghost predicate ItemsOk(text: seq<string>, nodeOf: seq<Option<nat>>, owner: seq<nat>)
  {
    |text| == |nodeOf| &&
    (forall x :: 0 <= x < |nodeOf| && nodeOf[x].Some? ==> nodeOf[x].value < |owner| && owner[nodeOf[x].value] == x) &&
    (forall n :: 0 <= n < |owner| ==> owner[n] < |text|)
  }

  /** The list is headed by a node at indent 0, and its indents have the shape of a pre-order walk. */
  ghost predicate Outline(order: seq<nat>, indent: seq<nat>)
  {
    (forall i :: 0 <= i < |order| ==> order[i] < |indent|) &&
    |order| > 0 && Levels(order, indent)[0] == 0 && Shaped(Levels(order, indent))
  }

  /**
   * The arena is consistent: items and nodes point at each other, every
   * link names a node, and `order` is a list the links spell out, in the
   * shape of a pre-order walk.
   */
  ghost predicate Wellformed(text: seq<string>, nodeOf: seq<Option<nat>>, owner: seq<nat>,
                             prev: seq<Option<nat>>, next: seq<Option<nat>>, indent: seq<nat>, order: seq<nat>)
  {
    ItemsOk(text, nodeOf, owner) &&
    |owner| == |prev| == |next| == |indent| &&
    InRange(prev, next) && Chain(order, prev, next) && Outline(order, indent)
  }

  /** Every listed node is its owner's current `Node`: no item was given a new node while its old one stayed linked. */
  ghost predicate OwnedBy(nodeOf: seq<Option<nat>>, owner: seq<nat>, order: seq<nat>)
    requires forall i :: 0 <= i < |order| ==> order[i] < |owner|
    requires forall n :: 0 <= n < |owner| ==> owner[n] < |nodeOf|
  {
    forall i :: 0 <= i < |order| ==> nodeOf[owner[order[i]]] == Some(order[i])
  }

  /** The owners of a run of nodes, in the same order. */
  function Owners(owner: seq<nat>, nodes: seq<nat>): (r: seq<nat>)
    requires forall i :: 0 <= i < |nodes| ==> nodes[i] < |owner|
    ensures |r| == |nodes|
    ensures forall i :: 0 <= i < |nodes| ==> r[i] == owner[nodes[i]]
  {
    seq(|nodes|, i requires 0 <= i < |nodes| => owner[nodes[i]])
  }

  class Tree {
    /** Per item: the text the caller's text property holds (`Data` for a wrapped value). */
    var text: seq<string>
    /** Per item: its `Node`, or None once deleted or never installed. */
    var nodeOf: seq<Option<nat>>
    /** Per node: `Owner`. */
    var owner: seq<nat>
    /** Per node: `PrevNode`, None for `null`. */
    var prev: seq<Option<nat>>
    /** Per node: `NextNode`, None for `null`. */
    var next: seq<Option<nat>>
    /** Per node: `Indent`. */
    var indent: seq<nat>
    /** The list reached from the root, in pre-order. */
    ghost var order: seq<nat>
    /** The indent at each position of the list. */
    ghost var depths: seq<nat>

    ghost predicate Valid()
      reads this
    {
      Wellformed(text, nodeOf, owner, prev, next, indent, order) && depths == Levels(order, indent)
    }

    ghost predicate Owned()
      reads this
      requires Valid()
    {
      OwnedBy(nodeOf, owner, order)
    }

    /** The item is an object whose `Node` is linked into the list. */
    ghost predicate Listed(x: nat)
      reads this
      requires Valid() && x < |nodeOf|
    {
      nodeOf[x].Some? && nodeOf[x].value in order
    }

    /** A fresh root: `AsNode(value)` on a plain value, as the library's callers start a tree. */
    constructor (data: string)
      ensures Valid() && Owned()
      ensures text == [data] && nodeOf == [Some(0)] && order == [0]
      ensures owner == [0] && prev == [None] && next == [None] && indent == [0] && depths == [0]
    {
      text := [data];
      nodeOf := [Some(0)];
      owner := [0];
      prev := [None];
      next := [None];
      indent := [0];
      order := [0];
      depths := [0];
    }

    /** `IsNode`: false for anything that is not an object, and for an object without a `Node`. */
    function IsNode(arg: ItemArg): (b: bool)
      reads this
      requires arg.Object? ==> arg.item < |nodeOf|
      ensures b <==> arg.Object? && nodeOf[arg.item].Some?
    {
      match arg
      case Value(_) => false
      case Object(x) => nodeOf[x].Some?
    }

    /**
     * `AsNode`: wraps a plain value as a new item, then installs a fresh node
     * in the item, owned by it, unlinked, at indent 0. The list is untouched,
     * but an item whose old node is listed leaves that node stranded there.
     */
    method AsNode(arg: ItemArg) returns (x: nat)
      requires Valid() && (arg.Object? ==> arg.item < |text|)
      modifies this
      ensures Valid()
      ensures x == (if arg.Object? then arg.item else old(|text|))
      ensures text == (if arg.Object? then old(text) else old(text) + [arg.data])
      ensures nodeOf == (if arg.Object? then old(nodeOf) else old(nodeOf) + [None])[x := Some(old(|owner|))]
      ensures owner == old(owner) + [x] && indent == old(indent) + [0]
      ensures prev == old(prev) + [None] && next == old(next) + [None]
      ensures order == old(order) && depths == old(depths) && IsNode(Object(x))
      ensures old(Owned()) ==> (Owned() <==> !(arg.Object? && old(Listed(arg.item))))
    {
      if arg.Value? {
        x := |text|;
        text, nodeOf := text + [arg.data], nodeOf + [None];
      } else {
        x := arg.item;
      }
      var n := |owner|;
      ghost var prev0, next0, indent0 := prev, next, indent;
      ghost var nodeOf0 := nodeOf;
      nodeOf, owner, prev, next, indent := nodeOf[x := Some(n)], owner + [x], prev + [None], next + [None], indent + [0];
      FreshNodeKeepsList(order, prev0, next0, indent0);
      if old(Owned()) {
        FreshNodeOwnership(nodeOf0, old(owner), order, x, n);
      }
    }

    /**
     * `link_node`: refuses a node that already has a link; otherwise sets the
     * node's links to `p` and `q` and points `p` forwards and `q` backwards
     * at it.
     */
    method LinkNode(n: nat, p: Option<nat>, q: Option<nat>) returns (r: Result<nat, Error>)
      requires n < |prev| == |next| && (p.Some? ==> p.value < |next|) && (q.Some? ==> q.value < |prev|)
      modifies this
      ensures r == (if old(prev[n]).Some? || old(next[n]).Some? then Failure(AlreadyLinked) else Success(n))
      ensures r.Failure? ==> prev == old(prev) && next == old(next)
      ensures r.Success? ==> prev == LinkedPrev(old(prev), n, p, q) && next == LinkedNext(old(next), n, p, q)
      ensures text == old(text) && nodeOf == old(nodeOf) && owner == old(owner) && indent == old(indent)
      ensures order == old(order) && depths == old(depths)
    {
      if prev[n].Some? || next[n].Some? {
        return Failure(AlreadyLinked);
      }
      prev := prev[n := p];
      next := next[n := q];
      if p.Some? {
        next := next[p.value := Some(n)];
      }
      if q.Some? {
        prev := prev[q.value := Some(n)];
      }
      return Success(n);
    }

    /**
     * The step `AddChild` ends with, wherever its walk stops: `link_node`
     * between the node before the slot `s` and the node at it, then the new
     * node's indent one below the parent's.
     */
    method LinkChild(n: nat, prevNode: nat, nextNode: Option<nat>, d: nat, ghost j: nat, ghost s: nat, ghost L: seq<nat>)
      requires Valid() && L == depths && j < s <= |order| && d == L[j]
      requires Deeper(L, j + 1, s, d)
      requires s < |order| ==> L[s] <= d + 1
      requires n < |prev| && n !in order && prev[n] == None && next[n] == None
      requires prevNode == order[s - 1] && nextNode == NodeAt(order, s)
      modifies this
      ensures Valid()
      ensures order == Insert(old(order), s, n) && depths == Insert(L, s, d + 1)
      ensures text == old(text) && nodeOf == old(nodeOf) && owner == old(owner)
      ensures KeptOutside(old(prev), old(next), old(indent), prev, next, indent, old(order), n)
    {
      ghost var prev1, next1, indent1 := prev, next, indent;
      var linked := LinkNode(n, Some(prevNode), nextNode);
      indent, order, depths := indent[n := d + 1], Insert(order, s, n), Insert(depths, s, d + 1);
      Attached(text, nodeOf, owner, prev1, next1, indent1, old(order), L, n, j, s, order, prev, next, indent);
      LinkKeepsOutside(prev1, next1, indent1, old(order), n, Some(prevNode), nextNode, d + 1);
    }

    /**
     * `AddChild` on the node at position `j`: makes the argument an item with
     * a fresh node (`AsNode`), walks forward to the slot (before the `k`-th
     * direct child, or at the end of the parent's subtree), links the node
     * there, one level below the parent. The new node becomes the `k`-th
     * child, or the last when `k` is not an index of the children, and the
     * list keeps its shape.
     */
    method AddChild(parent: nat, ghost j: nat, child: ItemArg, k: int) returns (x: nat)
      requires Valid() && j < |order| && order[j] == parent
      requires child.Object? ==> child.item < |text|
      modifies this
      ensures Valid()
      ensures x == (if child.Object? then child.item else old(|text|))
      ensures text == (if child.Object? then old(text) else old(text) + [child.data])
      ensures nodeOf == (if child.Object? then old(nodeOf) else old(nodeOf) + [None])[x := Some(old(|owner|))]
      ensures owner == old(owner) + [x]
      ensures ChildAdded(old(order), old(depths), j, k, old(|owner|), order, depths)
      ensures KeptOutside(old(prev), old(next), old(indent), prev, next, indent, old(order), old(|owner|))
      ensures old(Owned()) ==> (Owned() <==> !(child.Object? && old(Listed(child.item))))
    {
      var n := |owner|;
      ghost var o, L := order, depths;
      ghost var prev0, next0, indent0 := prev, next, indent;
      assert n !in o;
      x := AsNode(child);
      ghost var prev1, next1, indent1 := prev, next, indent;
      PlaceChild(parent, j, n, k, o, L);
      KeptPastFresh(prev0, next0, indent0, prev1, next1, indent1, prev, next, indent, o, n);
      InsertOwnership(nodeOf, owner, o, n, Slot(L, j + 1, L[j], k));
    }

    /**
     * The walk `AddChild` makes from the parent at position `j`: forward past
     * `k` direct children, stopping early at the end of the parent's subtree
     * or of the list. It answers the nodes on either side of the slot where
     * the new child goes, the slot being `Slot`: the position of the `k`-th
     * child, or the end of the subtree when there is no `k`-th child.
     */
    method FindSlot(parent: nat, ghost j: nat, k: int) returns (prevNode: nat, nextNode: Option<nat>, ghost s: nat)
      requires Valid() && j < |order| && order[j] == parent
      ensures s == Slot(depths, j + 1, depths[j], k) && j < s <= |order|
      ensures prevNode == order[s - 1] && nextNode == NodeAt(order, s)
    {
      ghost var L := depths;
      ghost var o := order;
      s := Slot(L, j + 1, L[j], k);
      var d := indent[parent];
      var childIndex := k;
      prevNode := parent;
      nextNode := next[parent];
      ghost var i := j + 1;
      while nextNode.Some?
        invariant j < i <= |o| && prevNode == o[i - 1] && nextNode == NodeAt(o, i)
        invariant Slot(L, i, d, childIndex) == s
        decreases |o| - i
      {
        var m := nextNode.value;
        if indent[m] == d + 1 {
          if childIndex == 0 {
            break;
          }
          childIndex := childIndex - 1;
        } else if indent[m] <= d {
          break;
        }
        prevNode := m;
        nextNode := next[m];
        i := i + 1;
      }
    }

    /**
     * What `AddChild` does once the child has its fresh node `n`: finds the
     * slot, links `n` there one level below the parent, which makes it the
     * `k`-th child (or the last).
     */
    method PlaceChild(parent: nat, ghost j: nat, n: nat, k: int, ghost o: seq<nat>, ghost L: seq<nat>)
      requires Valid() && o == order && L == depths && j < |o| && o[j] == parent
      requires n < |prev| && n !in o && prev[n] == None && next[n] == None
      modifies this
      ensures Valid()
      ensures text == old(text) && nodeOf == old(nodeOf) && owner == old(owner)
      ensures ChildAdded(o, L, j, k, n, order, depths)
      ensures KeptOutside(old(prev), old(next), old(indent), prev, next, indent, o, n)
    {
      var prevNode, nextNode, s := FindSlot(parent, j, k);
      LinkChild(n, prevNode, nextNode, indent[parent], j, s, L);
      AddedAtSlot(o, L, j, k, n);
    }
  }

  /**
   * `o'`/`L'` are the list and its indents after node `n` was added as child
   * `k` of the node at position `j`: inserted at the slot, one level below
   * the parent, and the parent's children are the old ones with `n` put in
   * at index `k` (or appended).
   */
  ghost predicate ChildAdded(o: seq<nat>, L: seq<nat>, j: nat, k: int, n: nat, o': seq<nat>, L': seq<nat>)
    requires |o| == |L| && j < |L|
  {
    var s := Slot(L, j + 1, L[j], k);
    o' == Insert(o, s, n) && L' == Insert(L, s, L[j] + 1) &&
    Kids(o', L', j) == InsertAt(Kids(o, L, j), k, n)
  }

  /** Node `m` is neither in the list `o` nor the node `n`. */
  ghost predicate Outside(o: seq<nat>, n: nat, m: nat)
  {
    m != n && m !in o
  }

  /** Node `m` has the same links and indent in both states. */
  ghost predicate SameAt(prev: seq<Option<nat>>, next: seq<Option<nat>>, indent: seq<nat>,
                         prev': seq<Option<nat>>, next': seq<Option<nat>>, indent': seq<nat>, m: nat)
  {
    m < |prev| && m < |next| && m < |indent| && m < |prev'| && m < |next'| && m < |indent'| &&
    prev'[m] == prev[m] && next'[m] == next[m] && indent'[m] == indent[m]
  }

  /**
   * Every node outside the list `o` other than `n`, among the nodes there
   * were before, keeps its links and its indent: an unlinked node stays
   * unlinked.
   */
  ghost predicate KeptOutside(prev: seq<Option<nat>>, next: seq<Option<nat>>, indent: seq<nat>,
                              prev': seq<Option<nat>>, next': seq<Option<nat>>, indent': seq<nat>, o: seq<nat>, n: nat)
  {
    |prev| == |next| == |indent| && |prev| <= |prev'| && |next| <= |next'| && |indent| <= |indent'| &&
    forall m :: 0 <= m < |prev| && Outside(o, n, m) ==> SameAt(prev, next, indent, prev', next', indent', m)
  }

  /** Linking `n` between `p` and `q`, both listed, and setting its indent leaves every other node outside the list as it was. */
  lemma {:induction false} LinkKeepsOutside(prev: seq<Option<nat>>, next: seq<Option<nat>>, indent: seq<nat>,
                                            o: seq<nat>, n: nat, p: Option<nat>, q: Option<nat>, v: nat)
    requires |prev| == |next| == |indent| && n < |prev|
    requires (p.Some? ==> p.value < |prev| && p.value in o) && (q.Some? ==> q.value < |prev| && q.value in o)
    ensures KeptOutside(prev, next, indent, LinkedPrev(prev, n, p, q), LinkedNext(next, n, p, q), indent[n := v], o, n)
  {
    var prev', next' := LinkedPrev(prev, n, p, q), LinkedNext(next, n, p, q);
    forall m | 0 <= m < |prev| && Outside(o, n, m)
      ensures SameAt(prev, next, indent, prev', next', indent[n := v], m)
    {
    }
  }

  /** A node that kept its fields while a fresh node was appended and then while the list changed has kept them throughout. */
  lemma {:induction false} KeptPastFresh(prev0: seq<Option<nat>>, next0: seq<Option<nat>>, indent0: seq<nat>,
                                         prev1: seq<Option<nat>>, next1: seq<Option<nat>>, indent1: seq<nat>,
                                         prev2: seq<Option<nat>>, next2: seq<Option<nat>>, indent2: seq<nat>,
                                         o: seq<nat>, n: nat)
    requires prev1 == prev0 + [None] && next1 == next0 + [None] && indent1 == indent0 + [0]
    requires KeptOutside(prev1, next1, indent1, prev2, next2, indent2, o, n)
    ensures KeptOutside(prev0, next0, indent0, prev2, next2, indent2, o, n)
  {
    forall m | 0 <= m < |prev0| && Outside(o, n, m)
      ensures SameAt(prev0, next0, indent0, prev2, next2, indent2, m)
    {
      assert SameAt(prev1, next1, indent1, prev2, next2, indent2, m);
    }
  }

  /** Inserting `n` at the slot, one level below position `j`, adds it as child `k`. */
  lemma {:induction false} AddedAtSlot(o: seq<nat>, L: seq<nat>, j: nat, k: int, n: nat)
    requires |o| == |L| && j < |L|
    ensures var s := Slot(L, j + 1, L[j], k);
            ChildAdded(o, L, j, k, n, Insert(o, s, n), Insert(L, s, L[j] + 1))
  {
    KidsAfterInsert(o, L, j, k, n);
  }

  /** A fresh, unlinked node at indent 0 leaves the list as it was. */
  lemma {:induction false} FreshNodeKeepsList(o: seq<nat>, prev: seq<Option<nat>>, next: seq<Option<nat>>, indent: seq<nat>)
    requires InRange(prev, next) && Chain(o, prev, next) && |indent| == |prev|
    ensures |prev + [None]| == |next + [None]|
    ensures InRange(prev + [None], next + [None])
    ensures Chain(o, prev + [None], next + [None])
    ensures Levels(o, indent + [0]) == Levels(o, indent)
  {
    ChainFrame(o, prev, next, prev + [None], next + [None]);
  }

  /** Installing a fresh node in item `x` keeps every listed node owned exactly when `x` owned none of them. */
  lemma {:induction false} FreshNodeOwnership(nodeOf: seq<Option<nat>>, owner: seq<nat>, o: seq<nat>, x: nat, n: nat)
    requires n == |owner| && x < |nodeOf|
    requires forall i :: 0 <= i < |o| ==> o[i] < |owner|
    requires forall m :: 0 <= m < |owner| ==> owner[m] < |nodeOf|
    requires nodeOf[x].Some? ==> nodeOf[x].value < |owner| && owner[nodeOf[x].value] == x
    requires OwnedBy(nodeOf, owner, o)
    ensures OwnedBy(nodeOf[x := Some(n)], owner + [x], o) <==> !(nodeOf[x].Some? && nodeOf[x].value in o)
  {
    var nodeOf', owner' := nodeOf[x := Some(n)], owner + [x];
    if nodeOf[x].Some? && nodeOf[x].value in o {
      var i :| 0 <= i < |o| && o[i] == nodeOf[x].value;
      assert owner'[o[i]] == x;
      assert nodeOf'[owner'[o[i]]] != Some(o[i]);
    } else {
      forall i | 0 <= i < |o|
        ensures nodeOf'[owner'[o[i]]] == Some(o[i])
      {
        assert owner'[o[i]] == owner[o[i]];
      }
    }
  }

  /** Linking `n` between `p` and `q` leaves every link naming a node. */
  lemma {:induction false} LinkedInRange(prev: seq<Option<nat>>, next: seq<Option<nat>>, n: nat, p: Option<nat>, q: Option<nat>)
    requires InRange(prev, next) && n < |prev|
    requires (p.Some? ==> p.value < |prev|) && (q.Some? ==> q.value < |prev|)
    ensures InRange(LinkedPrev(prev, n, p, q), LinkedNext(next, n, p, q))
  {
  }

  /**
   * Linking the fresh node `n` at the slot `s` found from the parent at
   * position `j`, and setting its indent one below the parent's, keeps the
   * arena consistent and the list in shape.
   */
  lemma {:induction false} Attached(text: seq<string>, nodeOf: seq<Option<nat>>, owner: seq<nat>,
                 prev: seq<Option<nat>>, next: seq<Option<nat>>, indent: seq<nat>, o: seq<nat>, L: seq<nat>,
                 n: nat, j: nat, s: nat,
                 o': seq<nat>, prev': seq<Option<nat>>, next': seq<Option<nat>>, indent': seq<nat>)
    requires Wellformed(text, nodeOf, owner, prev, next, indent, o) && L == Levels(o, indent)
    requires n < |prev| && n !in o && prev[n] == None && next[n] == None
    requires j < s <= |o|
    requires Deeper(L, j + 1, s, L[j])
    requires s < |o| ==> L[s] <= L[j] + 1
    requires o' == Insert(o, s, n) && indent' == indent[n := L[j] + 1]
    requires prev' == LinkedPrev(prev, n, NodeBefore(o, s), NodeAt(o, s))
    requires next' == LinkedNext(next, n, NodeBefore(o, s), NodeAt(o, s))
    ensures Wellformed(text, nodeOf, owner, prev', next', indent', o')
    ensures Levels(o', indent') == Insert(L, s, L[j] + 1)
  {
    LinkedInRange(prev, next, n, NodeBefore(o, s), NodeAt(o, s));
    LinkInserts(o, prev, next, n, s);
    OutlineInsert(o, indent, L, n, j, s);
  }

  /** Inserting `n` at the slot `s`, one level below position `j`, keeps the list in shape. */
  lemma {:induction false} OutlineInsert(o: seq<nat>, indent: seq<nat>, L: seq<nat>, n: nat, j: nat, s: nat)
    requires Outline(o, indent) && L == Levels(o, indent)
    requires n < |indent| && n !in o && j < s <= |o|
    requires Deeper(L, j + 1, s, L[j])
    requires s < |o| ==> L[s] <= L[j] + 1
    ensures Outline(Insert(o, s, n), indent[n := L[j] + 1])
    ensures Levels(Insert(o, s, n), indent[n := L[j] + 1]) == Insert(L, s, L[j] + 1)
  {
    LevelsInsert(o, indent, s, n, L[j] + 1);
    InsertShaped(L, j, s);
  }

  /** With a fresh node owned by its item linked in, every listed node is owned exactly when every one was before. */
  lemma {:induction false} InsertOwnership(nodeOf: seq<Option<nat>>, owner: seq<nat>, o: seq<nat>, n: nat, s: nat)
    requires n < |owner| && s <= |o|
    requires forall i :: 0 <= i < |o| ==> o[i] < |owner|
    requires forall m :: 0 <= m < |owner| ==> owner[m] < |nodeOf|
    requires nodeOf[owner[n]] == Some(n)
    ensures OwnedBy(nodeOf, owner, Insert(o, s, n)) <==> OwnedBy(nodeOf, owner, o)
  {
    var o' := Insert(o, s, n);
    if OwnedBy(nodeOf, owner, o) {
      forall i | 0 <= i < |o'|
        ensures nodeOf[owner[o'[i]]] == Some(o'[i])
      {
        if i < s {
          assert o'[i] == o[i];
        } else if i > s {
          assert o'[i] == o[i - 1];
        }
      }
    } else {
      var i :| 0 <= i < |o| && nodeOf[owner[o[i]]] != Some(o[i]);
      if i < s {
        assert o'[i] == o[i];
      } else {
        assert o'[i + 1] == o[i];
      }
    }
  }
}
