/**
 * `VisitNodes` and its nine wrappers: find the first position of a class
 * with one relationship, then step on by another, handing each node's owner
 * to the visitor until the visitor returns something or the walk ends. The
 * visitor is a pure function from items to `Some(value)` (a return value
 * other than `undefined`) or `None`.
 *
 * `AsNode` (src/lib-tree.js:178-180) installs only `VisitNodes` on a node;
 * the nine `Visit...Nodes` wrappers are module functions a node does not
 * carry.
 */
module Visitation {
  import opened Wrappers
  import opened TreeTypes
  import opened PreOrder
  import opened LibTree
  import opened VisitClasses
  import opened Navigation

  /** What `VisitNodes` returns: `false` for a visitor that is not a function, the visitor's value, or `undefined`. */
  datatype Outcome<V> = NotAFunction | Returned(value: V) | Finished

  /** The items handed to the visitor, in order, and what the walk returned. */
  datatype Visit<V> = Visit(seen: seq<nat>, outcome: Outcome<V>)

  /** Visiting the owners of the nodes at positions `P` in order, until the visitor answers one. */
  function Trace<V>(o: seq<nat>, owner: seq<nat>, P: seq<nat>, visitor: nat -> Option<V>): Visit<V>
    requires Within(P, |o|) && Within(o, |owner|)
  {
    if P == [] then Visit([], Finished)
    else
      var x := owner[o[P[0]]];
      match visitor(x)
      case Some(v) => Visit([x], Returned(v))
      case None =>
        var rest := Trace(o, owner, P[1..], visitor);
        Visit([x] + rest.seen, rest.outcome)
  }

  /**
   * A visit hands the visitor the owners of the positions in order, up to
   * and including the first one it answers, and returns that answer; when it
   * answers none, it hands it every owner and returns `undefined`.
   */
  lemma {:induction false} TraceStopsAtFirstAnswer<V>(o: seq<nat>, owner: seq<nat>, P: seq<nat>, visitor: nat -> Option<V>)
    requires Within(P, |o|) && Within(o, |owner|)
    ensures var r := Trace(o, owner, P, visitor);
      !r.outcome.NotAFunction? && |r.seen| <= |P| &&
      (forall i :: 0 <= i < |r.seen| ==> r.seen[i] == owner[o[P[i]]]) &&
      (r.outcome.Finished? ==> |r.seen| == |P|) &&
      (r.outcome.Returned? ==> |r.seen| > 0 && visitor(r.seen[|r.seen| - 1]) == Some(r.outcome.value)) &&
      (forall i :: 0 <= i < |r.seen| && (r.outcome.Finished? || i < |r.seen| - 1) ==> visitor(r.seen[i]).None?)
  {
    if P != [] && visitor(owner[o[P[0]]]).None? {
      TraceStopsAtFirstAnswer(o, owner, P[1..], visitor);
    }
  }

  /** The positions `VisitNodes` walks for class `c` from position `j`: the origin first when asked for (never for `AllNodes`), then the class. */
  function VisitPositions(L: seq<nat>, j: nat, c: Visitation, includeThis: bool): (P: seq<nat>)
    requires j < |L|
    ensures Within(P, |L|)
  {
    (if includeThis && c != AllNodes then [j] else []) + ClassPositions(L, j, c)
  }

  /** The walk from `p` on, once the owner of the node at `p` answered nothing. */
  lemma {:induction false} TraceStep<V>(o: seq<nat>, owner: seq<nat>, p: nat, W: seq<nat>, visitor: nat -> Option<V>)
    requires p < |o| && Within(W, |o|) && Within(o, |owner|)
    requires visitor(owner[o[p]]).None?
    ensures Trace(o, owner, [p] + W, visitor) ==
      Visit([owner[o[p]]] + Trace(o, owner, W, visitor).seen, Trace(o, owner, W, visitor).outcome)
  {
    assert ([p] + W)[1..] == W;
  }

  /** What a walk visits from position `p`, by cases on the bound and the visitor's answer at `p`. */
  lemma {:induction false} WalkVisit<V>(o: seq<nat>, owner: seq<nat>, L: seq<nat>, j: nat, p: nat, step: Relationship,
                     bounded: bool, visitor: nat -> Option<V>)
    requires |o| == |L| && Within(o, |owner|) && j < |L| && p < |L| && (Backward(step) || Forward(step))
    ensures var T := Trace(o, owner, Walk(L, j, p, step, bounded), visitor);
      if bounded && L[p] <= L[j] then T == Visit([], Finished)
      else
        var x := owner[o[p]];
        match visitor(x)
        case Some(v) => T == Visit([x], Returned(v))
        case None =>
          var T' := Trace(o, owner, WalkAfter(L, j, p, step, bounded), visitor);
          T == Visit([x] + T'.seen, T'.outcome)
  {
    var W' := WalkAfter(L, j, p, step, bounded);
    if !(bounded && L[p] <= L[j]) {
      if visitor(owner[o[p]]).Some? {
        TraceHit(o, owner, p, W', visitor);
      } else {
        TraceStep(o, owner, p, W', visitor);
      }
    }
  }

  /** The walk from `p` on, once the owner of the node at `p` answered. */
  lemma {:induction false} TraceHit<V>(o: seq<nat>, owner: seq<nat>, p: nat, W: seq<nat>, visitor: nat -> Option<V>)
    requires p < |o| && Within(W, |o|) && Within(o, |owner|)
    requires visitor(owner[o[p]]).Some?
    ensures Trace(o, owner, [p] + W, visitor) == Visit([owner[o[p]]], Returned(visitor(owner[o[p]]).value))
  {
  }

  /** Appending in two steps appends the same. */
  lemma {:induction false} AppendAssoc(a: seq<nat>, b: seq<nat>, c: seq<nat>)
    ensures a + (b + c) == (a + b) + c
  {
  }

  /**
   * `VisitNodes` from the node at position `j`: `false` for a visitor that
   * is not a function, a throw for an argument that selects no class, and
   * otherwise the visit of `VisitPositions`, stopping at the first answer.
   */
  method VisitNodes<V>(t: Tree, n: nat, ghost j: nat, visitationType: JsValue,
                       visitor: Option<nat -> Option<V>>, includeThis: bool)
      returns (r: Result<Outcome<V>, Error>, visited: seq<nat>)
    requires Listed(t, n, j) && t.Owned()
    ensures visitor.None? ==> r == Success(NotAFunction) && visited == []
    ensures visitor.Some? && VisitationFrom(visitationType).None? ==>
      r == Failure(UnknownVisitationType) && visited == []
    ensures visitor.Some? && VisitationFrom(visitationType).Some? ==>
      var T := Trace(t.order, t.owner, VisitPositions(t.depths, j, VisitationFrom(visitationType).value, includeThis), visitor.value);
      r == Success(T.outcome) && visited == T.seen
  {
    visited := [];
    if visitor.None? {
      return Success(NotAFunction), visited;
    }
    var f := visitor.value;
    var selected := VisitationFrom(visitationType);
    if selected.None? {
      return Failure(UnknownVisitationType), visited;
    }
    var c := selected.value;
    ghost var T := Trace(t.order, t.owner, VisitPositions(t.depths, j, c, includeThis), f);
    VisitOpens(t.order, t.owner, t.depths, j, c, includeThis, f);
    var start, step, descendantsOnly := Start(c), Step(c), DescendantsOnly(c);
    if includeThis && c != AllNodes {
      var x := t.owner[n];
      visited := [x];
      var res := f(x);
      if res.Some? {
        return Success(Returned(res.value)), visited;
      }
    }
    var node := StepTo(t, n, j, start);
    if node.None? {
      return Success(Finished), visited;
    }
    var outcome;
    outcome, visited := VisitFrom(t, n, j, f, step, descendantsOnly, node, Relative(t.depths, j, start).value, visited, T);
    return Success(outcome), visited;
  }

  /**
   * How a visit of class `c` from position `j` opens: with the origin's
   * owner when it is included, which may already answer; then with the walk
   * from the first position of the class, when there is one.
   */
  lemma {:induction false} VisitOpens<V>(o: seq<nat>, owner: seq<nat>, L: seq<nat>, j: nat, c: Visitation, includeThis: bool,
                      f: nat -> Option<V>)
    requires |o| == |L| && Within(o, |owner|) && j < |L|
    ensures var T := Trace(o, owner, VisitPositions(L, j, c, includeThis), f);
      var first := includeThis && c != AllNodes;
      var done := if first then [owner[o[j]]] else [];
      if first && f(owner[o[j]]).Some? then T == Visit(done, Returned(f(owner[o[j]]).value))
      else
        match Relative(L, j, Start(c))
        case None => T == Visit(done, Finished)
        case Some(p) => Resumes(o, owner, L, j, p, Step(c), DescendantsOnly(c), f, done, T)
  {
    var W := ClassPositions(L, j, c);
    if includeThis && c != AllNodes {
      assert VisitPositions(L, j, c, includeThis) == [j] + W;
      if f(owner[o[j]]).Some? {
        TraceHit(o, owner, j, W, f);
      } else {
        TraceStep(o, owner, j, W, f);
      }
    } else {
      assert VisitPositions(L, j, c, includeThis) == W;
    }
    match Relative(L, j, Start(c))
    case None =>
    case Some(p) => ClassStart(L, j, c, Start(c), p, Step(c), DescendantsOnly(c));
  }

  /**
   * The loop of `VisitNodes`: from the node at position `p`, visit and step
   * on by `step`, stopping first, for the child and descendant classes, at a
   * node not deeper than the origin at `j`.
   */
  method VisitFrom<V>(t: Tree, n: nat, ghost j: nat, f: nat -> Option<V>, step: Relationship,
                      descendantsOnly: bool, node0: Option<nat>, ghost p0: nat, visited0: seq<nat>, ghost T: Visit<V>)
      returns (outcome: Outcome<V>, visited: seq<nat>)
    requires Listed(t, n, j) && t.Owned() && p0 < |t.order| && node0 == Some(t.order[p0])
    requires Resumes(t.order, t.owner, t.depths, j, p0, step, descendantsOnly, f, visited0, T)
    ensures T == Visit(visited, outcome)
  {
    ghost var p: nat := p0;
    var node := node0;
    visited := visited0;
    while node.Some?
      invariant p < |t.order| && node == Some(t.order[p])
      invariant Resumes(t.order, t.owner, t.depths, j, p, step, descendantsOnly, f, visited, T)
      decreases if Forward(step) then |t.order| - p else p
    {
      var seen, stopped, next, q := VisitStep(t, n, j, f, step, descendantsOnly, node.value, p, visited, T);
      visited := visited + seen;
      if stopped.Some? {
        return stopped.value, visited;
      }
      node, p := next, q;
    }
    assert false;
  }

  /** The visit `T` is the items `done` followed by the walk from `p` on. */
  ghost predicate Resumes<V>(o: seq<nat>, owner: seq<nat>, L: seq<nat>, j: nat, p: nat, step: Relationship,
                             bounded: bool, f: nat -> Option<V>, done: seq<nat>, T: Visit<V>)
  {
    |o| == |L| && Within(o, |owner|) && j < |L| && p < |L| && (Backward(step) || Forward(step)) &&
    var R := Trace(o, owner, Walk(L, j, p, step, bounded), f);
    T == Visit(done + R.seen, R.outcome)
  }

  /** What is left of a visit resumed at `p`, by cases on the bound, the visitor's answer at `p` and `p`'s relative. */
  lemma {:induction false} ResumeVisit<V>(o: seq<nat>, owner: seq<nat>, L: seq<nat>, j: nat, p: nat, step: Relationship,
                       bounded: bool, f: nat -> Option<V>, done: seq<nat>, T: Visit<V>)
    requires Resumes(o, owner, L, j, p, step, bounded, f, done, T)
    ensures var x := owner[o[p]];
      if bounded && L[p] <= L[j] then T == Visit(done, Finished)
      else
        match f(x)
        case Some(v) => T == Visit(done + [x], Returned(v))
        case None =>
          match Relative(L, p, step)
          case None => T == Visit(done + [x], Finished)
          case Some(q) => Resumes(o, owner, L, j, q, step, bounded, f, done + [x], T)
  {
    WalkVisit(o, owner, L, j, p, step, bounded, f);
    var x := owner[o[p]];
    if !(bounded && L[p] <= L[j]) && f(x).None? {
      match Relative(L, p, step)
      case None =>
        assert [x] + [] == [x];
      case Some(q) =>
        AppendAssoc(done, [x], Trace(o, owner, Walk(L, j, q, step, bounded), f).seen);
    }
  }

  /**
   * One turn of the loop of `VisitNodes` at the node `m` at position `p`:
   * stop at a node not deeper than the origin when bounded, else visit its
   * owner; stop at an answer or when `step` finds no relative, else hand on
   * the relative's node.
   */
  method VisitStep<V>(t: Tree, n: nat, ghost j: nat, f: nat -> Option<V>, step: Relationship,
                      descendantsOnly: bool, m: nat, ghost p: nat, ghost done: seq<nat>, ghost T: Visit<V>)
      returns (seen: seq<nat>, stopped: Option<Outcome<V>>, next: Option<nat>, ghost q: nat)
    requires Listed(t, n, j) && t.Owned() && p < |t.order| && t.order[p] == m
    requires Resumes(t.order, t.owner, t.depths, j, p, step, descendantsOnly, f, done, T)
    ensures stopped.Some? ==> T == Visit(done + seen, stopped.value)
    ensures stopped.None? ==> q < |t.order| && next == Some(t.order[q])
    ensures stopped.None? ==> if Forward(step) then p < q else q < p
    ensures stopped.None? ==> Resumes(t.order, t.owner, t.depths, j, q, step, descendantsOnly, f, done + seen, T)
  {
    ResumeVisit(t.order, t.owner, t.depths, j, p, step, descendantsOnly, f, done, T);
    q := p;
    if descendantsOnly && t.indent[m] <= t.indent[n] {
      return [], Some(Finished), None, q;
    }
    var x := t.owner[m];
    var res := f(x);
    seen := [x];
    if res.Some? {
      return seen, Some(Returned(res.value)), None, q;
    }
    next := StepTo(t, m, p, step);
    if next.None? {
      return seen, Some(Finished), None, q;
    }
    q := Relative(t.depths, p, step).value;
    stopped := None;
  }

  /**
   * `FindRelative` by `rel` from the node `m` at position `p`, then from the
   * item it returns on to that item's node: the node at the relative's
   * position, or None when there is no relative.
   */
  method StepTo(t: Tree, m: nat, ghost p: nat, rel: Relationship) returns (next: Option<nat>)
    requires Listed(t, m, p) && t.Owned() && rel != LastNode
    ensures next == match Relative(t.depths, p, rel) case None => None case Some(q) => Some(t.order[q])
  {
    RelationshipArgSelects(rel);
    var item := FindRelative(t, m, p, RelationshipArg(rel));
    if !item.value.Item? {
      return None;
    }
    next := t.nodeOf[item.value.x];
  }

  /**
   * What a visit of class `c` from the node at position `j` does: answers
   * `false` for a visitor that is not a function, and otherwise hands the
   * visitor the owners along `VisitPositions` until it answers.
   */
  ghost predicate Visits<V>(t: Tree, j: nat, c: Visitation, includeThis: bool, visitor: Option<nat -> Option<V>>,
                            r: Result<Outcome<V>, Error>, visited: seq<nat>)
    reads t
    requires t.Valid() && j < |t.order|
  {
    match visitor
    case None => r == Success(NotAFunction) && visited == []
    case Some(f) =>
      var T := Trace(t.order, t.owner, VisitPositions(t.depths, j, c, includeThis), f);
      r == Success(T.outcome) && visited == T.seen
  }

  /** `VisitAllNodes`: the whole list from its head, once each; the origin is never visited first. */
  method VisitAllNodes<V>(t: Tree, n: nat, ghost j: nat, visitor: Option<nat -> Option<V>>)
      returns (r: Result<Outcome<V>, Error>, visited: seq<nat>)
    requires Listed(t, n, j) && t.Owned()
    ensures Visits(t, j, AllNodes, true, visitor, r, visited)
  {
    VisitationArgSelects(AllNodes);
    r, visited := VisitNodes(t, n, j, VisitationArg(AllNodes), visitor, true);
  }

  /** `VisitPrevNodes`: the nodes before the origin, nearest first, after the origin when `includeThis`. */
  method VisitPrevNodes<V>(t: Tree, n: nat, ghost j: nat, visitor: Option<nat -> Option<V>>, includeThis: bool)
      returns (r: Result<Outcome<V>, Error>, visited: seq<nat>)
    requires Listed(t, n, j) && t.Owned()
    ensures Visits(t, j, PrevNodes, includeThis, visitor, r, visited)
  {
    VisitationArgSelects(PrevNodes);
    r, visited := VisitNodes(t, n, j, VisitationArg(PrevNodes), visitor, includeThis);
  }

  /** `VisitNextNodes`: the nodes after the origin, in list order, after the origin when `includeThis`. */
  method VisitNextNodes<V>(t: Tree, n: nat, ghost j: nat, visitor: Option<nat -> Option<V>>, includeThis: bool)
      returns (r: Result<Outcome<V>, Error>, visited: seq<nat>)
    requires Listed(t, n, j) && t.Owned()
    ensures Visits(t, j, NextNodes, includeThis, visitor, r, visited)
  {
    VisitationArgSelects(NextNodes);
    r, visited := VisitNodes(t, n, j, VisitationArg(NextNodes), visitor, includeThis);
  }

  /** `VisitParentNodes`: the ancestors, nearest first, after the origin when `includeThis`. */
  method VisitParentNodes<V>(t: Tree, n: nat, ghost j: nat, visitor: Option<nat -> Option<V>>, includeThis: bool)
      returns (r: Result<Outcome<V>, Error>, visited: seq<nat>)
    requires Listed(t, n, j) && t.Owned()
    ensures Visits(t, j, ParentNodes, includeThis, visitor, r, visited)
  {
    VisitationArgSelects(ParentNodes);
    r, visited := VisitNodes(t, n, j, VisitationArg(ParentNodes), visitor, includeThis);
  }

  /** `VisitSiblingNodes`: the whole sibling group, the origin included, after the origin when `includeThis`. */
  method VisitSiblingNodes<V>(t: Tree, n: nat, ghost j: nat, visitor: Option<nat -> Option<V>>, includeThis: bool)
      returns (r: Result<Outcome<V>, Error>, visited: seq<nat>)
    requires Listed(t, n, j) && t.Owned()
    ensures Visits(t, j, SiblingNodes, includeThis, visitor, r, visited)
  {
    VisitationArgSelects(SiblingNodes);
    r, visited := VisitNodes(t, n, j, VisitationArg(SiblingNodes), visitor, includeThis);
  }

  /** `VisitPrevSibNodes`: the earlier siblings, nearest first, after the origin when `includeThis`. */
  method VisitPrevSibNodes<V>(t: Tree, n: nat, ghost j: nat, visitor: Option<nat -> Option<V>>, includeThis: bool)
      returns (r: Result<Outcome<V>, Error>, visited: seq<nat>)
    requires Listed(t, n, j) && t.Owned()
    ensures Visits(t, j, PrevSibNodes, includeThis, visitor, r, visited)
  {
    VisitationArgSelects(PrevSibNodes);
    r, visited := VisitNodes(t, n, j, VisitationArg(PrevSibNodes), visitor, includeThis);
  }

  /** `VisitNextSibNodes`: the later siblings, in list order, after the origin when `includeThis`. */
  method VisitNextSibNodes<V>(t: Tree, n: nat, ghost j: nat, visitor: Option<nat -> Option<V>>, includeThis: bool)
      returns (r: Result<Outcome<V>, Error>, visited: seq<nat>)
    requires Listed(t, n, j) && t.Owned()
    ensures Visits(t, j, NextSibNodes, includeThis, visitor, r, visited)
  {
    VisitationArgSelects(NextSibNodes);
    r, visited := VisitNodes(t, n, j, VisitationArg(NextSibNodes), visitor, includeThis);
  }

  /** `VisitChildNodes`: the direct children, in list order, after the origin when `includeThis`. */
  method VisitChildNodes<V>(t: Tree, n: nat, ghost j: nat, visitor: Option<nat -> Option<V>>, includeThis: bool)
      returns (r: Result<Outcome<V>, Error>, visited: seq<nat>)
    requires Listed(t, n, j) && t.Owned()
    ensures Visits(t, j, ChildNodes, includeThis, visitor, r, visited)
  {
    VisitationArgSelects(ChildNodes);
    r, visited := VisitNodes(t, n, j, VisitationArg(ChildNodes), visitor, includeThis);
  }

  /** `VisitDescendantNodes`: the subtree below the origin, in list order, after the origin when `includeThis`. The wrapper passes `VisitationTypes.DescendantNodes`, which is `undefined`; the class is selected because `undefined == undefined`. */
  method VisitDescendantNodes<V>(t: Tree, n: nat, ghost j: nat, visitor: Option<nat -> Option<V>>, includeThis: bool)
      returns (r: Result<Outcome<V>, Error>, visited: seq<nat>)
    requires Listed(t, n, j) && t.Owned()
    ensures Visits(t, j, DescendantNodes, includeThis, visitor, r, visited)
  {
    VisitationArgSelects(DescendantNodes);
    r, visited := VisitNodes(t, n, j, VisitationArg(DescendantNodes), visitor, includeThis);
  }
}
