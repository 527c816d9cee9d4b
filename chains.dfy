/**
 * The doubly-linked list of nodes: `prev`/`next` link fields indexed by node,
 * the order they spell out, and the field updates that splice a node in or
 * out (`Link`, `Unlink`, `link_node`) or cut a run of nodes out.
 */
module Chains {
  import opened Wrappers

  /** The node at position `s`, or None past the end (`null`). */
  function NodeAt(o: seq<nat>, s: nat): Option<nat>
  {
    if s < |o| then Some(o[s]) else None
  }

  /** The node just before position `s`, or None at the head (`null`). */
  function NodeBefore(o: seq<nat>, s: nat): Option<nat>
    requires s <= |o|
  {
    if s == 0 then None else Some(o[s - 1])
  }

  /** `o` with `n` inserted so that it ends up at position `s`. */
  function Insert(o: seq<nat>, s: nat, n: nat): (r: seq<nat>)
    requires s <= |o|
    ensures |r| == |o| + 1 && r[s] == n
    ensures forall i :: 0 <= i < s ==> r[i] == o[i]
    ensures forall i :: s < i < |r| ==> r[i] == o[i - 1]
  {
    o[..s] + [n] + o[s..]
  }

  /** `o` with the run of positions [a, b) cut out. */
  function Cut(o: seq<nat>, a: nat, b: nat): (r: seq<nat>)
    requires a <= b <= |o|
    ensures |r| == |o| - (b - a)
    ensures forall i :: 0 <= i < a ==> r[i] == o[i]
    ensures forall i :: a <= i < |r| ==> r[i] == o[i + (b - a)]
  {
    o[..a] + o[b..]
  }

  /** Every link names an existing node. */
  ghost predicate InRange(prev: seq<Option<nat>>, next: seq<Option<nat>>)
  {
    |prev| == |next| &&
    forall x :: 0 <= x < |prev| ==>
      (prev[x].Some? ==> prev[x].value < |prev|) && (next[x].Some? ==> next[x].value < |prev|)
  }

  /** No node occurs twice. */
  ghost predicate Distinct(o: seq<nat>)
  {
    forall i, k :: 0 <= i < k < |o| ==> Apart(o, i, k)
  }

  /** The nodes at positions `i` and `k` differ. */
  ghost predicate Apart(o: seq<nat>, i: nat, k: nat)
    requires i < |o| && k < |o|
  {
    o[i] != o[k]
  }

  /** In a list without repeats, different positions hold different nodes. */
  lemma {:induction false} Differ(o: seq<nat>, i: nat, k: nat)
    requires Distinct(o) && i < |o| && k < |o| && i != k
    ensures o[i] != o[k]
  {
    if i < k {
      assert Apart(o, i, k);
    } else {
      assert Apart(o, k, i);
    }
  }

  /** Inserting a node that is not yet there keeps the nodes distinct. */
  lemma {:induction false} InsertDistinct(o: seq<nat>, s: nat, n: nat)
    requires Distinct(o) && n !in o && s <= |o|
    ensures Distinct(Insert(o, s, n))
  {
    var r := Insert(o, s, n);
    forall i, k | 0 <= i < k < |r|
      ensures Apart(r, i, k)
    {
      if i < s && k == s {
        assert r[i] == o[i];
      } else if i == s {
        assert r[k] == o[k - 1];
      } else {
        var i', k' := if i < s then i else i - 1, if k < s then k else k - 1;
        assert Apart(o, i', k');
      }
    }
  }

  /** Cutting a run out keeps the nodes distinct. */
  lemma {:induction false} CutDistinct(o: seq<nat>, a: nat, b: nat)
    requires Distinct(o) && a <= b <= |o|
    ensures Distinct(Cut(o, a, b))
  {
    var r := Cut(o, a, b);
    forall i, k | 0 <= i < k < |r|
      ensures Apart(r, i, k)
    {
      var i' := if i < a then i else i + (b - a);
      var k' := if k < a then k else k + (b - a);
      assert Apart(o, i', k');
      assert r[i] == o[i'] && r[k] == o[k'];
    }
  }

  /**
   * `o` is a list the links spell out: its nodes are distinct, each one's
   * `prev` is the node before it (`null` at the head) and its `next` the node
   * after it (`null` at the tail).
   */
  ghost predicate Chain(o: seq<nat>, prev: seq<Option<nat>>, next: seq<Option<nat>>)
  {
    |prev| == |next| &&
    (forall i :: 0 <= i < |o| ==> o[i] < |prev|) &&
    Distinct(o) &&
    (forall i {:trigger prev[o[i]]} {:trigger next[o[i]]} :: 0 <= i < |o| ==>
      prev[o[i]] == NodeBefore(o, i) && next[o[i]] == NodeAt(o, i + 1))
  }

  /** The `prev` fields after linking `n` between `p` and `q`: `n.prev = p`, then `q.prev = n`. */
  function LinkedPrev(prev: seq<Option<nat>>, n: nat, p: Option<nat>, q: Option<nat>): (r: seq<Option<nat>>)
    requires n < |prev| && (q.Some? ==> q.value < |prev|)
    ensures |r| == |prev|
    ensures r[n] == (if q == Some(n) then Some(n) else p)
    ensures q.Some? ==> r[q.value] == Some(n)
    ensures forall x :: 0 <= x < |prev| && x != n && Some(x) != q ==> r[x] == prev[x]
  {
    var r := prev[n := p];
    if q.Some? then r[q.value := Some(n)] else r
  }

  /** The `next` fields after linking `n` between `p` and `q`: `n.next = q`, then `p.next = n`. */
  function LinkedNext(next: seq<Option<nat>>, n: nat, p: Option<nat>, q: Option<nat>): (r: seq<Option<nat>>)
    requires n < |next| && (p.Some? ==> p.value < |next|)
    ensures |r| == |next|
    ensures r[n] == (if p == Some(n) then Some(n) else q)
    ensures p.Some? ==> r[p.value] == Some(n)
    ensures forall x :: 0 <= x < |next| && x != n && Some(x) != p ==> r[x] == next[x]
  {
    var r := next[n := q];
    if p.Some? then r[p.value := Some(n)] else r
  }

  /** The `prev` fields after unlinking `n`: its own link deleted, its successor pointed back at its predecessor. */
  function UnlinkedPrev(prev: seq<Option<nat>>, next: seq<Option<nat>>, n: nat): (r: seq<Option<nat>>)
    requires InRange(prev, next) && n < |prev|
    ensures |r| == |prev|
    ensures next[n].Some? ==> r[next[n].value] == prev[n]
    ensures next[n] != Some(n) ==> r[n] == None
    ensures forall x :: 0 <= x < |prev| && x != n && Some(x) != next[n] ==> r[x] == prev[x]
  {
    var r := prev[n := None];
    if next[n].Some? then r[next[n].value := prev[n]] else r
  }

  /** The `next` fields after unlinking `n`: its own link deleted, its predecessor pointed on at its successor. */
  function UnlinkedNext(prev: seq<Option<nat>>, next: seq<Option<nat>>, n: nat): (r: seq<Option<nat>>)
    requires InRange(prev, next) && n < |prev|
    ensures |r| == |next|
    ensures prev[n].Some? ==> r[prev[n].value] == next[n]
    ensures prev[n] != Some(n) ==> r[n] == None
    ensures forall x :: 0 <= x < |next| && x != n && Some(x) != prev[n] ==> r[x] == next[x]
  {
    var r := next[n := None];
    if prev[n].Some? then r[prev[n].value := next[n]] else r
  }

  /** Whether a list holds together depends only on the links of its own nodes. */
  lemma {:induction false} ChainFrame(o: seq<nat>, prev: seq<Option<nat>>, next: seq<Option<nat>>,
                   prev': seq<Option<nat>>, next': seq<Option<nat>>)
    requires Chain(o, prev, next)
    requires |prev'| == |next'| >= |prev|
    requires forall i {:trigger prev'[o[i]]} {:trigger next'[o[i]]} :: 0 <= i < |o| ==> prev'[o[i]] == prev[o[i]] && next'[o[i]] == next[o[i]]
    ensures Chain(o, prev', next')
  {
  }

  /** Linking a node that is not in the list between the neighbours at position `s` inserts it there. */
  lemma {:induction false} LinkInserts(o: seq<nat>, prev: seq<Option<nat>>, next: seq<Option<nat>>, n: nat, s: nat)
    requires Chain(o, prev, next) && n < |prev| && n !in o && s <= |o|
    ensures Chain(Insert(o, s, n),
                  LinkedPrev(prev, n, NodeBefore(o, s), NodeAt(o, s)),
                  LinkedNext(next, n, NodeBefore(o, s), NodeAt(o, s)))
  {
    var o' := Insert(o, s, n);
    var prev' := LinkedPrev(prev, n, NodeBefore(o, s), NodeAt(o, s));
    var next' := LinkedNext(next, n, NodeBefore(o, s), NodeAt(o, s));
    InsertDistinct(o, s, n);
    forall i | 0 <= i < |o'|
      ensures prev'[o'[i]] == NodeBefore(o', i) && next'[o'[i]] == NodeAt(o', i + 1)
    {
      if i < s {
        LinkedBefore(o, prev, next, n, s, i);
        assert o'[i] == o[i];
        assert NodeBefore(o', i) == NodeBefore(o, i);
        assert NodeAt(o', i + 1) == if i + 1 == s then Some(n) else NodeAt(o, i + 1);
      } else if i > s {
        LinkedAfter(o, prev, next, n, s, i - 1);
        assert o'[i] == o[i - 1];
        assert NodeBefore(o', i) == if i - 1 == s then Some(n) else NodeBefore(o, i - 1);
        assert NodeAt(o', i + 1) == NodeAt(o, i);
      } else {
        assert o'[s] == n && NodeAt(o, s) != Some(n) && NodeBefore(o, s) != Some(n);
        assert NodeBefore(o', s) == NodeBefore(o, s);
        assert NodeAt(o', s + 1) == NodeAt(o, s);
      }
    }
  }

  /** After linking `n` in at position `s`, a node before `s` keeps its links, except that the last one now points on at `n`. */
  lemma {:induction false} LinkedBefore(o: seq<nat>, prev: seq<Option<nat>>, next: seq<Option<nat>>, n: nat, s: nat, i: nat)
    requires Chain(o, prev, next) && n < |prev| && n !in o && i < s <= |o|
    ensures LinkedPrev(prev, n, NodeBefore(o, s), NodeAt(o, s))[o[i]] == NodeBefore(o, i)
    ensures LinkedNext(next, n, NodeBefore(o, s), NodeAt(o, s))[o[i]] == if i + 1 == s then Some(n) else NodeAt(o, i + 1)
  {
    var x := o[i];
    assert x != n && x < |next|;
    if s < |o| {
      Differ(o, i, s);
    }
    if i + 1 < s {
      Differ(o, i, s - 1);
      assert NodeBefore(o, s) != Some(x);
      assert next[x] == NodeAt(o, i + 1);
    } else {
      assert NodeBefore(o, s) == Some(x);
    }
  }

  /** After linking `n` in at position `s`, a node at or after `s` keeps its links, except that the first one now points back at `n`. */
  lemma {:induction false} LinkedAfter(o: seq<nat>, prev: seq<Option<nat>>, next: seq<Option<nat>>, n: nat, s: nat, i: nat)
    requires Chain(o, prev, next) && n < |prev| && n !in o && s <= i < |o|
    ensures LinkedPrev(prev, n, NodeBefore(o, s), NodeAt(o, s))[o[i]] == if i == s then Some(n) else NodeBefore(o, i)
    ensures LinkedNext(next, n, NodeBefore(o, s), NodeAt(o, s))[o[i]] == NodeAt(o, i + 1)
  {
    var x := o[i];
    assert x != n && x < |prev|;
    if s > 0 {
      Differ(o, s - 1, i);
      assert NodeBefore(o, s) != Some(x);
    }
    assert next[x] == NodeAt(o, i + 1);
    if i > s {
      Differ(o, i, s);
      assert NodeAt(o, s) != Some(x);
      assert prev[x] == NodeBefore(o, i);
    } else {
      assert NodeAt(o, s) == Some(x);
    }
  }

  /** Cutting out the run [a, b) by joining the node before it (if any) to the node after it (if any). */
  lemma {:induction false} CutJoins(o: seq<nat>, prev: seq<Option<nat>>, next: seq<Option<nat>>, a: nat, b: nat,
                 prev': seq<Option<nat>>, next': seq<Option<nat>>)
    requires Chain(o, prev, next) && a <= b <= |o|
    requires |prev'| == |next'| == |prev|
    requires a > 0 ==> next'[o[a - 1]] == NodeAt(o, b) && prev'[o[a - 1]] == prev[o[a - 1]]
    requires b < |o| ==> prev'[o[b]] == NodeBefore(o, a) && next'[o[b]] == next[o[b]]
    requires forall i {:trigger prev'[o[i]]} {:trigger next'[o[i]]} :: 0 <= i < |o| && i != a - 1 && i != b && !(a <= i < b) ==>
      prev'[o[i]] == prev[o[i]] && next'[o[i]] == next[o[i]]
    ensures Chain(Cut(o, a, b), prev', next')
  {
    var o' := Cut(o, a, b);
    CutDistinct(o, a, b);
    forall i | 0 <= i < |o'|
      ensures prev'[o'[i]] == NodeBefore(o', i) && next'[o'[i]] == NodeAt(o', i + 1)
    {
      if i < a {
        JoinedBefore(o, prev, next, a, b, prev', next', i);
      } else {
        JoinedAfter(o, prev, next, a, b, prev', next', i);
      }
    }
  }

  /** After the cut, a node before the run keeps its place, the last one now followed by the node after the run. */
  lemma {:induction false} JoinedBefore(o: seq<nat>, prev: seq<Option<nat>>, next: seq<Option<nat>>, a: nat, b: nat,
                     prev': seq<Option<nat>>, next': seq<Option<nat>>, i: nat)
    requires Chain(o, prev, next) && a <= b <= |o| && i < a
    requires |prev'| == |next'| == |prev|
    requires next'[o[a - 1]] == NodeAt(o, b) && prev'[o[a - 1]] == prev[o[a - 1]]
    requires forall i {:trigger prev'[o[i]]} {:trigger next'[o[i]]} :: 0 <= i < |o| && i != a - 1 && i != b && !(a <= i < b) ==>
      prev'[o[i]] == prev[o[i]] && next'[o[i]] == next[o[i]]
    ensures var o' := Cut(o, a, b);
            prev'[o'[i]] == NodeBefore(o', i) && next'[o'[i]] == NodeAt(o', i + 1)
  {
    var o' := Cut(o, a, b);
    assert o'[i] == o[i];
    assert prev'[o[i]] == prev[o[i]];
    assert i > 0 ==> o'[i - 1] == o[i - 1];
    if i < a - 1 {
      assert o'[i + 1] == o[i + 1];
    } else {
      assert NodeAt(o', i + 1) == NodeAt(o, b);
    }
  }

  /** After the cut, a node after the run keeps its place, the first one now preceded by the node before the run. */
  lemma {:induction false} JoinedAfter(o: seq<nat>, prev: seq<Option<nat>>, next: seq<Option<nat>>, a: nat, b: nat,
                    prev': seq<Option<nat>>, next': seq<Option<nat>>, i: nat)
    requires Chain(o, prev, next) && a <= b <= |o| && a <= i < |o| - (b - a)
    requires |prev'| == |next'| == |prev|
    requires b < |o| ==> prev'[o[b]] == NodeBefore(o, a) && next'[o[b]] == next[o[b]]
    requires forall i {:trigger prev'[o[i]]} {:trigger next'[o[i]]} :: 0 <= i < |o| && i != a - 1 && i != b && !(a <= i < b) ==>
      prev'[o[i]] == prev[o[i]] && next'[o[i]] == next[o[i]]
    ensures var o' := Cut(o, a, b);
            prev'[o'[i]] == NodeBefore(o', i) && next'[o'[i]] == NodeAt(o', i + 1)
  {
    var o' := Cut(o, a, b);
    var k := i + (b - a);
    assert o'[i] == o[k];
    assert NodeAt(o', i + 1) == NodeAt(o, k + 1);
    if i == a {
      assert k == b && next'[o[b]] == next[o[b]];
      assert NodeBefore(o', i) == NodeBefore(o, a);
    } else {
      assert a <= b < k < |o|;
      assert next'[o[k]] == next[o[k]] && prev'[o[k]] == prev[o[k]];
      assert o'[i - 1] == o[k - 1];
    }
  }

  /** Unlinking the node at position `s` removes exactly it from the list and deletes its own links. */
  lemma {:induction false} UnlinkRemoves(o: seq<nat>, prev: seq<Option<nat>>, next: seq<Option<nat>>, s: nat)
    requires Chain(o, prev, next) && InRange(prev, next) && s < |o|
    ensures Chain(Cut(o, s, s + 1), UnlinkedPrev(prev, next, o[s]), UnlinkedNext(prev, next, o[s]))
    ensures UnlinkedPrev(prev, next, o[s])[o[s]] == None && UnlinkedNext(prev, next, o[s])[o[s]] == None
  {
    var n := o[s];
    var o' := Cut(o, s, s + 1);
    var prev' := UnlinkedPrev(prev, next, n);
    var next' := UnlinkedNext(prev, next, n);
    forall i | 0 <= i < |o| && i != s
      ensures o[i] != n
    {
      Differ(o, i, s);
    }
    if 0 < s && s + 1 < |o| {
      Differ(o, s - 1, s + 1);
    }
    CutJoins(o, prev, next, s, s + 1, prev', next');
  }

  /** Unlinking a node that was just linked into the list restores every link exactly. */
  lemma {:induction false} LinkUnlinkRoundTrip(o: seq<nat>, prev: seq<Option<nat>>, next: seq<Option<nat>>, n: nat, s: nat)
    requires Chain(o, prev, next) && InRange(prev, next) && n < |prev| && n !in o && s <= |o|
    requires prev[n] == None && next[n] == None
    ensures var prev1 := LinkedPrev(prev, n, NodeBefore(o, s), NodeAt(o, s));
            var next1 := LinkedNext(next, n, NodeBefore(o, s), NodeAt(o, s));
            InRange(prev1, next1) &&
            UnlinkedPrev(prev1, next1, n) == prev && UnlinkedNext(prev1, next1, n) == next
  {
    var p, q := NodeBefore(o, s), NodeAt(o, s);
    var prev1 := LinkedPrev(prev, n, p, q);
    var next1 := LinkedNext(next, n, p, q);
    assert p != Some(n) && q != Some(n);
    assert p.Some? && q.Some? ==> next[p.value] == q && prev[q.value] == p;
    assert prev1[n] == p && next1[n] == q;
    var prev2 := UnlinkedPrev(prev1, next1, n);
    var next2 := UnlinkedNext(prev1, next1, n);
    assert |prev2| == |prev|;
    forall x | 0 <= x < |prev|
      ensures prev2[x] == prev[x]
    {
    }
    assert |next2| == |next|;
    forall x | 0 <= x < |next|
      ensures next2[x] == next[x]
    {
    }
  }
}
