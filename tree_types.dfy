/**
 * The library's two enumeration objects (`RelationshipTypes`, `VisitationTypes`)
 * as constant key/value tables, the closed datatypes they stand for, and the
 * comparison chains by which the resolver and the traversal engine recognise
 * an argument as one of their members.
 */
module TreeTypes {
  import opened Wrappers

  /** What the core throws. */
  datatype Error = AlreadyLinked | UnknownRelationshipType | UnknownVisitationType

  /** A JavaScript value, as far as an enumeration argument can be one. */
  datatype JsValue = Str(s: string) | Undefined | Null

  /** The fourteen relationships `FindRelative` resolves. */
  datatype Relationship =
    | PrevNode | NextNode | FirstNode | LastNode | RootNode | ParentNode
    | PrevSibNode | NextSibNode | FirstSibNode | LastSibNode
    | FirstChildNode | LastChildNode | FirstDescNode | LastDescNode

  /** The nine classes of positions `VisitNodes` walks. */
  datatype Visitation =
    | AllNodes | PrevNodes | NextNodes | ParentNodes | SiblingNodes
    | PrevSibNodes | NextSibNodes | ChildNodes | DescendantNodes

  /** The `RelationshipTypes` object literal, entry by entry. */
  const RelationshipTypes: seq<(string, string)> :=
    [("PrevNode", "PrevNode"), ("NextNode", "NextNode"), ("FirstNode", "FirstNode"),
     ("LastNode", "LastNode"), ("RootNode", "RootNode"), ("ParentNode", "ParentNode"),
     ("PrevSibNode", "PrevSibNode"), ("NextSibNode", "NextSibNode"),
     ("FirstSibNode", "FirstSibNode"), ("LastSibNode", "LastSibNode"),
     ("FirstChildNode", "FirstChildNode"), ("LastChildNode", "LastChildNode"),
     ("FirstDescNode", "FirstDescNode"), ("LastDescNode", "LastDescNode")]

  /** The `VisitationTypes` object literal, entry by entry; the descendant entry is spelt `DecendantNodes`. */
  const VisitationTypes: seq<(string, string)> :=
    [("AllNodes", "AllNodes"), ("PrevNodes", "PrevNodes"), ("NextNodes", "NextNodes"),
     ("ParentNodes", "ParentNodes"), ("SiblingNodes", "SiblingNodes"),
     ("PrevSibNodes", "PrevSibNodes"), ("NextSibNodes", "NextSibNodes"),
     ("ChildNodes", "ChildNodes"), ("DecendantNodes", "DecendantNodes")]

  /** The relationships in the order the object literal lists them. */
  const AllRelationships: seq<Relationship> :=
    [PrevNode, NextNode, FirstNode, LastNode, RootNode, ParentNode, PrevSibNode,
     NextSibNode, FirstSibNode, LastSibNode, FirstChildNode, LastChildNode,
     FirstDescNode, LastDescNode]

  /** The classes in the order the object literal lists them. */
  const AllVisitations: seq<Visitation> :=
    [AllNodes, PrevNodes, NextNodes, ParentNodes, SiblingNodes, PrevSibNodes,
     NextSibNodes, ChildNodes, DescendantNodes]

  /** Where a relationship sits in its object literal. */
  function RelationshipIndex(r: Relationship): (i: nat)
    ensures i < |AllRelationships| && AllRelationships[i] == r
  {
    match r
    case PrevNode => 0
    case NextNode => 1
    case FirstNode => 2
    case LastNode => 3
    case RootNode => 4
    case ParentNode => 5
    case PrevSibNode => 6
    case NextSibNode => 7
    case FirstSibNode => 8
    case LastSibNode => 9
    case FirstChildNode => 10
    case LastChildNode => 11
    case FirstDescNode => 12
    case LastDescNode => 13
  }

  /** Where a class sits in its object literal. */
  function VisitationIndex(c: Visitation): (i: nat)
    ensures i < |AllVisitations| && AllVisitations[i] == c
  {
    match c
    case AllNodes => 0
    case PrevNodes => 1
    case NextNodes => 2
    case ParentNodes => 3
    case SiblingNodes => 4
    case PrevSibNodes => 5
    case NextSibNodes => 6
    case ChildNodes => 7
    case DescendantNodes => 8
  }

  /** The key under which `RelationshipTypes` publishes a relationship. */
  function RelationshipKey(r: Relationship): string
  {
    RelationshipTypes[RelationshipIndex(r)].0
  }

  /** The key under which `VisitationTypes` publishes a class. */
  function VisitationKey(c: Visitation): string
  {
    VisitationTypes[VisitationIndex(c)].0
  }

  /** The property `VisitNodes` reads to test for a class: its key, except `DescendantNodes`, which is not a key. */
  function VisitationProperty(c: Visitation): string
  {
    if c == DescendantNodes then "DescendantNodes" else VisitationKey(c)
  }

  /** Property access on an object literal: the value stored under `key`, or `undefined`. */
  function Member(table: seq<(string, string)>, key: string): JsValue
  {
    if table == [] then Undefined
    else if table[0].0 == key then Str(table[0].1)
    else Member(table[1..], key)
  }

  /** JavaScript's loose `==` restricted to these values: `null == undefined`, strings by content. */
  predicate LooseEquals(a: JsValue, b: JsValue)
  {
    match (a, b)
    case (Str(x), Str(y)) => x == y
    case (Str(_), _) => false
    case (_, Str(_)) => false
    case _ => true
  }

  /** A chain of `if (v === test) ...` (strict) or `if (v == test) ...` (loose): the first test passed selects its outcome. */
  function IfChain<T>(v: JsValue, tests: seq<(JsValue, T)>, loose: bool): Option<T>
  {
    if tests == [] then None
    else if (if loose then LooseEquals(v, tests[0].0) else v == tests[0].0) then Some(tests[0].1)
    else IfChain(v, tests[1..], loose)
  }

  /** `FindRelative`'s tests, in source order: `RelationshipTypes.<Name>` selects that relationship. */
  function RelationshipTests(): seq<(JsValue, Relationship)>
  {
    seq(|AllRelationships|, i requires 0 <= i < |AllRelationships| =>
      (Member(RelationshipTypes, RelationshipKey(AllRelationships[i])), AllRelationships[i]))
  }

  /** `VisitNodes`'s tests, in source order: `VisitationTypes.<Name>` selects that class. */
  function VisitationTests(): seq<(JsValue, Visitation)>
  {
    seq(|AllVisitations|, i requires 0 <= i < |AllVisitations| =>
      (Member(VisitationTypes, VisitationProperty(AllVisitations[i])), AllVisitations[i]))
  }

  /** The relationship a `FindRelative` argument selects (strict comparison), if any. */
  function RelationshipFrom(v: JsValue): Option<Relationship>
  {
    IfChain(v, RelationshipTests(), false)
  }

  /** The class a `VisitNodes` argument selects (loose comparison), if any. */
  function VisitationFrom(v: JsValue): Option<Visitation>
  {
    IfChain(v, VisitationTests(), true)
  }

  /** The argument the library's own wrappers pass for a relationship: `RelationshipTypes.<Name>`. */
  function RelationshipArg(r: Relationship): JsValue
  {
    Member(RelationshipTypes, RelationshipKey(r))
  }

  /** The argument the library's own wrappers pass for a class: `VisitationTypes.<Name>`. */
  function VisitationArg(c: Visitation): JsValue
  {
    Member(VisitationTypes, VisitationProperty(c))
  }

  /** Reading a key finds the first entry stored under it. */
  lemma {:induction false} MemberAt(table: seq<(string, string)>, i: nat, key: string)
    requires i < |table| && table[i].0 == key
    requires forall k :: 0 <= k < i ==> table[k].0 != key
    ensures Member(table, key) == Str(table[i].1)
  {
    if i > 0 {
      MemberAt(table[1..], i - 1, key);
    }
  }

  /** Reading a key no entry has gives `undefined`. */
  lemma {:induction false} MemberAbsent(table: seq<(string, string)>, key: string)
    requires forall k :: 0 <= k < |table| ==> table[k].0 != key
    ensures Member(table, key) == Undefined
  {
    if table != [] {
      MemberAbsent(table[1..], key);
    }
  }

  /** A chain selects the outcome of the first test the value passes. */
  lemma {:induction false} IfChainAt<T>(v: JsValue, tests: seq<(JsValue, T)>, loose: bool, i: nat)
    requires i < |tests|
    requires if loose then LooseEquals(v, tests[i].0) else v == tests[i].0
    requires forall k :: 0 <= k < i ==> !(if loose then LooseEquals(v, tests[k].0) else v == tests[k].0)
    ensures IfChain(v, tests, loose) == Some(tests[i].1)
  {
    if i > 0 {
      IfChainAt(v, tests[1..], loose, i - 1);
    }
  }

  /** Whatever a chain selects is the outcome of a test the value passes. */
  lemma {:induction false} IfChainSelected<T>(v: JsValue, tests: seq<(JsValue, T)>, loose: bool, x: T)
    requires IfChain(v, tests, loose) == Some(x)
    ensures exists i :: (0 <= i < |tests| && tests[i].1 == x &&
      (if loose then LooseEquals(v, tests[i].0) else v == tests[i].0))
  {
    if !(if loose then LooseEquals(v, tests[0].0) else v == tests[0].0) {
      IfChainSelected(v, tests[1..], loose, x);
      var i :| 0 <= i < |tests[1..]| && tests[1..][i].1 == x &&
        (if loose then LooseEquals(v, tests[1..][i].0) else v == tests[1..][i].0);
      assert tests[i + 1] == tests[1..][i];
    }
  }

  /** The relationship table: fourteen entries, each its own value, under distinct keys. */
  lemma {:induction false} RelationshipTypesTable()
    ensures |RelationshipTypes| == |AllRelationships| == 14
    ensures forall i :: 0 <= i < 14 ==> RelationshipTypes[i].1 == RelationshipTypes[i].0
    ensures forall i, k :: 0 <= i < k < 14 ==> RelationshipTypes[i].0 != RelationshipTypes[k].0
    ensures forall i :: 0 <= i < 14 ==> RelationshipIndex(AllRelationships[i]) == i
  {
  }

  /** The visitation table: nine entries, each its own value, under distinct keys; `DescendantNodes` is not one of them. */
  lemma {:induction false} VisitationTypesTable()
    ensures |VisitationTypes| == |AllVisitations| == 9
    ensures forall i :: 0 <= i < 9 ==> VisitationTypes[i].1 == VisitationTypes[i].0
    ensures forall i, k :: 0 <= i < k < 9 ==> VisitationTypes[i].0 != VisitationTypes[k].0
    ensures forall i :: 0 <= i < 9 ==> VisitationTypes[i].0 != "DescendantNodes"
    ensures forall i :: 0 <= i < 9 ==> VisitationIndex(AllVisitations[i]) == i
  {
  }

  /** Each relationship test compares with the relationship's own key. */
  lemma {:induction false} RelationshipTestValues()
    ensures forall i :: 0 <= i < |AllRelationships| ==>
      RelationshipTests()[i].0 == Str(RelationshipKey(AllRelationships[i]))
  {
    RelationshipTypesTable();
    forall i | 0 <= i < |AllRelationships|
      ensures RelationshipTests()[i].0 == Str(RelationshipKey(AllRelationships[i]))
    {
      MemberAt(RelationshipTypes, i, RelationshipKey(AllRelationships[i]));
    }
  }

  /** Each class test compares with the class's key, except the descendant test, which compares with `undefined`. */
  lemma {:induction false} VisitationTestValues()
    ensures forall i :: 0 <= i < |AllVisitations| ==>
      VisitationTests()[i].0 ==
        (if AllVisitations[i] == DescendantNodes then Undefined else Str(VisitationKey(AllVisitations[i])))
  {
    VisitationTypesTable();
    forall i | 0 <= i < |AllVisitations|
      ensures VisitationTests()[i].0 ==
        (if AllVisitations[i] == DescendantNodes then Undefined else Str(VisitationKey(AllVisitations[i])))
    {
      if AllVisitations[i] == DescendantNodes {
        MemberAbsent(VisitationTypes, "DescendantNodes");
      } else {
        MemberAt(VisitationTypes, i, VisitationKey(AllVisitations[i]));
      }
    }
  }

  /** `FindRelative` accepts exactly the fourteen published strings, each selecting its own relationship. */
  lemma {:induction false} RelationshipFromExactly(v: JsValue, r: Relationship)
    ensures RelationshipFrom(v) == Some(r) <==> v == Str(RelationshipKey(r))
  {
    RelationshipTypesTable();
    RelationshipTestValues();
    if RelationshipFrom(v) == Some(r) {
      IfChainSelected(v, RelationshipTests(), false, r);
    }
    if v == Str(RelationshipKey(r)) {
      IfChainAt(v, RelationshipTests(), false, RelationshipIndex(r));
    }
  }

  /** The value a class's test compares with: its key, or `undefined` for the descendant class. */
  function VisitationTestValue(c: Visitation): JsValue
  {
    if c == DescendantNodes then Undefined else Str(VisitationKey(c))
  }

  /** Whatever `VisitNodes` selects, the argument loosely equals that class's test value. */
  lemma {:induction false} VisitationFromSound(v: JsValue, c: Visitation)
    requires VisitationFrom(v) == Some(c)
    ensures LooseEquals(v, VisitationTestValue(c))
  {
    VisitationTestValues();
    IfChainSelected(v, VisitationTests(), true, c);
    var i :| 0 <= i < |VisitationTests()| && VisitationTests()[i].1 == c &&
      LooseEquals(v, VisitationTests()[i].0);
    assert AllVisitations[i] == c;
  }

  /** An argument loosely equal to a class's test value selects that class. */
  lemma {:induction false} VisitationFromComplete(v: JsValue, c: Visitation)
    requires LooseEquals(v, VisitationTestValue(c))
    ensures VisitationFrom(v) == Some(c)
  {
    VisitationTypesTable();
    VisitationTestValues();
    var i := VisitationIndex(c);
    forall k | 0 <= k < i
      ensures !LooseEquals(v, VisitationTests()[k].0)
    {
      assert VisitationTests()[k].0 == VisitationTestValue(AllVisitations[k]);
    }
    IfChainAt(v, VisitationTests(), true, i);
  }

  /**
   * `VisitNodes` accepts the eight correctly spelt keys, each selecting its own
   * class, and selects the descendant class exactly for `undefined` and `null`.
   */
  lemma {:induction false} VisitationFromExactly(v: JsValue, c: Visitation)
    ensures VisitationFrom(v) == Some(c) <==>
      if c == DescendantNodes then v == Undefined || v == Null else v == Str(VisitationKey(c))
  {
    if VisitationFrom(v) == Some(c) {
      VisitationFromSound(v, c);
    }
    if LooseEquals(v, VisitationTestValue(c)) {
      VisitationFromComplete(v, c);
    }
  }

  /** The published descendant value `'DecendantNodes'` selects no class: passing it makes `VisitNodes` throw. */
  lemma {:induction false} PublishedDescendantRejected()
    ensures VisitationKey(DescendantNodes) == "DecendantNodes"
    ensures VisitationFrom(Str(VisitationKey(DescendantNodes))) == None
  {
    VisitationTypesTable();
    var v := Str(VisitationKey(DescendantNodes));
    if VisitationFrom(v).Some? {
      VisitationFromExactly(v, VisitationFrom(v).value);
    }
  }

  /** What the library's own wrappers pass always selects the class they mean. */
  lemma {:induction false} VisitationArgSelects(c: Visitation)
    ensures VisitationArg(c) == (if c == DescendantNodes then Undefined else Str(VisitationKey(c)))
    ensures VisitationFrom(VisitationArg(c)) == Some(c)
  {
    VisitationTestValues();
    assert VisitationArg(c) == VisitationTests()[VisitationIndex(c)].0;
    VisitationFromExactly(VisitationArg(c), c);
  }

  /** What the library's own `Find*` wrappers pass always selects the relationship they mean. */
  lemma {:induction false} RelationshipArgSelects(r: Relationship)
    ensures RelationshipArg(r) == Str(RelationshipKey(r))
    ensures RelationshipFrom(RelationshipArg(r)) == Some(r)
  {
    RelationshipTestValues();
    assert RelationshipArg(r) == RelationshipTests()[RelationshipIndex(r)].0;
    RelationshipFromExactly(RelationshipArg(r), r);
  }
}
