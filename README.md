# lib-tree in Dafny

A verified model of the core of `lib-tree`, a JavaScript library that keeps a
tree as one doubly linked list of nodes in pre-order. Each node records its
`Indent`, which is its depth. Every tree question is answered by walking that
list:
- parent, siblings, children and descendants;
- visits of a class of relatives;
- child counts, insertions and removals;
- text graphs and text paths.

## The model

- **Items and nodes.** A JavaScript item is an object that carries a `Node`.
  That node carries `Owner`, `PrevNode`, `NextNode` and `Indent`. Both live in
  one arena, the class `LibTree.Tree`:
  - per item, its text and its current `Node` (`nodeOf`);
  - per node, `owner`, `prev`, `next` and `indent`.
- **Ghost state.** The arena keeps `order`, the list the links spell out from
  the root, and `depths`, the indent at each position.
- **Invariants.**
  - `Valid()` says the links spell out `order` and the indents have the shape
    of a pre-order walk.
  - `Owned()` says every listed node is still its owner's `Node`.
- **Position-level specification.** Everything the library computes is stated
  over positions of the list:
  - `PreOrder.Relative` gives the fourteen relationships;
  - `VisitClasses.ClassPositions` gives the nine visitation classes;
  - `Splice.Slot`, `Splice.Kids` and `Chains.Insert`/`Chains.Cut` describe the
    list edits;
  - `Paths.Graph`, `Paths.PathTo` and `Paths.Locate` describe the text
    functions.
- **Methods.** Each library function is a method that walks the arena's
  links as the JavaScript does. It is proved against those functions.

Modules follow the source files:
- `TreeTypes` is `tree-types.js`. Its two constant tables are datatypes, and
  JavaScript `===`/`==` are written out.
- `LibTree` is `lib-tree.js`.
- `Navigation` is `tree-navigation.js`.
- `Visitation` is `tree-visitation.js`.
- `Children` is `tree-children.js`.
- `Manipulation` is `tree-manipulation.js`.
- `Paths` is `tree-path.js`.
- `PreOrder`, `Chains`, `Splice` and `VisitClasses` hold the specification
  functions and their lemmas.
- `ReferenceTree` builds the fourteen-node tree the library's tests use. It
  proves the values those tests expect.

Conventions:
- A thrown error is a `Failure` of `Result`; `null` is `None`.
- An argument that is either a plain value or an item object is `ItemArg`.
- A visitor is a pure function from items to `Option`. `None` stands for
  `undefined`.

## Model

| member | source | states |
|---|---|---|
| TreeTypes.RelationshipTypesTable | src/tree-types.js:11-28 | The relationship table has fourteen entries, each stored under its own key with its own name as value, and the keys are distinct |
| TreeTypes.VisitationTypesTable | src/tree-types.js:38-50 | The visitation table has nine entries with distinct keys; `DescendantNodes` is not a key, because the entry is spelt `DecendantNodes` |
| TreeTypes.RelationshipTestValues | src/tree-navigation.js:65-238 | Each of `FindRelative`'s tests compares the argument with the relationship's own key |
| TreeTypes.VisitationTestValues | src/tree-visitation.js:49-95 | Each of `VisitNodes`'s tests compares with the class's key, except the descendant test, which compares with `undefined` |
| TreeTypes.RelationshipFromExactly | src/tree-navigation.js:65-250 | Under strict comparison, exactly the fourteen published strings select a relationship, each selecting its own |
| TreeTypes.VisitationFromSound | src/tree-visitation.js:49-99 | Any class `VisitNodes` selects is one whose test value loosely equals the argument |
| TreeTypes.VisitationFromComplete | src/tree-visitation.js:49-99 | An argument loosely equal to a class's test value selects that class |
| TreeTypes.VisitationFromExactly | src/tree-visitation.js:49-99 | The eight correctly spelt keys select their own classes; `undefined` and `null` select the descendant class |
| TreeTypes.PublishedDescendantRejected | src/tree-types.js:48 | The published value `'DecendantNodes'` selects no class, so passing it makes `VisitNodes` throw |
| TreeTypes.VisitationArgSelects | src/tree-visitation.js:153-285 | What the library's own `Visit*` wrappers pass always selects the class they mean |
| TreeTypes.RelationshipArgSelects | src/tree-navigation.js:290-449 | What the library's own `Find*` wrappers pass always selects the relationship they mean |
| TreeTypes.MemberAt | src/tree-types.js:11-50 | A property read finds the first entry stored under the key |
| TreeTypes.MemberAbsent | src/tree-types.js:11-50 | A property read of a missing key gives `undefined` |
| TreeTypes.IfChainAt | src/tree-navigation.js:65-243 | An if/else-if chain selects the outcome of the first test the value passes |
| TreeTypes.IfChainSelected | src/tree-visitation.js:49-99 | Whatever an if/else-if chain selects belongs to a test the value passes |
| PreOrder.ScanForward | src/tree-navigation.js:137-152 | Answers the first position at or after `k` shallower than `d` (or the end), with every position skipped at least as deep |
| PreOrder.ScanBackward | src/tree-navigation.js:109-136 | Answers the last position before `k` shallower than `d` (or -1), with every position skipped at least as deep |
| PreOrder.RootAt | src/tree-navigation.js:97-108 | Answers the shallowest position at or before `j`; ties go to the position nearest `j`, because the comparison is strict |
| PreOrder.SubtreeEnd | src/tree-navigation.js:228-243 | Answers one past the run of positions after `j` that are deeper than `j` |
| PreOrder.GroupStart | src/tree-navigation.js:153-168 | Answers the left boundary of `j`'s sibling group: the last shallower position, or -1 |
| PreOrder.GroupEnd | src/tree-navigation.js:169-184 | Answers the right boundary of `j`'s sibling group: the first later shallower position, or the end |
| PreOrder.Relative | src/tree-navigation.js:55-250 | Every answer lies in the list; the backward relationships answer an earlier position and the forward ones a later one |
| PreOrder.ParentIsNearestShallower | src/tree-navigation.js:109-120 | The parent is the nearest earlier shallower position; there is none exactly when no earlier position is shallower |
| PreOrder.PrevSiblingIsNearestLevel | src/tree-navigation.js:121-136 | The previous sibling is the nearest earlier position at the same level, with only deeper positions in between |
| PreOrder.NextSiblingIsNearestLevel | src/tree-navigation.js:137-152 | The next sibling is the nearest later position at the same level, with only deeper positions in between |
| PreOrder.SiblingGroupBounds | src/tree-navigation.js:153-184 | The first and last siblings always exist (possibly the node itself), sit at its level, and bound its group |
| PreOrder.FirstChildIsFirstInRun | src/tree-navigation.js:185-200 | The first child is the first position one level down in the deeper run; the position that ends the run is never returned |
| PreOrder.LastDescendantEndsRun | src/tree-navigation.js:228-243 | The last descendant is the last position of the deeper run, and `null` when the run is empty |
| PreOrder.FirstDescendantIsFirstChild | src/tree-navigation.js:185-227 | On a well-shaped list, `FirstDescNode` and `FirstChildNode` agree |
| PreOrder.ParentChildDuality | src/tree-navigation.js:109-120 | On a well-shaped list, `p` is `c`'s parent exactly when `c` is one level below `p` inside `p`'s subtree |
| Chains.Insert | src/tree-manipulation.js:17-34 | The list grows by exactly the new node at the given position, everything else keeping its order |
| Chains.Cut | src/tree-manipulation.js:49-65 | The list loses exactly the cut run, everything else keeping its order |
| Chains.InsertDistinct | src/tree-manipulation.js:17-34 | Inserting a node not yet listed keeps the nodes distinct |
| Chains.CutDistinct | src/tree-manipulation.js:49-65 | Cutting out a run keeps the nodes distinct |
| Chains.LinkedPrev | src/tree-manipulation.js:23-33 | After `Link`, the node points back at `p`, `q` points back at the node, and no other back link changes |
| Chains.LinkedNext | src/tree-manipulation.js:23-33 | After `Link`, the node points forwards at `q`, `p` points forwards at the node, and no other forward link changes |
| Chains.UnlinkedPrev | src/tree-manipulation.js:49-65 | After `Unlink`, the node has no back link, its successor points back at its predecessor, and nothing else changes |
| Chains.UnlinkedNext | src/tree-manipulation.js:49-65 | After `Unlink`, the node has no forward link, its predecessor points on at its successor, and nothing else changes |
| Chains.ChainFrame | src/tree-manipulation.js:17-65 | Whether the links spell out a list depends only on the links of the listed nodes |
| Chains.LinkInserts | src/tree-manipulation.js:17-34 | Linking an unlisted node between the neighbours at position `s` spells out the list with the node inserted at `s` |
| Chains.LinkedBefore | src/tree-manipulation.js:23-33 | After the link, nodes before the slot keep their links, except that the last one now points on at the new node |
| Chains.LinkedAfter | src/tree-manipulation.js:23-33 | After the link, nodes after the slot keep their links, except that the first one now points back at the new node |
| Chains.CutJoins | src/tree-children.js:194-202 | Joining the node before a run to the node after it spells out the list with the run cut out |
| Chains.JoinedBefore | src/tree-children.js:194-202 | After the join, nodes before the run keep their links, except that the last one now points on past the run |
| Chains.JoinedAfter | src/tree-children.js:194-202 | After the join, nodes after the run keep their links, except that the first one now points back past the run |
| Chains.UnlinkRemoves | src/tree-manipulation.js:49-65 | Unlinking the node at position `s` spells out the list without exactly that node |
| Chains.LinkUnlinkRoundTrip | src/tree-manipulation.js:17-65 | Unlinking a node just linked in restores every link and the list exactly |
| Splice.InsertAt | src/lib-tree.js:111-139 | A sequence with one element inserted before the `k`-th, or appended when `k` is not an index |
| Splice.Slot | src/lib-tree.js:109-139 | The walk's slot lies within the list, every position it skips is deeper than the parent, and the node at the slot is at most one below the parent |
| Splice.SlotMeaning | src/lib-tree.js:109-139 | `AddChild`'s slot is the `k`-th direct child, or the end of the parent's subtree when there is no `k`-th child |
| Splice.LevelsInsert | src/lib-tree.js:120-139 | When a node is inserted, its indent is inserted at the same position and every other level follows its node |
| Splice.LevelsCut | src/tree-children.js:194-206 | When a run is cut out, the levels of that run are cut out with it |
| Splice.InsertShaped | src/lib-tree.js:109-140 | A node spliced in at `AddChild`'s slot, one level below the parent, keeps the pre-order shape |
| Splice.CutShaped | src/tree-children.js:194-206 | Cutting out a run whose successor is at most one below its predecessor keeps the shape |
| Splice.SubtreeEndAfterInsert | src/lib-tree.js:109-140 | The parent's subtree grows by exactly the new node |
| Splice.KidsAfterInsert | src/lib-tree.js:111-139 | The parent's children become the old ones with the new node inserted before the `k`-th, or appended |
| Splice.Matching | src/tree-visitation.js:84-89 | The positions of a range at a given level, in increasing order, all inside the range and at that level |
| Splice.KidsAfterCut | src/tree-children.js:194-202 | Cutting out a child's subtree leaves the children before and after it |
| Splice.KidsAfterSubtreeCut | src/tree-children.js:194-202 | Cutting out the `i`-th child's subtree removes exactly that child from the children and keeps the shape |
| Splice.KidsAfterTruncation | src/tree-children.js:203-206 | Cutting off everything from the `i`-th child onwards leaves the first `i` children and keeps the shape |
| Splice.KidsAfterDescendantsCut | src/tree-children.js:224-234 | Cutting out the whole subtree below `j` leaves `j` with no children and keeps the shape |
| VisitClasses.ClassStart | src/tree-visitation.js:112-115 | A class whose start relationship answers `p` visits the walk from `p` |
| VisitClasses.AllClassIsWholeList | src/tree-visitation.js:49-53 | `AllNodes` visits every position once, from the head on, from any origin |
| VisitClasses.PrevClassCountsDown | src/tree-visitation.js:54-58 | `PrevNodes` visits the `j` earlier positions, nearest first |
| VisitClasses.NextClassIsTail | src/tree-visitation.js:59-63 | `NextNodes` visits every later position, in list order |
| VisitClasses.DescendantClassIsSubtree | src/tree-visitation.js:90-126 | `DescendantNodes` visits exactly the next position through the last descendant |
| VisitClasses.ChildClassIsKids | src/tree-visitation.js:84-126 | `ChildNodes` visits exactly the direct children, in list order |
| VisitClasses.SiblingClassIsGroup | src/tree-visitation.js:69-73 | `SiblingNodes` visits every position at the origin's level in its group, in order |
| VisitClasses.SiblingClassHasOrigin | src/tree-visitation.js:69-73 | The origin is always among the positions `SiblingNodes` visits |
| VisitClasses.ParentClassIsAncestors | src/tree-visitation.js:64-68 | `ParentNodes` visits one ancestor per level above the origin, nearest first |
| VisitClasses.PrevSibClassIsEarlier | src/tree-visitation.js:74-78 | `PrevSibNodes` visits exactly the earlier positions at the origin's level in its sibling group, nearest first |
| VisitClasses.PrevSibClassIsReversed | src/tree-visitation.js:74-78 | Those positions are the group's earlier level-matching positions in reverse list order |
| VisitClasses.NextSibClassIsLater | src/tree-visitation.js:79-83 | `NextSibNodes` visits exactly the later positions at the origin's level in its sibling group, in list order |
| VisitClasses.MatchingAppend | src/tree-visitation.js:74-78 | Widening a range at its top end adds the new position exactly when it is at the level looked for |
| VisitClasses.MatchingDownToLast | src/tree-visitation.js:74-78 | Listed from the top down, the level-`v` positions of a range start at the one `LastAt` finds |
| VisitClasses.MatchingDownReversed | src/tree-visitation.js:74-78 | Listing the level-`v` positions from the top down is listing them in list order, reversed |
| VisitClasses.PrevSiblingWalk | src/tree-visitation.js:74-78 | Stepping by `PrevSibNode` within a sibling run visits its level-`v` positions from the top down |
| LibTree.Tree.constructor | src/lib-tree.js:31-68 | A fresh root is a one-node list, owned, unlinked, at indent 0 |
| LibTree.Tree.IsNode | src/lib-tree.js:207-213 | True exactly for an item object that has a `Node` |
| LibTree.Tree.AsNode | src/lib-tree.js:31-68 | Wraps a plain value as a new item, installs a fresh unlinked node at indent 0, leaves the list as it was, and keeps ownership exactly when the item's old node was not listed |
| LibTree.Tree.LinkNode | src/lib-tree.js:87-104 | Refuses a node that has a link and then changes nothing; otherwise links it between `p` and `q` |
| LibTree.LinkKeepsOutside | src/tree-manipulation.js:23-33 | Linking a node between two listed neighbours changes the links and indent of no node outside the list other than the node itself |
| LibTree.KeptPastFresh | src/lib-tree.js:84-142 | Nodes kept outside the list from just after a fresh node was appended are kept from just before it |
| Manipulation.KeptPastReset | src/tree-manipulation.js:80-122 | Nodes kept outside the list from just after a node's reset are kept from just before it |
| LibTree.Tree.LinkChild | src/lib-tree.js:120-139 | Links the node at the slot, one level below the parent, keeping the arena consistent; nodes outside the list keep their links and indent |
| LibTree.Tree.FindSlot | src/lib-tree.js:109-135 | The walk answers the nodes on either side of `Slot`, past `k` direct children or to the end of the subtree |
| LibTree.Tree.PlaceChild | src/lib-tree.js:106-140 | The fresh node is inserted at the slot, one level below the parent, as child `k` or as the last child; nodes outside the list keep their links and indent |
| LibTree.Tree.AddChild | src/lib-tree.js:84-142 | Makes the argument an item with a fresh node at the slot: it becomes the `k`-th child (or the last), the list keeps its shape, and the re-added item that was already listed leaves its old node stranded; nodes outside the old list keep their links and indent |
| LibTree.AddedAtSlot | src/lib-tree.js:111-139 | Inserting at the slot one level below the parent makes the node child `k`, or the last child |
| LibTree.FreshNodeKeepsList | src/lib-tree.js:36-68 | A fresh unlinked node at indent 0 does not disturb the list |
| LibTree.FreshNodeOwnership | src/lib-tree.js:36 | A fresh node keeps ownership exactly when its item owned no listed node |
| LibTree.OutlineInsert | src/lib-tree.js:120-139 | Inserting one level below the parent at the slot keeps the outline |
| LibTree.InsertOwnership | src/lib-tree.js:107-140 | Linking an owned fresh node keeps ownership exactly when it held before |
| Navigation.ScanFirst | src/tree-navigation.js:73-84 | The backward walk reaches the head's owner |
| Navigation.ScanLast | src/tree-navigation.js:85-96 | The forward walk reaches the tail's owner, or the node itself on the tail |
| Navigation.ScanRoot | src/tree-navigation.js:97-108 | The backward walk answers the owner at `RootAt` |
| Navigation.ScanParent | src/tree-navigation.js:109-120 | The backward walk answers the parent's owner, or `null` |
| Navigation.ScanPrevSib | src/tree-navigation.js:121-136 | The backward walk answers the previous sibling's owner, or `null` |
| Navigation.ScanNextSib | src/tree-navigation.js:137-152 | The forward walk answers the next sibling's owner, or `null` |
| Navigation.ScanFirstSib | src/tree-navigation.js:153-168 | The backward walk answers the first sibling's owner (the node's own when it is first) |
| Navigation.ScanLastSib | src/tree-navigation.js:169-184 | The forward walk answers the last sibling's owner (the node's own when it is last) |
| Navigation.ScanFirstChild | src/tree-navigation.js:185-200 | The forward walk answers the first child's owner, or `null` |
| Navigation.ScanLastChild | src/tree-navigation.js:201-216 | The forward walk answers the last child's owner, or `null` |
| Navigation.ScanFirstDesc | src/tree-navigation.js:217-227 | Answers the next node's owner when it is deeper, else `null` |
| Navigation.ScanLastDesc | src/tree-navigation.js:228-243 | The forward walk answers the owner of the subtree's last node, or `null` for a leaf |
| Navigation.FindPrevNode | src/tree-navigation.js:260-265 | The owner of the node before, or `null` at the head |
| Navigation.FindNextNode | src/tree-navigation.js:275-280 | The owner of the node after, or `null` at the tail |
| Navigation.FindRelative | src/tree-navigation.js:55-250 | Throws `Unknown RelationshipType` exactly for an unpublished argument; otherwise answers the relative `Relative` describes, writing nothing |
| Navigation.FindFirstNode | src/tree-navigation.js:290-294 | Cannot throw; answers the head's owner |
| Navigation.FindLastNode | src/tree-navigation.js:304-308 | Cannot throw; answers the tail's owner, or the node itself on the tail |
| Navigation.FindRootNode | src/tree-navigation.js:318-322 | Cannot throw; answers the root's owner |
| Navigation.FindParentNode | src/tree-navigation.js:332-336 | Cannot throw; answers the parent's owner, or `null` |
| Navigation.FindPrevSiblingNode | src/tree-navigation.js:346-350 | Cannot throw; answers the previous sibling's owner, or `null` |
| Navigation.FindNextSiblingNode | src/tree-navigation.js:360-364 | Cannot throw; answers the next sibling's owner, or `null` |
| Navigation.FindFirstSiblingNode | src/tree-navigation.js:374-378 | Cannot throw; answers the first sibling's owner |
| Navigation.FindLastSiblingNode | src/tree-navigation.js:388-392 | Cannot throw; answers the last sibling's owner |
| Navigation.FindFirstChildNode | src/tree-navigation.js:402-406 | Cannot throw; answers the first child's owner, or `null` |
| Navigation.FindLastChildNode | src/tree-navigation.js:416-420 | Cannot throw; answers the last child's owner, or `null` |
| Navigation.FindFirstDescendantNode | src/tree-navigation.js:431-435 | Cannot throw; answers the first descendant's owner, or `null` |
| Navigation.FindLastDescendantNode | src/tree-navigation.js:445-449 | Cannot throw; answers the last descendant's owner, or `null` |
| Navigation.FirstSibFound | src/tree-navigation.js:153-168 | Where the backward sibling walk stops, the sibling it kept is the first one |
| Navigation.LastSibFound | src/tree-navigation.js:169-184 | Where the forward sibling walk stops, the sibling it kept is the last one |
| Navigation.LastChildFound | src/tree-navigation.js:201-216 | Where the forward child walk stops, the child it kept is the last one |
| Navigation.RootUnique | src/tree-navigation.js:97-108 | The root position the walk settles on is the only nearest shallowest one |
| Visitation.TraceStopsAtFirstAnswer | src/tree-visitation.js:101-141 | The visitor sees the owners in order up to and including the first answer, which is returned; with no answer it sees every owner and `undefined` is returned |
| Visitation.WalkVisit | src/tree-visitation.js:116-141 | What the loop visits from a position, by cases on the bound and on the visitor's answer |
| Visitation.VisitNodes | src/tree-visitation.js:38-142 | Answers `false` for a visitor that is not a function and throws for an unselected class; otherwise visits `VisitPositions` until the first answer, writing nothing |
| Visitation.VisitOpens | src/tree-visitation.js:101-115 | A visit opens with the origin when included, then walks on from the class's start |
| Visitation.VisitFrom | src/tree-visitation.js:116-141 | The loop's visit log and outcome are those of the walk from its start |
| Visitation.ResumeVisit | src/tree-visitation.js:116-141 | What remains of a visit resumed at a position, by cases |
| Visitation.VisitStep | src/tree-visitation.js:118-138 | One turn of the loop resumes the visit exactly one position further, or finishes it |
| Visitation.StepTo | src/tree-visitation.js:136-138 | `FindRelative` followed to the item's `Node` gives the node at the relative's position |
| Visitation.VisitAllNodes | src/tree-visitation.js:153-158 | Visits the whole list from its head, once each |
| Visitation.VisitPrevNodes | src/tree-visitation.js:169-174 | Visits the earlier nodes, nearest first |
| Visitation.VisitNextNodes | src/tree-visitation.js:185-190 | Visits the later nodes in list order |
| Visitation.VisitParentNodes | src/tree-visitation.js:201-206 | Visits the ancestors, nearest first |
| Visitation.VisitSiblingNodes | src/tree-visitation.js:217-222 | Visits the whole sibling group, so with `IncludeThis` the origin is visited twice |
| Visitation.VisitPrevSibNodes | src/tree-visitation.js:233-238 | Visits the `PrevSibNodes` class, which `PrevSibClassIsEarlier` shows is the earlier siblings, nearest first |
| Visitation.VisitNextSibNodes | src/tree-visitation.js:249-254 | Visits the `NextSibNodes` class, which `NextSibClassIsLater` shows is the later siblings, in list order |
| Visitation.VisitChildNodes | src/tree-visitation.js:265-270 | Visits the direct children in list order |
| Visitation.VisitDescendantNodes | src/tree-visitation.js:281-286 | Visits the subtree below in list order; the class is selected because `undefined == undefined` |
| Children.SilentVisit | src/tree-children.js:17-27 | A visitor that never answers sees the owner of every position, and the visit gives `undefined` |
| Children.ChildVisit | src/tree-children.js:41-50 | A silent child visit sees the owners of the children in list order |
| Children.DescendantVisit | src/tree-children.js:116-125 | A silent descendant visit sees the owners of the subtree below, in list order |
| Children.VisitSilently | src/tree-children.js:17-27 | The log of a silent visit is the owners along the class |
| Children.Children | src/tree-children.js:38-52 | The owners of the direct children, in list order |
| Children.ChildCount | src/tree-children.js:14-28 | The number of direct children, equal to the length of `Children` |
| Children.Child | src/tree-children.js:63-79 | The owner of the `index`-th child, or `null` for any index out of range, negative included |
| Children.Descendants | src/tree-children.js:113-127 | The owners of the subtree below, in list order |
| Children.DescendantCount | src/tree-children.js:89-103 | The size of the subtree below |
| Children.Descendant | src/tree-children.js:138-154 | The owner of the `index`-th node below, or `null` out of range |
| Children.Deleted | src/tree-children.js:208-234 | The deleted items lose their `Node` and every other item keeps its own |
| Children.CutOwnership | src/tree-children.js:194-208 | Cutting a run and deleting the `Node`s of its owners keeps every listed node owned |
| Children.OutlineCut | src/tree-children.js:194-206 | Cutting out a run after the head keeps the outline when the levels left keep their shape |
| Children.DescendantsDetached | src/tree-children.js:224-232 | The three link writes of `RemoveChildren` cut the descendants out and keep the arena consistent |
| Children.CutOut | src/tree-children.js:196-206 | The join both removals end with cuts the run out of the list |
| Children.RemovedUpTo | src/tree-children.js:194-206 | The run `RemoveChild` cuts ends past the child, either at the end of the child's subtree or at the end of the list |
| Children.DeleteNode | src/tree-children.js:208 | `delete Item.Node` changes only that item's `Node` |
| Children.Unhook | src/tree-children.js:194-208 | Cuts the run out and deletes the child's `Node` |
| Children.LastDescendant | src/tree-children.js:194-224 | `FindRelative(LastDescNode)` followed to its `Node`: the subtree's last node, or `null` for a leaf |
| Children.SubtreeBounds | src/tree-children.js:190-194 | The child's `Node`, its `PrevNode` and its last descendant, as the removal looks them up |
| Children.RemovalKids | src/tree-children.js:194-206 | What `RemoveChild` as written leaves of the children: all the others when the child has descendants, only the earlier ones otherwise |
| Children.RemoveChild | src/tree-children.js:188-210 | As written: `null` and no change without such a child; otherwise the child's item, without a `Node`, and the list cut up to `RemovedUpTo` |
| Children.RemoveChildCorrected | src/tree-children.js:188-210 | As intended: the child's subtree leaves the list and the node keeps its other children, in order |
| Children.ThreeLeaves | tests/tree-children-tests.js:133-141 | The list `[0,1,1,1]` of a root with three childless children is well shaped, its children are positions 1, 2 and 3, and child 0's subtree ends at position 2 |
| Children.LeafRemovalTruncates | src/tree-children.js:203-206 | On three leaves, removing child 0 as written leaves no children; the corrected removal leaves the other two |
| Children.ItemsDeleted | src/tree-children.js:234 | Deleting the `Node` of any items keeps the arena consistent |
| Children.ChildrenReleased | src/tree-children.js:220-236 | Once the children's `Node`s are deleted and the descendants cut out, every node left is still owned |
| Children.DeleteNodes | src/tree-children.js:234 | Each item in turn loses its `Node` |
| Children.LinkPast | src/tree-children.js:227-232 | The last descendant and the node after it point back at the node, and the node points past them |
| Children.DetachDescendants | src/tree-children.js:224-233 | The descendants leave the list and the node is joined to what followed them |
| Children.RemoveChildren | src/tree-children.js:220-236 | Answers the children's items as `Children` lists them; afterwards no descendants are left and only the direct children lose their `Node` |
| Children.ProgressStep | src/tree-children.js:170-174 | Adding the next argument as the last child extends what the loop has done by one |
| Children.AppendChild | src/lib-tree.js:84-142 | With no index the new node is spliced in at the end of the parent's subtree as its last child, one level below it; the item gets the new node and nodes outside the old list keep their links and indent |
| Children.AddChildren | src/tree-children.js:167-175 | Answers the arguments; their nodes are spliced in, in argument order, at the end of the parent's subtree one level below it; every item gets a node and the last argument naming it owns its node; nodes outside the old list keep their links and indent |
| Children.LastChildAdded | src/lib-tree.js:109-139 | With no index, the child goes at the end of the parent's subtree and after its old children; the parent keeps its position |
| Children.AppendAll | src/tree-children.js:170-174 | The loop over the arguments reaches the state where all of them are added, spliced and installed |
| Children.AddedAll | src/tree-children.js:167-175 | Once the loop has added every argument, its result is `AddChildren`'s promised state |
| Children.AppendNext | src/tree-children.js:170-174 | One turn of `AddChildren`'s loop keeps its invariants: the splice grows by one node, the new item is installed, outside nodes are untouched |
| Children.AppendedGrows | src/tree-children.js:170-174 | Appending one more last child extends the splice of `k` new nodes to `k + 1` |
| Children.InstalledStep | src/tree-children.js:170-174 | Installing one more argument keeps every earlier argument's item installed, unless a later one names it again |
| Children.KeptThrough | src/tree-children.js:170-174 | Nodes outside the list kept through each step are kept through the whole loop |
| Manipulation.Link | src/tree-manipulation.js:17-34 | Refuses a linked node and then changes nothing; otherwise links it between `p` and `q`, changing no other field |
| Manipulation.Unlink | src/tree-manipulation.js:49-65 | Removes the node's links and indent and joins its old neighbours |
| Manipulation.LinkUnlinkRestores | src/tree-manipulation.js:17-65 | Unlinking the node just linked restores the links and list exactly |
| Manipulation.ResetKeeps | src/tree-manipulation.js:86-88 | Resetting an unlisted node's links and indent keeps the arena consistent |
| Manipulation.LinkAt | src/tree-manipulation.js:101-121 | `Link` at the slot cannot fail on a reset node; the node lands there one level below the parent; nodes outside the list keep their links and indent |
| Manipulation.AddChild | src/tree-manipulation.js:80-122 | Resets the node, then places it at the same slot as the live `AddChild`, one level below the parent; nodes outside the old list keep their links and indent |
| Paths.RenderedStep | src/tree-path.js:36-58 | Rendering one more descendant appends its line after the lines before it |
| Paths.AppendIndents | src/tree-path.js:52-55 | The `for` loop appends the indent text once per index from `start` through `last` |
| Paths.ValidLaid | src/tree-path.js:36-45 | A consistent arena is laid out along its list |
| Paths.TextGraph | src/tree-path.js:22-60 | The text of exactly the node's subtree: the node's own text when asked for, then one line per descendant with one indent per level below |
| Paths.RenderSubtree | src/tree-path.js:33-58 | The loop over the `NextNode` links renders the graph |
| Paths.SegmentsCons | src/tree-path.js:93-98 | A name in front of the log becomes the rightmost segment |
| Paths.AncestorSegments | src/tree-path.js:82-98 | The ancestors from the node up spell out the path to the node |
| Paths.TopIsRoot | src/tree-path.js:82-92 | With no parent above, the topmost ancestor is the `RootNode` answer |
| Paths.TopBelow | src/tree-path.js:82-92 | Everything after the topmost ancestor up to the node is deeper than it |
| Paths.CollectedNames | src/tree-path.js:82-86 | The pushing visitor's log names the visited positions, in order |
| Paths.PrependSegments | src/tree-path.js:93-98 | The loop prepends delimiter and text for each index through `lastIndex` |
| Paths.TextPath | src/tree-path.js:76-100 | The path from the root to the node; without the root, that path with exactly the root's segment taken off |
| Paths.PathFromLog | src/tree-path.js:88-98 | The log's segments up to `lastIndex` are the path, or the path without the root's segment |
| Paths.IndexFrom | src/tree-path.js:136-142 | The first occurrence of the delimiter at or after a position, or -1 when there is none |
| Paths.IndexOf | src/tree-path.js:136-142 | `indexOf`: the first occurrence of the delimiter, or -1 |
| Paths.Strip | src/tree-path.js:136-139 | The stripped path is no longer than before and does not start with the delimiter |
| Paths.FirstNamed | src/tree-path.js:150-155 | The first candidate with the name, and `null` exactly when none has it |
| Paths.TraceFindsName | src/tree-path.js:150-155 | The name visitor answers the owner of the first candidate bearing the name, else the visit finishes |
| Paths.FindPath | src/tree-path.js:125-161 | The owner of the node `Locate` leads to, or `null` |
| Paths.EmptyDelimiterStalls | src/tree-path.js:136-139 | With an empty delimiter the strip test always holds and the strip removes nothing |
| Paths.FindPathCorrected | src/tree-path.js:118-125 | With an empty delimiter, answers this node's owner, as the documentation says; otherwise as `FindPath` |
| Paths.IndexOfAppend | src/tree-path.js:142 | Appending does not move a string's first delimiter |
| Paths.PlainHasNoDelimiter | src/tree-path.js:142-146 | A plain name holds no delimiter |
| Paths.LocateStep | src/tree-path.js:131-160 | A path of delimiter, plain name and rest moves to the first named candidate and goes on from there |
| Paths.FirstNamedUnique | src/tree-path.js:150-155 | The only candidate with a name is the one found |
| Paths.ChildFound | src/tree-path.js:150-155 | Looking for a child's name at its parent finds that child |
| Paths.PathLeadsBack | src/tree-path.js:76-161 | Following the path to `p` from its topmost ancestor arrives at `p` |
| Paths.PathSplit | src/tree-path.js:93-98 | The path to `p` is the path to its parent followed by the delimiter and `p`'s name |
| Paths.FindsTextPath | src/tree-path.js:76-161 | From the root, every node's text path leads back to it when names are non-empty, hold no delimiter, differ among siblings and from the parent |
| Paths.PathRoundTrip | src/tree-path.js:76-161 | `FindPath(TextPath(...))` from the root answers the node's own item |
| ReferenceTree.AppendStep | src/lib-tree.js:125-139 | Adding a child when everything after the parent is deeper appends to the list |
| ReferenceTree.GrowAppends | tests/tree-navigation-tests.js:22-35 | Calls that each add the next node as a last child grow the list into its whole order and levels |
| ReferenceTree.AddsAppend | tests/tree-navigation-tests.js:22-35 | Each of the tests' calls adds the next node as the last child of an earlier one |
| ReferenceTree.BuiltInPreOrder | tests/tree-navigation-tests.js:22-35 | The tests' calls build the pre-order A1, B1, C1, D1, D2, D3, C2, C3, B2, C4, C5, C6, B3, C7 at the expected levels |
| ReferenceTree.ReferenceShaped | tests/tree-navigation-tests.js:22-35 | The reference levels have the pre-order shape with the root first |
| ReferenceTree.SubtreeEnds | tests/tree-visitation-tests.js:122-130 | `B1`'s subtree runs through `C3`, and `A1`'s covers the whole list |
| ReferenceTree.VisitLength | src/tree-visitation.js:103-141 | A visit walks the class, after the origin when asked for |
| ReferenceTree.AncestorsOfC3 | tests/tree-visitation-tests.js:82-90 | `C3` has two ancestors |
| ReferenceTree.PrevCountFromC3 | tests/tree-visitation-tests.js:62-70 | From `C3`, 8 visits with the node itself and 7 without |
| ReferenceTree.NextCountFromC3 | tests/tree-visitation-tests.js:72-80 | From `C3`, 7 and 6 |
| ReferenceTree.ParentCountFromC3 | tests/tree-visitation-tests.js:82-90 | From `C3`, 3 and 2 |
| ReferenceTree.ChildCountFromB1 | tests/tree-visitation-tests.js:112-120 | From `B1`, 4 and 3 |
| ReferenceTree.KidsOfB1 | tests/tree-visitation-tests.js:112-120 | `B1`'s children are `C1`, `C2`, `C3` |
| ReferenceTree.DescendantCountFromB1 | tests/tree-visitation-tests.js:122-130 | From `B1`, 7 and 6 |
| ReferenceTree.AllCount | tests/tree-visitation-tests.js:48-60 | `AllNodes` visits all 14 nodes, with or without the node itself |
| ReferenceTree.ParentOfC1 | tests/tree-navigation-tests.js:78-82 | `C1`'s parent is `B1` |
| ReferenceTree.SiblingsOfC1 | tests/tree-navigation-tests.js:96-106 | `C1`'s first sibling is itself and its last is `C3` |
| ReferenceTree.GroupOfC1 | src/tree-navigation.js:45-46 | `C1`'s sibling group lies between `B1` and `B2` |
| ReferenceTree.ChildrenOfA1 | tests/tree-navigation-tests.js:108-130 | `A1`'s first child is `B1`, last child `B3`, last descendant `C7` |
| ReferenceTree.AncestorsOfD3 | tests/tree-path-tests.js:79-83 | `D3`'s ancestors are `C1`, `B1`, `A1` |
| ReferenceTree.PathOfD3 | tests/tree-path-tests.js:79-83 | The text path of `D3` is `/A1/B1/C1/D3` |
| ReferenceTree.StripsA1 | tests/tree-path-tests.js:92-97 | Stripping `/A1` leaves the one segment `A1` |
| ReferenceTree.FindsA1 | tests/tree-path-tests.js:92-97 | `/A1` from `A1` leads to `A1` |
| ReferenceTree.GraphOfA1Head | tests/tree-path-tests.js:48-52 | The first seven lines of `A1`'s graph |
| ReferenceTree.GraphOfA1 | tests/tree-path-tests.js:48-52 | `A1`'s graph with tab indents and newlines is the tests' expected string |

## Left out

- Tree.Owned: `Owned()` is required by `VisitNodes`, `TextPath`, `FindPath` and the `Children`, `Child` and `Remove*` methods. The library still runs them after `AddChild` re-adds an item that is already listed, leaving its old node stranded (src/lib-tree.js:107). Those calls are not modelled.
- ItemArg: an argument is a plain string value or an item of the arena. This drops the `TypeError` that `AsNode(null)` raises (src/lib-tree.js:34-36), non-string data, an item without the text property, and `FindPath`'s strict `===` against values of other types.
- Manipulation.Unlink: `delete _hnIndent` is modelled as setting the indent to 0, and `delete Item.Node` as `None`.
- Manipulation.AddChild: `requires n !in t.order` excludes a `ChildNode` that is still linked in the list, whose links the source overwrites without unlinking it (src/tree-manipulation.js:86-88). Because its walk is textually the same loop as the live `AddChild`'s (src/tree-manipulation.js:90-121 against src/lib-tree.js:109-139), the model reuses `LibTree.Tree.FindSlot` for it.
- Default arguments (`ChildIndex` -1, `IncludeThis`, `IndentText`, `EolText`, `IncludeRoot`, `Delimiter`) are not modelled; every argument is explicit.
- Children.Child: a non-integer index (strict `===` against an integer counter, src/tree-children.js:63-79; src/lib-tree.js:116) is not modelled; indices are integers.
- Tree: the arena tracks one list, so an item detached with `AsNode` cannot be queried as a tree of its own.
- Method wiring: src/lib-tree.js:147-187 attaches functions to each new node. It installs the misspelled `FindFirstDescendentNode`/`FindLastDescendentNode` (lines 174-175), which are `undefined`. It does not install `FindPrevNode`, `FindNextNode` or the nine `Visit*` wrappers (only `VisitNodes`, line 180). The model calls every operation directly, so these gaps are not represented.
- Paths.FindPath: the `IncludeThis` parameter is accepted and never read. A non-empty path with an empty delimiter is excluded by `requires`, because the source does not terminate there (see Findings).
- Visitors are pure functions returning `Option`; their side effects are modelled only as the visit log the methods return.
- `AddChildren`, `RemoveChild` and `RemoveChildren` in src/tree-manipulation.js are not part of this model. They refer to the undefined globals `HierNodeLib`, `RelationshipTypes` and `VisitationTypes` and are wired nowhere.
- Error messages are an error code each; the text of the thrown `Error` is not modelled.

## Findings

| source | as written | input that shows it | evidently intended | confidence | as-written member | corrected member |
|---|---|---|---|---|---|---|
| src/tree-children.js:203-206 | For a child without descendants, `RemoveChild` sets the previous node's `NextNode` to `null`, so every node after the child leaves the list | a root with three children and no grandchildren, `RemoveChild(0)`: the root is left with no children | The child is its own last descendant: join the previous node to the child's `NextNode`, leaving the other two children | not executed | Children.RemoveChild, Children.LeafRemovalTruncates | Children.RemoveChildCorrected |
| src/tree-path.js:123-139 | With an empty `Delimiter`, `indexOf('')` is 0, so the stripping loop never ends on a non-empty path | `FindPath('A1', 'Data', true, '')` on any node | As documented, an empty delimiter answers this node | not executed | Paths.EmptyDelimiterStalls | Paths.FindPathCorrected |
