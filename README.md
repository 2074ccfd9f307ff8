# PQ-tree reduction core of GTea, modelled in Dafny

GTea tests planarity with Booth and Lueker's PQ-tree algorithm. This project models that
core: the tree node with its circular sibling lists (`planaritypq/PQNode.java`) and the
three passes of `planaritypq/pqtree/PQTree.java`:

- `bubble` walks up from the leaf set S, blocking and unblocking nodes and counting
  pertinent children.
- `reduce` works bottom-up. It tries the templates L1, P1–P6 and Q1–Q3 in a fixed order
  on each node.
- `root` looks for the lowest node that the upward walks from S meet in.

Java references become indices into an arena. `PQNodes.Arena` holds the nodes as a sequence of
`Node` records, and a `Link` is `Null` or `Ref(i)`. Every Java method that changes nodes
becomes a method of the arena (or a method taking the arena) that assigns that sequence,
and its contract states the new sequence against the old one. Pure queries become
functions. A Java method that throws (a null dereference, an index out of range, a failed
cast, an unsupported `add` on an immutable set) or never returns (a walk round a cycle)
gives `Fault` of the `Outcome` datatype. A method that throws after changing some fields
keeps those changes.

Walks along `next`, `prev` and `parent` links have no progress check in Java. Here they
are bounded by the number of nodes. For each such walk a lemma shows that running out of
that bound means the Java loop never ends (pigeonhole: the walk has returned to a node it
already visited): `EmptySiblingFaultIsEndless`, `SiblingsAdjacentFaultIsEndless`,
`DepthFaultNeverReaches`.

Modules, one per part of the program:
- `Outcomes`: the result types.
- `PQNodes`: `PQNode.java`.
- `Rings`: ring integrity of the list primitives.
- `SiblingRuns`: `siblingsAdjacent` and `maximalConsecutiveSetOfSiblingsAdjacent`.
- `Helpers`: the methods of PQHelpers and of the P-node and Q-node classes that the
  templates call.
- `PTemplates` and `QTemplates`: the templates.
- `Q3Scanner`: the scan loop of Q3.
- `Bubbling`, `Reduction` and `PertinentRoot`: the three passes.
- `Counting`: the pigeonhole lemma.

Notes on what the code does, which the model follows:
- `root` keeps the candidate with the fewest parent steps up to T: the one nearest the
  top of the tree. Booth and Lueker's ROOT(T, S) is the deepest node whose subtree holds
  all of S, the one nearest the leaves.
- `maximalConsecutiveSetOfSiblingsAdjacent` breaks a tie between two runs of equal size
  in favour of the right run.
- The ring primitives can leave a half-linked ring when a link is null: they throw after
  the first write.
- `bubble` sets the off-the-top flag to 1 however often the pass leaves the top. It does
  not treat a second time as an error.

One place where the model does not follow the code: the Q3 scan as written needs at least
one FULL child between the two PARTIAL ones, and accepts a FULL child after them (see
Findings). `QTemplates.TemplateQ3`, and `Reduction.Reduce` through it, run the corrected
scan. Both scans are modelled, and `Q3Scanner` proves what each accepts.

## Model

| member | source | states |
|---|---|---|
| PQNodes.Fresh | src/main/java/graphtea/extensions/reports/planarity/planaritypq/PQNode.java:36-45 | a new node is not blocked and not queued; both counters and the child count are 0; it has no ring links, no parent and no children; it has the kind and label it was made with |
| PQNodes.Arena.NewNode | src/main/java/graphtea/extensions/reports/planarity/planaritypq/PQNode.java:36-45 | allocation appends exactly one such fresh node, returns its index and changes no other node |
| PQNodes.OfLabel | src/main/java/graphtea/extensions/reports/planarity/planaritypq/PQNode.java:51-59 | the label filter takes from the list exactly the members with that label, and no more members than the list has |
| PQNodes.Arena.PartialChildren | src/main/java/graphtea/extensions/reports/planarity/planaritypq/PQNode.java:51-59 | the loop returns the PARTIAL children in child order |
| PQNodes.Arena.FullChildren | src/main/java/graphtea/extensions/reports/planarity/planaritypq/PQNode.java:130-138 | the loop returns the FULL children in child order |
| PQNodes.EndmostChildren | src/main/java/graphtea/extensions/reports/planarity/planaritypq/PQNode.java:68-80 | the children list exactly for a Q-node; null (the caught exception) for any other kind |
| PQNodes.EmptySiblingFrom | src/main/java/graphtea/extensions/reports/planarity/planaritypq/PQNode.java:82-93 | a node the walk returns is never the start node and is labelled EMPTY |
| PQNodes.Arena.EmptySibling | src/main/java/graphtea/extensions/reports/planarity/planaritypq/PQNode.java:82-93 | the loop computes the bounded walk `EmptySiblingFrom` and changes nothing |
| PQNodes.EmptySiblingOnRing | src/main/java/graphtea/extensions/reports/planarity/planaritypq/PQNode.java:82-93 | on a closed ring the walk does not fail. It returns null exactly when no other member is EMPTY, and otherwise the first EMPTY member after the start |
| PQNodes.EmptySiblingFaultIsEndless | src/main/java/graphtea/extensions/reports/planarity/planaritypq/PQNode.java:84-92 | a fault means the Java loop either reads the label of a null link or goes round a cycle, avoiding the start node and every EMPTY node, for ever |
| PQNodes.Arena.RemoveFromCircularLink | src/main/java/graphtea/extensions/reports/planarity/planaritypq/PQNode.java:95-100 | a null `next` faults with nothing changed. A null `prev` faults after `next.prev` was written. Otherwise the result is `Unlinked` |
| PQNodes.UnlinkedEffect | src/main/java/graphtea/extensions/reports/planarity/planaritypq/PQNode.java:95-100 | after unlinking, the former neighbours point at each other and the node has no links. Only links change, and only on those three nodes |
| Rings.UnlinkKeepsRing | src/main/java/graphtea/extensions/reports/planarity/planaritypq/PQNode.java:95-100 | removing the first member of a ring of two or more leaves the others a ring in their old order, with the removed node detached |
| PQNodes.ImmediateSiblings | src/main/java/graphtea/extensions/reports/planarity/planaritypq/PQNode.java:102-109 | the list holds `prev` and then `next`, each exactly when it is non-null, and nothing else |
| PQNodes.ImmediateSiblingsOnRing | src/main/java/graphtea/extensions/reports/planarity/planaritypq/PQNode.java:102-109 | on a ring of at least three members, the siblings are the members before and after |
| PQNodes.Arena.ReplaceInCircularLink | src/main/java/graphtea/extensions/reports/planarity/planaritypq/PQNode.java:111-118 | a null `next` faults with nothing changed. A `prev` that is still null after `next.prev := x` faults after that one write. Otherwise the result is `Spliced`; the arena stays valid |
| PQNodes.SplicedEffect | src/main/java/graphtea/extensions/reports/planarity/planaritypq/PQNode.java:111-118 | after the splice, the neighbours point at `x`, `x` has the old links, the replaced node has none, and no other node changes |
| Rings.SpliceKeepsRing | src/main/java/graphtea/extensions/reports/planarity/planaritypq/PQNode.java:111-118 | on a ring of two or more, `x` takes the place of the replaced node in the ring, and that node is detached |
| Rings.SpliceSingleton | src/main/java/graphtea/extensions/reports/planarity/planaritypq/PQNode.java:111-118 | on a one-node ring, `x.next` is left pointing at the detached node, so `x` is not a ring |
| PQNodes.Arena.ReplaceInImmediateSiblings | src/main/java/graphtea/extensions/reports/planarity/planaritypq/PQNode.java:120-124 | only the two links of the receiver change, to the given ones |
| PQNodes.ImmediateSiblingOfKind | src/main/java/graphtea/extensions/reports/planarity/planaritypq/PQNode.java:144-152 | `next` when it has the kind, else `prev` when it has it, else null. It faults exactly when `next` is null, or does not match while `prev` is null |
| SiblingRuns.SiblingsAdjacent | src/main/java/graphtea/extensions/reports/planarity/planaritypq/PQNode.java:221-251 | null exactly when the node is in the other state. Otherwise a set holding the node, all of whose members are in the asked state; an immutable set is exactly `{v}` |
| SiblingRuns.SiblingsAdjacentIsRun | src/main/java/graphtea/extensions/reports/planarity/planaritypq/PQNode.java:221-251 | when the walk stops within the bound, the result is exactly the set of nodes passed in the asked state. It is immutable exactly when that set is the node alone |
| SiblingRuns.SiblingsAdjacentOnlyRun | src/main/java/graphtea/extensions/reports/planarity/planaritypq/PQNode.java:221-251 | conversely, every set returned is such a run |
| SiblingRuns.SiblingsAdjacentFaultIsEndless | src/main/java/graphtea/extensions/reports/planarity/planaritypq/PQNode.java:221-251 | with the bound of one call per node, a fault means the Java recursion goes round a cycle in the asked state for ever |
| SiblingRuns.EndlessIsFault | src/main/java/graphtea/extensions/reports/planarity/planaritypq/PQNode.java:221-251 | a walk that goes on for ever in the asked state does fault |
| SiblingRuns.LeftRun | src/main/java/graphtea/extensions/reports/planarity/planaritypq/PQNode.java:179-181 | null without `prev`; otherwise a run in the asked state |
| SiblingRuns.RightRun | src/main/java/graphtea/extensions/reports/planarity/planaritypq/PQNode.java:182-184 | null without `next`; otherwise a run in the asked state |
| SiblingRuns.MaximalConsecutive | src/main/java/graphtea/extensions/reports/planarity/planaritypq/PQNode.java:176-219 | corrected method: it faults exactly when a side walk faults, is null exactly when both sides are null, and returns only nodes in the asked state |
| SiblingRuns.MaximalConsecutiveJoins | src/main/java/graphtea/extensions/reports/planarity/planaritypq/PQNode.java:204-211 | for a node in the asked state, the result is both side runs plus the node |
| SiblingRuns.MaximalConsecutiveChoosesLarger | src/main/java/graphtea/extensions/reports/planarity/planaritypq/PQNode.java:213-218 | for a node in the other state, the result is one side run, at least as large as the other, the right one on a tie, and without the node |
| SiblingRuns.MaximalConsecutiveAsWritten | src/main/java/graphtea/extensions/reports/planarity/planaritypq/PQNode.java:176-219 | the code as written: it faults when a side walk faults, and agrees with the corrected method for a node in the other state |
| SiblingRuns.MaximalConsecutiveAsWrittenFaults | src/main/java/graphtea/extensions/reports/planarity/planaritypq/PQNode.java:186-207 | the code as written faults exactly where the corrected method faults, or where the node is in the asked state and a side run is the immutable singleton. Otherwise the two agree |
| SiblingRuns.MaximalConsecutiveAsWrittenThrows | src/main/java/graphtea/extensions/reports/planarity/planaritypq/PQNode.java:193-197 | a three-node input where the code as written throws while the corrected result is `{0, 1}` |
| PTemplates.TemplateL1 | src/main/java/graphtea/extensions/reports/planarity/planaritypq/pqtree/PQTree.java:232-237 | true exactly for a node that is neither a P-node nor a Q-node |
| PTemplates.ChildrenAllLabelled | src/main/java/graphtea/extensions/reports/planarity/planaritypq/pqtree/PQTree.java:262-266 | the loop answers whether every child has the label |
| PTemplates.GeneralizedTemplate1 | src/main/java/graphtea/extensions/reports/planarity/planaritypq/pqtree/PQTree.java:260-272 | true exactly when the node is not FULL and all its children are. Then only its label changes, to FULL; otherwise nothing changes |
| PTemplates.TemplateP1 | src/main/java/graphtea/extensions/reports/planarity/planaritypq/pqtree/PQTree.java:294-299 | false for a node that is not a P-node; for a P-node, template 1 with its effect |
| PTemplates.SplitsEmptyFullMeans | src/main/java/graphtea/extensions/reports/planarity/planaritypq/pqtree/PQTree.java:332-349 | the size tests of P2 and P3 hold exactly when the node is a P-node with an EMPTY and a FULL child and no child of another label |
| PTemplates.TemplateP2 | src/main/java/graphtea/extensions/reports/planarity/planaritypq/pqtree/PQTree.java:324-370 | it matches exactly when the size tests hold. With one FULL child nothing changes. Otherwise the FULL children move, in order, under a new FULL P-node, and the node keeps its EMPTY children followed by the new node; counters are kept |
| PTemplates.GatherFulls | src/main/java/graphtea/extensions/reports/planarity/planaritypq/pqtree/PQTree.java:357-366 | the new FULL P-node has the node as its parent and the FULL children as its children, and those children leave the node |
| PTemplates.TemplateP3 | src/main/java/graphtea/extensions/reports/planarity/planaritypq/pqtree/PQTree.java:398-471 | it matches exactly when the size tests hold. Then a new PARTIAL Q-node takes the place of the node among its parent's children, and no other existing node's children change. Its two children (a lone child, or a new P-node over that side) form a closed ring, the new P-nodes have the Q-node as parent, and no existing label or counter changes |
| PTemplates.MakePartialQNode | src/main/java/graphtea/extensions/reports/planarity/planaritypq/pqtree/PQTree.java:423-470 | the replacement phase of P3, from the EMPTY and FULL children, with the ring and parents stated |
| PTemplates.BuildSides | src/main/java/graphtea/extensions/reports/planarity/planaritypq/pqtree/PQTree.java:438-466 | the two new P-nodes hold the EMPTY and the FULL children under the Q-node, and the chosen two children form a closed ring in that order; no existing label or counter changes |
| PTemplates.MakeSides | src/main/java/graphtea/extensions/reports/planarity/planaritypq/pqtree/PQTree.java:438-446 | the two new P-nodes have the Q-node as parent and the EMPTY and FULL children |
| PTemplates.LinkSides | src/main/java/graphtea/extensions/reports/planarity/planaritypq/pqtree/PQTree.java:448-466 | the three sub-cases link the chosen pair into a ring of two under the Q-node |
| PTemplates.TemplateP4 | src/main/java/graphtea/extensions/reports/planarity/planaritypq/pqtree/PQTree.java:503-598 | a non-match returns false with nothing changed, and a match never returns false. It faults exactly when the PARTIAL Q-node has fewer than two children. On success the FULL children leave the node, their group hangs under the Q-node, every child of the Q-node points at it, and no label or counter changes |
| PTemplates.MoveFullsToQNode | src/main/java/graphtea/extensions/reports/planarity/planaritypq/pqtree/PQTree.java:541-597 | the replacement phase of P4, once the ends of the Q-node are read |
| PTemplates.DetachFulls | src/main/java/graphtea/extensions/reports/planarity/planaritypq/pqtree/PQTree.java:545-569 | the FULL children leave the node, and the lone one, or a new FULL P-node over them, gets the Q-node as parent |
| PTemplates.Reattach | src/main/java/graphtea/extensions/reports/planarity/planaritypq/pqtree/PQTree.java:553-594 | the group joins the Q-node at the end that is not EMPTY, and the children of the Q-node point at it. If the node is left with one child and has a parent, the Q-node replaces it among that parent's children; otherwise no children list but the Q-node's changes (both stated when the node did not end up under the Q-node) |
| PTemplates.AttachAtFullEnd | src/main/java/graphtea/extensions/reports/planarity/planaritypq/pqtree/PQTree.java:553-564 | the insertion touches only sibling links, the Q-node's children and parents, which are set to the Q-node |
| PTemplates.ClassifyChildren | src/main/java/graphtea/extensions/reports/planarity/planaritypq/pqtree/PQTree.java:641-652 | the loop returns the Q-node children and the other EMPTY and FULL children, each in child order |
| PTemplates.TemplateP5 | src/main/java/graphtea/extensions/reports/planarity/planaritypq/pqtree/PQTree.java:627-697 | a non-match returns false with nothing changed. A match never returns false. For a node that is neither its own child nor its parent's parent, it faults exactly when the node has no parent, and on success the Q-node replaces the node among its parent's children. On success the Q-node's children point at it and no existing label or counter changes |
| PTemplates.GroupUnderQNode | src/main/java/graphtea/extensions/reports/planarity/planaritypq/pqtree/PQTree.java:658-693 | the EMPTY group and then the FULL group join the Q-node. When neither the node nor its parent is among the grouped nodes or the Q-node, it faults exactly when the node has no parent, and otherwise the Q-node replaces the node among its parent's children and has that parent |
| PTemplates.Group | src/main/java/graphtea/extensions/reports/planarity/planaritypq/pqtree/PQTree.java:661-670 | nothing for no children, the lone child for one, a new labelled P-node over several; the result joins the Q-node |
| PTemplates.TakePlace | src/main/java/graphtea/extensions/reports/planarity/planaritypq/pqtree/PQTree.java:684-693 | faults exactly without a parent, after giving the Q-node the null parent. Otherwise the Q-node replaces the node among its parent's children and gets that parent; its children point at it; no other children list changes, and only parents of the Q-node and its children change |
| PTemplates.TemplateP6 | src/main/java/graphtea/extensions/reports/planarity/planaritypq/pqtree/PQTree.java:729-894 | a non-match returns false with nothing changed, and a match returns true. It makes a new FULL P-node and a new PARTIAL Q-node, joins the four ends of the two Q-nodes into one ring (through the P-node when it holds children), and places the new Q-node |
| PTemplates.MatchP6 | src/main/java/graphtea/extensions/reports/planarity/planaritypq/pqtree/PQTree.java:731-806 | the matching phase changes nothing. It is true exactly when the template applies, and then yields the two Q-node children and the FULL children |
| PTemplates.MergeQNodes | src/main/java/graphtea/extensions/reports/planarity/planaritypq/pqtree/PQTree.java:809-890 | the replacement phase of P6 leaves the new nodes, the joined ring and the placement that `MergedAs` describes |
| PTemplates.JoinQNodes | src/main/java/graphtea/extensions/reports/planarity/planaritypq/pqtree/PQTree.java:813-858 | makes the FULL P-node, turns the Q-nodes as needed and links their ends. Among existing nodes, only links and the two Q-nodes' children change |
| PTemplates.OrientQNodes | src/main/java/graphtea/extensions/reports/planarity/planaritypq/pqtree/PQTree.java:819-836 | the first Q-node is turned when its ends are FULL then EMPTY, the second when they are EMPTY then FULL, and the ends are read again |
| PTemplates.JoinRings | src/main/java/graphtea/extensions/reports/planarity/planaritypq/pqtree/PQTree.java:838-858 | the link writes, in their order, for both the bridged and the direct case |
| PTemplates.Bridge | src/main/java/graphtea/extensions/reports/planarity/planaritypq/pqtree/PQTree.java:845-851 | with a FULL P-node between them, the P-node comes after the first Q-node's right end and before the second's left end, and the link from the second's right end back to the first's left end survives; only sibling links change |
| PTemplates.Close | src/main/java/graphtea/extensions/reports/planarity/planaritypq/pqtree/PQTree.java:852-858 | without it, the ends are linked directly, right end of each to left end of the other; only those four nodes' sibling links change |
| PTemplates.EncloseInQNode | src/main/java/graphtea/extensions/reports/planarity/planaritypq/pqtree/PQTree.java:860-890 | the inner ends lose their parent, the merging Q-node is placed, and its children point at it; links do not change |
| PTemplates.Adopt | src/main/java/graphtea/extensions/reports/planarity/planaritypq/pqtree/PQTree.java:867-886 | the merging Q-node replaces the node in its parent, or, at the top, replaces the FULL children and both Q-nodes among the node's children |
| PTemplates.AdoptAtRoot | src/main/java/graphtea/extensions/reports/planarity/planaritypq/pqtree/PQTree.java:878-886 | at the top, the merging Q-node gets the node as parent, and the node's children lose the FULL children and both Q-nodes and gain the merging Q-node at the end; no other node changes |
| QTemplates.LabelWalk | src/main/java/graphtea/extensions/reports/planarity/planaritypq/pqtree/PQTree.java:246-254 | the do-while loop is false at the first sibling with another label, true on coming back to the front, and faults on a null link |
| QTemplates.WalkOnRing | src/main/java/graphtea/extensions/reports/planarity/planaritypq/pqtree/PQTree.java:246-254 | on a ring with enough fuel, the walk answers whether every member from the position on has the label |
| QTemplates.QNodeTemplate1Result | src/main/java/graphtea/extensions/reports/planarity/planaritypq/pqtree/PQTree.java:240-254 | faults for a node that is not a Q-node or has no children; otherwise it is the walk round the first child's ring |
| QTemplates.QNodeTemplate1OnRing | src/main/java/graphtea/extensions/reports/planarity/planaritypq/pqtree/PQTree.java:240-257 | when the children form the sibling ring, the template answers whether all of them have the first child's label |
| QTemplates.QNodeTemplate1 | src/main/java/graphtea/extensions/reports/planarity/planaritypq/pqtree/PQTree.java:240-258 | on success the node takes the shared label and nothing else changes; on false or a fault nothing changes |
| QTemplates.TemplateQ1 | src/main/java/graphtea/extensions/reports/planarity/planaritypq/pqtree/PQTree.java:917-923 | false for a node that is not a Q-node; otherwise the all-alike template |
| QTemplates.TemplateQ2 | src/main/java/graphtea/extensions/reports/planarity/planaritypq/pqtree/PQTree.java:948-1043 | a non-match returns false with nothing changed. With no PARTIAL child it only labels the node PARTIAL. With one, it faults exactly where the reads of ends and siblings fail, and otherwise returns true with the node PARTIAL, no other label or counter changed, and its children pointing at it |
| QTemplates.MergePartialChild | src/main/java/graphtea/extensions/reports/planarity/planaritypq/pqtree/PQTree.java:994-1040 | labels the node PARTIAL, turns the PARTIAL child when the turning rule says so, and splices its children in |
| QTemplates.TurnDecision | src/main/java/graphtea/extensions/reports/planarity/planaritypq/pqtree/PQTree.java:999-1036 | decides whether to turn the child in each of the three positions, faulting where the Java reads a null link or past a list end |
| QTemplates.ScanChildren | src/main/java/graphtea/extensions/reports/planarity/planaritypq/pqtree/PQTree.java:1107-1160 | the loop computes the corrected scan of the children and changes nothing |
| QTemplates.ScanEnds | src/main/java/graphtea/extensions/reports/planarity/planaritypq/pqtree/PQTree.java:1107-1160 | the EMPTY children collected by the scan are a prefix and a suffix of the child list |
| QTemplates.TemplateQ3 | src/main/java/graphtea/extensions/reports/planarity/planaritypq/pqtree/PQTree.java:1069-1193 | with the corrected scan: a non-match returns false with nothing changed. A match faults exactly when either side has no EMPTY child. When `rotateIfNeeded` refuses, it returns false with the node already labelled PARTIAL and no other label or counter changed. Otherwise it returns true with the tree `Q3Replaced` describes |
| QTemplates.Q3Replace | src/main/java/graphtea/extensions/reports/planarity/planaritypq/pqtree/PQTree.java:1162-1192 | the replacement phase from the EMPTY children the scan collected |
| QTemplates.OrientPartials | src/main/java/graphtea/extensions/reports/planarity/planaritypq/pqtree/PQTree.java:1164-1174 | labels the node PARTIAL, re-reads and turns both PARTIAL children, and is false when one refuses; the casts cannot fail |
| QTemplates.JoinHalves | src/main/java/graphtea/extensions/reports/planarity/planaritypq/pqtree/PQTree.java:1177-1191 | the new children are: left EMPTY children, the first PARTIAL child's children, the FULL children, the second's children, right EMPTY children. The list is linked into a ring and the children point at the node. It faults when a side has no EMPTY child |
| QTemplates.LinkAsChildren | src/main/java/graphtea/extensions/reports/planarity/planaritypq/pqtree/PQTree.java:1185-1190 | the last three steps, changing parents only to the node |
| Q3Scanner.Step | src/main/java/graphtea/extensions/reports/planarity/planaritypq/pqtree/PQTree.java:1114-1159 | one turn of the loop, as written or corrected: the counter never goes down, and EMPTY children are collected only on the left before the first PARTIAL and on the right after the last |
| Q3Scanner.Scan | src/main/java/graphtea/extensions/reports/planarity/planaritypq/pqtree/PQTree.java:1110-1160 | the whole loop: the final counter and the collected lists, or the early `return false` |
| Q3Scanner.ScanAcceptsShape | src/main/java/graphtea/extensions/reports/planarity/planaritypq/pqtree/PQTree.java:1107-1160 | every EMPTY*, PARTIAL, FULL*, PARTIAL, EMPTY* list passes the corrected scan |
| Q3Scanner.ScanSound | src/main/java/graphtea/extensions/reports/planarity/planaritypq/pqtree/PQTree.java:1107-1160 | with exactly two PARTIAL children, a list the corrected scan accepts has that shape, split where the scan put its EMPTY children |
| Q3Scanner.ScanAcceptsExactlyShapes | src/main/java/graphtea/extensions/reports/planarity/planaritypq/pqtree/PQTree.java:1107-1160 | with exactly two PARTIAL children, the corrected scan accepts if and only if the list has the Q3 shape |
| Q3Scanner.ScanCollects | src/main/java/graphtea/extensions/reports/planarity/planaritypq/pqtree/PQTree.java:1121-1158 | the collected lists are the leading and the trailing EMPTY children |
| Q3Scanner.AsWrittenRejectsShape | src/main/java/graphtea/extensions/reports/planarity/planaritypq/pqtree/PQTree.java:1126-1133 | EMPTY, PARTIAL, PARTIAL, EMPTY has the shape, yet the scan as written rejects it and the corrected one accepts it |
| Q3Scanner.AsWrittenAcceptsNonShape | src/main/java/graphtea/extensions/reports/planarity/planaritypq/pqtree/PQTree.java:1126-1133 | EMPTY, PARTIAL, PARTIAL, FULL lacks the shape, yet the scan as written accepts it |
| Reduction.Apply | src/main/java/graphtea/extensions/reports/planarity/planaritypq/pqtree/PQTree.java:136-156 | a template that declines returns false and changes nothing. One that applies does not return false, except Q3 after matching. A success keeps every counter, and new nodes have no pertinent children |
| Reduction.TryNonRoot | src/main/java/graphtea/extensions/reports/planarity/planaritypq/pqtree/PQTree.java:136-144 | L1, P1, P3, P5, Q1, Q2 in order: every template before the deciding one declines. When all decline, the result is false with nothing changed |
| Reduction.TryRoot | src/main/java/graphtea/extensions/reports/planarity/planaritypq/pqtree/PQTree.java:149-159 | L1, P1, P2, P4, P6, Q1, Q2, Q3 in order, on the same terms; only Q3 can return false after matching |
| Reduction.TryRootP | src/main/java/graphtea/extensions/reports/planarity/planaritypq/pqtree/PQTree.java:152-153 | P4 and then P6, on the same terms |
| Reduction.TryRootQ | src/main/java/graphtea/extensions/reports/planarity/planaritypq/pqtree/PQTree.java:154-156 | Q1, Q2 and then Q3, on the same terms |
| Reduction.InitLeafCounts | src/main/java/graphtea/extensions/reports/planarity/planaritypq/pqtree/PQTree.java:121-123 | the members of S, and only they, get a pertinent leaf count of 1 |
| Reduction.PassUp | src/main/java/graphtea/extensions/reports/planarity/planaritypq/pqtree/PQTree.java:129-134 | it faults exactly when the node has no parent. Otherwise the parent gains the node's leaves and loses one pending child, and is enqueued exactly when that was its last |
| Reduction.PendingAfterPassUp | src/main/java/graphtea/extensions/reports/planarity/planaritypq/pqtree/PQTree.java:131-134 | the parent leaves the set of waiting nodes exactly when it is enqueued, and no other node's wait changes |
| Reduction.PendingKept | src/main/java/graphtea/extensions/reports/planarity/planaritypq/pqtree/PQTree.java:136-156 | a template leaves the set of waiting nodes as it was (this is what makes the loop end) |
| Reduction.Reduce | src/main/java/graphtea/extensions/reports/planarity/planaritypq/pqtree/PQTree.java:119-165 | with the corrected Q3 scan: the pass always ends and keeps the arena valid. A null tree comes only from a node on which every template of its order declined (for the root, every template before Q3), or from Q3 refusing |
| PertinentRoot.Depth | src/main/java/graphtea/extensions/reports/planarity/planaritypq/pqtree/PQTree.java:208-212 | a depth found is at most the fuel |
| PertinentRoot.DepthIsWalk | src/main/java/graphtea/extensions/reports/planarity/planaritypq/pqtree/PQTree.java:208-212 | T is reached after exactly that many parent steps, and no earlier step is T or null |
| PertinentRoot.DepthFaultNeverReaches | src/main/java/graphtea/extensions/reports/planarity/planaritypq/pqtree/PQTree.java:209-212 | with the fuel `root` uses, a fault means no number of parent steps ever reaches T |
| PertinentRoot.Climb | src/main/java/graphtea/extensions/reports/planarity/planaritypq/pqtree/PQTree.java:193-201 | one climb only adds to the reached nodes, and adds at most one node, already reached, to the nodes recorded twice |
| PertinentRoot.Gather | src/main/java/graphtea/extensions/reports/planarity/planaritypq/pqtree/PQTree.java:192-202 | the nodes reached and the nodes recorded twice all exist in the tree |
| PertinentRoot.GatherSameReached | src/main/java/graphtea/extensions/reports/planarity/planaritypq/pqtree/PQTree.java:192-202 | every node recorded twice was reached |
| PertinentRoot.Lowest | src/main/java/graphtea/extensions/reports/planarity/planaritypq/pqtree/PQTree.java:204-217 | a best candidate found is null or a node of the tree |
| PertinentRoot.LowestIsFirstLeast | src/main/java/graphtea/extensions/reports/planarity/planaritypq/pqtree/PQTree.java:204-217 | every candidate has a depth. The best is null at `Integer.MAX_VALUE` when no depth is below that, and otherwise the first candidate of least depth, with its depth |
| PertinentRoot.RootOfIsFirstLowest | src/main/java/graphtea/extensions/reports/planarity/planaritypq/pqtree/PQTree.java:180-226 | null for an empty S and the member of a singleton. For more, a fault when no node is recorded twice, and otherwise the first node recorded twice of least depth |
| PertinentRoot.Root | src/main/java/graphtea/extensions/reports/planarity/planaritypq/pqtree/PQTree.java:180-226 | the method computes `RootOf` |
| PertinentRoot.GatherAll | src/main/java/graphtea/extensions/reports/planarity/planaritypq/pqtree/PQTree.java:192-202 | the loop computes the first phase `Gather` |
| PertinentRoot.ClimbFrom | src/main/java/graphtea/extensions/reports/planarity/planaritypq/pqtree/PQTree.java:193-201 | the inner loop computes `Climb` |
| PertinentRoot.LowestOf | src/main/java/graphtea/extensions/reports/planarity/planaritypq/pqtree/PQTree.java:204-217 | the loop computes the second phase `Lowest` |
| PertinentRoot.DepthOf | src/main/java/graphtea/extensions/reports/planarity/planaritypq/pqtree/PQTree.java:207-212 | the inner loop computes `Depth` |
| Bubbling.Classify | src/main/java/graphtea/extensions/reports/planarity/planaritypq/pqtree/PQTree.java:52-62 | the blocked and the unblocked immediate siblings, each in sibling order |
| Bubbling.SettledMeans | src/main/java/graphtea/extensions/reports/planarity/planaritypq/pqtree/PQTree.java:45-70 | the node stays blocked exactly when it has two siblings and none is unblocked. Only its parent and flag change, and ranking and validity are kept |
| Bubbling.Settle | src/main/java/graphtea/extensions/reports/planarity/planaritypq/pqtree/PQTree.java:45-70 | the method leaves `Settled` and returns the blocked siblings |
| Bubbling.RunToUnblock | src/main/java/graphtea/extensions/reports/planarity/planaritypq/pqtree/PQTree.java:76-85 | no run without a blocked sibling; otherwise the maximal run of blocked siblings through the node, or a fault where that method faults |
| Bubbling.UnblockRun | src/main/java/graphtea/extensions/reports/planarity/planaritypq/pqtree/PQTree.java:78-84 | every member of the run is unblocked and adds one to the parent's pertinent child count, and nothing else changes. It faults when the parent is null and the run is not empty |
| Bubbling.UnblockOne | src/main/java/graphtea/extensions/reports/planarity/planaritypq/pqtree/PQTree.java:81-84 | one member is unblocked, then counted at the parent; it faults on a null parent |
| Bubbling.CountParent | src/main/java/graphtea/extensions/reports/planarity/planaritypq/pqtree/PQTree.java:88-95 | the parent gets one more pertinent child and joins the queue unless already in it; a null parent sets off-the-top |
| Bubbling.Release | src/main/java/graphtea/extensions/reports/planarity/planaritypq/pqtree/PQTree.java:73-96 | for the unblocked node, its run is unblocked and counted, the parent is counted once more and queued, or the pass goes off the top |
| Bubbling.Visit | src/main/java/graphtea/extensions/reports/planarity/planaritypq/pqtree/PQTree.java:45-103 | one round. A node that stays blocked leaves the queue and changes nothing else; otherwise its run is released. The new queue weighs less and keeps no duplicate |
| Bubbling.QueueShrinks | src/main/java/graphtea/extensions/reports/planarity/planaritypq/pqtree/PQTree.java:88-95 | replacing the head of the queue by its parent lowers the queue's weight |
| Bubbling.Bubble | src/main/java/graphtea/extensions/reports/planarity/planaritypq/pqtree/PQTree.java:33-108 | the pass ends. The null tree comes exactly when the queue emptied while the blocked count and the flag still add up to more than one; otherwise queue, blocked count and flag add up to at most one. The flag is 0 or 1, a queue started without duplicates keeps none, and only parents, blocked flags and growing pertinent child counts change |

## Left out

- `PQHelpers` and the methods of the P-node and Q-node classes are not part of this model. The module `Helpers` stands in for the helpers the templates call. Those whose names say what they do are written out: label filters, the list edits, `setCircularLinks`, `setParentQNodeChildren`. `replaceParent(y, x)` is bounded by its name: `y` gets the parent of `x` and takes the place of `x` among that parent's children, and beyond that only sibling links change. `addNodesAsChildrenToQNode(list, q)` may change only sibling links, the children of `q` and the parents of the members of `list`. The others may change structure (links, parents, children lists) and nothing else: `rotate`, `rotateIfNeeded`, `reduceChildQNodeIntoParentQNode`, `insertNodeIntoCircularList`, `setQNodeEndmostChildren`. So the templates' contracts speak about labels, counters, parents and the links they write themselves, not about the order those helpers produce.
- Helpers.Consecutive: `checkIfConsecutive` is read as "each member's `next` is the member after it". A list that runs along `prev` is therefore not consecutive. The matching conditions of P4, P6, Q2 and Q3 depend on this reading.
- TemplateP3: does not state that the two ring members become the children of the new Q-node, because `setQNodeEndmostChildren` sets them. For the same reason the Q-node's own parent is stated as the parent of the node or the Q-node itself, the latter only if that helper made the Q-node its own child.
- TemplateP5: the fault and the placement are stated only for a node that is neither its own child nor its parent's parent. P5 reads the parent after `addNodesAsChildrenToQNode`, which may change the parents of the grouped children.
- Reattach: the placement under the parent is stated only when the node did not end up with the Q-node as its parent. `setQNodeEndmostChildren` may make the node a child of the Q-node.
- `bubble` calls `immediateSiblings(true)`, an overload from the node classes that is not part of this model. Its siblings are taken from `PQNode.immediateSiblings()`.
- `replace` in PQTree.java, and `setPartialChildren`, `setEndmostChildren`, `setImmediateSiblings` and `endmostChild` in PQNode.java, have empty bodies or return null. They are not modelled.
- `nodeType(String)` and the string constants of node types and labels are the datatypes `Kind` and `Label`. A node made without a type string is a `Leaf`; one made without a label is `Unlabelled`. The difference between `==` and `equals` on these strings is not modelled, because the labels are always the shared constants.
- Java classes become one `Node` record with a `kind` field. `getClass()` tests become `kind` tests, and a failed cast to `QNode` becomes a fault.
- The trees T and `_root` are represented by a node index. The results of `bubble` and `reduce` are `Value(true)` for the tree passed in and `Value(false)` for the null tree.
- Java `HashSet` iteration order: sets are unordered here. The order in which `bubble` unblocks a run cannot be observed, since every member adds one to the same parent.
- `Integer.MAX_VALUE` is `PertinentRoot.IntMax`. The counters are unbounded integers, without 32-bit wrap-around, because no count in this core comes near it.
- Bubbling.Bubble: it requires a ghost `rank` under which parents rank below their children and sibling neighbours rank alike. The Java loop has no such guard; on a tree with a parent cycle it could run for ever, and that case is not modelled.
- Reduction.Reduce: states why the null tree is returned and that the pass ends, not the shape of the reduced tree, which depends on helpers that are not part of this model.
- PTemplates.TemplateP6 is modelled as written with one FULL child: that child is not put in the new P-node, and it drops out of the children of the top node. The model states this rather than a corrected version, since the result is not evidently a mistake.
- The time bounds of the passes (linear in the pertinent subtree) are not stated.
- The construction of the universal tree, the driver that chooses the leaf sets, and the report and GUI code are not part of this model.

## Findings

| source | as written | input that shows it | evidently intended | confidence | as-written member | corrected member |
|---|---|---|---|---|---|---|
| src/main/java/graphtea/extensions/reports/planarity/planaritypq/PQNode.java:186-207 | a side run can be the immutable `Collections.singleton`, and `add(this)` or `addAll` on it throws UnsupportedOperationException | node 0 blocked with no `next`; its `prev`, node 1, blocked, with `prev` the unblocked node 2 | the run `{0, 1}` | not executed | SiblingRuns.MaximalConsecutiveAsWrittenThrows | SiblingRuns.MaximalConsecutive |
| src/main/java/graphtea/extensions/reports/planarity/planaritypq/pqtree/PQTree.java:1126-1133 | with `flips == 1` a second PARTIAL child leaves `flips` at 1, so the two PARTIAL children need a FULL child between them, and a FULL child after them is accepted | EMPTY, PARTIAL, PARTIAL, EMPTY is rejected; EMPTY, PARTIAL, PARTIAL, FULL is accepted | accept exactly EMPTY*, PARTIAL, FULL*, PARTIAL, EMPTY* | not executed | Q3Scanner.AsWrittenRejectsShape | Q3Scanner.ScanAcceptsExactlyShapes |
