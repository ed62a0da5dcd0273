# urdfix core, modelled in Dafny

urdfix reads URDF robot descriptions, lints them, and rewrites them. This project models the
three files that hold its logic:

- `src/utils/parser.rs` reads a document into a `Robot`. A `Robot` has a name, three
  name-keyed insertion-ordered maps (links, joints, materials), and lists of gazebo and
  transmission blocks. It also checks that the document is well formed.
- `src/utils/processor.rs` does two things:
  - it analyzes the kinematic graph: roots, leaves, orphans, cycles, depth, paths and chains;
  - it produces the lint issues.
- `src/utils/modifier.rs` edits a parsed document: remove, rename, the repairs of
  `fix_document`, sorting, regeneration of the text, and whitespace cleaning.

## Modules

| file | module | contents |
|---|---|---|
| `base.dfy` | `Base` | `Option`, distinctness, filtering, decimal rendering of counts |
| `text.dfy` | `Text` | character classes, `trim`, `lines`, `split_whitespace`, the number-token grammar |
| `names.dfy` | `Names` | `is_valid_name` and `fix_name` |
| `indexmap.dfy` | `IndexMaps` | `IndexMap` as entries with distinct keys: `insert` in place or appended, `remove` as `swap_remove` |
| `urdf.dfy` | `Urdf` | the robot data model, the XML event stream, the `Document` class |
| `parser.dfy` | `Parser` | a `Reader` class with a cursor over the events; the `parse_*` methods; each method is proved equal to a function on `(events, position)` |
| `graph.dfy` | `Graph` | the parent-to-child adjacency map, walks, and the three depth-first searches as recursive methods over `visited` and recursion-stack sets passed and returned as values |
| `processor.dfy` | `Processor` | the analyzer and the linter |
| `regenerate.dfy` | `Regenerate` | the writer as an event stream, and the proof that reading it back gives the robot's skeleton |
| `modifier.dfy` | `Modifier` | the edits on `Document`, each a method proved equal to a function on the robot, plus the lemmas saying what that function means |

### How the model is built

- **Loops become methods.** Each loop of the source is a method with loop invariants. Its
  `ensures` ties the result to a specification function. Lemmas then state the meaning of
  that function: exactly which elements, in which order, and what stays unchanged.
- **Documents are events.** A document is the sequence of events the XML tokenizer
  reports: `Start`, `Empty`, `End`, `Text`, `Eof`. Once the input is used up, the reader
  keeps returning `Eof` and its position stops moving.
- **Numbers are tokens.** A number is kept as the token it was read from. "Parses as an
  `f64`" is the decimal grammar `Text.IsNumeric`.
- **Lone links are orphans.** `find_orphaned_links` (src/utils/processor.rs:404-416) has
  no exemption for a robot with one link and no joints, so such a robot fails tree
  validation (`Processor.SingleLinkIsOrphaned`).

## Model

| member | source | states |
|---|---|---|
| Parser.Next | src/utils/parser.rs:185 | reading an event moves the cursor one step, except at the end of input, where it stays |
| Parser.Reader.ReadEvent | src/utils/parser.rs:185 | the event returned is the one under the cursor, and the cursor moves as `Next` says |
| Parser.GetOptionalAttribute | src/utils/parser.rs:341-352 | `None` exactly when no attribute has the key; otherwise the value of the first attribute with that key |
| Parser.GetRequiredAttribute | src/utils/parser.rs:327-339 | an error exactly when no attribute has the key, and then it is `MissingAttribute(key)`; otherwise the first matching value |
| Parser.OptionalNumber | src/utils/parser.rs:370-384 | present exactly when the attribute is present and numeric, and then it carries that token |
| Parser.ParseThreeFloats | src/utils/parser.rs:395-407 | succeeds exactly when there are three whitespace-separated tokens, all numeric, and gives them in order; a non-numeric token gives `Invalid float array: <s>`; numeric tokens other than three in number give `Expected 3 values, got <n>` |
| Parser.ParseTripleText | src/utils/parser.rs:395-407 | three numbers written separated by spaces are read back as the same triple |
| Parser.ParseOrigin | src/utils/parser.rs:354-362 | each of `xyz` and `rpy` is read as `0 0 0` when it alone is absent; the origin fails exactly when one of the two texts is not three numbers, with the `xyz` error reported first; on success both triples are the two texts read |
| Parser.ParseAxis | src/utils/parser.rs:364-368 | with no `xyz` the axis is `1 0 0`; it fails exactly when the text it reads is not three numbers, with the error of reading it; on success the axis is the three numbers read |
| Parser.ParseLimit | src/utils/parser.rs:370-377 | each of `lower`, `upper`, `effort` and `velocity` is present exactly when the attribute is present and numeric, carrying that token |
| Parser.ParseDynamics | src/utils/parser.rs:379-384 | `damping` and `friction` are read the same way |
| Parser.ParseMimic | src/utils/parser.rs:386-393 | fails exactly when `joint` is missing; otherwise keeps that joint name |
| Parser.SkipLoop | src/utils/parser.rs:465-480 | the skip never moves backwards or past the end, and when it stops early it stops right after a closing tag or at `Eof` |
| Parser.SkipOver | src/utils/parser.rs:465-480 | over events that keep the depth at least 1, the skip only accumulates their net depth change |
| Parser.SkipBalanced | src/utils/parser.rs:465-480 | over a balanced run followed by a closing tag, `skip_element` stops right after that tag |
| Parser.SkipUnclosed | src/utils/parser.rs:465-480 | on an element that is never closed, `skip_element` runs to the end of input without an error |
| Parser.SkipElement | src/utils/parser.rs:465-480 | the depth-counting loop leaves the cursor where `SkipLoop` says |
| Parser.ParseInertial | src/utils/parser.rs:409-416 | the body is skipped and the inertial is mass 1.0 with no origin and no inertia |
| Parser.ParseVisual | src/utils/parser.rs:418-426 | the body is skipped; only the optional `name` is kept |
| Parser.ParseCollision | src/utils/parser.rs:428-435 | the body is skipped; only the optional `name` is kept |
| Parser.ParseMaterial | src/utils/parser.rs:437-445 | fails exactly when `name` is missing; otherwise a material with that name and no color or texture |
| Parser.ParseGazebo | src/utils/parser.rs:447-454 | keeps the optional `reference` and empty content |
| Parser.ParseTransmission | src/utils/parser.rs:456-463 | fails exactly when `name` is missing; otherwise keeps that name and empty content |
| Parser.LinkChild | src/utils/parser.rs:268-275 | a child element of a link moves the cursor forward and never changes the link's name |
| Parser.LinkLoop | src/utils/parser.rs:266-281 | on success the link is read up to and including `End(link)`; the only error is the unexpected end of file |
| Parser.ParseLink | src/utils/parser.rs:255-284 | a missing `name` is `MissingAttribute("name")`; on success the link carries the `name` attribute |
| Parser.ParseLinkMethod | src/utils/parser.rs:255-284 | the loop over the reader computes `ParseLink` and leaves the cursor where it says |
| Parser.JointField | src/utils/parser.rs:306-313 | only the seven known tags are handled; each sets its own field and keeps name, type and the other endpoint; `parent`/`child` without `link` is `MissingAttribute("link")` |
| Parser.JointTag | src/utils/parser.rs:305-316 | a sub-tag moves the cursor forward and keeps the joint's name and type |
| Parser.JointLoop | src/utils/parser.rs:303-322 | on success the cursor moves forward and the joint keeps its name and type |
| Parser.JointLoopEnds | src/utils/parser.rs:317 | a successfully read joint ends with its `End(joint)` event |
| Parser.ParseJoint | src/utils/parser.rs:286-325 | `name`, then `type`, are required, each missing one giving `MissingAttribute`; on success the joint carries both |
| Parser.JointWithoutParentOrChild | src/utils/parser.rs:290-320 | a joint whose own events, up to its closing tag, hold no `parent` tag keeps the parent it started with (the empty string for a new joint); the same for `child` |
| Parser.UnknownTagHidesNext | src/utils/parser.rs:314 | an unknown self-closing tag swallows the next event: a `parent` tag right after it is lost |
| Parser.ParseJointMethod | src/utils/parser.rs:286-325 | the loop over the reader computes `ParseJoint` and leaves the cursor where it says |
| Parser.RobotChildAdds | src/utils/parser.rs:217-243 | a link, joint or material child is inserted under its own name, replacing an entry of that name in its slot; a gazebo or transmission block is appended; any other element is skipped; an error of the element's parser is the result; the robot keeps its name |
| Parser.RobotLoop | src/utils/parser.rs:216-250 | on success the cursor moves forward and the robot keeps its name |
| Parser.RobotLoopEnds | src/utils/parser.rs:245 | a successfully read robot ends with its `End(robot)` event |
| Parser.ParseRobot | src/utils/parser.rs:203-253 | a missing `name` is `MissingAttribute("name")`; on success the robot carries it |
| Parser.LastRobot | src/utils/parser.rs:184-193 | with no `robot` element from `pos` on there is no robot |
| Parser.LastRobotWins | src/utils/parser.rs:184-195 | the document loop returns the last robot parsed, the one it held when no other follows, or the first parse error |
| Parser.DocumentLoop | src/utils/parser.rs:184-195 | with no `Start(robot)` event left, the loop returns the robot it already holds, or `No robot element found` when it holds none |
| Parser.RobotChildKeyed | src/utils/parser.rs:220-231 | each link, joint and material is inserted under its own name |
| Parser.RobotLoopKeyed | src/utils/parser.rs:216-250 | every robot read stores each link, joint and material under its own name |
| Parser.DocumentLoopKeyed | src/utils/parser.rs:184-193 | the robot the document loop keeps stores each entry under its own name |
| Parser.ParseString | src/utils/parser.rs:177-201 | the result is the last robot element of the document, the first error in parsing one, or `No robot element found`; a robot it returns stores every link, joint and material under its own name |
| Parser.SelfClosingLinkIgnored | src/utils/parser.rs:217-248 | a self-closing `<link/>` at robot level is not recorded |
| Parser.UnclosedLink | src/utils/parser.rs:277 | a link never closed is `Unexpected end of file` |
| Parser.UnclosedJoint | src/utils/parser.rs:303-318 | a joint never closed is an error; when it holds no tag at all, `Unexpected end of file` |
| Parser.UnclosedRobot | src/utils/parser.rs:215-246 | a robot never closed is an error; when it opens no child element, `Unexpected end of file` |
| Parser.LinkIgnoresSelfClosing | src/utils/parser.rs:266-279 | only opening tags reach the link parser: a link whose own events open no element comes out as it started |
| Parser.RobotIgnoresSelfClosing | src/utils/parser.rs:215-248 | at robot level too, self-closing children are not recorded: a robot whose events open no element comes out as it started |
| Parser.ParseRobotMethod | src/utils/parser.rs:203-253 | the loop over the reader computes `ParseRobot` and leaves the cursor where it says |
| Parser.RobotChildMethod | src/utils/parser.rs:218-243 | the dispatch on a child's tag name computes `RobotChild` |
| Parser.ParseStringMethod | src/utils/parser.rs:177-201 | an error of `ParseString` is returned as is; otherwise a new document holding the parsed robot and the events it was read from |
| Parser.EndpointIssues | src/utils/parser.rs:494-501 | at most two messages per joint |
| Parser.ValidationIssues | src/utils/parser.rs:483-504 | an empty robot name is the first message; at most two messages besides two per joint |
| Parser.EndpointIssuesMeaning | src/utils/parser.rs:494-501 | there is one message per joint endpoint that names no link, and a message is among them exactly when it reports such an endpoint |
| Parser.EndpointIssuesOrder | src/utils/parser.rs:494-501 | the messages come joint by joint, in joint order, a joint's parent message before its child message |
| Parser.ValidationIssuesMeaning | src/utils/parser.rs:483-504 | `Robot name is empty` appears exactly when the name is empty, and first; `No links defined in robot` appears exactly when there is no link, right after; the endpoint messages follow |
| Parser.EndpointIssuesEmpty | src/utils/parser.rs:494-501 | there is no endpoint message exactly when every joint's parent and child name a link |
| Parser.ValidationIssuesEmpty | src/utils/parser.rs:483-504 | no message exactly when the robot is named, has a link, and every joint endpoint names a link |
| Parser.ValidateUrdfStructure | src/utils/parser.rs:483-504 | the checks give the messages `ValidationIssues` lists, in that order |
| Parser.CheckEndpoints | src/utils/parser.rs:494-501 | the loop over the joints gives the messages `EndpointIssues` lists |
| Graph.AdjacencyEdges | src/utils/processor.rs:418-428 | the graph has an edge from `u` to `v` exactly when some joint has parent `u` and child `v`, and `u` is a key exactly when it is some joint's parent |
| Graph.AdjacencyChildren | src/utils/processor.rs:418-428 | each name's children are the children of the joints with that parent, read front to back, repeats kept; a name is a key exactly when it has such a joint |
| Graph.BuildAdjacencyList | src/utils/processor.rs:418-428 | the loop over the joints builds the adjacency map `AdjacencyOf` describes (`get_dependency_graph`, lines 107-117, is the same loop) |
| Graph.WalkFromBlack | src/utils/processor.rs:474-492 | along any walk from a node the cycle search has completed, every node is completed and the finish order strictly falls |
| Graph.NoCycleFromBlack | src/utils/processor.rs:474-492 | no cycle can be reached from a completed node |
| Graph.DfsHasCycle | src/utils/processor.rs:474-492 | a reported cycle is reachable from the start of the recursion path; when none is reported the node is completed, the recursion stack is as before, and the completion invariant holds again |
| Graph.BackEdgeCloses | src/utils/processor.rs:484-485 | an edge back onto the recursion stack closes a cycle reachable from the stack's start |
| Graph.CompleteNode | src/utils/processor.rs:490 | once all children of a node are completed, taking it off the stack keeps the completion invariant |
| Graph.DfsDepth | src/utils/processor.rs:456-472 | 0 for a visited node; otherwise at least 1, the length of a simple walk from the node through nodes this call visited first, and never more than their number |
| Graph.DepthWalk | src/utils/processor.rs:462-471 | the node put in front of the deepest child walk gives a simple walk through the nodes the call visited |
| Graph.DfsPath | src/utils/processor.rs:511-531 | on success the path gains a simple walk from `current` to `target` along edges, through nodes not visited before; on failure the path is restored, the target was not reached, and every node visited has all its children visited |
| Graph.FoundThroughChild | src/utils/processor.rs:519-525 | a walk found from a child, with `current` in front, is a simple walk from `current` to the target |
| Graph.ClosedSetHoldsWalks | src/utils/processor.rs:519-531 | a visited set holding every child of its nodes holds every walk starting in it, so a failed search really found no walk |
| Processor.RootLinks | src/utils/processor.rs:119-130 | exactly the link keys that no joint has as child, in link order, without repeats |
| Processor.LeafLinks | src/utils/processor.rs:132-143 | exactly the link keys that no joint has as parent, in link order, without repeats |
| Processor.OrphanedLinks | src/utils/processor.rs:404-416 | exactly the link keys no joint names at either end, in link order, without repeats |
| Processor.RootsAndLeavesInGraph | src/utils/processor.rs:430-454 | no edge of the joints' graph enters a root, and a leaf has no children |
| Processor.ErrorsDiffer | src/utils/processor.rs:150-159 | the three tree-check messages are told apart by their first letter |
| Processor.TreeErrorsMeaning | src/utils/processor.rs:145-167 | no error exactly when there is one root, no cycle and no orphan; at most three; the root-count message first and the orphan message last, each present exactly when its condition fails |
| Processor.HasCycles | src/utils/processor.rs:388-402 | reports a cycle exactly when some link reaches a cycle of the joints' graph |
| Processor.ValidateKinematicTree | src/utils/processor.rs:145-167 | `Ok` exactly when there is one root, no cycle and no orphan; otherwise the errors of `TreeErrors` |
| Processor.SelfLoopIsCycle | src/utils/processor.rs:474-492 | a joint whose parent is its child, on a link, makes the robot cyclic |
| Processor.NoJointsNoCycle | src/utils/processor.rs:388-402 | without joints there is no cycle |
| Processor.SingleLinkIsOrphaned | src/utils/processor.rs:145-167 | a single link and no joints: that link is the root and an orphan, and the only error is the orphan message |
| Processor.CountMapAdd | src/utils/processor.rs:173 | counting one more occurrence adds one to that value's count |
| Processor.CountOccurrences | src/utils/processor.rs:172-174 | the counting loop maps each value to its number of occurrences, and only the values that occur |
| Processor.CountsAddUp | src/utils/processor.rs:169-177 | read in any order, the counts add up to the number of items counted |
| Processor.CountJointTypes | src/utils/processor.rs:169-177 | each joint type maps to the number of joints that have it, and only types some joint has are keys |
| Processor.JointTypeCountsAddUp | src/utils/processor.rs:169-177 | the joint-type counts add up to the number of joints |
| Processor.LinkPropertiesSnoc | src/utils/processor.rs:187-200 | one more link adds one to each count whose condition it meets |
| Processor.AnalyzeLinkProperties | src/utils/processor.rs:179-203 | the loop computes the four counts `LinkPropertiesOf` gives |
| Processor.LinkPropertiesBounds | src/utils/processor.rs:179-203 | the empty links are exactly those without content, and each count added to the empty count is at most the number of links |
| Processor.CalculateTreeDepth | src/utils/processor.rs:205-220 | 0 exactly when there is no root; otherwise the length of a simple walk from a root, at most one more than the number of names the graph mentions |
| Processor.FirstJointFrom | src/utils/processor.rs:540-545 | the first joint, in joint order, that goes from `parent` to `child`, or none exactly when no joint does |
| Processor.JointsAlongWalk | src/utils/processor.rs:533-549 | along a walk of the joints' graph there is one joint name per step, each naming a joint that makes the step |
| Processor.JointsAlongSteps | src/utils/processor.rs:536-546 | when every step has a joint, there is one name per step, each naming a joint that makes it |
| Processor.GetJointsInPath | src/utils/processor.rs:533-549 | the nested loops give `JointsAlong`: per step, the first joint making it |
| Processor.FindPath | src/utils/processor.rs:494-509 | a chain exactly when `end` is reachable from `start`; the chain is named `start_to_end`, is a simple walk between them, lists the joints along it, and its length is its number of links |
| Processor.ChainEndsMeaning | src/utils/processor.rs:222-237 | each (root, leaf) pair kept names a leaf, a root, and a walk between them |
| Processor.ChainsForAppend | src/utils/processor.rs:231 | pushing a chain for one more pair keeps chains and pairs matched |
| Processor.FindKinematicChains | src/utils/processor.rs:222-237 | for each leaf, then each root, a chain between them exactly for the pairs connected by a walk |
| Processor.ChainsToLeaves | src/utils/processor.rs:228-234 | the outer loop gives a chain for each connected pair, leaf by leaf |
| Processor.ChainsToLeaf | src/utils/processor.rs:229-233 | the inner loop gives a chain from each connected root, in root order |
| Processor.NamingIssuesMeaning | src/utils/processor.rs:239-267 | one warning per key that breaks the naming rule, in key order, and nothing else |
| Processor.CheckNames | src/utils/processor.rs:242-252 | one loop of the naming check gives `NamingIssues` |
| Processor.CheckNamingConventions | src/utils/processor.rs:239-267 | the link warnings, then the joint warnings |
| Processor.CheckStructuralIssues | src/utils/processor.rs:269-285 | one error per tree-check error, and none exactly when the tree is valid |
| Processor.PhysicsIssuesMeaning | src/utils/processor.rs:287-303 | one warning per link with a visual or collision and no inertial, in link order |
| Processor.CheckPhysicsProperties | src/utils/processor.rs:287-303 | the loop gives `PhysicsIssues` |
| Processor.DistinctCounts | src/utils/processor.rs:371-386 | names are distinct exactly when each occurs at most once |
| Processor.FindDuplicateNames | src/utils/processor.rs:371-386 | nothing is filed for distinct names; otherwise, under the category and nothing else changed, exactly the names occurring more than once, each once |
| Processor.FindDuplicates | src/utils/processor.rs:93-105 | index-map keys never repeat, so nothing is ever filed |
| Processor.CheckDuplicateElements | src/utils/processor.rs:305-322 | the duplicate check never reports an issue |
| Processor.NothingFiledNoIssues | src/utils/processor.rs:309-319 | with nothing filed, no duplicate issue is made |
| Processor.UnusedMaterialIssuesMeaning | src/utils/processor.rs:336-346 | one note per material name no visual refers to, in material order |
| Processor.CheckUnusedMaterials | src/utils/processor.rs:324-349 | the two loops give `UnusedMaterialIssues` for the names the visuals use |
| Processor.LimitIssuesMeaning | src/utils/processor.rs:351-369 | one warning per revolute or prismatic joint without a limit, in joint order |
| Processor.CheckJointLimits | src/utils/processor.rs:351-369 | the loop gives `LimitIssues` |
| Processor.Lint | src/utils/processor.rs:80-91 | naming, structure, physics, duplicate, unused-material and limit issues concatenated in that order, the duplicates contributing nothing |
| Processor.Analyze | src/utils/processor.rs:61-78 | the totals, joint-type counts, link properties, a depth that is 0 exactly without roots, and the chains between connected leaf and root pairs |
| Urdf.CollectUsedMaterials | src/utils/processor.rs:326-334 | the nested loop gathers exactly the material names some visual refers to |
| Modifier.RemoveFrom | src/utils/modifier.rs:125-153 | the element existed exactly when its kind is `link`, `joint` or `material` and the name is a key of that collection; the key is then gone, every other key keeps its value, and the rest of the robot is untouched; otherwise nothing changes |
| Modifier.RemoveElement | src/utils/modifier.rs:125-153 | `remove_element` on a document: the robot and the result are those of `RemoveFrom`, and the text is regenerated exactly when something was removed |
| Modifier.RetargetAll | src/utils/modifier.rs:161-168 | every joint keeps its key and slot, and a parent or child naming the old link names the new one |
| Modifier.RetargetJoints | src/utils/modifier.rs:161-168 | the loop over the joints computes `RetargetAll` |
| Modifier.RenameRefsOf | src/utils/modifier.rs:192-197 | each visual of a link, and nothing else of it, has its reference to the old material rewritten |
| Modifier.RenameRefs | src/utils/modifier.rs:191-199 | every link keeps its key and slot and has its visuals' material references rewritten |
| Modifier.RenameMaterialRefs | src/utils/modifier.rs:191-199 | the nested loop over links and visuals computes `RenameRefs` |
| Modifier.RenameIn | src/utils/modifier.rs:155-210 | the rename succeeds exactly when the kind is known and the old name is a key of that collection; otherwise the robot is unchanged |
| Modifier.LinkRenameMovesLink | src/utils/modifier.rs:157-176 | after a link rename the old key is gone (when the names differ), the link sits under the new key carrying the new name, every other link is as it was, and materials, gazebo and transmission blocks are untouched |
| Modifier.LinkRenameRetargets | src/utils/modifier.rs:161-168 | after a link rename every joint end that named the old link names the new one, no joint end names the old link, and nothing else of any joint changes |
| Modifier.MaterialRenameRefs | src/utils/modifier.rs:187-207 | a material rename moves the material under its new name and rewrites exactly the visual references to the old name, leaving the joints alone |
| Modifier.JointRenameOnlyRekeys | src/utils/modifier.rs:177-186 | a joint rename changes that joint's key and name only: links, materials, every other joint and the mimic references stay |
| Modifier.RenameLink | src/utils/modifier.rs:157-176 | the link branch of `rename_element` computes `RenameIn` for links |
| Modifier.RenameJoint | src/utils/modifier.rs:177-186 | the joint branch computes `RenameIn` for joints |
| Modifier.RenameMaterial | src/utils/modifier.rs:187-207 | the material branch computes `RenameIn` for materials |
| Modifier.RenameElement | src/utils/modifier.rs:155-210 | `rename_element` on a document: the robot and the result are those of `RenameIn`, and the text is regenerated exactly when something was renamed |
| Modifier.RemoveAll | src/utils/modifier.rs:253-256 | after removing each listed name, the keys are the original keys not listed, and every unlisted key keeps its value |
| Modifier.RemoveAllSize | src/utils/modifier.rs:253-256 | removing distinct names that are all present shrinks the map by exactly one entry per name |
| Modifier.Notes | src/utils/modifier.rs:253-256 | one message per name, in order, each the prefix followed by that name |
| Modifier.RemoveListed | src/utils/modifier.rs:253-256 | the removal loop computes `RemoveAll` and the message list `Notes` |
| Modifier.RepeatedEmptyIffDistinct | src/utils/modifier.rs:483-520 | the duplicate search finds nothing exactly when no name occurs twice |
| Modifier.FindDuplicateKeys | src/utils/modifier.rs:483-494 | the loop with a `seen` set collects exactly the names that occur again after an earlier occurrence, in order |
| Modifier.RemoveDuplicates | src/utils/modifier.rs:212-234 | `remove_duplicates` reports nothing and changes nothing, since the keys of an index map never repeat |
| Modifier.WithoutUnusedMaterials | src/utils/modifier.rs:236-259 | only the materials change; every material left is used by some visual, every used material keeps its value, and there is one message per removed material |
| Modifier.UnusedRemovalNotes | src/utils/modifier.rs:253-256 | the messages name exactly the removed materials |
| Modifier.NoUnusedMaterialAfterRemoval | src/utils/modifier.rs:236-259 | after the removal the linter's unused-material check finds nothing |
| Modifier.AllUsedNoIssues | src/utils/processor.rs:336-346 | when every material is used, the unused-material check reports nothing |
| Modifier.RemoveUnusedMaterials | src/utils/modifier.rs:236-259 | `remove_unused_materials` on a document computes `WithoutUnusedMaterials` and leaves the text alone |
| Modifier.MissingInertialMatchesLint | src/utils/modifier.rs:309-319 | the messages about missing inertials match the linter's physics warnings one for one, naming the same links in the same order |
| Modifier.AddMissingProperties | src/utils/modifier.rs:309-319 | the loop reports one message per link with geometry but no inertial, and changes nothing |
| Modifier.FixLinkNames | src/utils/modifier.rs:264-288 | the link loop, with the renaming it is given, changes only links and joints, and keeps the set of joint keys |
| Modifier.FixJointNames | src/utils/modifier.rs:290-304 | the joint loop changes only joints |
| Modifier.RekeyedKeys | src/utils/modifier.rs:272-285 | re-keying takes out the old key and adds the new one, keeping the others |
| Modifier.FixLinkNamesKeys | src/utils/modifier.rs:264-288 | after the link loop every link key is the new name of a listed name or an original key that was not listed, and every unlisted original key remains |
| Modifier.FixJointNamesKeys | src/utils/modifier.rs:290-304 | the same for the joint loop and the joint keys |
| Modifier.FixLinkNamesPropagates | src/utils/modifier.rs:269-288 | when the listed names are distinct link keys that the renaming changes, each is reported once with its new name, and every joint end follows the renamings in order (a new name listed later is renamed again), the joints being otherwise untouched |
| Modifier.LinkLoopPropagates | src/utils/modifier.rs:264-288 | as the program runs it, with `fix_name` over the invalid link keys in key order, each is reported once with its new name and the joint ends follow the renamings |
| Modifier.FixedEndOfListed | src/utils/modifier.rs:277-283 | a joint end naming a listed name whose new name is not itself listed ends up as that new name |
| Modifier.FixedEndOfUnlisted | src/utils/modifier.rs:277-283 | a joint end naming no listed name is left alone |
| Modifier.FixNamingMeaning | src/utils/modifier.rs:261-307 | as written, every link and joint key afterwards is valid or is the digit-led new name `fix_name` gave an invalid original; every valid original key remains; the materials are untouched |
| Modifier.KeysAfterFixedName | src/utils/modifier.rs:261-307 | a key that is an unlisted original or the `fix_name` of a listed invalid name is valid or digit-led |
| Modifier.FixNamingLeavesInvalid | src/utils/modifier.rs:261-307 | as written, a robot with one link `-1` ends with a link `1`, which the linter still reports as a naming issue |
| Modifier.FixNamingCorrectedMeaning | src/utils/modifier.rs:261-307 | with the corrected renaming, every link and joint key afterwards is valid, every valid original key remains, and the materials are untouched |
| Modifier.FixNamingCorrectedLintClean | src/utils/modifier.rs:261-307 | with the corrected renaming, the linter's naming check finds nothing for links or joints afterwards |
| Modifier.NoNamingIssues | src/utils/processor.rs:239-267 | keys that are all valid draw no naming issue |
| Modifier.FixLinkNamesLoop | src/utils/modifier.rs:269-288 | the link loop, renaming with `fix_name`, computes `FixLinkNames` with `FixedName` |
| Modifier.FixJointNamesLoop | src/utils/modifier.rs:290-304 | the joint loop, renaming with `fix_name`, computes `FixJointNames` with `FixedName` |
| Modifier.FixNamingConventions | src/utils/modifier.rs:261-307 | `fix_naming_conventions` on a document: the invalid names are listed before each loop, the result is `FixNaming` (renaming with `fix_name` as written), and the text is left alone |
| Modifier.StrLeqTotal | src/utils/modifier.rs:327 | the order of `String` is total |
| Modifier.StrLeqAntisymmetric | src/utils/modifier.rs:327 | the order of `String` is antisymmetric |
| Modifier.StrLeqTransitive | src/utils/modifier.rs:327 | the order of `String` is transitive |
| Modifier.InsertSorted | src/utils/modifier.rs:327 | insertion adds exactly the one element |
| Modifier.InsertSortedAscending | src/utils/modifier.rs:327 | inserting into an ascending sequence keeps it ascending |
| Modifier.SortStrings | src/utils/modifier.rs:325-327 | `sort` gives an ascending permutation of the names |
| Modifier.SortAscending | src/utils/modifier.rs:325-327 | names that are already ascending are left in their order |
| Modifier.MoveAllMeaning | src/utils/modifier.rs:328-334 | moving distinct present names builds a map with exactly those keys, in that order, each with its old value, and leaves the other entries behind |
| Modifier.SortedEntriesMeaning | src/utils/modifier.rs:321-357 | the rebuilt map has the same keys, now ascending, and the same value under every key |
| Modifier.SortedEntriesReorders | src/utils/modifier.rs:336-338 | rebuilding changes the key order exactly when the keys were not ascending already |
| Modifier.SortedMeaning | src/utils/modifier.rs:321-357 | `sort_elements` leaves link and joint keys ascending and the same, every entry under its key, everything else untouched, and reports each collection exactly when its order changed |
| Modifier.SortEntries | src/utils/modifier.rs:325-334 | the sort-then-move loop computes `SortedEntries` |
| Modifier.SortElements | src/utils/modifier.rs:321-357 | `sort_elements` on a document computes `Sorted` and leaves the text alone |
| Modifier.FixRobot | src/utils/modifier.rs:68-92 | the enabled steps run in the source's order, each on the robot the previous step left, and the text is left alone |
| Modifier.FixDocument | src/utils/modifier.rs:68-97 | `fix_document`: the robot and messages are `Fixed`, and the text is regenerated exactly when whitespace cleaning is enabled |
| Modifier.DefaultFix | src/utils/modifier.rs:29-40 | with the default options only unused materials go, no unused material is left, and the messages are the removal notes then the cleaning note |
| Modifier.FixedNamingChars | src/utils/modifier.rs:68-97 | whenever naming is fixed, whatever else runs, every link and joint name in the result is valid or digit-led: non-empty and made of name characters only |
| Modifier.CleanLinesClean | src/utils/modifier.rs:557-566 | every line that cleaning keeps is non-empty and neither starts nor ends with whitespace |
| Modifier.TrimWithin | src/utils/modifier.rs:561 | trimming only removes characters |
| Modifier.CleanLinesNoNewline | src/utils/modifier.rs:557-566 | cleaned lines hold no line feed |
| Modifier.CleanXmlWhitespace | src/utils/modifier.rs:557-566 | the lines of the cleaned text are exactly the trimmed non-blank lines of the input, so none is blank or starts or ends with whitespace |
| Modifier.CleanLinesOfClean | src/utils/modifier.rs:557-566 | lines that are already clean are kept as they are |
| Modifier.CleanXmlWhitespaceIdempotent | src/utils/modifier.rs:557-566 | cleaning twice is cleaning once |
| Regenerate.WrittenSnoc | src/utils/modifier.rs:376-394 | writing one more item appends exactly that item's events |
| Regenerate.WriteEach | src/utils/modifier.rs:376-394 | each writer loop appends every item's events, in order |
| Regenerate.RegenerateXml | src/utils/modifier.rs:363-402 | the text becomes the regenerated stream of the robot, which is left unchanged |
| Regenerate.ReadMaterial | src/utils/modifier.rs:404-416 | the parser reads a written material back: one with a color or texture becomes a bare material under its name, any other is passed over |
| Regenerate.MaterialChild | src/utils/parser.rs:228-231 | an empty material element pair is read by the robot's child parser as a bare material |
| Regenerate.ReadLink | src/utils/modifier.rs:418-432 | the parser reads a written link back: one with content becomes a bare link under its name, any other is passed over |
| Regenerate.LinkChild | src/utils/parser.rs:220-223 | an empty link element pair is read by the robot's child parser as a bare link |
| Regenerate.OriginReadBack | src/utils/parser.rs:354-362 | a written origin with number tokens reads back as the same origin |
| Regenerate.AxisReadBack | src/utils/parser.rs:364-368 | a written axis with number tokens reads back as the same axis |
| Regenerate.JointLayout | src/utils/modifier.rs:434-465 | a written joint is its opening tag, parent, child, the origin and axis when present, then its closing tag |
| Regenerate.ReadJoint | src/utils/modifier.rs:434-465 | the parser reads a written joint back as the joint without limit, dynamics or mimic, under its name |
| Regenerate.ReadMaterials | src/utils/modifier.rs:376-378 | the written materials read back, one after another |
| Regenerate.ReadLinks | src/utils/modifier.rs:380-382 | the written links read back, one after another |
| Regenerate.ReadJoints | src/utils/modifier.rs:384-386 | the written joints read back, one after another |
| Regenerate.SkipSelfClosing | src/utils/parser.rs:246 | self-closing tags at robot level are passed over |
| Regenerate.RegeneratedLayout | src/utils/modifier.rs:368-402 | a regenerated document is the robot's opening tag, the materials, links and joints, self-closing gazebo and transmission tags, and the closing tag |
| Regenerate.RegeneratedIsOneElement | src/utils/modifier.rs:368-402 | a regenerated document opens with the robot's tag carrying its name, and its only closing `robot` tag is the last event |
| Regenerate.WrittenCloses | src/utils/modifier.rs:376-394 | the written items hold no closing tag that none of them holds |
| Regenerate.MaterialWritten | src/utils/modifier.rs:404-416 | a material is one element carrying its name, a pair exactly when it has a color or texture, with no children |
| Regenerate.LinkWritten | src/utils/modifier.rs:418-432 | a link is one element carrying its name, a pair exactly when it has content, with no children |
| Regenerate.JointWritten | src/utils/modifier.rs:434-465 | a joint is one element pair carrying its name and type, with parent and child first, then the origin and axis when present |
| Regenerate.GazeboWritten | src/utils/modifier.rs:467-474 | a gazebo block is one self-closing tag whose `reference` reads back as the block's reference |
| Regenerate.TransmissionWritten | src/utils/modifier.rs:476-481 | a transmission is one self-closing tag carrying its name |
| Regenerate.RegeneratedBody | src/utils/parser.rs:203-252 | the robot loop reads a regenerated document to its end and finds its skeleton |
| Regenerate.RegeneratedReadsBack | src/utils/modifier.rs:368-402 | parsing a regenerated document gives its skeleton: the name, every link with content and every material with a color or texture (without their children), every joint without limit, dynamics or mimic, and no gazebo or transmission blocks |
| Names.IsValidName | src/utils/modifier.rs:522-526 | a valid name is non-empty, starts with a non-digit alphanumeric character or `_`, and continues with alphanumerics and `_` only |
| Names.FixFirst | src/utils/modifier.rs:532-539 | a leading digit gets an underscore in front of it |
| Names.FixChar | src/utils/modifier.rs:541-547 | a later character becomes at most one character, and a name character is kept, lower-cased |
| Names.RewrittenPrefixNameChars | src/utils/modifier.rs:528-554 | every character the rewrite keeps or produces is a name character |
| Names.FixedName | src/utils/modifier.rs:528-554 | `fix_name` as written: a non-empty result made of name characters that starts with an underscore when the name started with a digit, and differs from any invalid name |
| Names.FixedNameOfValid | src/utils/modifier.rs:528-554 | a valid name comes out lower-cased, so unchanged when it has no upper-case ASCII letter |
| Names.FixedNameCanBeInvalid | src/utils/modifier.rs:528-554 | as written, `fix_name("-1")` is `"1"`, which is not a valid name |
| Names.FixedNameCorrected | src/utils/modifier.rs:528-554 | the corrected renaming always yields a valid name, agrees with `fix_name` wherever that one is valid, and differs from any invalid name |
| Names.FixName | src/utils/modifier.rs:528-554 | the loop of `fix_name` computes `FixedName` |
| Text.AlphanumericAscii | src/utils/modifier.rs:524 | on ASCII, exactly the letters and digits |
| Text.WhitespaceAscii | src/utils/modifier.rs:544 | on ASCII, exactly space and tab through carriage return; never alphanumeric, `_` or `-` |
| Text.ToAsciiLowercase | src/utils/modifier.rs:536 | lower-casing keeps alphanumerics alphanumeric, digits digits, and `_` itself |
| Text.TrimStart | src/utils/modifier.rs:561 | a suffix of the input that does not start with whitespace, all the dropped characters being whitespace |
| Text.TrimEnd | src/utils/modifier.rs:561 | a prefix of the input that does not end with whitespace, all the dropped characters being whitespace |
| Text.Trim | src/utils/modifier.rs:561 | the trimmed string neither starts nor ends with whitespace |
| Text.TrimOfTrimmed | src/utils/modifier.rs:561 | a string that neither starts nor ends with whitespace is its own trim |
| Text.Lines | src/utils/modifier.rs:558 | no line holds a line feed |
| Text.LinesOfJoin | src/utils/modifier.rs:558-565 | joining non-empty lines with no line feed and no final carriage return, then splitting, gives the lines back |
| Text.LinesOfLine | src/utils/modifier.rs:558 | a line followed by a line feed is the first line of the result |
| Text.WordLength | src/utils/parser.rs:396 | the length of the leading run of non-whitespace characters |
| Text.SplitWhitespace | src/utils/parser.rs:396 | every word is non-empty and holds no whitespace |
| Text.SplitJoinWords | src/utils/parser.rs:396 | splitting words joined by single spaces gives the words back |
| Text.NumericHasNoWhitespace | src/utils/parser.rs:396-400 | a number token never holds whitespace |
| IndexMaps.Keys | src/utils/parser.rs:222 | the keys of a map, slot by slot |
| IndexMaps.KeysDistinct | src/utils/parser.rs:222 | the keys of an index map never repeat |
| IndexMaps.IndexOf | src/utils/parser.rs:222 | the one slot that holds a key |
| IndexMaps.Get | src/utils/modifier.rs:128 | a key is found exactly when it is present, with the value in its slot |
| IndexMaps.Insert | src/utils/parser.rs:222 | a new key is appended and a present key keeps its slot; the key then maps to the value and every other key keeps its value |
| IndexMaps.SwapRemove | src/utils/modifier.rs:128 | the key disappears, the last entry takes its slot, every other entry keeps its slot, and every other key keeps its value |
| IndexMaps.SwapRemovedKeys | src/utils/modifier.rs:128 | the swapped entries still have distinct keys, one fewer entry, and the same keys except the removed one |
| IndexMaps.MapValues | src/utils/modifier.rs:161-168 | rewriting values in place keeps every key in its slot |
| Base.NatToString | src/utils/processor.rs:150 | the decimal rendering of a count: digits only, with no leading zero |
| Base.NatToStringRoundTrip | src/utils/processor.rs:150 | reading the rendering back gives the count |

## Left out

- **Everything outside the three core files.** The command-line layer (`src/main.rs`,
  `src/cli.rs`, `src/commands/`) is not part of this model. It only parses arguments and
  prints.
- **File I/O.** `parse_file` is left out, because it only reads a file and hands the text
  to `parse_string`.
- **The quick_xml tokenizer and writer.** A document is the event sequence they would
  produce or consume.
  - Indentation, `FormatOptions` and `format_document` are left out, because they only
    affect layout.
  - `validate_xml_structure` is left out, because it only drives the tokenizer.
- **Floating point.** A number is the token it came from.
  - `Text.IsNumeric` is a grammar standing in for `str::parse::<f64>` succeeding: an
    optional sign, then a decimal with an optional exponent, or `inf`, `infinity` or
    `nan` in any case. No value is computed, so limits and ranges are not checked.
  - The `{} {} {}` text the writer produces for a triple is the tokens joined by spaces.
- **UTF-8 conversion of the writer's buffer.** Regeneration never fails in the model: the
  error paths of the writer are left out, because writing into a vector cannot fail.
- **`try_auto_fix` / `apply_auto_fixes`.** Left out, because the fix is a stub that never
  applies anything.
- **HashMap iteration order.** `count_joint_types` gives a `map` of counts, and the
  duplicate finder's output is a `map`. Their iteration order is not modelled.
- **Debug formatting.** The `{:?}` rendering of a name list in messages is `["a", "b"]`,
  without Rust's escaping of quotes and control characters inside names.
- **`char::is_alphanumeric`** is exact up to U+00FF. Characters above U+00FF count as not
  alphanumeric here.
- `Modifier.SortStrings`: the library sort is modelled by insertion sort. Only its result
  is used: the ascending permutation, which is unique.
- `Modifier.RemoveDuplicates`: it is the identity, proved from the fact that index-map keys
  are distinct. The removal loops it would run are not modelled separately.
- `Processor.FindPath`:
  - `find_path` uses `path` after moving it into the chain, so as written it does not
    compile;
  - the model sets `length` to the number of links on the path.
- `Graph.DfsHasCycle`, `Graph.DfsDepth`, `Graph.DfsPath`:
  - the `visited` and recursion-stack sets are passed in and returned as values, rather
    than shared by reference;
  - the cycle search carries ghost arguments (the stack as a sequence, a finish order)
    that exist only for the proof.
- `Regenerate.RegeneratedReadsBack` requires every written origin and axis to hold number
  tokens. A regenerated number the parser cannot read is not covered.
- `Graph.DfsDepth`: the value is not stated as "one more than the largest depth among the
  children", because it is not that. The `visited` set is shared between siblings, so when
  two parents reach the same child the result depends on the order of the children. With
  joints a→d, a→b, b→d, d→e and a's children listed as [d, b], the search from a returns 3,
  while the longest walk, a, b, d, e, has 4 nodes. The model states only what holds in
  every order: a simple walk of that length through nodes the call visited, and no more
  than their number.
- `Processor.CalculateTreeDepth`: for the same reason its result is stated as the length of
  a simple walk from a root, at most one more than the number of graph nodes. It is not
  claimed to be the longest walk from a root.
- `get_dependency_graph` is the loop of `build_adjacency_list`. It is covered by
  `Graph.BuildAdjacencyList` and not written twice.

## Findings

| source | as written | input that shows it | evidently intended | confidence | as-written member | corrected member |
|---|---|---|---|---|---|---|
| src/utils/modifier.rs:528-554 | `fix_name` puts `_` in front only when the first character is a digit; a dropped first character can leave a digit in front | `fix_name("-1")` is `"1"`, which `is_valid_name` rejects, so `fix_naming_conventions` can write an invalid name | the result of `fix_name` is always a valid name, so the naming fix leaves no naming issue | not executed | Modifier.FixNamingLeavesInvalid | Modifier.FixNamingCorrectedLintClean |

The rest of the model runs `fix_name` as written: `Modifier.FixNaming`, and through it
`Modifier.FixNamingConventions`, `Modifier.FixRobot` and `Modifier.FixDocument`, rename with
`Names.FixedName`. The intended behaviour is kept beside it under its own names:
`Names.FixedNameCorrected` (also shown by `Names.FixedNameCanBeInvalid` at the level of one
name) and the corrected renaming of the whole robot, `Modifier.FixNamingCorrected`, built on it.
