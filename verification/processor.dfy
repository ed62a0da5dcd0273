/**
 * The analyzer and linter: statistics about a robot, the kinematic-tree check, and the
 * ordered list of lint issues. Set-building queries (roots, leaves, orphans) are
 * functions; the searches, counters and issue collectors are methods with loops, each
 * proved to compute a specification function whose meaning is stated and proved here.
 */
module Processor {
  import opened Base
  import opened IndexMaps
  import opened Urdf
  import opened Names
  import opened Graph

  datatype Severity = Error | Warning | Info

  datatype Category = Structure | Naming | Physics | Geometry | Validation | Style

  datatype Issue = Issue(
    severity: Severity, category: Category, message: string,
    element: Option<string>, suggestion: Option<string>)

  datatype LinkProperties = LinkProperties(withVisual: nat, withCollision: nat, withInertial: nat, emptyLinks: nat)

  datatype KinematicChain = KinematicChain(name: string, links: seq<string>, joints: seq<string>, length: nat)

  datatype Stats = Stats(
    totalLinks: nat, totalJoints: nat, totalMaterials: nat,
    jointTypes: map<string, nat>, linkProperties: LinkProperties,
    treeDepth: nat, chains: seq<KinematicChain>)

  /** Outcome of the kinematic-tree check: `Ok(())` or the list of errors. */
  datatype Verdict = Valid | Invalid(errors: seq<string>)

  // ---------------------------------------------------------------- roots, leaves, orphans

  /** `find_root_links`: the link names, in link order, that no joint has as its child. */
  function RootLinks(r: Robot): (roots: seq<string>)
    ensures forall k :: k in roots <==> k in Keys(r.links) && k !in ChildNames(r.joints)
    ensures IsSubsequence(roots, Keys(r.links)) && Distinct(roots)
  {
    KeysDistinct(r.links);
    Without(Keys(r.links), ChildNames(r.joints))
  }

  /** `find_leaf_links`: the link names, in link order, that no joint has as its parent. */
  function LeafLinks(r: Robot): (leaves: seq<string>)
    ensures forall k :: k in leaves <==> k in Keys(r.links) && k !in ParentNames(r.joints)
    ensures IsSubsequence(leaves, Keys(r.links)) && Distinct(leaves)
  {
    KeysDistinct(r.links);
    Without(Keys(r.links), ParentNames(r.joints))
  }

  /** `find_orphaned_links`: the link names, in link order, that no joint mentions at either end. */
  function OrphanedLinks(r: Robot): (orphans: seq<string>)
    ensures forall k :: k in orphans <==> k in Keys(r.links) && k !in ParentNames(r.joints) && k !in ChildNames(r.joints)
    ensures IsSubsequence(orphans, Keys(r.links)) && Distinct(orphans)
  {
    KeysDistinct(r.links);
    Without(Keys(r.links), ParentNames(r.joints) + ChildNames(r.joints))
  }

  /** In the joints' graph, no edge enters a root and no edge leaves a leaf. */
  lemma RootsAndLeavesInGraph(r: Robot, k: string)
    ensures k in RootLinks(r) ==> forall u :: !Edge(AdjacencyOf(r.joints), u, k)
    ensures k in LeafLinks(r) ==> Children(AdjacencyOf(r.joints), k) == []
  {
    forall u | Edge(AdjacencyOf(r.joints), u, k) ensures k in ChildNames(r.joints) {
      AdjacencyEdges(r.joints, u, k);
      var i :| 0 <= i < |r.joints| && r.joints[i].1.parent == u && r.joints[i].1.child == k;
    }
    AdjacencyEdges(r.joints, k, k);
    if k in AdjacencyOf(r.joints) {
      var i :| 0 <= i < |r.joints| && r.joints[i].1.parent == k;
      assert k in ParentNames(r.joints);
    }
  }

  // ---------------------------------------------------------------- kinematic-tree check

  /** `{:?}` of a `Vec<String>`: the items in double quotes, separated by `", "`, inside brackets. */
  function DebugList(items: seq<string>): string {
    "[" + DebugItems(items) + "]"
  }

  function DebugItems(items: seq<string>): string {
    if items == [] then ""
    else "\"" + items[0] + "\"" + (if |items| == 1 then "" else ", " + DebugItems(items[1..]))
  }

  function RootCountError(roots: seq<string>): string {
    "Expected exactly 1 root link, found " + NatToString(|roots|) + ": " + DebugList(roots)
  }

  const CycleError := "Kinematic tree contains cycles"

  function OrphanError(orphans: seq<string>): string {
    "Found orphaned links: " + DebugList(orphans)
  }

  /** The three messages start with different letters, so none can be mistaken for another. */
  lemma ErrorsDiffer(roots: seq<string>, orphans: seq<string>)
    ensures RootCountError(roots)[0] == 'E' && CycleError[0] == 'K' && OrphanError(orphans)[0] == 'F'
  {
  }

  /** Some link reaches a cycle of the joints' graph. */
  ghost predicate Cyclic(r: Robot) {
    exists k :: 0 <= k < |r.links| && CycleReachable(AdjacencyOf(r.joints), r.links[k].0)
  }

  /**
   * The errors of `validate_kinematic_tree`, given whether the graph has a cycle: none
   * exactly when there is one root, no cycle and no orphan; otherwise at most one message
   * per failed condition, the root count first and the orphans last.
   */
  function TreeErrors(r: Robot, cyclic: bool): seq<string> {
    var roots, orphans := RootLinks(r), OrphanedLinks(r);
    (if |roots| != 1 then [RootCountError(roots)] else [])
    + (if cyclic then [CycleError] else [])
    + (if orphans != [] then [OrphanError(orphans)] else [])
  }

  lemma TreeErrorsMeaning(r: Robot, cyclic: bool)
    ensures var errors := TreeErrors(r, cyclic);
      && (errors == [] <==> |RootLinks(r)| == 1 && !cyclic && OrphanedLinks(r) == [])
      && |errors| <= 3
      && (|RootLinks(r)| != 1 <==> |errors| > 0 && errors[0] == RootCountError(RootLinks(r)))
      && (cyclic <==> CycleError in errors)
      && (OrphanedLinks(r) != [] <==> |errors| > 0 && errors[|errors| - 1] == OrphanError(OrphanedLinks(r)))
  {
    ErrorsDiffer(RootLinks(r), OrphanedLinks(r));
  }

  /** `has_cycles`: a cycle search from every link not yet visited, in link order. */
  method HasCycles(doc: Document) returns (found: bool)
    ensures found <==> Cyclic(doc.robot)
  {
    found := false;
    var g := BuildAdjacencyList(doc.robot.joints);
    var links := Keys(doc.robot.links);
    var visited: set<string> := {};
    var recStack: set<string> := {};
    ghost var rank: map<string, nat> := map[];
    ghost var clock: nat := 0;
    for i := 0 to |links|
      invariant recStack == {} && Finished(g, visited, recStack, rank, clock)
      invariant forall k :: 0 <= k < i ==> links[k] in visited
    {
      var link := links[i];
      if link !in visited {
        found, visited, recStack, rank, clock := DfsHasCycle(g, link, visited, recStack, [], rank, clock);
        if found {
          assert ([] + [link])[0] == link;
          return true;
        }
      }
    }
    forall k | 0 <= k < |links| ensures !CycleReachable(g, links[k]) {
      NoCycleFromBlack(g, visited, recStack, rank, clock, links[k]);
    }
    return false;
  }

  /** `validate_kinematic_tree`. */
  method ValidateKinematicTree(doc: Document) returns (v: Verdict)
    ensures v.Valid? <==> |RootLinks(doc.robot)| == 1 && !Cyclic(doc.robot) && OrphanedLinks(doc.robot) == []
    ensures v.Invalid? ==> v.errors == TreeErrors(doc.robot, Cyclic(doc.robot))
  {
    var errors: seq<string> := [];
    var roots := RootLinks(doc.robot);
    if |roots| != 1 {
      errors := errors + [RootCountError(roots)];
    }
    var cyclic := HasCycles(doc);
    if cyclic {
      errors := errors + [CycleError];
    }
    var orphans := OrphanedLinks(doc.robot);
    if orphans != [] {
      errors := errors + [OrphanError(orphans)];
    }
    assert errors == TreeErrors(doc.robot, cyclic);
    TreeErrorsMeaning(doc.robot, cyclic);
    if errors == [] {
      v := Valid;
    } else {
      v := Invalid(errors);
    }
  }

  /** A joint whose parent is also its child, on a link, is a cycle. */
  lemma SelfLoopIsCycle(r: Robot, i: nat)
    requires i < |r.joints| && r.joints[i].1.parent == r.joints[i].1.child
    requires r.joints[i].1.parent in Keys(r.links)
    ensures Cyclic(r)
  {
    var u := r.joints[i].1.parent;
    AdjacencyEdges(r.joints, u, u);
    var p := [u, u];
    assert Edge(AdjacencyOf(r.joints), p[0], p[1]);
    assert p[0] == p[|p| - 1];
    assert IsLasso(AdjacencyOf(r.joints), p);
    var k :| 0 <= k < |r.links| && r.links[k].0 == u;
  }

  /** Without joints there are no edges, hence no cycle. */
  lemma NoJointsNoCycle(r: Robot)
    requires |r.joints| == 0
    ensures !Cyclic(r)
  {
    var g := AdjacencyOf(r.joints);
    assert g == map[];
    forall k | 0 <= k < |r.links| ensures !CycleReachable(g, r.links[k].0) {
      if CycleReachable(g, r.links[k].0) {
        var p :| IsLasso(g, p) && p[0] == r.links[k].0;
        LassoHasEdge(g, p);
        assert false;
      }
    }
  }

  lemma LassoHasEdge(g: Adjacency, p: seq<string>)
    requires IsLasso(g, p)
    ensures Edge(g, p[0], p[1])
  {
  }

  /** A robot with one link and no joints fails the tree check: its only link counts as orphaned. */
  lemma SingleLinkIsOrphaned(r: Robot)
    requires |r.links| == 1 && |r.joints| == 0
    ensures RootLinks(r) == [r.links[0].0]
    ensures OrphanedLinks(r) == [r.links[0].0]
    ensures TreeErrors(r, Cyclic(r)) == [OrphanError([r.links[0].0])]
  {
    NoJointsNoCycle(r);
    TreeErrorsMeaning(r, false);
    assert Keys(r.links) == [r.links[0].0];
    assert ChildNames(r.joints) == {} && ParentNames(r.joints) == {};
  }

  // ---------------------------------------------------------------- counts

  /** How often each value occurs in `bag`. */
  function CountMap(bag: multiset<string>): map<string, nat> {
    map t | t in bag :: bag[t]
  }

  lemma CountMapAdd(bag: multiset<string>, x: string)
    ensures CountMap(bag + multiset{x}) == CountMap(bag)[x := (if x in bag then bag[x] else 0) + 1]
  {
    var a, b := CountMap(bag + multiset{x}), CountMap(bag)[x := (if x in bag then bag[x] else 0) + 1];
    assert a.Keys == b.Keys;
  }

  /** The `*counts.entry(name).or_insert(0) += 1` loop of `count_joint_types` and `find_duplicate_names`. */
  method CountOccurrences(xs: seq<string>) returns (counts: map<string, nat>)
    ensures counts == CountMap(multiset(xs))
    ensures forall t :: t in counts <==> t in xs
  {
    counts := map[];
    for i := 0 to |xs|
      invariant counts == CountMap(multiset(xs[..i]))
    {
      var x := xs[i];
      assert xs[..i + 1] == xs[..i] + [x];
      CountMapAdd(multiset(xs[..i]), x);
      var c := if x in counts then counts[x] else 0;
      counts := counts[x := c + 1];
    }
    assert xs[..|xs|] == xs;
  }

  /** The sum of the counts of the keys `ks`, in that order. */
  function SumOver(ks: seq<string>, m: map<string, nat>): nat
    requires forall k :: k in ks ==> k in m
  {
    if ks == [] then 0 else m[ks[0]] + SumOver(ks[1..], m)
  }

  lemma {:induction false} SumOverAgree(ks: seq<string>, m1: map<string, nat>, m2: map<string, nat>)
    requires forall k :: k in ks ==> k in m1 && k in m2 && m1[k] == m2[k]
    ensures SumOver(ks, m1) == SumOver(ks, m2)
  {
    if ks != [] {
      SumOverAgree(ks[1..], m1, m2);
    }
  }

  /** A bag splits into the copies of one value and the rest. */
  lemma {:induction false} BagSplit(bag: multiset<string>, x: string)
    ensures |bag| == bag[x] + |bag[x := 0]|
    decreases bag[x]
  {
    if bag[x] > 0 {
      var smaller := bag - multiset{x};
      assert bag == smaller + multiset{x};
      assert smaller[x := 0] == bag[x := 0];
      BagSplit(smaller, x);
    } else {
      assert bag[x := 0] == bag;
    }
  }

  /** However the counted values are enumerated (a hash map's order is unspecified), their counts add up to the number of items. */
  lemma {:induction false} CountsAddUp(ks: seq<string>, bag: multiset<string>)
    requires Distinct(ks)
    requires forall k :: k in ks <==> k in bag
    ensures SumOver(ks, CountMap(bag)) == |bag|
  {
    if ks == [] {
      assert bag == multiset{};
    } else {
      var x := ks[0];
      var rest := bag[x := 0];
      assert forall k :: k in ks[1..] ==> k in ks && k != x;
      assert forall k :: k in ks[1..] <==> k in rest;
      CountsAddUp(ks[1..], rest);
      SumOverAgree(ks[1..], CountMap(rest), CountMap(bag));
      BagSplit(bag, x);
    }
  }

  function JointTypes(joints: seq<(string, Joint)>): (types: seq<string>)
    ensures |types| == |joints|
    ensures forall i :: 0 <= i < |joints| ==> types[i] == joints[i].1.jointType
  {
    seq(|joints|, i requires 0 <= i < |joints| => joints[i].1.jointType)
  }

  /** `count_joint_types`: each type maps to the number of joints that have it. */
  method CountJointTypes(r: Robot) returns (counts: map<string, nat>)
    ensures counts == CountMap(multiset(JointTypes(r.joints)))
    ensures forall t :: t in counts <==> exists i :: 0 <= i < |r.joints| && r.joints[i].1.jointType == t
  {
    var types := JointTypes(r.joints);
    counts := CountOccurrences(types);
    forall t | t in counts ensures exists i :: 0 <= i < |r.joints| && r.joints[i].1.jointType == t {
      var i :| 0 <= i < |types| && types[i] == t;
    }
  }

  /** The joint-type counts, read in any order, add up to the number of joints. */
  lemma JointTypeCountsAddUp(r: Robot, ks: seq<string>)
    requires Distinct(ks)
    requires forall k :: k in ks <==> k in CountMap(multiset(JointTypes(r.joints)))
    ensures SumOver(ks, CountMap(multiset(JointTypes(r.joints)))) == |r.joints|
  {
    CountsAddUp(ks, multiset(JointTypes(r.joints)));
  }

  predicate HasVisual(l: Link) { l.visual != [] }
  predicate HasCollision(l: Link) { l.collision != [] }
  predicate HasInertial(l: Link) { l.inertial.Some? }

  /** How many links have a visual, a collision, an inertial, and none of the three. */
  function LinkPropertiesOf(links: seq<Link>): LinkProperties {
    LinkProperties(
      |Filter(links, HasVisual)|, |Filter(links, HasCollision)|,
      |Filter(links, HasInertial)|, |Filter(links, IsEmptyLink)|)
  }

  lemma LinkPropertiesSnoc(links: seq<Link>, link: Link)
    ensures var p := LinkPropertiesOf(links);
      LinkPropertiesOf(links + [link]) == LinkProperties(
        p.withVisual + (if HasVisual(link) then 1 else 0),
        p.withCollision + (if HasCollision(link) then 1 else 0),
        p.withInertial + (if HasInertial(link) then 1 else 0),
        p.emptyLinks + (if IsEmptyLink(link) then 1 else 0))
  {
    FilterSnoc(links, link, HasVisual);
    FilterSnoc(links, link, HasCollision);
    FilterSnoc(links, link, HasInertial);
    FilterSnoc(links, link, IsEmptyLink);
  }

  /** The counts over one more link of `links`: the step the loop of `AnalyzeLinkProperties` takes. */
  lemma LinkPropertiesStep(links: seq<Link>, i: nat)
    requires i < |links|
    ensures var p := LinkPropertiesOf(links[..i]); var link := links[i];
      LinkPropertiesOf(links[..i + 1]) == LinkProperties(
        p.withVisual + (if HasVisual(link) then 1 else 0),
        p.withCollision + (if HasCollision(link) then 1 else 0),
        p.withInertial + (if HasInertial(link) then 1 else 0),
        p.emptyLinks + (if IsEmptyLink(link) then 1 else 0))
  {
    assert links[..i + 1] == links[..i] + [links[i]];
    LinkPropertiesSnoc(links[..i], links[i]);
  }

  /** `analyze_link_properties`. */
  method AnalyzeLinkProperties(r: Robot) returns (props: LinkProperties)
    ensures props == LinkPropertiesOf(Values(r.links))
  {
    var links := Values(r.links);
    props := LinkProperties(0, 0, 0, 0);
    for i := 0 to |links|
      invariant props == LinkPropertiesOf(links[..i])
    {
      var link := links[i];
      LinkPropertiesStep(links, i);
      if link.visual != [] {
        props := props.(withVisual := props.withVisual + 1);
      }
      if link.collision != [] {
        props := props.(withCollision := props.withCollision + 1);
      }
      if link.inertial.Some? {
        props := props.(withInertial := props.withInertial + 1);
      }
      if link.visual == [] && link.collision == [] && link.inertial.None? {
        props := props.(emptyLinks := props.emptyLinks + 1);
      }
    }
    assert links[..|links|] == links;
  }

  /**
   * Every count is at most the number of links; the empty links are exactly the ones
   * without content, and no link with a visual, a collision or an inertial is counted empty.
   */
  lemma LinkPropertiesBounds(links: seq<Link>)
    ensures var p := LinkPropertiesOf(links);
      && p.emptyLinks + |Filter(links, HasContent)| == |links|
      && p.emptyLinks + p.withVisual <= |links|
      && p.emptyLinks + p.withCollision <= |links|
      && p.emptyLinks + p.withInertial <= |links|
  {
    FilterComplement(links, IsEmptyLink, HasContent);
    FilterDisjoint(links, IsEmptyLink, HasVisual);
    FilterDisjoint(links, IsEmptyLink, HasCollision);
    FilterDisjoint(links, IsEmptyLink, HasInertial);
  }

  // ---------------------------------------------------------------- depth and chains

  /**
   * `calculate_tree_depth`: 0 without roots; otherwise the deepest search from a root,
   * each with a fresh visited set. The depth is the length of a simple walk from a root,
   * so it is at most one more than the number of names the joints mention.
   */
  method CalculateTreeDepth(r: Robot) returns (depth: nat, ghost walk: seq<string>)
    ensures depth == 0 <==> RootLinks(r) == []
    ensures depth > 0 ==> |walk| == depth && Distinct(walk) && IsPath(AdjacencyOf(r.joints), walk) && walk[0] in RootLinks(r)
    ensures depth <= |Nodes(AdjacencyOf(r.joints))| + 1
  {
    var g := BuildAdjacencyList(r.joints);
    var roots := RootLinks(r);
    walk := [];
    if roots == [] {
      return 0, walk;
    }
    var maxDepth: nat := 0;
    for i := 0 to |roots|
      invariant i > 0 ==> maxDepth > 0
      invariant maxDepth > 0 ==> |walk| == maxDepth && Distinct(walk) && IsPath(g, walk) && walk[0] in roots
      invariant maxDepth <= |Nodes(g)| + 1
    {
      var d: nat;
      var seen: set<string>;
      ghost var w: seq<string>;
      d, seen, w := DfsDepth(g, roots[i], {});
      DistinctWithin(w, Nodes(g) + {roots[i]});
      assert |Nodes(g) + {roots[i]}| <= |Nodes(g)| + 1;
      if d > maxDepth {
        maxDepth := d;
        walk := w;
      }
    }
    depth := maxDepth;
  }

  predicate Connects(e: (string, Joint), parent: string, child: string) {
    e.1.parent == parent && e.1.child == child
  }

  /** Slot of the first joint from slot `from` on, in joint order, that goes from `parent` to `child`. */
  function FirstJointFrom(joints: seq<(string, Joint)>, parent: string, child: string, from: nat): (r: Option<nat>)
    ensures r.Some? ==> from <= r.value < |joints| && Connects(joints[r.value], parent, child)
    ensures r.Some? ==> forall k :: from <= k < r.value ==> !Connects(joints[k], parent, child)
    ensures r.None? <==> forall k :: from <= k < |joints| ==> !Connects(joints[k], parent, child)
    decreases |joints| - from
  {
    if from >= |joints| then None
    else if Connects(joints[from], parent, child) then Some(from)
    else FirstJointFrom(joints, parent, child, from + 1)
  }

  /** The names of the joints along the first `n` steps of `path`: per step, the first joint making it, if any. */
  function JointsAlong(path: seq<string>, joints: seq<(string, Joint)>, n: nat): (names: seq<string>)
    requires n < |path|
    ensures |names| <= n
  {
    if n == 0 then []
    else
      JointsAlong(path, joints, n - 1)
      + (match FirstJointFrom(joints, path[n - 1], path[n], 0)
         case Some(k) => [joints[k].0]
         case None => [])
  }

  /** Each step of a walk of the joints' own graph is made by some joint. */
  lemma {:induction false} WalkStepHasJoint(path: seq<string>, joints: seq<(string, Joint)>, i: nat)
    requires i + 1 < |path| && IsPath(AdjacencyOf(joints), path)
    ensures FirstJointFrom(joints, path[i], path[i + 1], 0).Some?
  {
    assert Edge(AdjacencyOf(joints), path[i], path[i + 1]);
    AdjacencyEdges(joints, path[i], path[i + 1]);
    var j :| 0 <= j < |joints| && joints[j].1.parent == path[i] && joints[j].1.child == path[i + 1];
    assert Connects(joints[j], path[i], path[i + 1]);
  }

  /** Step `i` of `path` is made by a joint named `name`. */
  predicate NamesStep(joints: seq<(string, Joint)>, name: string, path: seq<string>, i: nat)
    requires i + 1 < |path|
  {
    exists k :: 0 <= k < |joints| && joints[k].0 == name && Connects(joints[k], path[i], path[i + 1])
  }

  /** Some joint makes step `i` of `path`. */
  predicate StepHasJoint(joints: seq<(string, Joint)>, path: seq<string>, i: nat)
    requires i + 1 < |path|
  {
    FirstJointFrom(joints, path[i], path[i + 1], 0).Some?
  }

  /** Along a walk of the joints' own graph every step has a joint: one name per step, each naming a joint that makes that step. */
  lemma JointsAlongWalk(path: seq<string>, joints: seq<(string, Joint)>, n: nat)
    requires n < |path| && IsPath(AdjacencyOf(joints), path)
    ensures |JointsAlong(path, joints, n)| == n
    ensures forall i :: 0 <= i < n ==> NamesStep(joints, JointsAlong(path, joints, n)[i], path, i)
  {
    forall i | 0 <= i < n ensures StepHasJoint(joints, path, i) {
      WalkStepHasJoint(path, joints, i);
    }
    JointsAlongSteps(path, joints, n);
  }

  /** When every one of the first `n` steps has a joint, there is one name per step, each naming a joint that makes it. */
  lemma {:induction false} JointsAlongSteps(path: seq<string>, joints: seq<(string, Joint)>, n: nat)
    requires n < |path|
    requires forall i :: 0 <= i < n ==> StepHasJoint(joints, path, i)
    ensures |JointsAlong(path, joints, n)| == n
    ensures forall i :: 0 <= i < n ==> NamesStep(joints, JointsAlong(path, joints, n)[i], path, i)
  {
    if n > 0 {
      JointsAlongSteps(path, joints, n - 1);
      assert StepHasJoint(joints, path, n - 1);
      var k := FirstJointFrom(joints, path[n - 1], path[n], 0).value;
      var prev := JointsAlong(path, joints, n - 1);
      var names := JointsAlong(path, joints, n);
      assert names == prev + [joints[k].0];
      forall i | 0 <= i < n ensures NamesStep(joints, names[i], path, i) {
        if i < n - 1 {
          assert names[i] == prev[i];
        } else {
          assert names[i] == joints[k].0;
        }
      }
    }
  }

  /** `get_joints_in_path`. */
  method GetJointsInPath(path: seq<string>, joints: seq<(string, Joint)>) returns (names: seq<string>)
    requires |path| >= 1
    ensures names == JointsAlong(path, joints, |path| - 1)
  {
    names := [];
    for i := 0 to |path| - 1
      invariant names == JointsAlong(path, joints, i)
    {
      var parent, child := path[i], path[i + 1];
      var j := 0;
      while j < |joints|
        invariant j <= |joints|
        invariant FirstJointFrom(joints, parent, child, j) == FirstJointFrom(joints, parent, child, 0)
        invariant names == JointsAlong(path, joints, i)
      {
        if joints[j].1.parent == parent && joints[j].1.child == child {
          names := names + [joints[j].0];
          break;
        }
        j := j + 1;
      }
    }
  }

  /** A chain from `start` to `end`: a simple walk with the joints along it and its length in links. */
  predicate IsChain(c: KinematicChain, start: string, end: string, g: Adjacency, joints: seq<(string, Joint)>) {
    && c.name == start + "_to_" + end
    && IsPath(g, c.links) && c.links[0] == start && c.links[|c.links| - 1] == end && Distinct(c.links)
    && c.joints == JointsAlong(c.links, joints, |c.links| - 1)
    && c.length == |c.links|
  }

  /** `find_path`: a chain exactly when `end` can be reached from `start`. */
  method FindPath(g: Adjacency, start: string, end: string, joints: seq<(string, Joint)>)
    returns (chain: Option<KinematicChain>)
    ensures chain.Some? <==> Reaches(g, start, end)
    ensures chain.Some? ==> IsChain(chain.value, start, end, g, joints)
  {
    var found, path, visited := DfsPath(g, start, end, [], {});
    if found {
      assert path[0..] == path;
      var names := GetJointsInPath(path, joints);
      chain := Some(KinematicChain(start + "_to_" + end, path, names, |path|));
    } else {
      chain := None;
      assert visited - {} == visited;
      if Reaches(g, start, end) {
        var p :| IsPath(g, p) && p[0] == start && p[|p| - 1] == end;
        ClosedSetHoldsWalks(g, visited, p);
        assert false;
      }
    }
  }

  /** The (root, leaf) pairs, in loop order, for which `find_kinematic_chains` finds a chain. */
  ghost function PairsFor(leaf: string, roots: seq<string>, g: Adjacency): seq<(string, string)> {
    if roots == [] then []
    else
      var root := roots[|roots| - 1];
      PairsFor(leaf, roots[..|roots| - 1], g) + (if Reaches(g, root, leaf) then [(root, leaf)] else [])
  }

  ghost function ChainEnds(leaves: seq<string>, roots: seq<string>, g: Adjacency): seq<(string, string)> {
    if leaves == [] then [] else ChainEnds(leaves[..|leaves| - 1], roots, g) + PairsFor(leaves[|leaves| - 1], roots, g)
  }

  /** Each pair names a root, a leaf, and a walk between them. */
  lemma {:induction false} ChainEndsMeaning(leaves: seq<string>, roots: seq<string>, g: Adjacency)
    ensures forall i :: 0 <= i < |ChainEnds(leaves, roots, g)| ==>
      var e := ChainEnds(leaves, roots, g)[i];
      e.0 in roots && e.1 in leaves && Reaches(g, e.0, e.1)
  {
    if leaves != [] {
      var init := leaves[..|leaves| - 1];
      ChainEndsMeaning(init, roots, g);
      PairsForMeaning(leaves[|leaves| - 1], roots, g);
      assert forall x :: x in init ==> x in leaves;
    }
  }

  lemma {:induction false} PairsForMeaning(leaf: string, roots: seq<string>, g: Adjacency)
    ensures forall i :: 0 <= i < |PairsFor(leaf, roots, g)| ==>
      var e := PairsFor(leaf, roots, g)[i];
      e.0 in roots && e.1 == leaf && Reaches(g, e.0, e.1)
  {
    if roots != [] {
      var init := roots[..|roots| - 1];
      PairsForMeaning(leaf, init, g);
      assert forall x :: x in init ==> x in roots;
    }
  }

  /** Chain `i` runs between the two ends of pair `i`. */
  ghost predicate ChainsFor(chains: seq<KinematicChain>, ends: seq<(string, string)>, g: Adjacency, joints: seq<(string, Joint)>) {
    |chains| == |ends| && forall i :: 0 <= i < |chains| ==> IsChain(chains[i], ends[i].0, ends[i].1, g, joints)
  }

  lemma ChainsForAppend(chains: seq<KinematicChain>, ends: seq<(string, string)>, c: KinematicChain, e: (string, string),
                        g: Adjacency, joints: seq<(string, Joint)>)
    requires ChainsFor(chains, ends, g, joints) && IsChain(c, e.0, e.1, g, joints)
    ensures ChainsFor(chains + [c], ends + [e], g, joints)
  {
  }

  /** `find_kinematic_chains`: for each leaf, for each root, the chain between them when there is one. */
  method FindKinematicChains(r: Robot) returns (chains: seq<KinematicChain>)
    ensures ChainsFor(chains, ChainEnds(LeafLinks(r), RootLinks(r), AdjacencyOf(r.joints)), AdjacencyOf(r.joints), r.joints)
  {
    var g := BuildAdjacencyList(r.joints);
    var leaves := LeafLinks(r);
    var roots := RootLinks(r);
    chains := ChainsToLeaves(g, leaves, roots, r.joints);
  }

  /** The outer loop of `find_kinematic_chains`, over the leaves. */
  method ChainsToLeaves(g: Adjacency, leaves: seq<string>, roots: seq<string>, joints: seq<(string, Joint)>)
    returns (chains: seq<KinematicChain>)
    ensures ChainsFor(chains, ChainEnds(leaves, roots, g), g, joints)
  {
    chains := [];
    for i := 0 to |leaves|
      invariant ChainsFor(chains, ChainEnds(leaves[..i], roots, g), g, joints)
    {
      var leaf := leaves[i];
      assert leaves[..i + 1][..i] == leaves[..i];
      var toLeaf := ChainsToLeaf(g, leaf, roots, joints);
      ChainsForConcat(chains, ChainEnds(leaves[..i], roots, g), toLeaf, PairsFor(leaf, roots, g), g, joints);
      chains := chains + toLeaf;
    }
    assert leaves[..|leaves|] == leaves;
  }

  /** The inner loop of `find_kinematic_chains`: the chains from each root, in root order, to one leaf. */
  method ChainsToLeaf(g: Adjacency, leaf: string, roots: seq<string>, joints: seq<(string, Joint)>)
    returns (chains: seq<KinematicChain>)
    ensures ChainsFor(chains, PairsFor(leaf, roots, g), g, joints)
  {
    chains := [];
    for j := 0 to |roots|
      invariant ChainsFor(chains, PairsFor(leaf, roots[..j], g), g, joints)
    {
      var root := roots[j];
      assert roots[..j + 1][..j] == roots[..j];
      var chain := FindPath(g, root, leaf, joints);
      if chain.Some? {
        ChainsForAppend(chains, PairsFor(leaf, roots[..j], g), chain.value, (root, leaf), g, joints);
        chains := chains + [chain.value];
      }
    }
    assert roots[..|roots|] == roots;
  }

  lemma ChainsForConcat(c1: seq<KinematicChain>, e1: seq<(string, string)>, c2: seq<KinematicChain>, e2: seq<(string, string)>,
                        g: Adjacency, joints: seq<(string, Joint)>)
    requires ChainsFor(c1, e1, g, joints) && ChainsFor(c2, e2, g, joints)
    ensures ChainsFor(c1 + c2, e1 + e2, g, joints)
  {
    forall i | 0 <= i < |c1 + c2| ensures IsChain((c1 + c2)[i], (e1 + e2)[i].0, (e1 + e2)[i].1, g, joints) {
      if i >= |c1| {
        assert (c1 + c2)[i] == c2[i - |c1|] && (e1 + e2)[i] == e2[i - |c1|];
      }
    }
  }

  // ---------------------------------------------------------------- lint checks

  const NamingAdvice := "Use snake_case with descriptive names"

  function NamingIssue(kind: string, name: string): Issue {
    Issue(Warning, Naming, kind + " name '" + name + "' doesn't follow naming conventions", Some(name), Some(NamingAdvice))
  }

  predicate IsInvalidName(name: string) { !IsValidName(name) }

  /** One naming warning per key that breaks the convention, in key order. */
  function NamingIssues<V>(kind: string, m: seq<(string, V)>): seq<Issue> {
    if m == [] then []
    else
      var last := m[|m| - 1].0;
      NamingIssues(kind, m[..|m| - 1]) + (if IsInvalidName(last) then [NamingIssue(kind, last)] else [])
  }

  /** The naming warnings are, in order, one per key that breaks the convention. */
  lemma {:induction false} NamingIssuesMeaning<V>(kind: string, m: seq<(string, V)>)
    ensures var bad := Filter(Keys(m), IsInvalidName);
      |NamingIssues(kind, m)| == |bad| && forall k :: 0 <= k < |bad| ==> NamingIssues(kind, m)[k] == NamingIssue(kind, bad[k])
  {
    if m != [] {
      var init, last := m[..|m| - 1], m[|m| - 1].0;
      NamingIssuesMeaning(kind, init);
      KeysSnoc(m);
      FilterSnoc(Keys(init), last, IsInvalidName);
      MapSnoc(NamingIssues(kind, init), Filter(Keys(init), IsInvalidName), last, IsInvalidName(last),
        (n: string) => NamingIssue(kind, n));
    }
  }

  /** One loop of `check_naming_conventions`, over the link keys or over the joint keys. */
  method CheckNames<V>(kind: string, m: seq<(string, V)>) returns (issues: seq<Issue>)
    ensures issues == NamingIssues(kind, m)
  {
    issues := [];
    for i := 0 to |m|
      invariant issues == NamingIssues(kind, m[..i])
    {
      var name := m[i].0;
      assert m[..i + 1][..i] == m[..i];
      if !IsValidName(name) {
        issues := issues + [NamingIssue(kind, name)];
      }
    }
    assert m[..|m|] == m;
  }

  /** `check_naming_conventions`: the link names first, then the joint names. */
  method CheckNamingConventions(doc: Document) returns (issues: seq<Issue>)
    ensures issues == NamingIssues("Link", doc.robot.links) + NamingIssues("Joint", doc.robot.joints)
  {
    var linkIssues := CheckNames("Link", doc.robot.links);
    var jointIssues := CheckNames("Joint", doc.robot.joints);
    issues := linkIssues + jointIssues;
  }

  function StructureIssue(error: string): Issue {
    Issue(Error, Structure, error, None, Some("Fix kinematic tree structure"))
  }

  function StructureIssues(errors: seq<string>): (issues: seq<Issue>)
    ensures |issues| == |errors|
  {
    if errors == [] then [] else StructureIssues(errors[..|errors| - 1]) + [StructureIssue(errors[|errors| - 1])]
  }

  lemma StructureIssuesStep(errors: seq<string>, i: nat)
    requires i < |errors|
    ensures StructureIssues(errors[..i + 1]) == StructureIssues(errors[..i]) + [StructureIssue(errors[i])]
  {
    assert errors[..i + 1][..i] == errors[..i];
  }

  /** `check_structural_issues`: one error per kinematic-tree error, none for a valid tree. */
  method CheckStructuralIssues(doc: Document) returns (issues: seq<Issue>)
    ensures issues == StructureIssues(TreeErrors(doc.robot, Cyclic(doc.robot)))
    ensures issues == [] <==> |RootLinks(doc.robot)| == 1 && !Cyclic(doc.robot) && OrphanedLinks(doc.robot) == []
  {
    issues := [];
    var v := ValidateKinematicTree(doc);
    if v.Invalid? {
      var errors := v.errors;
      for i := 0 to |errors|
        invariant issues == StructureIssues(errors[..i])
      {
        StructureIssuesStep(errors, i);
        issues := issues + [StructureIssue(errors[i])];
      }
      assert errors[..|errors|] == errors;
    }
    TreeErrorsMeaning(doc.robot, Cyclic(doc.robot));
  }

  function PhysicsIssue(name: string): Issue {
    Issue(Warning, Physics, "Link '" + name + "' has geometry but no inertial properties", Some(name),
          Some("Add inertial properties for physics simulation"))
  }

  predicate LacksInertial(e: (string, Link)) {
    e.1.inertial.None? && (e.1.visual != [] || e.1.collision != [])
  }

  /** One warning per link that has a visual or a collision but no inertial, in link order. */
  function PhysicsIssues(links: seq<(string, Link)>): seq<Issue> {
    if links == [] then []
    else
      var last := links[|links| - 1];
      PhysicsIssues(links[..|links| - 1]) + (if LacksInertial(last) then [PhysicsIssue(last.0)] else [])
  }

  /** The physics warnings are, in order, one per link with geometry and no inertial. */
  lemma {:induction false} PhysicsIssuesMeaning(links: seq<(string, Link)>)
    ensures var bad := Filter(links, LacksInertial);
      |PhysicsIssues(links)| == |bad| && forall k :: 0 <= k < |bad| ==> PhysicsIssues(links)[k] == PhysicsIssue(bad[k].0)
  {
    if links != [] {
      var init, last := links[..|links| - 1], links[|links| - 1];
      PhysicsIssuesMeaning(init);
      FilterLast(links, LacksInertial);
      MapSnoc(PhysicsIssues(init), Filter(init, LacksInertial), last, LacksInertial(last), (e: (string, Link)) => PhysicsIssue(e.0));
    }
  }

  lemma PhysicsIssuesStep(links: seq<(string, Link)>, i: nat)
    requires i < |links|
    ensures PhysicsIssues(links[..i + 1])
         == PhysicsIssues(links[..i]) + (if LacksInertial(links[i]) then [PhysicsIssue(links[i].0)] else [])
  {
    assert links[..i + 1][..i] == links[..i];
  }

  /** `check_physics_properties`. */
  method CheckPhysicsProperties(doc: Document) returns (issues: seq<Issue>)
    ensures issues == PhysicsIssues(doc.robot.links)
  {
    var links := doc.robot.links;
    issues := [];
    for i := 0 to |links|
      invariant issues == PhysicsIssues(links[..i])
    {
      var (name, link) := links[i];
      PhysicsIssuesStep(links, i);
      if link.inertial.None? && (link.visual != [] || link.collision != []) {
        issues := issues + [PhysicsIssue(name)];
      }
    }
    assert links[..|links|] == links;
  }

  /** Distinct names are the names that each occur at most once. */
  lemma {:induction false} DistinctCounts(s: seq<string>)
    ensures Distinct(s) <==> forall x :: multiset(s)[x] <= 1
  {
    if s != [] {
      DistinctCounts(s[1..]);
      assert s == [s[0]] + s[1..];
      assert multiset(s) == multiset{s[0]} + multiset(s[1..]);
      if Distinct(s) {
        assert s[0] !in s[1..];
        assert Distinct(s[1..]) by {
          forall i, j | 0 <= i < j < |s[1..]| ensures s[1..][i] != s[1..][j] {
            assert s[1..][i] == s[i + 1] && s[1..][j] == s[j + 1];
          }
        }
      } else {
        var i, j :| 0 <= i < j < |s| && s[i] == s[j];
        if i == 0 {
          assert s[j] == s[1..][j - 1];
          assert multiset(s)[s[0]] >= 2;
        } else {
          assert !Distinct(s[1..]) by {
            assert s[1..][i - 1] == s[i] && s[1..][j - 1] == s[j];
          }
          var x :| multiset(s[1..])[x] > 1;
          assert multiset(s)[x] > 1;
        }
      }
    }
  }

  /**
   * `find_duplicate_names`: the names occurring more than once, each once, are filed under
   * `category`; nothing is filed when there are none. The order of the filed names is this
   * model's (first occurrence); the program's comes from a hash map and is not modelled.
   */
  method FindDuplicateNames(category: string, names: seq<string>, duplicates: map<string, seq<string>>)
    returns (duplicates': map<string, seq<string>>)
    ensures Distinct(names) ==> duplicates' == duplicates
    ensures !Distinct(names) ==> category in duplicates' && duplicates' == duplicates[category := duplicates'[category]]
    ensures !Distinct(names) ==> Distinct(duplicates'[category])
    ensures !Distinct(names) ==> forall n :: n in duplicates'[category] <==> multiset(names)[n] > 1
  {
    var counts := CountOccurrences(names);
    var repeated: seq<string> := [];
    for i := 0 to |names|
      invariant Distinct(repeated)
      invariant forall n :: n in repeated <==> n in names[..i] && multiset(names)[n] > 1
    {
      var n := names[i];
      assert names[..i + 1] == names[..i] + [n];
      if counts[n] > 1 && n !in repeated {
        repeated := repeated + [n];
      }
    }
    assert names[..|names|] == names;
    assert repeated == [] <==> Distinct(names) by {
      DistinctCounts(names);
      if repeated != [] {
        assert repeated[0] in repeated;
      }
    }
    if repeated != [] {
      duplicates' := duplicates[category := repeated];
    } else {
      duplicates' := duplicates;
    }
  }

  /** `find_duplicates`: the keys of an index map never repeat, so nothing is ever reported. */
  method FindDuplicates(doc: Document) returns (duplicates: map<string, seq<string>>)
    ensures duplicates == map[]
  {
    duplicates := map[];
    KeysDistinct(doc.robot.links);
    KeysDistinct(doc.robot.joints);
    KeysDistinct(doc.robot.materials);
    duplicates := FindDuplicateNames("links", Keys(doc.robot.links), duplicates);
    duplicates := FindDuplicateNames("joints", Keys(doc.robot.joints), duplicates);
    duplicates := FindDuplicateNames("materials", Keys(doc.robot.materials), duplicates);
  }

  function DuplicateIssue(category: string, names: seq<string>): Issue {
    Issue(Error, Validation, "Duplicate " + category + " found: " + DebugList(names), None,
          Some("Remove or rename duplicate elements"))
  }

  /** One error per category filed with more than one name. */
  function DuplicateIssues(duplicates: map<string, seq<string>>, categories: seq<string>): seq<Issue> {
    if categories == [] then []
    else
      var c := categories[0];
      (if c in duplicates && |duplicates[c]| > 1 then [DuplicateIssue(c, duplicates[c])] else [])
      + DuplicateIssues(duplicates, categories[1..])
  }

  /** `check_duplicate_elements`: it never reports anything. */
  method CheckDuplicateElements(doc: Document) returns (issues: seq<Issue>)
    ensures issues == []
  {
    var duplicates := FindDuplicates(doc);
    issues := DuplicateIssues(duplicates, ["links", "joints", "materials"]);
    NothingFiledNoIssues(["links", "joints", "materials"]);
  }

  lemma NothingFiledNoIssues(categories: seq<string>)
    ensures DuplicateIssues(map[], categories) == []
  {
  }

  function UnusedMaterialIssue(name: string): Issue {
    Issue(Info, Style, "Unused material: '" + name + "'", Some(name), Some("Remove unused material or add reference"))
  }

  /** One note per material that no visual refers to, in material order. */
  function UnusedMaterialIssues(materials: seq<(string, Material)>, used: set<string>): seq<Issue> {
    if materials == [] then []
    else
      var last := materials[|materials| - 1].0;
      UnusedMaterialIssues(materials[..|materials| - 1], used) + (if last !in used then [UnusedMaterialIssue(last)] else [])
  }

  /** One unused-material note per name, in order. */
  function UnusedMaterialNotes(names: seq<string>): (r: seq<Issue>)
    ensures |r| == |names|
    ensures forall k :: 0 <= k < |names| ==> r[k] == UnusedMaterialIssue(names[k])
  {
    if names == [] then []
    else UnusedMaterialNotes(names[..|names| - 1]) + [UnusedMaterialIssue(names[|names| - 1])]
  }

  lemma {:induction false} UnusedMaterialIssuesAsNotes(materials: seq<(string, Material)>, used: set<string>)
    ensures UnusedMaterialIssues(materials, used) == UnusedMaterialNotes(Without(Keys(materials), used))
  {
    if materials != [] {
      var init, last := materials[..|materials| - 1], materials[|materials| - 1].0;
      UnusedMaterialIssuesAsNotes(init, used);
      KeysSnoc(materials);
      WithoutSnoc(Keys(init), last, used);
      var unused := Without(Keys(init), used);
      if last !in used {
        assert (unused + [last])[..|unused|] == unused;
      }
    }
  }

  /** The notes are, in order, one per material name outside `used`. */
  lemma UnusedMaterialIssuesMeaning(materials: seq<(string, Material)>, used: set<string>)
    ensures var unused := Without(Keys(materials), used);
      |UnusedMaterialIssues(materials, used)| == |unused|
      && forall k :: 0 <= k < |unused| ==> UnusedMaterialIssues(materials, used)[k] == UnusedMaterialIssue(unused[k])
  {
    UnusedMaterialIssuesAsNotes(materials, used);
  }

  /** `check_unused_materials`. */
  method CheckUnusedMaterials(doc: Document) returns (issues: seq<Issue>)
    ensures issues == UnusedMaterialIssues(doc.robot.materials, UsedMaterials(doc.robot.links))
  {
    var used := CollectUsedMaterials(doc.robot.links);
    var materials := doc.robot.materials;
    issues := [];
    for i := 0 to |materials|
      invariant issues == UnusedMaterialIssues(materials[..i], used)
    {
      var name := materials[i].0;
      assert materials[..i + 1][..i] == materials[..i];
      if name !in used {
        issues := issues + [UnusedMaterialIssue(name)];
      }
    }
    assert materials[..|materials|] == materials;
  }

  function LimitIssue(name: string, jointType: string): Issue {
    Issue(Warning, Physics, "Joint '" + name + "' of type '" + jointType + "' is missing limit specification",
          Some(name), Some("Add limit element with upper, lower, effort, and velocity"))
  }

  predicate NeedsLimit(e: (string, Joint)) {
    (e.1.jointType == "revolute" || e.1.jointType == "prismatic") && e.1.limit.None?
  }

  /** One warning per revolute or prismatic joint without a limit, in joint order. */
  function LimitIssues(joints: seq<(string, Joint)>): seq<Issue> {
    if joints == [] then []
    else
      var last := joints[|joints| - 1];
      LimitIssues(joints[..|joints| - 1]) + (if NeedsLimit(last) then [LimitIssue(last.0, last.1.jointType)] else [])
  }

  /** The limit warnings are, in order, one per revolute or prismatic joint without a limit. */
  lemma {:induction false} LimitIssuesMeaning(joints: seq<(string, Joint)>)
    ensures var bad := Filter(joints, NeedsLimit);
      |LimitIssues(joints)| == |bad|
      && forall k :: 0 <= k < |bad| ==> LimitIssues(joints)[k] == LimitIssue(bad[k].0, bad[k].1.jointType)
  {
    if joints != [] {
      var init, last := joints[..|joints| - 1], joints[|joints| - 1];
      LimitIssuesMeaning(init);
      FilterLast(joints, NeedsLimit);
      MapSnoc(LimitIssues(init), Filter(init, NeedsLimit), last, NeedsLimit(last),
        (e: (string, Joint)) => LimitIssue(e.0, e.1.jointType));
    }
  }

  lemma LimitIssuesStep(joints: seq<(string, Joint)>, i: nat)
    requires i < |joints|
    ensures LimitIssues(joints[..i + 1])
         == LimitIssues(joints[..i]) + (if NeedsLimit(joints[i]) then [LimitIssue(joints[i].0, joints[i].1.jointType)] else [])
  {
    assert joints[..i + 1][..i] == joints[..i];
  }

  /** `check_joint_limits`. */
  method CheckJointLimits(doc: Document) returns (issues: seq<Issue>)
    ensures issues == LimitIssues(doc.robot.joints)
  {
    var joints := doc.robot.joints;
    issues := [];
    for i := 0 to |joints|
      invariant issues == LimitIssues(joints[..i])
    {
      var (name, joint) := joints[i];
      LimitIssuesStep(joints, i);
      if joint.jointType == "revolute" || joint.jointType == "prismatic" {
        if joint.limit.None? {
          issues := issues + [LimitIssue(name, joint.jointType)];
        }
      }
    }
    assert joints[..|joints|] == joints;
  }

  /**
   * `lint`: naming, structure, physics, duplicates, unused materials, joint limits, in that
   * order. The duplicate check contributes nothing.
   */
  method Lint(doc: Document) returns (issues: seq<Issue>)
    ensures issues ==
      NamingIssues("Link", doc.robot.links) + NamingIssues("Joint", doc.robot.joints)
      + StructureIssues(TreeErrors(doc.robot, Cyclic(doc.robot)))
      + PhysicsIssues(doc.robot.links)
      + UnusedMaterialIssues(doc.robot.materials, UsedMaterials(doc.robot.links))
      + LimitIssues(doc.robot.joints)
  {
    var naming := CheckNamingConventions(doc);
    var structural := CheckStructuralIssues(doc);
    var physics := CheckPhysicsProperties(doc);
    var duplicates := CheckDuplicateElements(doc);
    var unused := CheckUnusedMaterials(doc);
    var limits := CheckJointLimits(doc);
    var before := naming + structural + physics;
    assert before + duplicates == before;
    issues := before + duplicates + unused + limits;
  }

  /** `analyze`. */
  method Analyze(doc: Document) returns (stats: Stats)
    ensures stats.totalLinks == |doc.robot.links| && stats.totalJoints == |doc.robot.joints|
    ensures stats.totalMaterials == |doc.robot.materials|
    ensures stats.jointTypes == CountMap(multiset(JointTypes(doc.robot.joints)))
    ensures stats.linkProperties == LinkPropertiesOf(Values(doc.robot.links))
    ensures stats.treeDepth == 0 <==> RootLinks(doc.robot) == []
    ensures ChainsFor(stats.chains, ChainEnds(LeafLinks(doc.robot), RootLinks(doc.robot), AdjacencyOf(doc.robot.joints)),
                      AdjacencyOf(doc.robot.joints), doc.robot.joints)
  {
    var robot := doc.robot;
    var jointTypes := CountJointTypes(robot);
    var linkProperties := AnalyzeLinkProperties(robot);
    var treeDepth;
    ghost var walk;
    treeDepth, walk := CalculateTreeDepth(robot);
    var chains := FindKinematicChains(robot);
    stats := Stats(|robot.links|, |robot.joints|, |robot.materials|, jointTypes, linkProperties, treeDepth, chains);
  }
}
