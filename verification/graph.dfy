/**
 * The parent-to-children graph the analyzer builds from the joints, and its three
 * depth-first searches: cycle detection with a visited set and a recursion stack, depth
 * of the tree below a node, and search for a path to a target. The searches mutate
 * their visited set, recursion stack and path in place; here those are passed in and
 * handed back. Ghost arguments carry the proof: the current recursion path and a finish
 * order for the nodes the cycle search has completed.
 */
module Graph {
  import opened Base
  import opened IndexMaps
  import opened Urdf

  /** `HashMap<String, Vec<String>>`: for each parent link name, its children in joint order. */
  type Adjacency = map<string, seq<string>>

  function Children(g: Adjacency, u: string): seq<string> {
    if u in g then g[u] else []
  }

  predicate Edge(g: Adjacency, u: string, v: string) {
    v in Children(g, u)
  }

  /** Every name the graph mentions, as a parent or as a child. */
  function Nodes(g: Adjacency): set<string> {
    g.Keys + (set u, v | u in g && v in g[u] :: v)
  }

  lemma EdgeNodes(g: Adjacency, u: string, v: string)
    requires Edge(g, u, v)
    ensures u in Nodes(g) && v in Nodes(g)
  {
    assert u in g;
  }

  /** A non-empty walk along edges. */
  predicate IsPath(g: Adjacency, p: seq<string>) {
    |p| >= 1 && forall i :: 0 <= i < |p| - 1 ==> Edge(g, p[i], p[i + 1])
  }

  ghost predicate Reaches(g: Adjacency, u: string, v: string) {
    exists p :: IsPath(g, p) && p[0] == u && p[|p| - 1] == v
  }

  /** A walk whose last node was already passed earlier: it runs into a cycle. */
  predicate IsLasso(g: Adjacency, p: seq<string>) {
    IsPath(g, p) && exists j :: 0 <= j < |p| - 1 && p[j] == p[|p| - 1]
  }

  /** Some cycle can be reached from `root`. */
  ghost predicate CycleReachable(g: Adjacency, root: string) {
    exists p :: IsLasso(g, p) && p[0] == root
  }

  // ---------------------------------------------------------------- building the graph

  /** The adjacency map of the joints, in joint order: each joint appends its child to its parent's list. */
  function AdjacencyOf(joints: seq<(string, Joint)>): Adjacency
  {
    if joints == [] then map[]
    else
      var g := AdjacencyOf(joints[..|joints| - 1]);
      var j := joints[|joints| - 1].1;
      g[j.parent := Children(g, j.parent) + [j.child]]
  }

  /** The children of the joints whose parent is `u`, read front to back, repeats kept. */
  function ChildrenIn(joints: seq<(string, Joint)>, u: string): seq<string> {
    if joints == [] then []
    else (if joints[0].1.parent == u then [joints[0].1.child] else []) + ChildrenIn(joints[1..], u)
  }

  /** Reading the joints back to front instead: the last joint's child comes last. */
  lemma {:induction false} ChildrenInSnoc(joints: seq<(string, Joint)>)
    requires joints != []
    ensures var init, j := joints[..|joints| - 1], joints[|joints| - 1].1;
      forall u :: ChildrenIn(joints, u) == ChildrenIn(init, u) + (if j.parent == u then [j.child] else [])
  {
    if |joints| > 1 {
      var tail := joints[1..];
      ChildrenInSnoc(tail);
      assert tail[..|tail| - 1] == joints[..|joints| - 1][1..];
      assert tail[|tail| - 1] == joints[|joints| - 1];
      forall u ensures ChildrenIn(joints, u) == ChildrenIn(joints[..|joints| - 1], u)
        + (if joints[|joints| - 1].1.parent == u then [joints[|joints| - 1].1.child] else [])
      {
        var init := joints[..|joints| - 1];
        assert init[0] == joints[0];
      }
    }
  }

  predicate HasJoint(joints: seq<(string, Joint)>, u: string, v: string) {
    exists i :: 0 <= i < |joints| && joints[i].1.parent == u && joints[i].1.child == v
  }

  /**
   * Each name's children are the children of the joints with that parent, in joint order,
   * repeats kept; a name is a key exactly when it has such a joint.
   */
  lemma {:induction false} AdjacencyChildren(joints: seq<(string, Joint)>, u: string)
    ensures u in AdjacencyOf(joints) <==> ChildrenIn(joints, u) != []
    ensures Children(AdjacencyOf(joints), u) == ChildrenIn(joints, u)
  {
    if joints != [] {
      ChildrenInSnoc(joints);
      AdjacencyChildren(joints[..|joints| - 1], u);
    }
  }

  /** There is an edge exactly where some joint has that parent and that child; a name is a key exactly when it is some joint's parent. */
  lemma AdjacencyEdges(joints: seq<(string, Joint)>, u: string, v: string)
    ensures Edge(AdjacencyOf(joints), u, v) <==> HasJoint(joints, u, v)
    ensures u in AdjacencyOf(joints) <==> exists i :: 0 <= i < |joints| && joints[i].1.parent == u
  {
    AdjacencyChildren(joints, u);
    ChildrenInJoints(joints, u, v);
  }

  /** The front-to-back children of `u` are exactly the children of the joints with parent `u`. */
  lemma {:induction false} ChildrenInJoints(joints: seq<(string, Joint)>, u: string, v: string)
    ensures v in ChildrenIn(joints, u) <==> HasJoint(joints, u, v)
    ensures ChildrenIn(joints, u) != [] <==> exists i :: 0 <= i < |joints| && joints[i].1.parent == u
  {
    if joints != [] {
      var tail := joints[1..];
      ChildrenInJoints(tail, u, v);
      assert forall i :: 0 <= i < |tail| ==> tail[i] == joints[i + 1];
      if HasJoint(joints, u, v) && !(joints[0].1.parent == u && joints[0].1.child == v) {
        var i :| 0 <= i < |joints| && joints[i].1.parent == u && joints[i].1.child == v;
        assert tail[i - 1] == joints[i];
      }
      if exists i :: 0 <= i < |joints| && joints[i].1.parent == u {
        var i :| 0 <= i < |joints| && joints[i].1.parent == u;
        if i > 0 { assert tail[i - 1] == joints[i]; }
      }
    }
  }

  /** `build_adjacency_list` (and `get_dependency_graph`, which is the same loop). */
  method BuildAdjacencyList(joints: IndexMap<Joint>) returns (g: Adjacency)
    ensures g == AdjacencyOf(joints)
  {
    g := map[];
    for i := 0 to |joints|
      invariant g == AdjacencyOf(joints[..i])
    {
      var joint := joints[i].1;
      assert joints[..i + 1][..i] == joints[..i];
      g := g[joint.parent := Children(g, joint.parent) + [joint.child]];
    }
    assert joints[..|joints|] == joints;
  }

  // ---------------------------------------------------------------- cycle detection

  /** Completed by the search: visited and no longer on the recursion stack. */
  predicate Black(visited: set<string>, recStack: set<string>, u: string) {
    u in visited && u !in recStack
  }

  /**
   * The search's invariant: the recursion stack is part of the visited set, every
   * completed node has a finish time before `clock`, and every edge out of a completed
   * node leads to a node completed earlier.
   */
  ghost predicate Finished(g: Adjacency, visited: set<string>, recStack: set<string>, rank: map<string, nat>, clock: nat) {
    && recStack <= visited
    && (forall u :: Black(visited, recStack, u) ==> u in rank && rank[u] < clock)
    && (forall u, v :: Black(visited, recStack, u) && Edge(g, u, v) ==>
          Black(visited, recStack, v) && u in rank && v in rank && rank[v] < rank[u])
  }

  /** Along a walk that starts at a completed node, every node is completed and finish times strictly fall. */
  lemma {:induction false} WalkFromBlack(g: Adjacency, visited: set<string>, recStack: set<string>,
                                         rank: map<string, nat>, clock: nat, p: seq<string>)
    requires Finished(g, visited, recStack, rank, clock)
    requires IsPath(g, p) && Black(visited, recStack, p[0])
    ensures forall k :: 0 <= k < |p| ==> Black(visited, recStack, p[k]) && p[k] in rank
    ensures forall i, k :: 0 <= i < k < |p| ==> rank[p[k]] < rank[p[i]]
    decreases |p|
  {
    if |p| > 1 {
      var q := p[..|p| - 1];
      assert IsPath(g, q) by {
        forall i | 0 <= i < |q| - 1 ensures Edge(g, q[i], q[i + 1]) {
          assert q[i] == p[i] && q[i + 1] == p[i + 1];
        }
      }
      WalkFromBlack(g, visited, recStack, rank, clock, q);
      var last := |p| - 1;
      assert Edge(g, p[last - 1], p[last]);
      assert q[last - 1] == p[last - 1];
      forall i, k | 0 <= i < k < |p| ensures rank[p[k]] < rank[p[i]] {
        if k < last {
          assert q[i] == p[i] && q[k] == p[k];
        } else if i < last - 1 {
          assert q[i] == p[i];
        }
      }
    }
  }

  /** No cycle is reachable from a completed node. */
  lemma NoCycleFromBlack(g: Adjacency, visited: set<string>, recStack: set<string>,
                         rank: map<string, nat>, clock: nat, root: string)
    requires Finished(g, visited, recStack, rank, clock) && Black(visited, recStack, root)
    ensures !CycleReachable(g, root)
  {
    if CycleReachable(g, root) {
      var p :| IsLasso(g, p) && p[0] == root;
      var j :| 0 <= j < |p| - 1 && p[j] == p[|p| - 1];
      WalkFromBlack(g, visited, recStack, rank, clock, p);
      assert false;
    }
  }

  function SetOf(s: seq<string>): set<string> {
    set x | x in s
  }

  lemma PathExtend(g: Adjacency, p: seq<string>, x: string)
    requires p == [] || (IsPath(g, p) && Edge(g, p[|p| - 1], x))
    ensures IsPath(g, p + [x])
  {
    var q := p + [x];
    forall i | 0 <= i < |q| - 1 ensures Edge(g, q[i], q[i + 1]) {
      if i < |p| - 1 { assert q[i] == p[i] && q[i + 1] == p[i + 1]; }
    }
  }

  /**
   * `dfs_has_cycle`. `stack` is the recursion path that led to `node` (its nodes form
   * `recStack`). A reported cycle is reachable from the start of that path; when none is
   * reported, `node` is completed and the invariant holds again with the stack as it was.
   */
  method DfsHasCycle(g: Adjacency, node: string, visited: set<string>, recStack: set<string>,
                     ghost stack: seq<string>, ghost rank: map<string, nat>, ghost clock: nat)
    returns (found: bool, visited': set<string>, recStack': set<string>, ghost rank': map<string, nat>, ghost clock': nat)
    requires node !in visited
    requires Finished(g, visited, recStack, rank, clock)
    requires recStack == SetOf(stack)
    requires stack == [] || (IsPath(g, stack) && Edge(g, stack[|stack| - 1], node))
    ensures visited + {node} <= visited'
    ensures found ==> CycleReachable(g, (stack + [node])[0])
    ensures !found ==> recStack' == recStack && Finished(g, visited', recStack', rank', clock')
    decreases (Nodes(g) + {node}) - visited
  {
    ghost var here := stack + [node];
    PathExtend(g, stack, node);
    found := false;
    visited' := visited + {node};
    recStack' := recStack + {node};
    rank', clock' := rank, clock;
    var children := Children(g, node);
    for i := 0 to |children|
      invariant visited + {node} <= visited'
      invariant recStack' == recStack + {node} == SetOf(here)
      invariant Finished(g, visited', recStack', rank', clock')
      invariant forall k :: 0 <= k < i ==> Black(visited', recStack', children[k])
    {
      var child := children[i];
      assert Edge(g, node, child);
      if child !in visited' {
        EdgeNodes(g, node, child);
        var sub;
        sub, visited', recStack', rank', clock' := DfsHasCycle(g, child, visited', recStack', here, rank', clock');
        if sub {
          assert (here + [child])[0] == here[0];
          return true, visited', recStack', rank', clock';
        }
      } else if child in recStack' {
        BackEdgeCloses(g, here, child);
        return true, visited', recStack', rank', clock';
      }
    }
    CompleteNode(g, node, visited', recStack, rank', clock');
    recStack' := recStack' - {node};
    rank' := rank'[node := clock'];
    clock' := clock' + 1;
  }

  /** An edge from the end of the recursion path back onto it closes a cycle reachable from the path's start. */
  lemma BackEdgeCloses(g: Adjacency, here: seq<string>, child: string)
    requires IsPath(g, here) && Edge(g, here[|here| - 1], child) && child in SetOf(here)
    ensures CycleReachable(g, here[0])
  {
    var p := here + [child];
    PathExtend(g, here, child);
    var j :| 0 <= j < |here| && here[j] == child;
    assert p[j] == p[|p| - 1];
    assert IsLasso(g, p) && p[0] == here[0];
  }

  /** Once every child of `node` is completed, `node` can be completed with the next finish time. */
  lemma CompleteNode(g: Adjacency, node: string, visited: set<string>, recStack: set<string>,
                     rank: map<string, nat>, clock: nat)
    requires node in visited && node !in recStack
    requires Finished(g, visited, recStack + {node}, rank, clock)
    requires forall v :: Edge(g, node, v) ==> Black(visited, recStack + {node}, v)
    ensures Finished(g, visited, recStack, rank[node := clock], clock + 1)
  {
    var rank' := rank[node := clock];
    forall u, v | Black(visited, recStack, u) && Edge(g, u, v)
      ensures Black(visited, recStack, v) && u in rank' && v in rank' && rank'[v] < rank'[u]
    {
      if u != node {
        assert Black(visited, recStack + {node}, u);
      }
    }
  }

  // ---------------------------------------------------------------- depth

  /**
   * `dfs_depth`: 0 for a node already visited; otherwise the node counts 1 plus the
   * deepest of its children's searches. The depth is the length of a simple walk from
   * `node` through nodes this call visited first, so it never exceeds their number.
   */
  method DfsDepth(g: Adjacency, node: string, visited: set<string>)
    returns (depth: nat, visited': set<string>, ghost walk: seq<string>)
    ensures visited <= visited'
    ensures node in visited ==> depth == 0 && visited' == visited
    ensures node !in visited ==> depth >= 1 && node in visited'
    ensures |walk| == depth && Distinct(walk)
    ensures forall k :: 0 <= k < |walk| ==> walk[k] in visited' - visited
    ensures depth > 0 ==> IsPath(g, walk) && walk[0] == node
    ensures depth <= |visited' - visited|
    ensures visited' <= visited + Nodes(g) + {node}
    decreases (Nodes(g) + {node}) - visited
  {
    if node in visited {
      return 0, visited, [];
    }
    visited' := visited + {node};
    var maxDepth: nat := 0;
    ghost var best: seq<string> := [];
    var children := Children(g, node);
    for i := 0 to |children|
      invariant visited + {node} <= visited' <= visited + Nodes(g) + {node}
      invariant |best| == maxDepth && Distinct(best)
      invariant forall k :: 0 <= k < |best| ==> best[k] in visited' - (visited + {node})
      invariant maxDepth > 0 ==> IsPath(g, best) && Edge(g, node, best[0])
    {
      var child := children[i];
      assert Edge(g, node, child);
      EdgeNodes(g, node, child);
      var d;
      ghost var w;
      ghost var before := visited';
      d, visited', w := DfsDepth(g, child, visited');
      assert before <= visited';
      if d > maxDepth {
        assert forall k :: 0 <= k < |w| ==> w[k] in visited' - (visited + {node});
        maxDepth := d;
        best := w;
      }
    }
    depth := maxDepth + 1;
    walk := [node] + best;
    DepthWalk(g, node, best, visited, visited');
  }

  /** The deepest child walk with `node` in front is a simple walk through the nodes this call visited. */
  lemma DepthWalk(g: Adjacency, node: string, best: seq<string>, visited: set<string>, visited': set<string>)
    requires node !in visited && visited + {node} <= visited'
    requires Distinct(best)
    requires forall k :: 0 <= k < |best| ==> best[k] in visited' - (visited + {node})
    requires |best| > 0 ==> IsPath(g, best) && Edge(g, node, best[0])
    ensures var walk := [node] + best;
      && IsPath(g, walk) && Distinct(walk)
      && (forall k :: 0 <= k < |walk| ==> walk[k] in visited' - visited)
      && |walk| <= |visited' - visited|
  {
    var walk := [node] + best;
    forall i | 0 <= i < |walk| - 1 ensures Edge(g, walk[i], walk[i + 1]) {
      if i > 0 { assert walk[i] == best[i - 1] && walk[i + 1] == best[i]; }
    }
    assert forall k :: 0 <= k < |walk| ==> walk[k] in visited' - visited by {
      forall k | 0 <= k < |walk| ensures walk[k] in visited' - visited {
        if k > 0 { assert walk[k] == best[k - 1]; }
      }
    }
    assert Distinct(walk) by {
      forall i, j | 0 <= i < j < |walk| ensures walk[i] != walk[j] {
        assert walk[j] == best[j - 1];
        if i > 0 { assert walk[i] == best[i - 1]; }
      }
    }
    DistinctWithin(walk, visited' - visited);
  }

  // ---------------------------------------------------------------- path search

  /** A path found from a child of `current`, put after `current`, is a path found from `current`. */
  lemma FoundThroughChild(g: Adjacency, current: string, target: string, path: seq<string>,
                          visited: set<string>, visited': set<string>, p': seq<string>)
    requires current !in visited && current in visited' && visited <= visited'
    requires |p'| > |path| + 1 && p'[..|path| + 1] == path + [current]
    requires var q := p'[|path| + 1..];
      IsPath(g, q) && Edge(g, current, q[0]) && q[|q| - 1] == target && Distinct(q)
      && forall k :: 0 <= k < |q| ==> q[k] !in visited'
    ensures |p'| > |path| && p'[..|path|] == path
    ensures var full := p'[|path|..];
      IsPath(g, full) && full[0] == current && full[|full| - 1] == target && Distinct(full)
      && forall k :: 0 <= k < |full| ==> full[k] !in visited
  {
    var q := p'[|path| + 1..];
    var full := p'[|path|..];
    assert p'[..|path|] == (path + [current])[..|path|] == path;
    assert full == [current] + q;
    forall k | 0 <= k < |full| - 1 ensures Edge(g, full[k], full[k + 1]) {
      if k > 0 { assert full[k] == q[k - 1] && full[k + 1] == q[k]; }
    }
    forall i, j | 0 <= i < j < |full| ensures full[i] != full[j] {
      if i == 0 { assert full[0] == current && full[j] == q[j - 1] && q[j - 1] !in visited'; } else { assert full[i] == q[i - 1] && full[j] == q[j - 1]; }
    }
    forall k | 0 <= k < |full| ensures full[k] !in visited {
      if k > 0 { assert full[k] == q[k - 1]; }
    }
  }

  /**
   * `dfs_path`. On success the path gains a simple walk from `current` to `target`
   * through nodes that were not visited before; on failure it is back to its entry
   * contents, `target` was not reached, and every node this call visited has all its
   * children visited.
   */
  method DfsPath(g: Adjacency, current: string, target: string, path: seq<string>, visited: set<string>)
    returns (found: bool, path': seq<string>, visited': set<string>)
    requires current !in visited
    ensures visited + {current} <= visited'
    ensures found ==> |path'| > |path| && path'[..|path|] == path
    ensures found ==> var q := path'[|path|..];
      IsPath(g, q) && q[0] == current && q[|q| - 1] == target && Distinct(q)
      && forall k :: 0 <= k < |q| ==> q[k] !in visited
    ensures !found ==> path' == path && target !in visited' - visited
    ensures !found ==> forall u, v :: u in visited' - visited && Edge(g, u, v) ==> v in visited'
    decreases (Nodes(g) + {current}) - visited
  {
    found := false;
    path' := path + [current];
    visited' := visited + {current};
    if current == target {
      assert path'[|path|..] == [current];
      assert path'[..|path|] == path;
      return true, path', visited';
    }
    var children := Children(g, current);
    for i := 0 to |children|
      invariant visited + {current} <= visited'
      invariant path' == path + [current]
      invariant target !in visited' - visited
      invariant forall u, v :: u in visited' - visited && u != current && Edge(g, u, v) ==> v in visited'
      invariant forall k :: 0 <= k < i ==> children[k] in visited'
    {
      var child := children[i];
      assert Edge(g, current, child);
      if child !in visited' {
        EdgeNodes(g, current, child);
        var sub, p', v' := DfsPath(g, child, target, path', visited');
        if sub {
          FoundThroughChild(g, current, target, path, visited, visited', p');
          return true, p', v';
        }
        visited' := v';
      }
    }
    path' := path;
  }

  /** A set of nodes that holds every child of each of its nodes contains every walk that starts in it. */
  lemma {:induction false} ClosedSetHoldsWalks(g: Adjacency, s: set<string>, p: seq<string>)
    requires forall u, v :: u in s && Edge(g, u, v) ==> v in s
    requires IsPath(g, p) && p[0] in s
    ensures forall k :: 0 <= k < |p| ==> p[k] in s
    decreases |p|
  {
    if |p| > 1 {
      var q := p[..|p| - 1];
      assert IsPath(g, q) by {
        forall i | 0 <= i < |q| - 1 ensures Edge(g, q[i], q[i + 1]) {
          assert q[i] == p[i] && q[i + 1] == p[i + 1];
        }
      }
      ClosedSetHoldsWalks(g, s, q);
      assert q[|p| - 2] == p[|p| - 2];
      assert Edge(g, p[|p| - 2], p[|p| - 1]);
    }
  }
}
