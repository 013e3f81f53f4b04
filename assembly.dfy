/**
 * What the loader builds from a parsed model, as functions of the model:
 * `modelInterfaceToSkeleton`, `modelInterfaceToRobot` and
 * `modelInterfaceToObject`. An assembly records the name it is given, whether
 * `addDefaultRootNode` was called first, the nodes of `mNodes` in the order
 * they are added with `addNode`, the final node list `mNodes`, and `mJoints`.
 */
module Assembly {
  import opened Wrappers
  import opened Urdf
  import opened Bodies
  import opened Traversal
  import opened RobotTraversal

  datatype Assembly = Assembly(
    name: Option<string>,
    defaultRoot: bool,
    order: seq<nat>,
    nodes: seq<BodyNode>,
    joints: seq<Joint>)

  /** The result of `parseWorld`: the objects, then the robots, each in model order. */
  datatype World = World(objects: seq<Assembly>, robots: seq<Assembly>)

  /**
   * What the skeleton and object builders need of a model: both links of
   * every joint and the root link are among the links, so that every
   * `getNode` call they make finds a node.
   */
  predicate Buildable(m: ModelInterface)
  {
    AllResolve(NodesOf(m.links), m.joints) && HasName(NodesOf(m.links), m.root.name)
  }

  /**
   * What the robot builder needs of a model: the root link is among the
   * links, every record whose parent link is a link has a child link that is
   * one (the robot loop never hands the other records to
   * `createDartJoint`), and the link names are distinct, as the keys of the
   * parser's link map are; the robot pass matches joints to nodes by name.
   */
  predicate RobotBuildable(m: ModelInterface)
  {
    ChildrenResolve(NodesOf(m.links), m.joints) && HasName(NodesOf(m.links), m.root.name) &&
    UniqueNames(NodesOf(m.links))
  }

  /** The nodes with every joint of the model attached, and the joints, in joint-map order. */
  function Linked(m: ModelInterface): (r: (seq<BodyNode>, seq<Joint>))
    requires Buildable(m)
    ensures SameNames(NodesOf(m.links), r.0) && WellFormed(r.0) && |r.1| == |m.joints|
  {
    AddJoints(NodesOf(m.links), m.joints)
  }

  /** The index `getNode` returns for the root link. */
  function RootIndex(nodes: seq<BodyNode>, m: ModelInterface): (root: nat)
    requires HasName(nodes, m.root.name)
    ensures root < |nodes| && nodes[root].name == m.root.name
    ensures forall i :: 0 <= i < root ==> nodes[i].name != m.root.name
  {
    FindNode(nodes, m.root.name).value
  }

  /** `modelInterfaceToSkeleton`: unnamed, without a default root node; one node per link. */
  function SkeletonOf(m: ModelInterface): (r: Assembly)
    requires Buildable(m)
    ensures r.name.None? && !r.defaultRoot && SameNames(NodesOf(m.links), r.nodes)
    ensures |r.order| <= |m.links| && |r.joints| == |m.joints| + 1
  {
    var linked := Linked(m);
    assert HasName(linked.0, m.root.name);
    var root := RootIndex(linked.0, m);
    Assembly(None, false, Bfs(linked.0, [root], |linked.0|), linked.0, linked.1 + [RootJoint(root, false)])
  }

  /** `modelInterfaceToRobot`: named after the model, with a default root node, and the root joint first. */
  function RobotOf(m: ModelInterface): (r: Assembly)
    requires RobotBuildable(m)
    ensures r.name == Some(m.name) && r.defaultRoot && |r.nodes| == |m.links| && |r.order| <= |m.links|
    ensures r.joints != [] && r.joints[0].RootJoint? && r.joints[0].toDefaultRoot
  {
    var nodes := NodesOf(m.links);
    var root := RootIndex(nodes, m);
    var run := RobotBfs(m.joints, nodes, [root], |nodes|);
    Assembly(Some(m.name), true, run.order, run.nodes, [RootJoint(root, true)] + run.joints)
  }

  /** The indices below `n` other than `root`, ascending. */
  function OthersInOrder(n: nat, root: nat): (others: seq<nat>)
    ensures forall i :: 0 <= i < |others| ==> others[i] < n && others[i] != root
    decreases n
  {
    if n == 0 then [] else OthersInOrder(n - 1, root) + (if n - 1 == root then [] else [n - 1])
  }

  /**
   * The nodes after the root are every other node, each once, in `mNodes`
   * order; with the root they are all the nodes.
   */
  lemma {:induction false} OthersInOrderSpec(n: nat, root: nat)
    ensures forall i :: i in OthersInOrder(n, root) <==> 0 <= i < n && i != root
    ensures forall i, j :: 0 <= i < j < |OthersInOrder(n, root)| ==> OthersInOrder(n, root)[i] < OthersInOrder(n, root)[j]
    ensures |OthersInOrder(n, root)| == if root < n then n - 1 else n
    decreases n
  {
    if n > 0 {
      OthersInOrderSpec(n - 1, root);
      var prev := OthersInOrder(n - 1, root);
      var tail: seq<nat> := if n - 1 == root then [] else [n - 1];
      assert OthersInOrder(n, root) == prev + tail;
      forall i | i in prev + tail ensures 0 <= i < n && i != root {
        if i !in prev {
          assert i in tail;
        }
      }
      forall i, j | 0 <= i < j < |prev + tail| ensures (prev + tail)[i] < (prev + tail)[j] {
        if j >= |prev| {
          assert (prev + tail)[i] in prev;
        }
      }
    }
  }

  /** `modelInterfaceToObject`: named after the model, with a default root node; every node is added. */
  function ObjectOf(m: ModelInterface): (r: Assembly)
    requires Buildable(m)
    ensures r.name == Some(m.name) && r.defaultRoot && SameNames(NodesOf(m.links), r.nodes)
    ensures |r.order| == |m.links| && |r.joints| == |m.joints| + 1
  {
    var linked := Linked(m);
    assert HasName(linked.0, m.root.name);
    var root := RootIndex(linked.0, m);
    OthersInOrderSpec(|linked.0|, root);
    Assembly(Some(m.name), true, [root] + OthersInOrder(|linked.0|, root), linked.0, linked.1 + [RootJoint(root, true)])
  }

  /** The models `models[..n]` built one by one with `build`, in model order. */
  function BuildAll<T>(build: ModelInterface --> T, models: seq<ModelInterface>, n: nat): (r: seq<T>)
    requires n <= |models| && forall i :: 0 <= i < |models| ==> build.requires(models[i])
    ensures |r| == n
  {
    if n == 0 then [] else BuildAll(build, models, n - 1) + [build(models[n - 1])]
  }

  /** Model `k` becomes element `k`. */
  lemma {:induction false} BuildAllAt<T>(build: ModelInterface --> T, models: seq<ModelInterface>, n: nat, k: nat)
    requires k < n <= |models| && forall i :: 0 <= i < |models| ==> build.requires(models[i])
    ensures BuildAll(build, models, n)[k] == build(models[k])
    decreases n
  {
    if k + 1 < n {
      BuildAllAt(build, models, n - 1, k);
    }
  }

  /** Object model `k` becomes object `k` and robot model `k` robot `k` (`BuildAllAt`). */
  function WorldOf(w: UrdfWorld): (r: World)
    requires forall i :: 0 <= i < |w.objectModels| ==> Buildable(w.objectModels[i])
    requires forall i :: 0 <= i < |w.robotModels| ==> RobotBuildable(w.robotModels[i])
    ensures |r.objects| == |w.objectModels| && |r.robots| == |w.robotModels|
  {
    World(BuildAll(ObjectOf, w.objectModels, |w.objectModels|), BuildAll(RobotOf, w.robotModels, |w.robotModels|))
  }

  // ---- joints ---------------------------------------------------------------

  /**
   * `mJoints` of a skeleton or an object: one joint per record in joint-map
   * order, joining the nodes its link names denote, then the root joint,
   * last, at the root node; it goes to the default root node only for the
   * object.
   */
  lemma LinkedJointOrder(m: ModelInterface)
    requires Buildable(m)
    ensures var a := SkeletonOf(m);
      |a.joints| == |m.joints| + 1 && a.order != [] &&
      a.joints[|m.joints|] == RootJoint(a.order[0], false) &&
      a.nodes[a.order[0]].name == m.root.name
    ensures var a := ObjectOf(m);
      |a.joints| == |m.joints| + 1 &&
      a.joints[|m.joints|] == RootJoint(a.order[0], true) &&
      a.nodes[a.order[0]].name == m.root.name
    ensures forall k :: 0 <= k < |m.joints| ==>
      SkeletonOf(m).joints[k] == ObjectOf(m).joints[k] ==
      Joint(m.joints[k],
            FindNode(NodesOf(m.links), m.joints[k].parentLinkName).value,
            FindNode(NodesOf(m.links), m.joints[k].childLinkName).value)
  {
    SkeletonRootJoint(m);
    ObjectRootJoint(m);
    forall k | 0 <= k < |m.joints|
      ensures SkeletonOf(m).joints[k] == ObjectOf(m).joints[k] ==
        Joint(m.joints[k],
              FindNode(NodesOf(m.links), m.joints[k].parentLinkName).value,
              FindNode(NodesOf(m.links), m.joints[k].childLinkName).value)
    {
      LinkedJointAt(m, k);
    }
  }

  /** The root joint of a skeleton comes last, at the node added first, which is the root link's. */
  lemma SkeletonRootJoint(m: ModelInterface)
    requires Buildable(m)
    ensures var a := SkeletonOf(m);
      |a.joints| == |m.joints| + 1 && a.order != [] &&
      a.joints[|m.joints|] == RootJoint(a.order[0], false) &&
      a.nodes[a.order[0]].name == m.root.name
  {
    var linked := Linked(m);
    assert HasName(linked.0, m.root.name);
    var root := RootIndex(linked.0, m);
    var a := SkeletonOf(m);
    assert a.joints == linked.1 + [RootJoint(root, false)] && a.nodes == linked.0;
    assert a.order == Bfs(linked.0, [root], |linked.0|);
    BfsParentFirst(linked.0, root, |linked.0|);
  }

  /** The root joint of an object comes last, at the root link's node, which is first in its order. */
  lemma ObjectRootJoint(m: ModelInterface)
    requires Buildable(m)
    ensures var a := ObjectOf(m);
      |a.joints| == |m.joints| + 1 &&
      a.joints[|m.joints|] == RootJoint(a.order[0], true) &&
      a.nodes[a.order[0]].name == m.root.name
  {
    var linked := Linked(m);
    assert HasName(linked.0, m.root.name);
    var root := RootIndex(linked.0, m);
    var o := ObjectOf(m);
    assert o.joints == linked.1 + [RootJoint(root, true)] && o.nodes == linked.0;
    assert o.order[0] == root;
  }

  /** The joint made from record `k`, which the skeleton and the object both have at position `k`. */
  lemma LinkedJointAt(m: ModelInterface, k: nat)
    requires Buildable(m) && k < |m.joints|
    ensures SkeletonOf(m).joints[k] == ObjectOf(m).joints[k] ==
      Joint(m.joints[k],
            FindNode(NodesOf(m.links), m.joints[k].parentLinkName).value,
            FindNode(NodesOf(m.links), m.joints[k].childLinkName).value)
  {
    var linked := Linked(m);
    assert HasName(linked.0, m.root.name);
    var root := RootIndex(linked.0, m);
    assert SkeletonOf(m).joints == linked.1 + [RootJoint(root, false)];
    assert ObjectOf(m).joints == linked.1 + [RootJoint(root, true)];
    AddJointsRecords(NodesOf(m.links), m.joints, k);
  }

  /**
   * `mJoints` of a robot: the root joint, to the default root node, first;
   * then, for each node in the order it was added, the joints whose parent
   * link is that node's link, in joint-map order. A record becomes a joint
   * exactly when some node added has its parent link's name.
   */
  lemma RobotJoints(m: ModelInterface, j: UrdfJoint)
    requires RobotBuildable(m)
    ensures var a := RobotOf(m);
      a.joints != [] && a.order != [] && a.joints[0] == RootJoint(a.order[0], true) &&
      a.nodes[a.order[0]].name == m.root.name &&
      MadeInOrder(m.joints, NodesOf(m.links), a.order, a.joints[1..])
    ensures Created(RobotOf(m).joints, j) <==> j in m.joints && Dequeued(NodesOf(m.links), RobotOf(m).order, j.parentLinkName)
  {
    var nodes := NodesOf(m.links);
    var root := RootIndex(nodes, m);
    var run := RobotBfs(m.joints, nodes, [root], |nodes|);
    var a := RobotOf(m);
    assert a.joints == [RootJoint(root, true)] + run.joints && a.order == run.order && a.nodes == run.nodes;
    RobotParentFirst(m.joints, nodes, root, |nodes|);
    RobotJointOrder(m.joints, nodes, [root], |nodes|);
    RobotCreatesExactlyDequeuedJoints(m.joints, nodes, [root], |nodes|, j);
    assert a.joints[1..] == run.joints;
    CreatedAfterRoot(RootJoint(root, true), run.joints, j);
  }

  /** A root joint in front does not change which records have been made into joints. */
  lemma CreatedAfterRoot(r: Joint, made: seq<Joint>, j: UrdfJoint)
    requires r.RootJoint?
    ensures Created([r] + made, j) <==> Created(made, j)
  {
    if Created([r] + made, j) {
      var i :| 0 <= i < |[r] + made| && ([r] + made)[i].Joint? && ([r] + made)[i].source == j;
      assert made[i - 1] == ([r] + made)[i];
    }
    if Created(made, j) {
      var i :| 0 <= i < |made| && made[i].Joint? && made[i].source == j;
      assert ([r] + made)[i + 1] == made[i];
    }
  }

  // ---- the order nodes are added in ----------------------------------------

  /**
   * The skeleton adds the root first, then children of nodes added before;
   * no more nodes than there are links; breadth-first from the root. If the
   * child graph is a tree covering every link, every node is added exactly
   * once; if the run stops early, it added exactly the nodes reachable from
   * the root, and no error is raised for the others. If only the part
   * reachable from the root is a tree, each reachable node is added once and
   * nothing else, so the run is short exactly when some link is unreachable.
   */
  lemma SkeletonOrder(m: ModelInterface)
    requires Buildable(m)
    ensures var a := SkeletonOf(m);
      a.order != [] && a.nodes[a.order[0]].name == m.root.name && |a.order| <= |m.links| &&
      ParentFirst(a.nodes, a.order) &&
      a.order <= [a.order[0]] + Enqueued(a.nodes, a.order)
    ensures var a := SkeletonOf(m);
      IsTree(a.nodes, a.order[0]) ==>
        |a.order| == |m.links| && Distinct(a.order) && forall x :: 0 <= x < |m.links| ==> x in a.order
    ensures var a := SkeletonOf(m);
      |a.order| < |m.links| ==> forall x :: Reachable(a.nodes, a.order[0], x) <==> x in a.order
    ensures var a := SkeletonOf(m);
      TreeFrom(a.nodes, a.order[0]) ==>
        && Distinct(a.order)
        && (forall x :: x in a.order <==> 0 <= x < |m.links| && Reachable(a.nodes, a.order[0], x))
        && (|a.order| < |m.links| <==> exists x :: 0 <= x < |m.links| && !Reachable(a.nodes, a.order[0], x))
  {
    var linked := Linked(m);
    assert HasName(linked.0, m.root.name);
    var root := RootIndex(linked.0, m);
    var n := |linked.0|;
    BfsParentFirst(linked.0, root, n);
    BfsIsFifo(linked.0, root, n);
    BfsReachable(linked.0, root, n);
    if IsTree(linked.0, root) {
      BfsCoversTree(linked.0, root);
    }
    if TreeFrom(linked.0, root) {
      BfsCoversReachable(linked.0, root);
    }
  }

  /** The robot adds the root first, then children of nodes added before; no more nodes than there are links. */
  lemma RobotOrder(m: ModelInterface)
    requires RobotBuildable(m)
    ensures var a := RobotOf(m);
      a.order != [] && a.nodes[a.order[0]].name == m.root.name && |a.order| <= |m.links| &&
      ParentFirst(a.nodes, a.order)
  {
    var nodes := NodesOf(m.links);
    var root := RootIndex(nodes, m);
    RobotParentFirst(m.joints, nodes, root, |nodes|);
  }

  /**
   * When the part of the skeleton reachable from the root is a tree, the
   * robot adds the skeleton's nodes in the skeleton's order, although it
   * creates a node's joints only when it takes that node from the queue.
   */
  lemma RobotOrderIsSkeletonOrder(m: ModelInterface)
    requires Buildable(m) && RobotBuildable(m)
    requires TreeFrom(Linked(m).0, RootIndex(NodesOf(m.links), m))
    ensures RobotOf(m).order == SkeletonOf(m).order
  {
    var n0 := NodesOf(m.links);
    var root := RootIndex(n0, m);
    SkeletonOfOrder(m);
    RobotOfOrder(m);
    RobotBfsIsBfsFromRoot(m.joints, n0, root);
  }

  lemma SkeletonOfOrder(m: ModelInterface)
    requires Buildable(m)
    ensures SkeletonOf(m).order == Bfs(Linked(m).0, [RootIndex(NodesOf(m.links), m)], |m.links|)
  {
    FindNodeByNames(NodesOf(m.links), Linked(m).0, m.root.name);
  }

  lemma RobotOfOrder(m: ModelInterface)
    requires RobotBuildable(m)
    ensures RobotOf(m).order == RobotBfs(m.joints, NodesOf(m.links), [RootIndex(NodesOf(m.links), m)], |m.links|).order
  {
  }

  /**
   * So on such a model the robot adds each node reachable from the root
   * exactly once, the root first, and every node when all are reachable.
   */
  lemma RobotOrderOnTree(m: ModelInterface)
    requires Buildable(m) && RobotBuildable(m)
    requires TreeFrom(Linked(m).0, RootIndex(NodesOf(m.links), m))
    ensures var a := RobotOf(m); var root := RootIndex(NodesOf(m.links), m);
      && a.order != [] && a.order[0] == root
      && Distinct(a.order)
      && (forall x :: x in a.order <==> 0 <= x < |m.links| && Reachable(Linked(m).0, root, x))
      && (IsTree(Linked(m).0, root) ==> |a.order| == |m.links|)
  {
    var n0 := NodesOf(m.links);
    var root := RootIndex(n0, m);
    var linked := Linked(m).0;
    RobotOrderIsSkeletonOrder(m);
    SkeletonOfOrder(m);
    BfsCoversReachable(linked, root);
  }

  /**
   * The object adds the root first and then every other node in `mNodes`
   * order, reachable or not: every node exactly once.
   */
  lemma ObjectOrder(m: ModelInterface)
    requires Buildable(m)
    ensures var a := ObjectOf(m);
      a.order != [] && a.nodes[a.order[0]].name == m.root.name &&
      a.order[1..] == OthersInOrder(|m.links|, a.order[0]) &&
      |a.order| == |m.links| && Distinct(a.order) && forall x :: 0 <= x < |m.links| ==> x in a.order
  {
    var linked := Linked(m);
    assert HasName(linked.0, m.root.name);
    var root := RootIndex(linked.0, m);
    var order := [root] + OthersInOrder(|linked.0|, root);
    OthersInOrderSpec(|linked.0|, root);
    assert order[1..] == OthersInOrder(|linked.0|, root);
    forall i: nat, j: nat | i < j < |order| ensures Apart(order, i, j) {
      if i > 0 {
        assert order[i] == order[1..][i - 1] && order[j] == order[1..][j - 1];
      } else {
        assert order[j] in OthersInOrder(|linked.0|, root);
      }
    }
    forall x | 0 <= x < |m.links| ensures x in order {
      if x != root {
        assert x in order[1..];
      }
    }
  }
}
