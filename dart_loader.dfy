/**
 * The loader object. It keeps the node list `mNodes` and the joint list
 * `mJoints` as members, resets and refills them for every model it turns into
 * a skeleton, robot or object, and remembers the world file's path. Each
 * method is proved against the functions of `Assembly`, `Traversal` and
 * `RobotTraversal` that say what it computes.
 */
module Loader {
  import opened Wrappers
  import opened Urdf
  import opened Bodies
  import opened Traversal
  import opened RobotTraversal
  import opened Assembly
  import opened WorldPath

  class DartLoader {
    var mNodes: seq<BodyNode>
    var mJoints: seq<Joint>
    var mWorldPath: string
    var mPath: string

    constructor()
      ensures mNodes == [] && mJoints == [] && mWorldPath == [] && mPath == []
    {
      mNodes := [];
      mJoints := [];
      mWorldPath := [];
      mPath := [];
    }

    /** `getNode`: the first node of `mNodes` with the given name, or none. */
    method GetNode(name: string) returns (node: Option<nat>)
      ensures node == FindNode(mNodes, name)
    {
      var i := 0;
      while i < |mNodes|
        invariant 0 <= i <= |mNodes|
        invariant forall j :: 0 <= j < i ==> mNodes[j].name != name
      {
        if mNodes[i].name == name {
          return Some(i);
        }
        i := i + 1;
      }
      return None;
    }

    /** `mNodes.resize(0)`, then one `createDartNode` per link, pushed in link-map order. */
    method CollectNodes(links: seq<Link>)
      modifies this`mNodes
      ensures mNodes == NodesOf(links)
      ensures mJoints == old(mJoints)
    {
      mNodes := [];
      var i := 0;
      while i < |links|
        invariant 0 <= i <= |links| && mNodes == NodesOf(links[..i])
      {
        mNodes := mNodes + [BodyNode(links[i].name, [])];
        i := i + 1;
      }
      assert links[..i] == links;
    }

    /**
     * `createDartJoint`: both endpoints are looked up with `getNode`, and the
     * child is attached to the parent as its next child joint.
     */
    method CreateDartJoint(j: UrdfJoint) returns (joint: Joint)
      requires WellFormed(mNodes) && Resolves(mNodes, j)
      modifies this`mNodes
      ensures mNodes == AddJoint(old(mNodes), j).0 && joint == AddJoint(old(mNodes), j).1
      ensures mJoints == old(mJoints)
    {
      var parent := GetNode(j.parentLinkName);
      var child := GetNode(j.childLinkName);
      var p := parent.value;
      var c := child.value;
      mNodes := mNodes[p := BodyNode(mNodes[p].name, mNodes[p].childNodes + [c])];
      joint := Joint(j, p, c);
    }

    /** `mJoints.resize(0)`, then one `createDartJoint` per joint record, pushed in joint-map order. */
    method CollectJoints(joints: seq<UrdfJoint>)
      requires WellFormed(mNodes) && AllResolve(mNodes, joints)
      modifies this`mNodes, this`mJoints
      ensures (mNodes, mJoints) == AddJoints(old(mNodes), joints)
    {
      mJoints := [];
      var i := 0;
      while i < |joints|
        invariant 0 <= i <= |joints| && AllResolve(old(mNodes), joints[..i])
        invariant (mNodes, mJoints) == AddJoints(old(mNodes), joints[..i])
      {
        AllResolvePrefix(old(mNodes), joints, i + 1);
        AllResolveByNames(old(mNodes), mNodes, joints);
        assert joints[..i + 1][..i] == joints[..i];
        var joint := CreateDartJoint(joints[i]);
        mJoints := mJoints + [joint];
        i := i + 1;
      }
      assert joints[..i] == joints;
    }

    /** "Add its kids": the child nodes of `u` are queued in child-joint index order. */
    method PushChildren(nodeStack: seq<nat>, u: nat) returns (queue: seq<nat>)
      requires u < |mNodes|
      ensures queue == nodeStack + mNodes[u].childNodes
    {
      queue := nodeStack;
      var idx := 0;
      while idx < |mNodes[u].childNodes|
        invariant 0 <= idx <= |mNodes[u].childNodes|
        invariant queue == nodeStack + mNodes[u].childNodes[..idx]
      {
        queue := queue + [mNodes[u].childNodes[idx]];
        idx := idx + 1;
      }
      assert mNodes[u].childNodes[..idx] == mNodes[u].childNodes;
    }

    /**
     * The "push parents first" loop of `modelInterfaceToSkeleton`: a FIFO
     * seeded with the root, at most `|mNodes|` passes, each adding the front
     * node and queueing its children in child-joint order.
     */
    method PushParentsFirst(root: nat) returns (order: seq<nat>, numIter: nat)
      requires WellFormed(mNodes) && root < |mNodes|
      ensures order == Bfs(mNodes, [root], |mNodes|)
      ensures |order| == numIter <= |mNodes|
    {
      var nodeStack: seq<nat> := [root];
      order := [];
      numIter := 0;
      while nodeStack != [] && numIter < |mNodes|
        invariant InRange(mNodes, nodeStack) && numIter <= |mNodes| && |order| == numIter
        invariant order + Bfs(mNodes, nodeStack, |mNodes| - numIter) == Bfs(mNodes, [root], |mNodes|)
        decreases |mNodes| - numIter
      {
        BfsPass(mNodes, nodeStack, |mNodes| - numIter);
        ghost var before := order;
        var u := nodeStack[0];
        order := order + [u];
        nodeStack := nodeStack[1..];
        nodeStack := PushChildren(nodeStack, u);
        AppendAssoc(before, [u], Bfs(mNodes, nodeStack, |mNodes| - numIter - 1));
        numIter := numIter + 1;
      }
    }

    /**
     * One turn of the joint loop inside the robot pass: the record `joints[jt]`
     * is turned into a joint and pushed when its parent link is `name`.
     */
    method JointLoopTurn(joints: seq<UrdfJoint>, name: string, jt: nat, ghost n0: seq<BodyNode>, ghost j0: seq<Joint>,
                         ghost made: seq<Joint>) returns (ghost made': seq<Joint>)
      requires WellFormed(n0) && ChildrenResolve(n0, joints) && HasName(n0, name) && jt < |joints|
      requires AllResolve(n0, JointsFrom(joints[..jt], name))
      requires (mNodes, made) == AddJoints(n0, JointsFrom(joints[..jt], name)) && mJoints == j0 + made
      modifies this`mNodes, this`mJoints
      ensures AllResolve(n0, JointsFrom(joints[..jt + 1], name))
      ensures (mNodes, made') == AddJoints(n0, JointsFrom(joints[..jt + 1], name)) && mJoints == j0 + made'
    {
      made' := made;
      if joints[jt].parentLinkName == name {
        FilteredTake(n0, joints, name, jt);
        var joint := CreateDartJoint(joints[jt]);
        mJoints := mJoints + [joint];
        AppendAssoc(j0, made, [joint]);
        made' := made + [joint];
      } else {
        FilteredSkip(joints, name, jt);
      }
    }

    /**
     * The joint loop inside the robot pass, for node `u`: every record whose
     * parent link is the name of `u` is turned into a joint with
     * `createDartJoint` and pushed.
     */
    method CreateJointsFrom(joints: seq<UrdfJoint>, u: nat) returns (ghost made: seq<Joint>)
      requires WellFormed(mNodes) && u < |mNodes| && ChildrenResolve(mNodes, joints)
      requires FindNode(mNodes, mNodes[u].name) == Some(u)
      modifies this`mNodes, this`mJoints
      ensures SameNames(old(mNodes), mNodes)
      ensures (mNodes, made) == Visit(joints, old(mNodes), u)
      ensures mJoints == old(mJoints) + made
    {
      ghost var n0, j0 := mNodes, mJoints;
      var name := mNodes[u].name;
      assert HasName(n0, name);
      made := [];
      var jt := 0;
      while jt < |joints|
        invariant 0 <= jt <= |joints| && AllResolve(n0, JointsFrom(joints[..jt], name))
        invariant (mNodes, made) == AddJoints(n0, JointsFrom(joints[..jt], name))
        invariant mJoints == j0 + made
      {
        made := JointLoopTurn(joints, name, jt, n0, j0, made);
        jt := jt + 1;
      }
      assert joints[..jt] == joints;
      VisitIsCreateJoints(joints, n0, u);
    }

    /**
     * One pass of the loop of `modelInterfaceToRobot`: the front node's joints
     * are created, then it is popped and its children, as they are now, are
     * pushed.
     */
    method RobotPass(joints: seq<UrdfJoint>, nodeStack: seq<nat>, ghost n0: seq<BodyNode>) returns (next: seq<nat>)
      requires WellFormed(mNodes) && UniqueNames(n0) && SameNames(n0, mNodes) && ChildrenResolve(mNodes, joints)
      requires InRange(mNodes, nodeStack) && nodeStack != []
      modifies this`mNodes, this`mJoints
      ensures SameNames(old(mNodes), mNodes)
      ensures var p := Pass(joints, old(mNodes), nodeStack);
        mNodes == p.nodes && next == p.next && mJoints == old(mJoints) + p.made
    {
      var u := nodeStack[0];
      FindNodeByNames(n0, mNodes, mNodes[u].name);
      FindOwnName(n0, u);
      ghost var made := CreateJointsFrom(joints, u);
      next := nodeStack[1..];
      next := PushChildren(next, u);
    }

    /**
     * The loop of `modelInterfaceToRobot`: like the skeleton's, but when a
     * node is taken from the queue its joints are created first, so the
     * children queued are those its new joints attached.
     */
    method RobotPushParentsFirst(joints: seq<UrdfJoint>, root: nat) returns (order: seq<nat>, numIter: nat)
      requires WellFormed(mNodes) && UniqueNames(mNodes) && ChildrenResolve(mNodes, joints) && root < |mNodes|
      modifies this`mNodes, this`mJoints
      ensures var run := RobotBfs(joints, old(mNodes), [root], |old(mNodes)|);
        order == run.order && mNodes == run.nodes && mJoints == old(mJoints) + run.joints
      ensures |order| == numIter <= |old(mNodes)|
    {
      ghost var n0 := mNodes;
      ghost var run := RobotBfs(joints, mNodes, [root], |mNodes|);
      ghost var size := |mNodes|;
      ghost var fuel := size;
      var nodeStack: seq<nat> := [root];
      order := [];
      numIter := 0;
      while nodeStack != [] && numIter < |mNodes|
        invariant |mNodes| == size && numIter <= size && |order| == numIter && fuel == size - numIter
        invariant WellFormed(mNodes) && SameNames(n0, mNodes) && ChildrenResolve(mNodes, joints) && InRange(mNodes, nodeStack)
        invariant RobotBfs(joints, mNodes, nodeStack, fuel).nodes == run.nodes
        invariant order + RobotBfs(joints, mNodes, nodeStack, fuel).order == run.order
        invariant mJoints + RobotBfs(joints, mNodes, nodeStack, fuel).joints == old(mJoints) + run.joints
        decreases size - numIter
      {
        PassKeepsFinalNodes(joints, mNodes, nodeStack, fuel, run.nodes);
        PassExtendsOrder(joints, mNodes, nodeStack, fuel, order, run.order);
        PassExtendsJoints(joints, mNodes, nodeStack, fuel, mJoints, old(mJoints) + run.joints);
        ghost var before := mNodes;
        var u := nodeStack[0];
        order := order + [u];
        nodeStack := RobotPass(joints, nodeStack, n0);
        SameNamesTrans(n0, before, mNodes);
        numIter := numIter + 1;
        fuel := fuel - 1;
      }
    }

    /** The "add the rest" loop of `modelInterfaceToObject`: the root, then every other node in order. */
    method ObjectNodeOrder(root: nat) returns (order: seq<nat>)
      ensures order == [root] + OthersInOrder(|mNodes|, root)
    {
      order := [root];
      var i := 0;
      while i < |mNodes|
        invariant 0 <= i <= |mNodes| && order == [root] + OthersInOrder(i, root)
      {
        if i != root {
          order := order + [i];
        }
        i := i + 1;
      }
    }

    method ModelInterfaceToSkeleton(m: ModelInterface) returns (skeleton: Assembly)
      requires Buildable(m)
      modifies this`mNodes, this`mJoints
      ensures skeleton == SkeletonOf(m)
      ensures mNodes == skeleton.nodes && mJoints == skeleton.joints
    {
      CollectNodes(m.links);
      CollectJoints(m.joints);
      assert HasName(mNodes, m.root.name);
      var rootNode := GetNode(m.root.name);
      mJoints := mJoints + [RootJoint(rootNode.value, false)];
      var order, numIter := PushParentsFirst(rootNode.value);
      skeleton := Assembly(None, false, order, mNodes, mJoints);
    }

    method ModelInterfaceToRobot(m: ModelInterface) returns (robot: Assembly)
      requires RobotBuildable(m)
      modifies this`mNodes, this`mJoints
      ensures robot == RobotOf(m)
      ensures mNodes == robot.nodes && mJoints == robot.joints
    {
      CollectNodes(m.links);
      mJoints := [];
      var rootNode := GetNode(m.root.name);
      mJoints := mJoints + [RootJoint(rootNode.value, true)];
      assert rootNode.value == RootIndex(NodesOf(m.links), m);
      assert mJoints == [RootJoint(RootIndex(NodesOf(m.links), m), true)];
      var order, numIter := RobotPushParentsFirst(m.joints, rootNode.value);
      robot := Assembly(Some(m.name), true, order, mNodes, mJoints);
    }

    method ModelInterfaceToObject(m: ModelInterface) returns (obj: Assembly)
      requires Buildable(m)
      modifies this`mNodes, this`mJoints
      ensures obj == ObjectOf(m)
      ensures mNodes == obj.nodes && mJoints == obj.joints
    {
      CollectNodes(m.links);
      CollectJoints(m.joints);
      assert HasName(mNodes, m.root.name);
      var rootNode := GetNode(m.root.name);
      mJoints := mJoints + [RootJoint(rootNode.value, true)];
      var order := ObjectNodeOrder(rootNode.value);
      obj := Assembly(Some(m.name), true, order, mNodes, mJoints);
    }

    /** The object loop of `parseWorld`: each object model is built in turn. */
    method BuildObjects(models: seq<ModelInterface>) returns (objects: seq<Assembly>)
      requires forall i :: 0 <= i < |models| ==> Buildable(models[i])
      modifies this`mNodes, this`mJoints
      ensures objects == BuildAll(ObjectOf, models, |models|)
      ensures if models != [] then mNodes == objects[|objects| - 1].nodes && mJoints == objects[|objects| - 1].joints
              else mNodes == old(mNodes) && mJoints == old(mJoints)
    {
      objects := [];
      var i := 0;
      while i < |models|
        invariant 0 <= i <= |models| && objects == BuildAll(ObjectOf, models, i)
        invariant if i > 0 then mNodes == objects[i - 1].nodes && mJoints == objects[i - 1].joints
                  else mNodes == old(mNodes) && mJoints == old(mJoints)
      {
        var obj := ModelInterfaceToObject(models[i]);
        objects := objects + [obj];
        i := i + 1;
      }
    }

    /** The robot loop of `parseWorld`: each robot model is built in turn. */
    method BuildRobots(models: seq<ModelInterface>) returns (robots: seq<Assembly>)
      requires forall i :: 0 <= i < |models| ==> RobotBuildable(models[i])
      modifies this`mNodes, this`mJoints
      ensures robots == BuildAll(RobotOf, models, |models|)
      ensures if models != [] then mNodes == robots[|robots| - 1].nodes && mJoints == robots[|robots| - 1].joints
              else mNodes == old(mNodes) && mJoints == old(mJoints)
    {
      robots := [];
      var i := 0;
      while i < |models|
        invariant 0 <= i <= |models| && robots == BuildAll(RobotOf, models, i)
        invariant if i > 0 then mNodes == robots[i - 1].nodes && mJoints == robots[i - 1].joints
                  else mNodes == old(mNodes) && mJoints == old(mJoints)
      {
        var robot := ModelInterfaceToRobot(models[i]);
        robots := robots + [robot];
        i := i + 1;
      }
    }

    /**
     * `parseWorld` on a world already parsed: the path is normalised and its
     * directory kept, then every object model and every robot model is built
     * in turn. `mNodes` and `mJoints` are left as the last model built left them.
     */
    method ParseWorld(urdfFile: string, world: UrdfWorld) returns (w: World)
      requires |urdfFile| < NPOS
      requires forall i :: 0 <= i < |world.objectModels| ==> Buildable(world.objectModels[i])
      requires forall i :: 0 <= i < |world.robotModels| ==> RobotBuildable(world.robotModels[i])
      modifies this
      ensures w == WorldOf(world)
      ensures mWorldPath == ToUnixPath(urdfFile) && mPath == DirPrefix(mWorldPath)
      ensures var last := if w.robots != [] then Some(w.robots[|w.robots| - 1])
                          else if w.objects != [] then Some(w.objects[|w.objects| - 1]) else None;
        if last.Some? then mNodes == last.value.nodes && mJoints == last.value.joints
        else mNodes == old(mNodes) && mJoints == old(mJoints)
    {
      mWorldPath := ToUnixPath(urdfFile);
      mPath := DirPrefix(mWorldPath);
      var objects := BuildObjects(world.objectModels);
      var robots := BuildRobots(world.robotModels);
      w := World(objects, robots);
    }
  }
}
