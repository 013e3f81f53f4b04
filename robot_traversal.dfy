/**
 * The breadth-first pass of `modelInterfaceToRobot`, which creates joints
 * lazily: when a node is taken from the front of the queue, every joint whose
 * parent link name is that node's name is created right then (attaching its
 * child to the parent node), and only afterwards are the node's children
 * queued. The same bound on the number of passes applies.
 */
module RobotTraversal {
  import opened Wrappers
  import opened Urdf
  import opened Bodies
  import opened Traversal

  /** The joint records whose parent link is `name`, in joint-map order. */
  function JointsFrom(joints: seq<UrdfJoint>, name: string): (r: seq<UrdfJoint>)
    ensures forall k :: 0 <= k < |r| ==> r[k].parentLinkName == name
    decreases |joints|
  {
    if joints == [] then []
    else
      var last := joints[|joints| - 1];
      JointsFrom(joints[..|joints| - 1], name) + (if last.parentLinkName == name then [last] else [])
  }

  /** The records whose parent link is `name` are exactly the ones `JointsFrom` keeps. */
  lemma {:induction false} JointsFromMembers(joints: seq<UrdfJoint>, name: string)
    ensures forall k :: 0 <= k < |JointsFrom(joints, name)| ==> JointsFrom(joints, name)[k] in joints
    ensures forall j :: j in joints && j.parentLinkName == name ==> j in JointsFrom(joints, name)
    decreases |joints|
  {
    if joints != [] {
      var init := joints[..|joints| - 1];
      JointsFromMembers(init, name);
      assert joints == init + [joints[|joints| - 1]];
    }
  }

  /** Looking at one more record of the joint map. */
  lemma JointsFromSnoc(joints: seq<UrdfJoint>, name: string, n: nat)
    requires n < |joints|
    ensures JointsFrom(joints[..n + 1], name)
         == JointsFrom(joints[..n], name) + (if joints[n].parentLinkName == name then [joints[n]] else [])
  {
    assert joints[..n + 1][..n] == joints[..n];
  }

  /** A record whose parent is `name`, seen by the joint loop: it is attached after the ones before it. */
  lemma FilteredTake(nodes: seq<BodyNode>, joints: seq<UrdfJoint>, name: string, n: nat)
    requires WellFormed(nodes) && ChildrenResolve(nodes, joints) && HasName(nodes, name)
    requires n < |joints| && joints[n].parentLinkName == name
    requires AllResolve(nodes, JointsFrom(joints[..n], name))
    ensures AllResolve(nodes, JointsFrom(joints[..n + 1], name))
    ensures Resolves(AddJoints(nodes, JointsFrom(joints[..n], name)).0, joints[n])
    ensures var prev := AddJoints(nodes, JointsFrom(joints[..n], name));
      var step := AddJoint(prev.0, joints[n]);
      && AddJoints(nodes, JointsFrom(joints[..n + 1], name)).0 == step.0
      && AddJoints(nodes, JointsFrom(joints[..n + 1], name)).1 == prev.1 + [step.1]
  {
    JointsFromSnoc(joints, name, n);
    assert Resolves(nodes, joints[n]);
    AddJointsSnoc(nodes, JointsFrom(joints[..n], name), joints[n]);
  }

  /** A record whose parent is not `name` is skipped by the joint loop. */
  lemma FilteredSkip(joints: seq<UrdfJoint>, name: string, n: nat)
    requires n < |joints| && joints[n].parentLinkName != name
    ensures JointsFrom(joints[..n + 1], name) == JointsFrom(joints[..n], name)
  {
    JointsFromSnoc(joints, name, n);
  }

  /**
   * Every record whose parent link is a link also has a child link that is
   * one. The robot loop never looks at the other records: their parent is
   * no node's name, so the test on the parent name skips them.
   */
  predicate ChildrenResolve(nodes: seq<BodyNode>, joints: seq<UrdfJoint>)
  {
    forall k :: 0 <= k < |joints| ==> ChildResolves(nodes, joints[k])
  }

  /** If the parent link of `j` names some node, so does its child link. */
  predicate ChildResolves(nodes: seq<BodyNode>, j: UrdfJoint)
  {
    HasName(nodes, j.parentLinkName) ==> HasName(nodes, j.childLinkName)
  }

  lemma ChildrenResolveByNames(a: seq<BodyNode>, b: seq<BodyNode>, joints: seq<UrdfJoint>)
    requires SameNames(a, b) && ChildrenResolve(a, joints)
    ensures ChildrenResolve(b, joints)
  {
    forall k | 0 <= k < |joints| ensures ChildResolves(b, joints[k]) {
      FindNodeByNames(a, b, joints[k].parentLinkName);
      FindNodeByNames(a, b, joints[k].childLinkName);
    }
  }

  /** The records whose parent is the name of a node all resolve. */
  lemma AllResolveFiltered(nodes: seq<BodyNode>, joints: seq<UrdfJoint>, name: string)
    requires ChildrenResolve(nodes, joints) && HasName(nodes, name)
    ensures AllResolve(nodes, JointsFrom(joints, name))
  {
    var r := JointsFrom(joints, name);
    JointsFromMembers(joints, name);
    forall k | 0 <= k < |r| ensures Resolves(nodes, r[k]) {
      var i :| 0 <= i < |joints| && joints[i] == r[k];
      assert ChildResolves(nodes, joints[i]);
    }
  }

  lemma GrowsTrans(a: seq<BodyNode>, b: seq<BodyNode>, c: seq<BodyNode>)
    requires Grows(a, b) && Grows(b, c)
    ensures Grows(a, c)
  {
    forall i | 0 <= i < |a| ensures a[i].childNodes <= c[i].childNodes {
      assert a[i].childNodes <= b[i].childNodes <= c[i].childNodes;
    }
  }

  /** The state of a run: the nodes with the joints made so far, the nodes added, the joints made. */
  datatype RobotRun = RobotRun(nodes: seq<BodyNode>, order: seq<nat>, joints: seq<Joint>)

  /** What one pass leaves: the nodes with the new joints attached, the joints made, the queue. */
  datatype PassResult = PassResult(nodes: seq<BodyNode>, made: seq<Joint>, next: seq<nat>)

  /** The child node each record of `mine` names, in order. */
  function Kids(nodes: seq<BodyNode>, mine: seq<UrdfJoint>): (kids: seq<nat>)
    requires AllResolve(nodes, mine)
    ensures |kids| == |mine|
    ensures forall k :: 0 <= k < |kids| ==> Some(kids[k]) == FindNode(nodes, mine[k].childLinkName)
  {
    seq(|mine|, k requires 0 <= k < |mine| && Resolves(nodes, mine[k]) => FindNode(nodes, mine[k].childLinkName).value)
  }

  /** The joints made from the records of `mine`, all with parent node `u`. */
  function Made(nodes: seq<BodyNode>, mine: seq<UrdfJoint>, u: nat): (made: seq<Joint>)
    requires AllResolve(nodes, mine)
    ensures |made| == |mine|
    ensures forall k :: 0 <= k < |made| ==> made[k].Joint? && made[k].source == mine[k] && made[k].parent == u
  {
    seq(|mine|, k requires 0 <= k < |mine| && Resolves(nodes, mine[k]) =>
      Joint(mine[k], u, FindNode(nodes, mine[k].childLinkName).value))
  }

  /**
   * The lazy joint creation when node `u` is taken from the queue: a joint is
   * created for every record whose parent link is its name, and all of them
   * attach to `u`, since names are unique. The nodes with the new edges, and
   * the joints made.
   */
  function Visit(joints: seq<UrdfJoint>, nodes: seq<BodyNode>, u: nat): (r: (seq<BodyNode>, seq<Joint>))
    requires WellFormed(nodes) && u < |nodes| && ChildrenResolve(nodes, joints)
    ensures SameNames(nodes, r.0) && WellFormed(r.0) && ChildrenResolve(r.0, joints)
    ensures |r.1| == |JointsFrom(joints, nodes[u].name)|
  {
    var mine := JointsFrom(joints, nodes[u].name);
    assert HasName(nodes, nodes[u].name);
    AllResolveFiltered(nodes, joints, nodes[u].name);
    var n1 := nodes[u := BodyNode(nodes[u].name, nodes[u].childNodes + Kids(nodes, mine))];
    assert SameNames(nodes, n1);
    ChildrenResolveByNames(nodes, n1, joints);
    (n1, Made(nodes, mine, u))
  }

  /**
   * One pass of the loop: `queue[0]` is taken and visited, then its
   * children, as they are now, are queued.
   */
  function Pass(joints: seq<UrdfJoint>, nodes: seq<BodyNode>, queue: seq<nat>): (r: PassResult)
    requires WellFormed(nodes) && InRange(nodes, queue) && queue != [] && ChildrenResolve(nodes, joints)
    ensures SameNames(nodes, r.nodes) && WellFormed(r.nodes) && ChildrenResolve(r.nodes, joints)
    ensures |r.made| == |JointsFrom(joints, nodes[queue[0]].name)|
    ensures r.next == queue[1..] + r.nodes[queue[0]].childNodes && InRange(r.nodes, r.next)
  {
    var u := queue[0];
    var v := Visit(joints, nodes, u);
    var next := queue[1..] + v.0[u].childNodes;
    assert InRange(v.0, next) by {
      forall i | 0 <= i < |next| ensures next[i] < |v.0| {
        if i >= |queue| - 1 {
          assert next[i] == v.0[u].childNodes[i - (|queue| - 1)];
        }
      }
    }
    PassResult(v.0, v.1, next)
  }

  /** A pass only appends child edges. */
  lemma PassGrows(joints: seq<UrdfJoint>, nodes: seq<BodyNode>, queue: seq<nat>)
    requires WellFormed(nodes) && InRange(nodes, queue) && queue != [] && ChildrenResolve(nodes, joints)
    ensures Grows(nodes, Pass(joints, nodes, queue).nodes)
  {
    var u := queue[0];
    var v := Visit(joints, nodes, u);
    assert v.0 == nodes[u := BodyNode(nodes[u].name, nodes[u].childNodes + Kids(nodes, JointsFrom(joints, nodes[u].name)))];
  }

  /**
   * Visiting a node does what the joint loop of the source does: calling
   * `createDartJoint` on each record whose parent link is the node's name,
   * in joint-map order.
   */
  lemma VisitIsCreateJoints(joints: seq<UrdfJoint>, nodes: seq<BodyNode>, u: nat)
    requires WellFormed(nodes) && u < |nodes| && ChildrenResolve(nodes, joints)
    requires FindNode(nodes, nodes[u].name) == Some(u)
    ensures AllResolve(nodes, JointsFrom(joints, nodes[u].name))
    ensures Visit(joints, nodes, u) == AddJoints(nodes, JointsFrom(joints, nodes[u].name))
  {
    var mine := JointsFrom(joints, nodes[u].name);
    assert HasName(nodes, nodes[u].name);
    AllResolveFiltered(nodes, joints, nodes[u].name);
    var v := Visit(joints, nodes, u);
    var linked := AddJoints(nodes, mine);
    forall k | 0 <= k < |mine| ensures v.1[k] == linked.1[k] {
      AddJointsRecords(nodes, mine, k);
    }
    forall i | 0 <= i < |nodes| ensures v.0[i] == linked.0[i] {
      AddJointsChildren(nodes, mine, i);
      ChildrenViaOwn(nodes, mine, u, i);
    }
    assert v.0 == linked.0 && v.1 == linked.1;
  }

  /** `Kids` of one more record: the child node of that record comes last. */
  lemma KidsSnoc(nodes: seq<BodyNode>, mine: seq<UrdfJoint>)
    requires AllResolve(nodes, mine) && mine != []
    ensures AllResolve(nodes, mine[..|mine| - 1])
    ensures Kids(nodes, mine)
         == Kids(nodes, mine[..|mine| - 1]) + [FindNode(nodes, mine[|mine| - 1].childLinkName).value]
  {
    AllResolvePrefix(nodes, mine, |mine| - 1);
    var init := mine[..|mine| - 1];
    var a := Kids(nodes, mine);
    var b := Kids(nodes, init) + [FindNode(nodes, mine[|mine| - 1].childLinkName).value];
    forall k | 0 <= k < |a| ensures a[k] == b[k] {
      if k < |init| {
        assert init[k] == mine[k];
      }
    }
  }

  /** Records that all have the parent `nodes[u]` attach children only to `u`, the ones `Kids` lists. */
  lemma {:induction false} ChildrenViaOwn(nodes: seq<BodyNode>, mine: seq<UrdfJoint>, u: nat, p: nat)
    requires AllResolve(nodes, mine) && u < |nodes| && FindNode(nodes, nodes[u].name) == Some(u)
    requires forall k :: 0 <= k < |mine| ==> mine[k].parentLinkName == nodes[u].name
    ensures ChildrenVia(nodes, mine, p) == if p == u then Kids(nodes, mine) else []
    decreases |mine|
  {
    if mine != [] {
      var init := mine[..|mine| - 1];
      var last := mine[|mine| - 1];
      KidsSnoc(nodes, mine);
      ChildrenViaOwn(nodes, init, u, p);
      assert FindNode(nodes, last.parentLinkName) == Some(u);
    }
  }

  /** The nodes added, joints created and final nodes of the loop, from `queue`, with `fuel` passes left. */
  function RobotBfs(joints: seq<UrdfJoint>, nodes: seq<BodyNode>, queue: seq<nat>, fuel: nat): (run: RobotRun)
    requires WellFormed(nodes) && InRange(nodes, queue) && ChildrenResolve(nodes, joints)
    ensures Grows(nodes, run.nodes) && WellFormed(run.nodes)
    ensures |run.order| <= fuel && InRange(nodes, run.order)
    decreases fuel
  {
    if queue == [] || fuel == 0 then RobotRun(nodes, [], [])
    else
      var p := Pass(joints, nodes, queue);
      var rest := RobotBfs(joints, p.nodes, p.next, fuel - 1);
      PassGrows(joints, nodes, queue);
      GrowsTrans(nodes, p.nodes, rest.nodes);
      RobotRun(rest.nodes, [queue[0]] + rest.order, p.made + rest.joints)
  }

  /** One pass leaves the final nodes of the run unchanged. */
  lemma PassKeepsFinalNodes(joints: seq<UrdfJoint>, nodes: seq<BodyNode>, queue: seq<nat>, fuel: nat, final: seq<BodyNode>)
    requires WellFormed(nodes) && InRange(nodes, queue) && queue != [] && ChildrenResolve(nodes, joints) && fuel > 0
    requires RobotBfs(joints, nodes, queue, fuel).nodes == final
    ensures var p := Pass(joints, nodes, queue); RobotBfs(joints, p.nodes, p.next, fuel - 1).nodes == final
  {
  }

  /** After one pass, the node it added and the rest of the run complete the order of the run. */
  lemma PassExtendsOrder(joints: seq<UrdfJoint>, nodes: seq<BodyNode>, queue: seq<nat>, fuel: nat,
                         done: seq<nat>, all: seq<nat>)
    requires WellFormed(nodes) && InRange(nodes, queue) && queue != [] && ChildrenResolve(nodes, joints) && fuel > 0
    requires done + RobotBfs(joints, nodes, queue, fuel).order == all
    ensures var p := Pass(joints, nodes, queue); (done + [queue[0]]) + RobotBfs(joints, p.nodes, p.next, fuel - 1).order == all
  {
    var p := Pass(joints, nodes, queue);
    var rest := RobotBfs(joints, p.nodes, p.next, fuel - 1);
    AppendAssoc(done, [queue[0]], rest.order);
  }

  /** After one pass, the joints it made and those of the rest of the run complete the joints of the run. */
  lemma PassExtendsJoints(joints: seq<UrdfJoint>, nodes: seq<BodyNode>, queue: seq<nat>, fuel: nat,
                          made: seq<Joint>, all: seq<Joint>)
    requires WellFormed(nodes) && InRange(nodes, queue) && queue != [] && ChildrenResolve(nodes, joints) && fuel > 0
    requires made + RobotBfs(joints, nodes, queue, fuel).joints == all
    ensures var p := Pass(joints, nodes, queue); (made + p.made) + RobotBfs(joints, p.nodes, p.next, fuel - 1).joints == all
  {
    var p := Pass(joints, nodes, queue);
    var rest := RobotBfs(joints, p.nodes, p.next, fuel - 1);
    AppendAssoc(made, p.made, rest.joints);
  }

  // ---- which joints are made, and in what order ---------------------------

  /** The joint records the loop turns into joints: for each node added, in order, those whose parent it is. */
  function JointsForEach(joints: seq<UrdfJoint>, nodes: seq<BodyNode>, order: seq<nat>): seq<UrdfJoint>
    requires InRange(nodes, order)
  {
    if order == [] then [] else JointsFrom(joints, nodes[order[0]].name) + JointsForEach(joints, nodes, order[1..])
  }

  /** The source records of a list of made joints (the root joint has none). */
  function Sources(made: seq<Joint>): seq<UrdfJoint>
    requires forall i :: 0 <= i < |made| ==> made[i].Joint?
  {
    seq(|made|, i requires 0 <= i < |made| && made[i].Joint? => made[i].source)
  }

  lemma {:induction false} SameNamesJointsForEach(joints: seq<UrdfJoint>, a: seq<BodyNode>, b: seq<BodyNode>, order: seq<nat>)
    requires SameNames(a, b) && InRange(a, order)
    ensures InRange(b, order)
    ensures JointsForEach(joints, a, order) == JointsForEach(joints, b, order)
    decreases |order|
  {
    if order != [] {
      SameNamesJointsForEach(joints, a, b, order[1..]);
    }
  }

  lemma OrderStep(joints: seq<UrdfJoint>, nodes: seq<BodyNode>, n1: seq<BodyNode>, u: nat,
                  mine: seq<UrdfJoint>, made: seq<Joint>, restOrder: seq<nat>, restMade: seq<Joint>)
    requires u < |nodes| && SameNames(nodes, n1) && InRange(n1, restOrder) && mine == JointsFrom(joints, nodes[u].name)
    requires |made| == |mine| && forall i :: 0 <= i < |made| ==> made[i].Joint? && made[i].source == mine[i]
    requires forall i :: 0 <= i < |restMade| ==> restMade[i].Joint?
    requires Sources(restMade) == JointsForEach(joints, n1, restOrder)
    ensures forall i :: 0 <= i < |made + restMade| ==> (made + restMade)[i].Joint?
    ensures Sources(made + restMade) == JointsForEach(joints, nodes, [u] + restOrder)
  {
    SameNamesJointsForEach(joints, n1, nodes, restOrder);
    assert Sources(made) == mine;
    assert Sources(made + restMade) == Sources(made) + Sources(restMade);
    assert ([u] + restOrder)[1..] == restOrder;
  }

  /** `made` holds no root joint and its records are, in order, those of the nodes of `order`. */
  predicate MadeInOrder(joints: seq<UrdfJoint>, nodes: seq<BodyNode>, order: seq<nat>, made: seq<Joint>)
  {
    InRange(nodes, order) && (forall i :: 0 <= i < |made| ==> made[i].Joint?) &&
    Sources(made) == JointsForEach(joints, nodes, order)
  }

  lemma PassOrder(joints: seq<UrdfJoint>, nodes: seq<BodyNode>, queue: seq<nat>, fuel: nat)
    requires WellFormed(nodes) && InRange(nodes, queue) && queue != [] && ChildrenResolve(nodes, joints) && fuel > 0
    requires var p := Pass(joints, nodes, queue);
      MadeInOrder(joints, p.nodes, RobotBfs(joints, p.nodes, p.next, fuel - 1).order,
                  RobotBfs(joints, p.nodes, p.next, fuel - 1).joints)
    ensures MadeInOrder(joints, nodes, RobotBfs(joints, nodes, queue, fuel).order, RobotBfs(joints, nodes, queue, fuel).joints)
  {
    var p := Pass(joints, nodes, queue);
    var rest := RobotBfs(joints, p.nodes, p.next, fuel - 1);
    var whole := RobotBfs(joints, nodes, queue, fuel);
    assert whole.order == [queue[0]] + rest.order && whole.joints == p.made + rest.joints;
    OrderStep(joints, nodes, p.nodes, queue[0], JointsFrom(joints, nodes[queue[0]].name), p.made, rest.order, rest.joints);
  }

  /**
   * The joints are created in the order their parents are taken from the
   * queue, and among one parent's joints in joint-map order; no root joint
   * is among them.
   */
  lemma {:induction false} RobotJointOrder(joints: seq<UrdfJoint>, nodes: seq<BodyNode>, queue: seq<nat>, fuel: nat)
    requires WellFormed(nodes) && InRange(nodes, queue) && ChildrenResolve(nodes, joints)
    ensures MadeInOrder(joints, nodes, RobotBfs(joints, nodes, queue, fuel).order, RobotBfs(joints, nodes, queue, fuel).joints)
    decreases fuel
  {
    if queue != [] && fuel != 0 {
      var p := Pass(joints, nodes, queue);
      RobotJointOrder(joints, p.nodes, p.next, fuel - 1);
      PassOrder(joints, nodes, queue, fuel);
    }
  }

  /** Some node added by the run is called `name`. */
  ghost predicate Dequeued(nodes: seq<BodyNode>, order: seq<nat>, name: string)
  {
    exists k :: 0 <= k < |order| && order[k] < |nodes| && nodes[order[k]].name == name
  }

  /** The records `JointsForEach` lists are exactly those whose parent is the name of an added node. */
  lemma {:induction false} JointsForEachMembers(joints: seq<UrdfJoint>, nodes: seq<BodyNode>, order: seq<nat>, j: UrdfJoint)
    requires InRange(nodes, order)
    ensures j in JointsForEach(joints, nodes, order) <==> j in joints && Dequeued(nodes, order, j.parentLinkName)
    decreases |order|
  {
    if order != [] {
      JointsForEachMembers(joints, nodes, order[1..], j);
      JointsFromMembers(joints, nodes[order[0]].name);
      if Dequeued(nodes, order, j.parentLinkName) && !Dequeued(nodes, order[1..], j.parentLinkName) {
        var k :| 0 <= k < |order| && order[k] < |nodes| && nodes[order[k]].name == j.parentLinkName;
        if k > 0 {
          assert order[1..][k - 1] == order[k];
        }
      }
      if Dequeued(nodes, order[1..], j.parentLinkName) {
        var k :| 0 <= k < |order[1..]| && order[1..][k] < |nodes| && nodes[order[1..][k]].name == j.parentLinkName;
        assert order[k + 1] == order[1..][k];
      }
    }
  }

  /** Some joint of `made` was created from the record `j`. */
  ghost predicate Created(made: seq<Joint>, j: UrdfJoint)
  {
    exists i :: 0 <= i < |made| && made[i].Joint? && made[i].source == j
  }

  /**
   * A joint record is turned into a joint exactly when its parent link is the
   * name of a node the run adds: a joint whose parent is never taken from the
   * queue is never created.
   */
  lemma RobotCreatesExactlyDequeuedJoints(joints: seq<UrdfJoint>, nodes: seq<BodyNode>, queue: seq<nat>, fuel: nat, j: UrdfJoint)
    requires WellFormed(nodes) && InRange(nodes, queue) && ChildrenResolve(nodes, joints)
    ensures Created(RobotBfs(joints, nodes, queue, fuel).joints, j)
        <==> j in joints && Dequeued(nodes, RobotBfs(joints, nodes, queue, fuel).order, j.parentLinkName)
  {
    var run := RobotBfs(joints, nodes, queue, fuel);
    RobotJointOrder(joints, nodes, queue, fuel);
    CreatedInOrder(joints, nodes, run.order, run.joints, j);
  }

  /** Joints made in the order of `order` come from exactly the records whose parent is an added node. */
  lemma CreatedInOrder(joints: seq<UrdfJoint>, nodes: seq<BodyNode>, order: seq<nat>, made: seq<Joint>, j: UrdfJoint)
    requires MadeInOrder(joints, nodes, order, made)
    ensures Created(made, j) <==> j in joints && Dequeued(nodes, order, j.parentLinkName)
  {
    JointsForEachMembers(joints, nodes, order, j);
    var src := Sources(made);
    if Created(made, j) {
      var i :| 0 <= i < |made| && made[i].Joint? && made[i].source == j;
      assert src[i] == j;
    }
    if j in src {
      var i :| 0 <= i < |src| && src[i] == j;
      assert made[i].source == j;
    }
  }

  // ---- parent before child ---------------------------------------------

  /**
   * Each node added is either the entry of the starting queue at its position
   * or a child of a node added before it.
   */
  ghost predicate FromQueue(nodes: seq<BodyNode>, queue: seq<nat>, order: seq<nat>)
  {
    forall k :: 0 <= k < |order| ==> (k < |queue| && order[k] == queue[k]) || HasEarlierParent(nodes, order, k)
  }

  lemma FromQueueStep(n1: seq<BodyNode>, final: seq<BodyNode>, queue: seq<nat>, next: seq<nat>, restOrder: seq<nat>)
    requires Grows(n1, final) && queue != [] && queue[0] < |n1|
    requires next == queue[1..] + n1[queue[0]].childNodes
    requires FromQueue(final, next, restOrder)
    ensures FromQueue(final, queue, [queue[0]] + restOrder)
  {
    var u := queue[0];
    var order := [u] + restOrder;
    forall k | 0 <= k < |order| ensures (k < |queue| && order[k] == queue[k]) || HasEarlierParent(final, order, k) {
      if k > 0 {
        assert order[k] == restOrder[k - 1];
        if k - 1 < |next| && restOrder[k - 1] == next[k - 1] {
          if k - 1 >= |queue| - 1 {
            assert next[k - 1] == n1[u].childNodes[k - 1 - (|queue| - 1)];
            assert n1[u].childNodes <= final[u].childNodes;
            assert order[0] == u;
            assert HasEarlierParent(final, order, k);
          }
        } else {
          assert HasEarlierParent(final, restOrder, k - 1);
          var j :| 0 <= j < k - 1 && restOrder[j] < |final| && restOrder[k - 1] in final[restOrder[j]].childNodes;
          assert order[j + 1] == restOrder[j];
        }
      }
    }
  }

  lemma {:induction false} RobotFromQueue(joints: seq<UrdfJoint>, nodes: seq<BodyNode>, queue: seq<nat>, fuel: nat)
    requires WellFormed(nodes) && InRange(nodes, queue) && ChildrenResolve(nodes, joints)
    ensures FromQueue(RobotBfs(joints, nodes, queue, fuel).nodes, queue, RobotBfs(joints, nodes, queue, fuel).order)
    decreases fuel
  {
    if queue != [] && fuel != 0 {
      var p := Pass(joints, nodes, queue);
      var rest := RobotBfs(joints, p.nodes, p.next, fuel - 1);
      RobotFromQueue(joints, p.nodes, p.next, fuel - 1);
      FromQueueStep(p.nodes, rest.nodes, queue, p.next, rest.order);
    }
  }

  /**
   * The robot pass adds the root first and every later node as a child (in
   * the final node graph) of a node added before it.
   */
  lemma RobotParentFirst(joints: seq<UrdfJoint>, nodes: seq<BodyNode>, root: nat, fuel: nat)
    requires WellFormed(nodes) && root < |nodes| && ChildrenResolve(nodes, joints) && fuel > 0
    ensures |RobotBfs(joints, nodes, [root], fuel).order| > 0
    ensures RobotBfs(joints, nodes, [root], fuel).order[0] == root
    ensures ParentFirst(RobotBfs(joints, nodes, [root], fuel).nodes, RobotBfs(joints, nodes, [root], fuel).order)
  {
    RobotFromQueue(joints, nodes, [root], fuel);
    var run := RobotBfs(joints, nodes, [root], fuel);
    forall k | 0 < k < |run.order| ensures HasEarlierParent(run.nodes, run.order, k) {
    }
  }

  /** `ChildrenVia` looks only at the names of the nodes. */
  lemma {:induction false} ChildrenViaByNames(a: seq<BodyNode>, b: seq<BodyNode>, joints: seq<UrdfJoint>, p: nat)
    requires SameNames(a, b) && AllResolve(a, joints)
    ensures AllResolve(b, joints) && ChildrenVia(a, joints, p) == ChildrenVia(b, joints, p)
    decreases |joints|
  {
    AllResolveByNames(a, b, joints);
    if joints != [] {
      var last := joints[|joints| - 1];
      AllResolvePrefix(a, joints, |joints| - 1);
      ChildrenViaByNames(a, b, joints[..|joints| - 1], p);
      FindNodeByNames(a, b, last.parentLinkName);
      FindNodeByNames(a, b, last.childLinkName);
    }
  }

  /**
   * When `getNode` finds node `u` under its own name, the children the
   * records attach to `u` come from the records whose parent link is that
   * name, the ones the robot loop selects when it dequeues `u`.
   */
  lemma {:induction false} ChildrenViaFiltered(nodes: seq<BodyNode>, joints: seq<UrdfJoint>, u: nat)
    requires AllResolve(nodes, joints) && u < |nodes| && FindNode(nodes, nodes[u].name) == Some(u)
    ensures AllResolve(nodes, JointsFrom(joints, nodes[u].name))
    ensures ChildrenVia(nodes, joints, u) == ChildrenVia(nodes, JointsFrom(joints, nodes[u].name), u)
    decreases |joints|
  {
    var name := nodes[u].name;
    forall k | 0 <= k < |joints| ensures ChildResolves(nodes, joints[k]) {
      assert Resolves(nodes, joints[k]);
    }
    assert HasName(nodes, name);
    AllResolveFiltered(nodes, joints, name);
    if joints != [] {
      var init := joints[..|joints| - 1];
      var last := joints[|joints| - 1];
      AllResolvePrefix(nodes, joints, |joints| - 1);
      ChildrenViaFiltered(nodes, init, u);
      var f := JointsFrom(init, name);
      assert Resolves(nodes, last);
      if last.parentLinkName == name {
        assert JointsFrom(joints, name) == f + [last];
        assert (f + [last])[..|f|] == f;
      } else {
        assert JointsFrom(joints, name) == f;
        assert FindNode(nodes, last.parentLinkName).value != u;
      }
    }
  }

  /**
   * Dequeuing `u` from nodes named as `n0` gives it the children that
   * attaching every record to `n0` gives it, when the names are distinct.
   */
  lemma KidsAreLinkedChildren(n0: seq<BodyNode>, nodes: seq<BodyNode>, joints: seq<UrdfJoint>, u: nat)
    requires UniqueNames(n0) && AllResolve(n0, joints) && SameNames(n0, nodes) && u < |nodes|
    ensures AllResolve(nodes, JointsFrom(joints, nodes[u].name))
    ensures Kids(nodes, JointsFrom(joints, nodes[u].name)) == ChildrenVia(n0, joints, u)
  {
    var name := nodes[u].name;
    assert n0[u].name == name;
    FindOwnName(n0, u);
    ChildrenViaFiltered(n0, joints, u);
    var mine := JointsFrom(joints, name);
    ChildrenViaByNames(n0, nodes, mine, u);
    FindNodeByNames(n0, nodes, name);
    ChildrenViaOwn(nodes, mine, u, u);
  }

  /** The nodes of `done` have the children they have in `linked`; the others have none yet. */
  predicate VisitedAs(nodes: seq<BodyNode>, linked: seq<BodyNode>, done: seq<nat>)
  {
    |nodes| == |linked| &&
    forall i :: 0 <= i < |nodes| ==> nodes[i].childNodes == if i in done then linked[i].childNodes else []
  }

  /** A node that appears once in `done + [u] + rest` is not in `done`. */
  lemma NotDoneYet(done: seq<nat>, u: nat, rest: seq<nat>)
    requires Distinct(done + [u] + rest)
    ensures u !in done
  {
    var s := done + [u] + rest;
    assert s[|done|] == u;
    forall i | 0 <= i < |done| ensures done[i] != u {
      assert s[i] == done[i];
      assert Apart(s, i, |done|);
    }
  }

  lemma VisitUnfold(joints: seq<UrdfJoint>, nodes: seq<BodyNode>, u: nat)
    requires WellFormed(nodes) && u < |nodes| && ChildrenResolve(nodes, joints)
    ensures AllResolve(nodes, JointsFrom(joints, nodes[u].name))
    ensures Visit(joints, nodes, u).0
         == nodes[u := BodyNode(nodes[u].name, nodes[u].childNodes + Kids(nodes, JointsFrom(joints, nodes[u].name)))]
  {
    assert HasName(nodes, nodes[u].name);
    AllResolveFiltered(nodes, joints, nodes[u].name);
  }

  /** Visiting a node that has no children yet gives it its children in the fully linked nodes. */
  lemma VisitAsLinked(joints: seq<UrdfJoint>, n0: seq<BodyNode>, nodes: seq<BodyNode>, u: nat)
    requires WellFormed(n0) && UniqueNames(n0) && AllResolve(n0, joints)
    requires WellFormed(nodes) && SameNames(n0, nodes) && u < |nodes| && ChildrenResolve(nodes, joints)
    requires n0[u].childNodes == [] && nodes[u].childNodes == []
    ensures Visit(joints, nodes, u).0 == nodes[u := BodyNode(nodes[u].name, AddJoints(n0, joints).0[u].childNodes)]
  {
    var mine := JointsFrom(joints, nodes[u].name);
    VisitUnfold(joints, nodes, u);
    KidsAreLinkedChildren(n0, nodes, joints, u);
    AddJointsChildren(n0, joints, u);
    var kids := Kids(nodes, mine);
    assert [] + kids == kids;
  }

  lemma PassUnfold(joints: seq<UrdfJoint>, nodes: seq<BodyNode>, queue: seq<nat>)
    requires WellFormed(nodes) && InRange(nodes, queue) && queue != [] && ChildrenResolve(nodes, joints)
    ensures Pass(joints, nodes, queue).nodes == Visit(joints, nodes, queue[0]).0
  {
  }

  /**
   * Dequeuing a node not visited before gives it its children in the fully
   * linked nodes, and queues the same nodes as the skeleton pass does.
   */
  lemma PassAsSkeleton(joints: seq<UrdfJoint>, n0: seq<BodyNode>, nodes: seq<BodyNode>, done: seq<nat>, queue: seq<nat>)
    requires WellFormed(n0) && UniqueNames(n0) && AllResolve(n0, joints)
    requires forall i :: 0 <= i < |n0| ==> n0[i].childNodes == []
    requires WellFormed(nodes) && SameNames(n0, nodes) && InRange(nodes, queue) && ChildrenResolve(nodes, joints)
    requires VisitedAs(nodes, AddJoints(n0, joints).0, done) && queue != [] && queue[0] !in done
    ensures var p := Pass(joints, nodes, queue); var linked := AddJoints(n0, joints).0;
      && p.next == queue[1..] + linked[queue[0]].childNodes
      && SameNames(n0, p.nodes)
      && VisitedAs(p.nodes, linked, done + [queue[0]])
  {
    var linked := AddJoints(n0, joints).0;
    var u := queue[0];
    var p := Pass(joints, nodes, queue);
    PassUnfold(joints, nodes, queue);
    VisitAsLinked(joints, n0, nodes, u);
    var n1 := nodes[u := BodyNode(nodes[u].name, linked[u].childNodes)];
    assert p.nodes == n1;
    SameNamesTrans(n0, nodes, p.nodes);
    VisitedAsStep(nodes, linked, done, u);
  }

  /** Giving node `u` its linked children after `done` has been visited is having visited `done + [u]`. */
  lemma VisitedAsStep(nodes: seq<BodyNode>, linked: seq<BodyNode>, done: seq<nat>, u: nat)
    requires VisitedAs(nodes, linked, done) && u < |nodes|
    ensures VisitedAs(nodes[u := BodyNode(nodes[u].name, linked[u].childNodes)], linked, done + [u])
  {
    var n1 := nodes[u := BodyNode(nodes[u].name, linked[u].childNodes)];
    forall i | 0 <= i < |n1|
      ensures n1[i].childNodes == if i in done + [u] then linked[i].childNodes else []
    {
      if i != u {
        assert (i in done + [u]) == (i in done);
      }
    }
  }

  lemma RobotBfsStop(joints: seq<UrdfJoint>, nodes: seq<BodyNode>, queue: seq<nat>, fuel: nat)
    requires WellFormed(nodes) && InRange(nodes, queue) && ChildrenResolve(nodes, joints)
    requires queue == [] || fuel == 0
    ensures RobotBfs(joints, nodes, queue, fuel).order == []
  {
  }

  lemma RobotBfsUnfold(joints: seq<UrdfJoint>, nodes: seq<BodyNode>, queue: seq<nat>, fuel: nat, rest: seq<nat>)
    requires WellFormed(nodes) && InRange(nodes, queue) && queue != [] && ChildrenResolve(nodes, joints) && fuel > 0
    requires var p := Pass(joints, nodes, queue); RobotBfs(joints, p.nodes, p.next, fuel - 1).order == rest
    ensures RobotBfs(joints, nodes, queue, fuel).order == [queue[0]] + rest
  {
  }

  /**
   * While no node is dequeued twice, the robot pass from `nodes`, which has
   * visited `done`, adds the nodes the skeleton pass adds over the fully
   * linked nodes.
   */
  lemma {:induction false} RobotBfsIsBfs(joints: seq<UrdfJoint>, n0: seq<BodyNode>, nodes: seq<BodyNode>,
                                         done: seq<nat>, queue: seq<nat>, fuel: nat)
    requires WellFormed(n0) && UniqueNames(n0) && AllResolve(n0, joints)
    requires forall i :: 0 <= i < |n0| ==> n0[i].childNodes == []
    requires WellFormed(nodes) && SameNames(n0, nodes) && InRange(nodes, queue) && ChildrenResolve(nodes, joints)
    requires VisitedAs(nodes, AddJoints(n0, joints).0, done)
    requires Distinct(done + Bfs(AddJoints(n0, joints).0, queue, fuel))
    ensures RobotBfs(joints, nodes, queue, fuel).order == Bfs(AddJoints(n0, joints).0, queue, fuel)
    decreases fuel
  {
    var linked := AddJoints(n0, joints).0;
    if queue != [] && fuel > 0 {
      var u := queue[0];
      BfsPass(linked, queue, fuel);
      var next := queue[1..] + linked[u].childNodes;
      var rest := Bfs(linked, next, fuel - 1);
      AppendAssoc(done, [u], rest);
      NotDoneYet(done, u, rest);
      PassAsSkeleton(joints, n0, nodes, done, queue);
      var p := Pass(joints, nodes, queue);
      RobotBfsIsBfs(joints, n0, p.nodes, done + [u], p.next, fuel - 1);
      RobotBfsUnfold(joints, nodes, queue, fuel, rest);
    } else {
      RobotBfsStop(joints, nodes, queue, fuel);
      assert Bfs(linked, queue, fuel) == [];
    }
  }

  /**
   * From the root, with nodes that have no children yet, the robot pass adds
   * the nodes the skeleton pass adds, when the linked part reachable from the
   * root is a tree.
   */
  lemma RobotBfsIsBfsFromRoot(joints: seq<UrdfJoint>, n0: seq<BodyNode>, root: nat)
    requires WellFormed(n0) && UniqueNames(n0) && AllResolve(n0, joints) && ChildrenResolve(n0, joints)
    requires forall i :: 0 <= i < |n0| ==> n0[i].childNodes == []
    requires root < |n0| && TreeFrom(AddJoints(n0, joints).0, root)
    ensures RobotBfs(joints, n0, [root], |n0|).order == Bfs(AddJoints(n0, joints).0, [root], |n0|)
  {
    var linked := AddJoints(n0, joints).0;
    BfsCoversReachable(linked, root);
    var order := Bfs(linked, [root], |linked|);
    assert [] + order == order;
    RobotBfsIsBfs(joints, n0, n0, [], [root], |n0|);
  }
}
