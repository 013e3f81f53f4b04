/**
 * Body nodes and joints as the loader builds them. A node is identified by
 * its index in the loader's node list `mNodes`; it carries the name of the
 * link it was made from and the indices of the nodes reached through its
 * child joints, in the order those joints were attached. Creating a joint
 * looks both endpoints up by name and appends the child to the parent's list.
 */
module Bodies {
  import opened Wrappers
  import opened Urdf

  /** Concatenation regroups; called where the solver would have to find the regrouping itself. */
  lemma AppendAssoc<T>(a: seq<T>, b: seq<T>, c: seq<T>)
    ensures (a + b) + c == a + (b + c)
  {
  }

  datatype BodyNode = BodyNode(name: string, childNodes: seq<nat>)

  /** A joint made from a URDF joint record, or the synthetic root joint. */
  datatype Joint =
    | Joint(source: UrdfJoint, parent: nat, child: nat)
    | RootJoint(child: nat, toDefaultRoot: bool)

  /** One fresh node per link, in link order, with no child joints yet. */
  function NodesOf(links: seq<Link>): (r: seq<BodyNode>)
    ensures |r| == |links| && WellFormed(r)
    ensures forall i :: 0 <= i < |r| ==> r[i].name == links[i].name && r[i].childNodes == []
  {
    seq(|links|, i requires 0 <= i < |links| => BodyNode(links[i].name, []))
  }

  /** The index of the first node called `name`, as `getNode` finds it. */
  function FindNode(nodes: seq<BodyNode>, name: string): (r: Option<nat>)
    ensures r.Some? ==> r.value < |nodes| && nodes[r.value].name == name
    ensures r.Some? ==> forall j :: 0 <= j < r.value ==> nodes[j].name != name
    ensures r.None? <==> forall j :: 0 <= j < |nodes| ==> nodes[j].name != name
  {
    FindFrom(nodes, name, 0)
  }

  function FindFrom(nodes: seq<BodyNode>, name: string, i: nat): (r: Option<nat>)
    requires i <= |nodes|
    requires forall j :: 0 <= j < i ==> nodes[j].name != name
    ensures r.Some? ==> i <= r.value < |nodes| && nodes[r.value].name == name
    ensures r.Some? ==> forall j :: 0 <= j < r.value ==> nodes[j].name != name
    ensures r.None? <==> forall j :: 0 <= j < |nodes| ==> nodes[j].name != name
    decreases |nodes| - i
  {
    if i == |nodes| then None
    else if nodes[i].name == name then Some(i)
    else FindFrom(nodes, name, i + 1)
  }

  /** Two node lists that agree on every node's name. */
  predicate SameNames(a: seq<BodyNode>, b: seq<BodyNode>)
  {
    |a| == |b| && forall i :: 0 <= i < |a| ==> a[i].name == b[i].name
  }

  /** Nodes `i` and `j` are called the same. */
  predicate SameNameAt(nodes: seq<BodyNode>, i: nat, j: nat)
    requires i < |nodes| && j < |nodes|
  {
    nodes[i].name == nodes[j].name
  }

  /**
   * No two nodes share a name (the links come from a map keyed by name).
   * The comparison is named so that the quantifier is used only where a
   * proof asks for it.
   */
  predicate UniqueNames(nodes: seq<BodyNode>)
  {
    forall i: nat, j: nat :: i < |nodes| && j < |nodes| && SameNameAt(nodes, i, j) ==> i == j
  }

  /** With unique names, looking a node's own name up finds that node. */
  lemma FindOwnName(nodes: seq<BodyNode>, i: nat)
    requires UniqueNames(nodes) && i < |nodes|
    ensures FindNode(nodes, nodes[i].name) == Some(i)
  {
    var r := FindNode(nodes, nodes[i].name);
    assert r.Some?;
    assert SameNameAt(nodes, r.value, i);
  }

  lemma SameNamesTrans(a: seq<BodyNode>, b: seq<BodyNode>, c: seq<BodyNode>)
    requires SameNames(a, b) && SameNames(b, c)
    ensures SameNames(a, c)
  {
  }

  /** Every child index names a node of the list. */
  predicate WellFormed(nodes: seq<BodyNode>)
  {
    forall i, k :: 0 <= i < |nodes| && 0 <= k < |nodes[i].childNodes| ==> nodes[i].childNodes[k] < |nodes|
  }

  /** Some node of the list is called `name`. */
  predicate HasName(nodes: seq<BodyNode>, name: string)
  {
    exists i :: 0 <= i < |nodes| && nodes[i].name == name
  }

  /** Both endpoints of `j` name some node, so both lookups succeed. */
  predicate Resolves(nodes: seq<BodyNode>, j: UrdfJoint)
  {
    HasName(nodes, j.parentLinkName) && HasName(nodes, j.childLinkName)
  }

  predicate AllResolve(nodes: seq<BodyNode>, joints: seq<UrdfJoint>)
  {
    forall k :: 0 <= k < |joints| ==> Resolves(nodes, joints[k])
  }

  /** Name lookup sees only names, so attaching joints does not change it. */
  lemma FindNodeByNames(a: seq<BodyNode>, b: seq<BodyNode>, name: string)
    requires SameNames(a, b)
    ensures FindNode(a, name) == FindNode(b, name)
  {
  }

  lemma AllResolveByNames(a: seq<BodyNode>, b: seq<BodyNode>, joints: seq<UrdfJoint>)
    requires SameNames(a, b) && AllResolve(a, joints)
    ensures AllResolve(b, joints)
  {
    forall k | 0 <= k < |joints| ensures Resolves(b, joints[k]) {
      FindNodeByNames(a, b, joints[k].parentLinkName);
      FindNodeByNames(a, b, joints[k].childLinkName);
    }
  }

  /** `createDartJoint`: the new joint, and the nodes with the edge attached. */
  function AddJoint(nodes: seq<BodyNode>, j: UrdfJoint): (r: (seq<BodyNode>, Joint))
    requires WellFormed(nodes) && Resolves(nodes, j)
    ensures SameNames(nodes, r.0) && WellFormed(r.0)
  {
    var p := FindNode(nodes, j.parentLinkName).value;
    var c := FindNode(nodes, j.childLinkName).value;
    (nodes[p := BodyNode(nodes[p].name, nodes[p].childNodes + [c])], Joint(j, p, c))
  }

  /**
   * The joints created from `joints` in order, and the nodes once all their
   * edges are attached (the joint-collection loop).
   */
  function AddJoints(nodes: seq<BodyNode>, joints: seq<UrdfJoint>): (r: (seq<BodyNode>, seq<Joint>))
    requires WellFormed(nodes) && AllResolve(nodes, joints)
    ensures SameNames(nodes, r.0) && WellFormed(r.0)
    ensures |r.1| == |joints|
    decreases |joints|
  {
    if joints == [] then (nodes, [])
    else
      var last := joints[|joints| - 1];
      var init := joints[..|joints| - 1];
      AllResolvePrefix(nodes, joints, |joints| - 1);
      var prev := AddJoints(nodes, init);
      assert Resolves(prev.0, last) by {
        assert Resolves(nodes, joints[|joints| - 1]);
        FindNodeByNames(nodes, prev.0, last.parentLinkName);
        FindNodeByNames(nodes, prev.0, last.childLinkName);
      }
      var step := AddJoint(prev.0, last);
      (step.0, prev.1 + [step.1])
  }

  /**
   * The k-th joint created is made from the k-th record and joins the first
   * nodes its endpoint names denote; earlier joints do not change the lookup.
   */
  lemma {:induction false} AddJointsRecords(nodes: seq<BodyNode>, joints: seq<UrdfJoint>, k: nat)
    requires WellFormed(nodes) && AllResolve(nodes, joints) && k < |joints|
    ensures AddJoints(nodes, joints).1[k] == Joint(joints[k],
                      FindNode(nodes, joints[k].parentLinkName).value,
                      FindNode(nodes, joints[k].childLinkName).value)
    decreases |joints|
  {
    var last := joints[|joints| - 1];
    var init := joints[..|joints| - 1];
    var prev := AddJoints(nodes, init);
    if k < |init| {
      AddJointsRecords(nodes, init, k);
      assert init[k] == joints[k];
    } else {
      FindNodeByNames(nodes, prev.0, last.parentLinkName);
      FindNodeByNames(nodes, prev.0, last.childLinkName);
    }
  }

  /** The child indices the joints of `joints` attach to node `p`, in joint order. */
  function ChildrenVia(nodes: seq<BodyNode>, joints: seq<UrdfJoint>, p: nat): seq<nat>
    requires AllResolve(nodes, joints)
    decreases |joints|
  {
    if joints == [] then []
    else
      var last := joints[|joints| - 1];
      ChildrenVia(nodes, joints[..|joints| - 1], p)
        + (if FindNode(nodes, last.parentLinkName).value == p
           then [FindNode(nodes, last.childLinkName).value] else [])
  }

  /**
   * After attaching `joints`, a node's child list is its old list followed by
   * the children of exactly those joints whose parent is that node, in joint
   * order; so siblings are enqueued in joint-map order.
   */
  lemma {:induction false} AddJointsChildren(nodes: seq<BodyNode>, joints: seq<UrdfJoint>, p: nat)
    requires WellFormed(nodes) && AllResolve(nodes, joints) && p < |nodes|
    ensures AddJoints(nodes, joints).0[p].childNodes == nodes[p].childNodes + ChildrenVia(nodes, joints, p)
    decreases |joints|
  {
    if joints != [] {
      var last := joints[|joints| - 1];
      var init := joints[..|joints| - 1];
      AllResolvePrefix(nodes, joints, |joints| - 1);
      var prev := AddJoints(nodes, init);
      AddJointsChildren(nodes, init, p);
      FindNodeByNames(nodes, prev.0, last.parentLinkName);
      FindNodeByNames(nodes, prev.0, last.childLinkName);
      AddJointAt(prev.0, last, p);
      var extra := if FindNode(nodes, last.parentLinkName).value == p
                   then [FindNode(nodes, last.childLinkName).value] else [];
      assert AddJoints(nodes, joints).0 == AddJoint(prev.0, last).0;
      assert ChildrenVia(nodes, joints, p) == ChildrenVia(nodes, init, p) + extra;
      AppendAssoc(nodes[p].childNodes, ChildrenVia(nodes, init, p), extra);
    }
  }

  lemma AllResolvePrefix(nodes: seq<BodyNode>, joints: seq<UrdfJoint>, n: nat)
    requires AllResolve(nodes, joints) && n <= |joints|
    ensures AllResolve(nodes, joints[..n])
  {
    forall k | 0 <= k < n ensures Resolves(nodes, joints[..n][k]) {
      assert joints[..n][k] == joints[k];
    }
  }

  lemma AddJointAt(nodes: seq<BodyNode>, j: UrdfJoint, p: nat)
    requires WellFormed(nodes) && Resolves(nodes, j) && p < |nodes|
    ensures AddJoint(nodes, j).0[p].childNodes == nodes[p].childNodes
      + (if FindNode(nodes, j.parentLinkName).value == p then [FindNode(nodes, j.childLinkName).value] else [])
  {
  }

  /** Attaching one more record: the joints attached so far, then `createDartJoint` on it. */
  lemma AddJointsSnoc(nodes: seq<BodyNode>, joints: seq<UrdfJoint>, j: UrdfJoint)
    requires WellFormed(nodes) && AllResolve(nodes, joints) && Resolves(nodes, j)
    ensures AllResolve(nodes, joints + [j])
    ensures Resolves(AddJoints(nodes, joints).0, j)
    ensures var prev := AddJoints(nodes, joints);
      AddJoints(nodes, joints + [j]) == (AddJoint(prev.0, j).0, prev.1 + [AddJoint(prev.0, j).1])
  {
    var all := joints + [j];
    assert all[..|joints|] == joints;
    assert forall k :: 0 <= k < |all| ==> all[k] == if k < |joints| then joints[k] else j;
    var prev := AddJoints(nodes, joints);
    FindNodeByNames(nodes, prev.0, j.parentLinkName);
    FindNodeByNames(nodes, prev.0, j.childLinkName);
  }

  /** `b` extends `a`: same names, and each child list of `a` is a prefix of `b`'s. */
  predicate Grows(a: seq<BodyNode>, b: seq<BodyNode>)
  {
    SameNames(a, b) && forall i :: 0 <= i < |a| ==> a[i].childNodes <= b[i].childNodes
  }

  lemma AddJointsGrows(nodes: seq<BodyNode>, joints: seq<UrdfJoint>)
    requires WellFormed(nodes) && AllResolve(nodes, joints)
    ensures Grows(nodes, AddJoints(nodes, joints).0)
  {
    forall p | 0 <= p < |nodes|
      ensures nodes[p].childNodes <= AddJoints(nodes, joints).0[p].childNodes
    {
      AddJointsChildren(nodes, joints, p);
    }
  }
}
