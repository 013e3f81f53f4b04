/**
 * The bounded breadth-first pass that `modelInterfaceToSkeleton` uses to add
 * body nodes "parents first": a FIFO queue seeded with the root; each pass
 * takes the front node, adds it, and queues its child nodes in child-joint
 * order; the loop stops when the queue is empty or after as many passes as
 * there are nodes. There is no visited set.
 */
module Traversal {
  import opened Bodies

  /** Every entry of `s` is the index of a node. */
  predicate InRange(nodes: seq<BodyNode>, s: seq<nat>)
  {
    forall i :: 0 <= i < |s| ==> s[i] < |nodes|
  }

  /** The nodes added by the loop, from `queue`, with `fuel` passes left. */
  function Bfs(nodes: seq<BodyNode>, queue: seq<nat>, fuel: nat): (order: seq<nat>)
    requires WellFormed(nodes) && InRange(nodes, queue)
    ensures |order| <= fuel && InRange(nodes, order)
    decreases fuel
  {
    if queue == [] || fuel == 0 then []
    else
      var next := queue[1..] + nodes[queue[0]].childNodes;
      assert InRange(nodes, next) by {
        forall i | 0 <= i < |next| ensures next[i] < |nodes| {
          if i >= |queue| - 1 {
            assert next[i] == nodes[queue[0]].childNodes[i - (|queue| - 1)];
          }
        }
      }
      [queue[0]] + Bfs(nodes, next, fuel - 1)
  }

  /** Everything queued by the passes that added `done`: their child lists, concatenated. */
  function Enqueued(nodes: seq<BodyNode>, done: seq<nat>): seq<nat>
    requires InRange(nodes, done)
    decreases |done|
  {
    if done == [] then []
    else Enqueued(nodes, done[..|done| - 1]) + nodes[done[|done| - 1]].childNodes
  }

  /** Entry `k` of `order` is a child of an entry before it. */
  ghost predicate HasEarlierParent(nodes: seq<BodyNode>, order: seq<nat>, k: nat)
    requires k < |order|
  {
    exists j :: 0 <= j < k && order[j] < |nodes| && order[k] in nodes[order[j]].childNodes
  }

  /** Each entry after the first is a child of an entry before it. */
  ghost predicate ParentFirst(nodes: seq<BodyNode>, order: seq<nat>)
  {
    forall k :: 0 < k < |order| ==> HasEarlierParent(nodes, order, k)
  }

  /** A chain of child edges. */
  ghost predicate IsPath(nodes: seq<BodyNode>, path: seq<nat>)
  {
    InRange(nodes, path) &&
    forall i :: 0 <= i < |path| - 1 ==> path[i] < |nodes| && path[i + 1] in nodes[path[i]].childNodes
  }

  ghost predicate Reachable(nodes: seq<BodyNode>, root: nat, x: nat)
  {
    exists path :: IsPath(nodes, path) && |path| > 0 && path[0] == root && path[|path| - 1] == x
  }

  /** Every child of a node of `s` is in `s`. */
  ghost predicate Closed(nodes: seq<BodyNode>, s: seq<nat>)
  {
    forall x, y :: x in s && x < |nodes| && y in nodes[x].childNodes ==> y in s
  }

  /** Entries `i` and `j` of `s` differ; named so that `Distinct` is used only where a proof asks. */
  predicate Apart(s: seq<nat>, i: nat, j: nat)
    requires i < |s| && j < |s|
  {
    s[i] != s[j]
  }

  /** No entry occurs twice. */
  ghost predicate Distinct(s: seq<nat>)
  {
    forall i: nat, j: nat :: i < j < |s| ==> Apart(s, i, j)
  }

  lemma DistinctPrefix(s: seq<nat>, n: nat)
    requires Distinct(s) && n <= |s|
    ensures Distinct(s[..n])
  {
    forall i: nat, j: nat | i < j < n ensures Apart(s[..n], i, j) {
      assert Apart(s, i, j);
    }
  }

  /**
   * The part of the child-joint graph reachable from `root` is a tree: no
   * reachable node has the root as a child, and no two child joints of
   * reachable nodes lead to the same node. Other links may be loose.
   */
  ghost predicate TreeFrom(nodes: seq<BodyNode>, root: nat)
  {
    WellFormed(nodes) && root < |nodes|
    && (forall p, k :: 0 <= p < |nodes| && Reachable(nodes, root, p) && 0 <= k < |nodes[p].childNodes| ==>
          nodes[p].childNodes[k] != root)
    && (forall p: nat, k: nat, q: nat, l: nat ::
          (p < |nodes| && k < |nodes[p].childNodes| && q < |nodes| && l < |nodes[q].childNodes| &&
           Reachable(nodes, root, p) && Reachable(nodes, root, q) && SameChild(nodes, p, k, q, l)) ==> p == q && k == l)
  }

  /**
   * The child-joint graph is a tree rooted at `root` that covers every node:
   * the reachable part is a tree, and every node is reachable from the root.
   */
  ghost predicate IsTree(nodes: seq<BodyNode>, root: nat)
  {
    TreeFrom(nodes, root) && forall x :: 0 <= x < |nodes| ==> Reachable(nodes, root, x)
  }

  /** Every entry of `s` is reachable from `root`. */
  ghost predicate AllReachable(nodes: seq<BodyNode>, root: nat, s: seq<nat>)
  {
    forall i :: 0 <= i < |s| ==> Reachable(nodes, root, s[i])
  }

  /**
   * Child `k` of node `p` is child `l` of node `q`. The comparison is named
   * so that the uniqueness quantifier above is used only where a proof asks.
   */
  predicate SameChild(nodes: seq<BodyNode>, p: nat, k: nat, q: nat, l: nat)
    requires p < |nodes| && k < |nodes[p].childNodes| && q < |nodes| && l < |nodes[q].childNodes|
  {
    nodes[p].childNodes[k] == nodes[q].childNodes[l]
  }

  // ---- facts about Enqueued -------------------------------------------------

  lemma EnqueuedSnoc(nodes: seq<BodyNode>, done: seq<nat>, u: nat)
    requires InRange(nodes, done) && u < |nodes|
    ensures InRange(nodes, done + [u])
    ensures Enqueued(nodes, done + [u]) == Enqueued(nodes, done) + nodes[u].childNodes
  {
    assert (done + [u])[..|done|] == done;
  }

  /** Every queued entry is some child of some added node. */
  lemma {:induction false} EnqueuedSource(nodes: seq<BodyNode>, done: seq<nat>, i: nat)
    requires InRange(nodes, done) && i < |Enqueued(nodes, done)|
    ensures exists j, k :: 0 <= j < |done| && 0 <= k < |nodes[done[j]].childNodes|
                           && nodes[done[j]].childNodes[k] == Enqueued(nodes, done)[i]
    decreases |done|
  {
    var m := |done| - 1;
    var init := done[..m];
    assert InRange(nodes, init);
    var prev := Enqueued(nodes, init);
    if i < |prev| {
      EnqueuedSource(nodes, init, i);
      var j, k :| 0 <= j < |init| && 0 <= k < |nodes[init[j]].childNodes|
                  && nodes[init[j]].childNodes[k] == prev[i];
      assert done[j] == init[j];
    } else {
      assert nodes[done[m]].childNodes[i - |prev|] == Enqueued(nodes, done)[i];
    }
  }

  /** Every child of every added node is queued. */
  lemma {:induction false} EnqueuedHas(nodes: seq<BodyNode>, done: seq<nat>, j: nat, k: nat)
    requires InRange(nodes, done) && j < |done| && k < |nodes[done[j]].childNodes|
    ensures nodes[done[j]].childNodes[k] in Enqueued(nodes, done)
    decreases |done|
  {
    var m := |done| - 1;
    var init := done[..m];
    assert InRange(nodes, init);
    if j < m {
      EnqueuedHas(nodes, init, j, k);
      assert done[j] == init[j];
    } else {
      assert Enqueued(nodes, done) == Enqueued(nodes, init) + nodes[done[j]].childNodes;
    }
  }

  // ---- the queue discipline -------------------------------------------------

  /** One pass keeps "added + queue == root + everything queued by the added nodes". */
  lemma BfsStep(nodes: seq<BodyNode>, root: nat, done: seq<nat>, queue: seq<nat>)
    requires WellFormed(nodes) && InRange(nodes, done) && InRange(nodes, queue) && queue != []
    requires done + queue == [root] + Enqueued(nodes, done)
    ensures InRange(nodes, done + [queue[0]])
    ensures InRange(nodes, queue[1..] + nodes[queue[0]].childNodes)
    ensures done + [queue[0]] + (queue[1..] + nodes[queue[0]].childNodes)
            == [root] + Enqueued(nodes, done + [queue[0]])
  {
    var u := queue[0];
    var next := queue[1..] + nodes[u].childNodes;
    var done' := done + [u];
    var kids := nodes[u].childNodes;
    EnqueuedSnoc(nodes, done, u);
    assert queue == [u] + queue[1..];
    AppendAssoc(done, [u], next);
    AppendAssoc([u], queue[1..], kids);
    AppendAssoc(done, queue, kids);
    AppendAssoc([root], Enqueued(nodes, done), kids);
    assert InRange(nodes, next) by {
      forall i | 0 <= i < |next| ensures next[i] < |nodes| {
        if i >= |queue| - 1 {
          assert next[i] == nodes[u].childNodes[i - (|queue| - 1)];
        }
      }
    }
  }

  /** One pass: the front node is added and the run goes on from the new queue. */
  lemma BfsPass(nodes: seq<BodyNode>, queue: seq<nat>, fuel: nat)
    requires WellFormed(nodes) && InRange(nodes, queue) && queue != [] && fuel > 0
    ensures InRange(nodes, queue[1..] + nodes[queue[0]].childNodes)
    ensures Bfs(nodes, queue, fuel) == [queue[0]] + Bfs(nodes, queue[1..] + nodes[queue[0]].childNodes, fuel - 1)
  {
  }

  /** The node a pass adds is the root or a child of a node added before it. */
  lemma ParentFirstStep(nodes: seq<BodyNode>, root: nat, done: seq<nat>, queue: seq<nat>)
    requires WellFormed(nodes) && InRange(nodes, done) && InRange(nodes, queue) && queue != []
    requires done + queue == [root] + Enqueued(nodes, done)
    requires ParentFirst(nodes, done)
    ensures ParentFirst(nodes, done + [queue[0]])
  {
    var u := queue[0];
    var done' := done + [u];
    if done != [] {
      assert Enqueued(nodes, done)[|done| - 1] == u by {
        assert ([root] + Enqueued(nodes, done))[|done|] == (done + queue)[|done|];
      }
      EnqueuedSource(nodes, done, |done| - 1);
    }
    forall k | 0 < k < |done'| ensures HasEarlierParent(nodes, done', k) {
      if k < |done| {
        assert HasEarlierParent(nodes, done, k);
        var j :| 0 <= j < k && done[j] < |nodes| && done[k] in nodes[done[j]].childNodes;
        assert done'[j] == done[j] && done'[k] == done[k];
      } else {
        var j, i :| 0 <= j < |done| && 0 <= i < |nodes[done[j]].childNodes|
                    && nodes[done[j]].childNodes[i] == Enqueued(nodes, done)[|done| - 1];
        assert done'[j] == done[j];
      }
    }
  }

  /** The shape of the run after `done`, from that of the run after its first pass. */
  lemma ShapeUnfold(nodes: seq<BodyNode>, root: nat, done: seq<nat>, queue: seq<nat>, fuel: nat)
    requires WellFormed(nodes) && InRange(nodes, queue) && queue != [] && fuel > 0
    requires InRange(nodes, queue[1..] + nodes[queue[0]].childNodes)
    requires var order := done + [queue[0]] + Bfs(nodes, queue[1..] + nodes[queue[0]].childNodes, fuel - 1);
      && InRange(nodes, order)
      && order <= [root] + Enqueued(nodes, order)
      && ParentFirst(nodes, order)
      && (|Bfs(nodes, queue[1..] + nodes[queue[0]].childNodes, fuel - 1)| < fuel - 1 ==>
            order == [root] + Enqueued(nodes, order))
    ensures InRange(nodes, done + Bfs(nodes, queue, fuel))
    ensures done + Bfs(nodes, queue, fuel) <= [root] + Enqueued(nodes, done + Bfs(nodes, queue, fuel))
    ensures ParentFirst(nodes, done + Bfs(nodes, queue, fuel))
    ensures |Bfs(nodes, queue, fuel)| < fuel ==>
      done + Bfs(nodes, queue, fuel) == [root] + Enqueued(nodes, done + Bfs(nodes, queue, fuel))
  {
    var rest := Bfs(nodes, queue[1..] + nodes[queue[0]].childNodes, fuel - 1);
    assert Bfs(nodes, queue, fuel) == [queue[0]] + rest;
    AppendAssoc(done, [queue[0]], rest);
  }

  /**
   * The loop invariant of the pass, as a statement about the rest of the run:
   * if what has been added followed by the queue is the root followed by all
   * that the added nodes queued, the run from here keeps that shape.
   */
  lemma {:induction false} BfsFrom(nodes: seq<BodyNode>, root: nat, done: seq<nat>, queue: seq<nat>, fuel: nat)
    requires WellFormed(nodes) && InRange(nodes, done) && InRange(nodes, queue)
    requires done + queue == [root] + Enqueued(nodes, done)
    requires ParentFirst(nodes, done)
    ensures InRange(nodes, done + Bfs(nodes, queue, fuel))
    ensures done + Bfs(nodes, queue, fuel) <= [root] + Enqueued(nodes, done + Bfs(nodes, queue, fuel))
    ensures ParentFirst(nodes, done + Bfs(nodes, queue, fuel))
    ensures |Bfs(nodes, queue, fuel)| < fuel ==>
      done + Bfs(nodes, queue, fuel) == [root] + Enqueued(nodes, done + Bfs(nodes, queue, fuel))
    decreases fuel
  {
    var tail := Bfs(nodes, queue, fuel);
    if queue == [] || fuel == 0 {
      assert tail == [];
      assert done + tail == done == (done + queue)[..|done|];
    } else {
      var u := queue[0];
      var next := queue[1..] + nodes[u].childNodes;
      var done' := done + [u];
      BfsStep(nodes, root, done, queue);
      ParentFirstStep(nodes, root, done, queue);
      BfsFrom(nodes, root, done', next, fuel - 1);
      ShapeUnfold(nodes, root, done, queue, fuel);
    }
  }

  /**
   * The pass is first-in first-out: the k-th node added is the k-th node
   * queued (the root, then the children of the added nodes in the order they
   * were added); when the run stops before the bound, the queue was empty.
   */
  lemma BfsIsFifo(nodes: seq<BodyNode>, root: nat, fuel: nat)
    requires WellFormed(nodes) && root < |nodes|
    ensures Bfs(nodes, [root], fuel) <= [root] + Enqueued(nodes, Bfs(nodes, [root], fuel))
    ensures |Bfs(nodes, [root], fuel)| < fuel ==>
      Bfs(nodes, [root], fuel) == [root] + Enqueued(nodes, Bfs(nodes, [root], fuel))
  {
    BfsFrom(nodes, root, [], [root], fuel);
    assert [] + Bfs(nodes, [root], fuel) == Bfs(nodes, [root], fuel);
  }

  /** The root is added first, and every later node is a child of one added earlier. */
  lemma BfsParentFirst(nodes: seq<BodyNode>, root: nat, fuel: nat)
    requires WellFormed(nodes) && root < |nodes| && fuel > 0
    ensures |Bfs(nodes, [root], fuel)| > 0 && Bfs(nodes, [root], fuel)[0] == root
    ensures ParentFirst(nodes, Bfs(nodes, [root], fuel))
  {
    BfsFrom(nodes, root, [], [root], fuel);
    assert [] + Bfs(nodes, [root], fuel) == Bfs(nodes, [root], fuel);
  }

  // ---- reachability ---------------------------------------------------------

  lemma ExtendPath(nodes: seq<BodyNode>, root: nat, x: nat, y: nat)
    requires WellFormed(nodes) && x < |nodes| && Reachable(nodes, root, x) && y in nodes[x].childNodes
    ensures Reachable(nodes, root, y)
  {
    var path :| IsPath(nodes, path) && |path| > 0 && path[0] == root && path[|path| - 1] == x;
    var path' := path + [y];
    assert IsPath(nodes, path') by {
      var k :| 0 <= k < |nodes[x].childNodes| && nodes[x].childNodes[k] == y;
    }
  }

  lemma {:induction false} ParentFirstReachable(nodes: seq<BodyNode>, root: nat, order: seq<nat>, k: nat)
    requires WellFormed(nodes) && InRange(nodes, order) && |order| > 0 && order[0] == root
    requires ParentFirst(nodes, order) && k < |order|
    ensures Reachable(nodes, root, order[k])
    decreases k
  {
    if k == 0 {
      assert IsPath(nodes, [root]);
    } else {
      assert HasEarlierParent(nodes, order, k);
      var j :| 0 <= j < k && order[j] < |nodes| && order[k] in nodes[order[j]].childNodes;
      ParentFirstReachable(nodes, root, order, j);
      ExtendPath(nodes, root, order[j], order[k]);
    }
  }

  lemma ClosedContainsReachable(nodes: seq<BodyNode>, root: nat, s: seq<nat>, x: nat)
    requires WellFormed(nodes) && root in s && Closed(nodes, s) && Reachable(nodes, root, x)
    ensures x in s
  {
    var path :| IsPath(nodes, path) && |path| > 0 && path[0] == root && path[|path| - 1] == x;
    var i := 0;
    while i < |path| - 1
      invariant 0 <= i < |path| && path[i] in s
    {
      assert path[i] < |nodes| && path[i + 1] in nodes[path[i]].childNodes;
      i := i + 1;
    }
  }

  lemma QueueClosed(nodes: seq<BodyNode>, root: nat, s: seq<nat>)
    requires InRange(nodes, s) && s == [root] + Enqueued(nodes, s)
    ensures Closed(nodes, s)
  {
    forall x, y | x in s && x < |nodes| && y in nodes[x].childNodes ensures y in s {
      var j :| 0 <= j < |s| && s[j] == x;
      var k :| 0 <= k < |nodes[x].childNodes| && nodes[x].childNodes[k] == y;
      EnqueuedHas(nodes, s, j, k);
    }
  }

  /**
   * Every node added is reachable from the root; and when the pass stops
   * before the bound (the queue ran empty, with no error raised), it added
   * exactly the nodes reachable from the root.
   */
  lemma BfsReachable(nodes: seq<BodyNode>, root: nat, fuel: nat)
    requires WellFormed(nodes) && root < |nodes| && fuel > 0
    ensures forall x :: x in Bfs(nodes, [root], fuel) ==> Reachable(nodes, root, x)
    ensures |Bfs(nodes, [root], fuel)| < fuel ==>
      forall x :: Reachable(nodes, root, x) ==> x in Bfs(nodes, [root], fuel)
  {
    var order := Bfs(nodes, [root], fuel);
    BfsParentFirst(nodes, root, fuel);
    forall x | x in order ensures Reachable(nodes, root, x) {
      var k :| 0 <= k < |order| && order[k] == x;
      ParentFirstReachable(nodes, root, order, k);
    }
    if |order| < fuel {
      BfsIsFifo(nodes, root, fuel);
      QueueClosed(nodes, root, order);
      forall x | Reachable(nodes, root, x) ensures x in order {
        ClosedContainsReachable(nodes, root, order, x);
      }
    }
  }

  // ---- trees ----------------------------------------------------------------

  lemma {:induction false} EnqueuedDistinct(nodes: seq<BodyNode>, root: nat, done: seq<nat>)
    requires TreeFrom(nodes, root) && InRange(nodes, done) && Distinct(done) && AllReachable(nodes, root, done)
    ensures Distinct([root] + Enqueued(nodes, done))
    decreases |done|
  {
    if done != [] {
      var m := |done| - 1;
      var init := done[..m];
      var x := done[m];
      assert InRange(nodes, init);
      assert Reachable(nodes, root, x);
      assert AllReachable(nodes, root, init) by {
        forall i | 0 <= i < |init| ensures Reachable(nodes, root, init[i]) {
          assert init[i] == done[i];
        }
      }
      DistinctPrefix(done, m);
      EnqueuedDistinct(nodes, root, init);
      var S := [root] + Enqueued(nodes, init);
      var C := nodes[x].childNodes;
      assert [root] + Enqueued(nodes, done) == S + C;
      forall a: nat, b: nat | a < b < |S + C| ensures Apart(S + C, a, b) {
        if b < |S| {
          assert (S + C)[a] == S[a] && (S + C)[b] == S[b] && Apart(S, a, b);
        } else if a >= |S| {
          assert !SameChild(nodes, x, a - |S|, x, b - |S|);
        } else if a == 0 {
          assert C[b - |S|] != root;
        } else {
          EnqueuedSource(nodes, init, a - 1);
          var j, k :| 0 <= j < |init| && 0 <= k < |nodes[init[j]].childNodes|
                      && nodes[init[j]].childNodes[k] == Enqueued(nodes, init)[a - 1];
          assert init[j] == done[j] && Apart(done, j, m);
          assert Reachable(nodes, root, done[j]);
          assert !SameChild(nodes, init[j], k, x, b - |S|);
        }
      }
    }
  }

  /** On a tree, the node a pass adds has not been added before. */
  lemma DistinctStep(nodes: seq<BodyNode>, root: nat, done: seq<nat>, queue: seq<nat>)
    requires TreeFrom(nodes, root) && InRange(nodes, done) && queue != [] && AllReachable(nodes, root, done)
    requires done + queue == [root] + Enqueued(nodes, done) && Distinct(done)
    ensures Distinct(done + [queue[0]])
  {
    EnqueuedDistinct(nodes, root, done);
    assert done + [queue[0]] == (done + queue)[..|done| + 1];
    DistinctPrefix(done + queue, |done| + 1);
  }

  /** Distinctness of the run after `done`, from that of the run after its first pass. */
  lemma DistinctUnfold(nodes: seq<BodyNode>, done: seq<nat>, queue: seq<nat>, fuel: nat)
    requires WellFormed(nodes) && InRange(nodes, queue) && queue != [] && fuel > 0
    requires InRange(nodes, queue[1..] + nodes[queue[0]].childNodes)
    requires Distinct(done + [queue[0]] + Bfs(nodes, queue[1..] + nodes[queue[0]].childNodes, fuel - 1))
    ensures Distinct(done + Bfs(nodes, queue, fuel))
  {
    var rest := Bfs(nodes, queue[1..] + nodes[queue[0]].childNodes, fuel - 1);
    assert Bfs(nodes, queue, fuel) == [queue[0]] + rest;
    AppendAssoc(done, [queue[0]], rest);
  }

  /** The node a pass adds is reachable when the nodes added before it are. */
  lemma ReachableStep(nodes: seq<BodyNode>, root: nat, done: seq<nat>, queue: seq<nat>)
    requires WellFormed(nodes) && root < |nodes| && InRange(nodes, done) && InRange(nodes, queue) && queue != []
    requires done + queue == [root] + Enqueued(nodes, done) && AllReachable(nodes, root, done)
    ensures AllReachable(nodes, root, done + [queue[0]])
  {
    var u := queue[0];
    if done == [] {
      assert (done + queue)[0] == ([root] + Enqueued(nodes, done))[0];
      assert IsPath(nodes, [root]);
    } else {
      assert Enqueued(nodes, done)[|done| - 1] == u by {
        assert ([root] + Enqueued(nodes, done))[|done|] == (done + queue)[|done|];
      }
      EnqueuedSource(nodes, done, |done| - 1);
      var j, k :| 0 <= j < |done| && 0 <= k < |nodes[done[j]].childNodes|
                  && nodes[done[j]].childNodes[k] == u;
      assert Reachable(nodes, root, done[j]);
      ExtendPath(nodes, root, done[j], u);
    }
    forall i | 0 <= i < |done| + 1 ensures Reachable(nodes, root, (done + [u])[i]) {
      if i < |done| {
        assert (done + [u])[i] == done[i];
      }
    }
  }

  lemma {:induction false} BfsDistinctFrom(nodes: seq<BodyNode>, root: nat, done: seq<nat>, queue: seq<nat>, fuel: nat)
    requires TreeFrom(nodes, root) && InRange(nodes, done) && InRange(nodes, queue) && AllReachable(nodes, root, done)
    requires done + queue == [root] + Enqueued(nodes, done) && Distinct(done)
    ensures Distinct(done + Bfs(nodes, queue, fuel))
    decreases fuel
  {
    if queue == [] || fuel == 0 {
      assert done + Bfs(nodes, queue, fuel) == done;
    } else {
      var u := queue[0];
      var next := queue[1..] + nodes[u].childNodes;
      BfsStep(nodes, root, done, queue);
      DistinctStep(nodes, root, done, queue);
      ReachableStep(nodes, root, done, queue);
      BfsDistinctFrom(nodes, root, done + [u], next, fuel - 1);
      DistinctUnfold(nodes, done, queue, fuel);
    }
  }

  /** The set of entries of `s`. */
  function Elems(s: seq<nat>): set<nat>
  {
    set x | x in s
  }

  lemma {:induction false} DistinctCard(s: seq<nat>)
    requires Distinct(s)
    ensures |Elems(s)| == |s|
    decreases |s|
  {
    if s != [] {
      var init := s[..|s| - 1];
      DistinctPrefix(s, |s| - 1);
      DistinctCard(init);
      assert Elems(s) == Elems(init) + {s[|s| - 1]};
      forall i | 0 <= i < |init| ensures init[i] != s[|s| - 1] {
        assert init[i] == s[i] && Apart(s, i, |s| - 1);
      }
      assert s[|s| - 1] !in Elems(init);
    }
  }

  /** The node indices 0, 1, ..., n - 1 in order. */
  function Ids(n: nat): (ids: seq<nat>)
    ensures |ids| == n && forall i :: 0 <= i < n ==> ids[i] == i
  {
    seq(n, i requires 0 <= i < n => i)
  }

  lemma SubsetCard<T>(a: set<T>, b: set<T>)
    requires a <= b
    ensures |b - a| == |b| - |a|
  {
    assert b == (b - a) + a;
    assert (b - a) * a == {};
  }

  /** A duplicate-free sequence of node indices with as many entries as nodes holds them all, and conversely. */
  lemma Pigeonhole(order: seq<nat>, n: nat)
    requires Distinct(order) && (forall i :: 0 <= i < |order| ==> order[i] < n)
    ensures |order| <= n
    ensures |order| == n <==> forall x :: 0 <= x < n ==> x in order
  {
    var S := Elems(order);
    var R := Elems(Ids(n));
    DistinctCard(order);
    DistinctCard(Ids(n));
    assert S <= R by {
      forall x | x in S ensures x in R {
        assert Ids(n)[x] == x;
      }
    }
    SubsetCard(S, R);
    if |order| == n {
      assert R - S == {};
      forall x | 0 <= x < n ensures x in order {
        assert Ids(n)[x] == x && x in R;
      }
    }
    if forall x :: 0 <= x < n ==> x in order {
      assert R <= S;
      SubsetCard(R, S);
    }
  }

  /**
   * When the part of the child graph reachable from the root is a tree, the
   * pass adds each reachable node exactly once and nothing else; so it adds
   * fewer nodes than there are exactly when some link is unreachable, and
   * then it stops on an empty queue without an error.
   */
  lemma BfsCoversReachable(nodes: seq<BodyNode>, root: nat)
    requires TreeFrom(nodes, root)
    ensures Distinct(Bfs(nodes, [root], |nodes|))
    ensures forall x :: x in Bfs(nodes, [root], |nodes|) <==> 0 <= x < |nodes| && Reachable(nodes, root, x)
    ensures |Bfs(nodes, [root], |nodes|)| < |nodes| <==> exists x :: 0 <= x < |nodes| && !Reachable(nodes, root, x)
  {
    var n := |nodes|;
    var order := Bfs(nodes, [root], n);
    BfsDistinctFrom(nodes, root, [], [root], n);
    assert [] + order == order;
    Pigeonhole(order, n);
    BfsReachable(nodes, root, n);
    forall x | x in order ensures 0 <= x < n {
      var i :| 0 <= i < |order| && order[i] == x;
    }
    if |order| < n {
      var x :| 0 <= x < n && x !in order;
      assert !Reachable(nodes, root, x);
    }
  }

  /**
   * When the child graph is a tree rooted at `root` covering every node, the
   * pass adds every node exactly once: its output is a permutation of the
   * node indices.
   */
  lemma BfsCoversTree(nodes: seq<BodyNode>, root: nat)
    requires IsTree(nodes, root)
    ensures |Bfs(nodes, [root], |nodes|)| == |nodes|
    ensures Distinct(Bfs(nodes, [root], |nodes|))
    ensures forall x :: 0 <= x < |nodes| ==> x in Bfs(nodes, [root], |nodes|)
  {
    BfsCoversReachable(nodes, root);
  }
}
