# DartLoader: from a URDF model to ordered body nodes and joints

This project models the core of the DART URDF loader (`DartLoader.cpp`). The
loader takes a parsed URDF model: a map of links and a map of joints, where
each joint names its parent link and its child link. It turns the model into
a DART skeleton, robot or object. To do so it fills two member vectors,
`mNodes` (one body node per link) and `mJoints`, and adds the body nodes to
the result in a fixed order. For the skeleton and the object, `mJoints`
holds one joint per joint record plus a root joint. For the robot, it holds
a root joint and then, each time a node is taken from the queue, one joint
per record whose parent link is that node. The orders are:

- the **skeleton** adds the nodes in a bounded breadth-first pass from the
  root node;
- the **robot** uses the same pass, but creates a node's joints only when
  that node is taken from the queue;
- the **object** adds the root node, then every other node in `mNodes`
  order.

`parseWorld` first normalises the world file's path and keeps its directory
as the base path. It then builds every object model and every robot model of
the parsed world.

The model works in the following terms:

- A body node is identified by its index in `mNodes`. It carries its link's
  name and the indices of its child nodes, in the order their joints were
  attached (`Bodies.BodyNode`).
- `createDartJoint` looks both endpoints up with `getNode` and appends the
  child to the parent's child list (`Bodies.AddJoint`).
- `createDartRootJoint` makes a `RootJoint` at the root node. Its flag says
  whether it hangs from the default root node.
- The loader itself is a class, `Loader.DartLoader`, with the fields
  `mNodes`, `mJoints`, `mWorldPath` and `mPath`. Each of its methods is
  proved against a function that says what it computes:
  - `Bodies.FindNode` and `Bodies.AddJoints`;
  - `Traversal.Bfs` and `RobotTraversal.RobotBfs`;
  - `Assembly.SkeletonOf`, `Assembly.RobotOf` and `Assembly.ObjectOf`;
  - `WorldPath.DirPrefix`.
- The properties the loader promises are proved as lemmas about these
  functions.

The modules follow the structure of the loader:

| module | models |
|---|---|
| `Urdf` | the parsed model the loader reads |
| `Bodies` | nodes, lookup and joint creation |
| `Traversal` | the skeleton's pass |
| `RobotTraversal` | the robot's pass |
| `Assembly` | the three builders, as functions of the model |
| `WorldPath` | the path split |
| `Loader` | the loader class |

A parsed model's links and joints come from `std::map`s keyed by name. The
model's sequences stand for the order in which the loader iterates those
maps. The model does not assume that link names are distinct in general.
Only the robot path assumes it (`UniqueNames`, in `Assembly.RobotBuildable`
and in the loader's `RobotPass` and `RobotPushParentsFirst`), because the
robot pass matches joints to the dequeued node by name.

Two behaviours of the code matter for what the model promises:

- **Unreachable links.** The loader raises no error for links unreachable
  from the root: the skeleton's and the robot's pass stop when the queue
  runs empty. `Assembly.SkeletonOrder` proves that in that case exactly the
  reachable nodes were added, and that when the reachable part is a tree,
  the pass adds fewer nodes than there are links exactly when some link is
  unreachable.
- **Unresolvable names.** The code does not check joint endpoints or the
  root link before using what `getNode` returns. The builders therefore
  require them to resolve: `Assembly.Buildable` for the skeleton and object
  builders, which hand every record to `createDartJoint`, and
  `Assembly.RobotBuildable` for the robot builder, which hands over only the
  records whose parent link is a dequeued node.
- **Lazy joints.** The robot creates a node's joints only when it takes
  the node from the queue, so the child lists it reads are built during the
  pass. `Assembly.RobotOrderIsSkeletonOrder` proves that when the part
  reachable from the root is a tree, the robot still adds the same nodes in
  the same order as the skeleton.

## Model

| member | source | states |
|---|---|---|
| Bodies.FindNode | src/utils/Parser/dart_parser/DartLoader.cpp:334-344 | a found index holds a node with the name and every earlier node has another name; nothing is found exactly when no node has the name |
| Bodies.FindFrom | src/utils/Parser/dart_parser/DartLoader.cpp:336-343 | the scan from position `i` onwards finds the first node with the name at or after `i`, or nothing exactly when no node has it |
| Bodies.FindOwnName | src/utils/Parser/dart_parser/DartLoader.cpp:334-344 | with distinct names (map keys), looking up a node's own name finds that node |
| Bodies.FindNodeByNames | src/utils/Parser/dart_parser/DartLoader.cpp:334-344 | the lookup depends only on the node names, so attaching joints never changes what it returns |
| Bodies.NodesOf | src/utils/Parser/dart_parser/DartLoader.cpp:136-141 | one fresh node per link, in link-map order, with the link's name and no child joints yet |
| Bodies.AddJoint | src/utils/Parser/dart_parser/DartLoader.cpp:150 | creating a joint keeps every node's name and keeps every child index a valid node |
| Bodies.AddJoints | src/utils/Parser/dart_parser/DartLoader.cpp:147-153 | the joint loop makes one joint per record, keeps the names, and keeps every child index valid |
| Bodies.AddJointsRecords | src/utils/Parser/dart_parser/DartLoader.cpp:147-153 | the k-th joint made comes from the k-th record and joins the first nodes its parent and child link names denote |
| Bodies.AddJointsChildren | src/utils/Parser/dart_parser/DartLoader.cpp:147-153 | after the loop, a node's child list is its old list followed by the children of exactly the joints whose parent it is, in joint-map order |
| Bodies.AddJointsGrows | src/utils/Parser/dart_parser/DartLoader.cpp:147-153 | the joint loop only appends child edges and never renames a node |
| Traversal.Bfs | src/utils/Parser/dart_parser/DartLoader.cpp:165-184 | the pass adds at most one node per remaining pass, and only valid node indices |
| Traversal.BfsFrom | src/utils/Parser/dart_parser/DartLoader.cpp:170-184 | loop invariant: what has been added, then the queue, is the root followed by the children of the added nodes; the run keeps this shape, is parent-first, and equals that list when it stops before the bound |
| Traversal.BfsIsFifo | src/utils/Parser/dart_parser/DartLoader.cpp:165-184 | breadth-first: the k-th node added is the k-th node queued (the root, then the children of the added nodes in the order added, siblings in child-joint order); the queue is empty when the run stops before the bound |
| Traversal.BfsParentFirst | src/utils/Parser/dart_parser/DartLoader.cpp:167-182 | the root is added first, and every later node is a child of a node added before it |
| Traversal.ParentFirstReachable | src/utils/Parser/dart_parser/DartLoader.cpp:167-182 | in a parent-first order that starts at the root, every node is reachable from the root |
| Traversal.BfsReachable | src/utils/Parser/dart_parser/DartLoader.cpp:170-184 | every node added is reachable from the root; when the run stops before the bound, exactly the reachable nodes were added and no error is raised |
| Traversal.EnqueuedDistinct | src/utils/Parser/dart_parser/DartLoader.cpp:179-182 | when the part reachable from the root is a tree, the root followed by the children of distinct reachable nodes holds no node twice |
| Traversal.DistinctStep | src/utils/Parser/dart_parser/DartLoader.cpp:173-177 | when the part reachable from the root is a tree, the node a pass adds has not been added before |
| Traversal.ReachableStep | src/utils/Parser/dart_parser/DartLoader.cpp:173-182 | the node a pass adds is reachable from the root when the nodes added before it are |
| Traversal.BfsDistinctFrom | src/utils/Parser/dart_parser/DartLoader.cpp:170-184 | when the part reachable from the root is a tree, the pass never adds a node twice |
| Traversal.BfsCoversReachable | src/utils/Parser/dart_parser/DartLoader.cpp:165-184 | when the part reachable from the root is a tree, the pass adds each reachable node exactly once and nothing else, and it adds fewer nodes than there are exactly when some node is unreachable |
| Traversal.BfsCoversTree | src/utils/Parser/dart_parser/DartLoader.cpp:165-184 | when the child graph is a tree covering all nodes, the pass adds every node exactly once (a permutation of `mNodes`) |
| RobotTraversal.JointsFrom | src/utils/Parser/dart_parser/DartLoader.cpp:241-248 | the records the inner joint loop selects all have the dequeued node's name as their parent link |
| RobotTraversal.JointsFromMembers | src/utils/Parser/dart_parser/DartLoader.cpp:241-248 | the selected records are records of the map, and every record with that parent link is selected |
| RobotTraversal.FilteredTake | src/utils/Parser/dart_parser/DartLoader.cpp:244-247 | a record with the node's name as its parent is made into a joint after the ones selected before it |
| RobotTraversal.FilteredSkip | src/utils/Parser/dart_parser/DartLoader.cpp:244 | a record with another parent is skipped |
| RobotTraversal.Visit | src/utils/Parser/dart_parser/DartLoader.cpp:241-248 | visiting a node makes one joint per selected record, keeps the names, and keeps the joint endpoints resolvable |
| RobotTraversal.ChildrenViaOwn | src/utils/Parser/dart_parser/DartLoader.cpp:241-248 | when the selected records all have the dequeued node as parent (names are unique), they attach children to that node only |
| RobotTraversal.VisitIsCreateJoints | src/utils/Parser/dart_parser/DartLoader.cpp:241-248 | visiting a node is the same as calling `createDartJoint` on each selected record in joint-map order |
| RobotTraversal.Pass | src/utils/Parser/dart_parser/DartLoader.cpp:238-257 | one robot pass: the nodes keep their names; one joint is made per selected record; the queue becomes the rest followed by the node's children as they are after its joints were made |
| RobotTraversal.PassGrows | src/utils/Parser/dart_parser/DartLoader.cpp:241-248 | a robot pass only appends child edges |
| RobotTraversal.RobotBfs | src/utils/Parser/dart_parser/DartLoader.cpp:231-258 | the robot run only appends child edges, adds at most one node per pass, and adds only valid indices |
| RobotTraversal.OrderStep | src/utils/Parser/dart_parser/DartLoader.cpp:241-248 | the joints of one visit followed by those of the rest of the run are the selected records of each node in dequeue order |
| RobotTraversal.PassOrder | src/utils/Parser/dart_parser/DartLoader.cpp:236-258 | the joint order of the whole run follows from that of the run after its first pass |
| RobotTraversal.RobotJointOrder | src/utils/Parser/dart_parser/DartLoader.cpp:236-258 | the robot's joints are, for each node in dequeue order, the records whose parent is that node's link, in joint-map order; no root joint is among them |
| RobotTraversal.JointsForEachMembers | src/utils/Parser/dart_parser/DartLoader.cpp:241-248 | a record is selected in some pass exactly when its parent link is the name of a dequeued node |
| RobotTraversal.RobotCreatesExactlyDequeuedJoints | src/utils/Parser/dart_parser/DartLoader.cpp:236-258 | a record becomes a joint if and only if its parent is dequeued; a joint whose parent is never dequeued is never created |
| RobotTraversal.CreatedInOrder | src/utils/Parser/dart_parser/DartLoader.cpp:241-248 | when the joints are made node by node in order, a record is made into a joint exactly when its parent link is the name of a node in that order |
| RobotTraversal.FromQueueStep | src/utils/Parser/dart_parser/DartLoader.cpp:251-256 | each node added is either at its place in the starting queue or a child of an earlier one, and one pass keeps this |
| RobotTraversal.RobotFromQueue | src/utils/Parser/dart_parser/DartLoader.cpp:233-256 | every node the robot run adds is either at its place in the starting queue or a child of a node added before it |
| RobotTraversal.ChildrenViaFiltered | src/utils/Parser/dart_parser/DartLoader.cpp:241-248 | a node that `getNode` finds under its own name gets children only from the records whose parent link is that name |
| RobotTraversal.KidsAreLinkedChildren | src/utils/Parser/dart_parser/DartLoader.cpp:241-248 | with distinct names, the children a node gets when the robot dequeues it are the children that linking every joint gives it |
| RobotTraversal.PassAsSkeleton | src/utils/Parser/dart_parser/DartLoader.cpp:238-257 | dequeuing a node not visited before gives it exactly its fully linked children and queues what the skeleton pass queues |
| RobotTraversal.RobotBfsIsBfs | src/utils/Parser/dart_parser/DartLoader.cpp:236-257 | while no node is dequeued twice, the robot pass adds the nodes the skeleton pass adds over the fully linked nodes |
| RobotTraversal.RobotBfsIsBfsFromRoot | src/utils/Parser/dart_parser/DartLoader.cpp:231-258 | from the root, with nodes that have no children yet, on a tree-shaped reachable part, the robot pass and the skeleton pass add the same nodes in the same order |
| RobotTraversal.RobotParentFirst | src/utils/Parser/dart_parser/DartLoader.cpp:233-256 | the robot adds the root first, and every later node is a child (in the final graph) of a node added before it |
| Assembly.RootIndex | src/utils/Parser/dart_parser/DartLoader.cpp:156 | the root node is the first node with the root link's name |
| Assembly.Linked | src/utils/Parser/dart_parser/DartLoader.cpp:145-153 | the skeleton's and object's joint loop keeps one node per link with its name, and makes one joint per record |
| Assembly.SkeletonOf | src/utils/Parser/dart_parser/DartLoader.cpp:128-191 | the skeleton is unnamed and has no default root node; it has one node per link, keeps their names, adds no more nodes than links, and has one joint per record plus the root joint |
| Assembly.RobotOf | src/utils/Parser/dart_parser/DartLoader.cpp:196-267 | the robot is named after the model and has a default root node; it has one node per link, adds no more nodes than links, and its first joint is the root joint, to the default root |
| Assembly.ObjectOf | src/utils/Parser/dart_parser/DartLoader.cpp:272-329 | the object is named after the model and has a default root node; it keeps one node per link with its name, adds exactly as many nodes as links, and has one joint per record plus the root joint |
| Assembly.OthersInOrder | src/utils/Parser/dart_parser/DartLoader.cpp:318-322 | the indices below `n` other than the root, ascending; each one is below `n` and is not the root (the other facts are in `OthersInOrderSpec`) |
| Assembly.OthersInOrderSpec | src/utils/Parser/dart_parser/DartLoader.cpp:318-322 | the nodes after the root are every other index, each once, ascending; with the root they number `|mNodes|` |
| Assembly.LinkedJointOrder | src/utils/Parser/dart_parser/DartLoader.cpp:145-158 | skeleton and object: one joint per record in joint-map order, joining the nodes its link names denote, then the root joint last at the root node (to the default root only for the object) |
| Assembly.SkeletonRootJoint | src/utils/Parser/dart_parser/DartLoader.cpp:156-158 | the skeleton's root joint comes after all record joints, at the node added first, which carries the root link's name |
| Assembly.ObjectRootJoint | src/utils/Parser/dart_parser/DartLoader.cpp:306-308 | the object's root joint, to the default root, comes after all record joints, at the root link's node, which is first in its order |
| Assembly.LinkedJointAt | src/utils/Parser/dart_parser/DartLoader.cpp:147-153 | the skeleton and the object both have at position `k` the joint made from record `k`, joining the nodes its link names denote |
| Assembly.CreatedAfterRoot | src/utils/Parser/dart_parser/DartLoader.cpp:226-227 | a root joint in front does not change which records have been made into joints |
| Assembly.RobotJoints | src/utils/Parser/dart_parser/DartLoader.cpp:220-248 | robot: the root joint, to the default root, comes first, at the root node; then the joints in dequeue order; a record becomes a joint iff its parent link is a dequeued node's name |
| Assembly.SkeletonOrder | src/utils/Parser/dart_parser/DartLoader.cpp:165-184 | skeleton: root first, parent-first, no more nodes than links, breadth-first; on a covering tree a permutation of `mNodes`; when it stops early, exactly the reachable nodes; when only the reachable part is a tree, each reachable node once and nothing else, and fewer nodes than links exactly when some link is unreachable |
| Assembly.RobotOrder | src/utils/Parser/dart_parser/DartLoader.cpp:233-258 | robot: root first, parent-first, no more nodes than links |
| Assembly.RobotOrderIsSkeletonOrder | src/utils/Parser/dart_parser/DartLoader.cpp:233-258 | when the part reachable from the root is a tree, the robot adds the same nodes in the same order as the skeleton, although it creates each node's joints only when it dequeues the node |
| Assembly.RobotOrderOnTree | src/utils/Parser/dart_parser/DartLoader.cpp:233-258 | on such a model the robot adds the root first, each reachable node exactly once and nothing else, and every node when all are reachable |
| Assembly.ObjectOrder | src/utils/Parser/dart_parser/DartLoader.cpp:314-322 | object: the root, then every other node in `mNodes` order, reachable or not, each node exactly once |
| Assembly.BuildAll | src/utils/Parser/dart_parser/DartLoader.cpp:93-117 | building the first `n` models gives `n` results |
| Assembly.BuildAllAt | src/utils/Parser/dart_parser/DartLoader.cpp:93-117 | model `k` of the world becomes entry `k` of the result |
| Assembly.WorldOf | src/utils/Parser/dart_parser/DartLoader.cpp:92-118 | the world holds one object per object model and one robot per robot model |
| WorldPath.ToUnixPath | src/utils/Parser/dart_parser/DartLoader.cpp:77 | same length; every backslash becomes a slash, and every other character is kept |
| WorldPath.UnixPathIsNormal | src/utils/Parser/dart_parser/DartLoader.cpp:77 | the normalised path has no backslash, and normalising again changes nothing |
| WorldPath.RFind | src/utils/Parser/dart_parser/DartLoader.cpp:78 | `rfind` returns `npos` exactly when the character is absent, and otherwise the position of its last occurrence |
| WorldPath.Prefix | src/utils/Parser/dart_parser/DartLoader.cpp:78 | `substr(0, n)` is a prefix of length `min(n, size)` |
| WorldPath.DirPrefix | src/utils/Parser/dart_parser/DartLoader.cpp:78 | `substr(0, rfind("/") + 1)` is a prefix of the path |
| WorldPath.DirPrefixSplits | src/utils/Parser/dart_parser/DartLoader.cpp:78 | `mPath` is a prefix of the path; it is empty exactly when there is no slash (`npos + 1` wraps to 0), otherwise it ends in a slash; no slash follows it |
| WorldPath.WorldPathSplit | src/utils/Parser/dart_parser/DartLoader.cpp:77-78 | for the path as given: the base path ends just after its last slash or backslash, and is empty when it has neither |
| Loader.DartLoader.constructor | src/utils/Parser/dart_parser/DartLoader.cpp:20-21 | a new loader has empty node and joint lists and empty paths |
| Loader.DartLoader.GetNode | src/utils/Parser/dart_parser/DartLoader.cpp:334-344 | the index loop with early return finds what `FindNode` characterises |
| Loader.DartLoader.CollectNodes | src/utils/Parser/dart_parser/DartLoader.cpp:135-141 | `mNodes` is reset and then holds one fresh node per link, in link-map order; `mJoints` is untouched |
| Loader.DartLoader.CreateDartJoint | src/utils/Parser/dart_parser/DartLoader.cpp:150 | both endpoints are looked up and the child is appended to the parent's child list; `mJoints` is untouched |
| Loader.DartLoader.CollectJoints | src/utils/Parser/dart_parser/DartLoader.cpp:145-153 | `mJoints` is reset, then each record is made into a joint and pushed in joint-map order |
| Loader.DartLoader.PushChildren | src/utils/Parser/dart_parser/DartLoader.cpp:180-182 | the children of `u` are pushed to the back of the queue in child-joint index order |
| Loader.DartLoader.PushParentsFirst | src/utils/Parser/dart_parser/DartLoader.cpp:165-184 | the FIFO loop adds exactly the run `Bfs` describes; the nodes added number `numIter`, and `numIter <= |mNodes|` |
| Loader.DartLoader.JointLoopTurn | src/utils/Parser/dart_parser/DartLoader.cpp:244-247 | one turn of the robot's joint loop pushes a joint exactly when the record's parent is the node's name |
| Loader.DartLoader.CreateJointsFrom | src/utils/Parser/dart_parser/DartLoader.cpp:241-248 | the robot's joint loop for one node does what `Visit` describes and appends the joints made to `mJoints` |
| Loader.DartLoader.RobotPass | src/utils/Parser/dart_parser/DartLoader.cpp:237-257 | one pass of the robot loop: the front node's joints are made and pushed, the node is popped, and its children as they now are are queued; the result is what `Pass` describes |
| Loader.DartLoader.RobotPushParentsFirst | src/utils/Parser/dart_parser/DartLoader.cpp:231-258 | the robot's loop adds the nodes, attaches the edges and pushes the joints of the run `RobotBfs` describes; the nodes added number `numIter`, and `numIter <= |mNodes|` |
| Loader.DartLoader.ObjectNodeOrder | src/utils/Parser/dart_parser/DartLoader.cpp:314-322 | the root, then every index of `mNodes` other than the root, in order |
| Loader.DartLoader.ModelInterfaceToSkeleton | src/utils/Parser/dart_parser/DartLoader.cpp:128-191 | the skeleton built is `SkeletonOf` the model, and `mNodes` and `mJoints` are left as its nodes and joints |
| Loader.DartLoader.ModelInterfaceToRobot | src/utils/Parser/dart_parser/DartLoader.cpp:196-267 | the robot built is `RobotOf` the model, and `mNodes` and `mJoints` are left as its nodes and joints |
| Loader.DartLoader.ModelInterfaceToObject | src/utils/Parser/dart_parser/DartLoader.cpp:272-329 | the object built is `ObjectOf` the model, and `mNodes` and `mJoints` are left as its nodes and joints |
| Loader.DartLoader.BuildObjects | src/utils/Parser/dart_parser/DartLoader.cpp:93-104 | object model `i` becomes object `i`; the member lists are those of the last object built |
| Loader.DartLoader.BuildRobots | src/utils/Parser/dart_parser/DartLoader.cpp:106-117 | robot model `i` becomes robot `i`; the member lists are those of the last robot built |
| Loader.DartLoader.ParseWorld | src/utils/Parser/dart_parser/DartLoader.cpp:71-122 | `mWorldPath` is the normalised path and `mPath` its directory prefix; the world holds the objects, then the robots, in model order; the member lists are those of the last model built |

## Left out

- Reading the file (`readXmlToString`) and the URDF parser (`parseURDF`, `parseWorldURDF`) are I/O and foreign code. `ParseWorld` therefore takes the parsed world as a parameter, and `parseSkeleton`, `parseRobot` and `parseObject`, which only chain reading, parsing and building, are not modelled.
- The insides of `createDartNode`, `createDartJoint` and `createDartRootJoint` (geometry, inertia, joint transforms) are not part of this model. A node is its name and its child list, and a joint is its record and its two endpoint indices.
- The poses set from the world (`getRPY`, `setRotationRPY`, `setPosition*`) are floating point and are left out. So are `initSkel`, `update`, `rebuildCollision`, and `addDefaultRootNode` beyond the flag it sets on the result.
- The `debug` printf output is left out, and so is memory ownership (`new`, and the pointers the loader hands out).
- Unresolvable joint endpoints and a missing root link are not modelled as errors, because the code has no check for them. A model must satisfy `Assembly.Buildable` (or `Assembly.RobotBuildable`) to be built.
- Assembly.RobotBuildable: requires a resolvable child link of every record whose parent link is a link, even when that parent is never dequeued and the record is therefore never used; the robot loop itself needs this only of the records of dequeued nodes, which is a property of the run rather than of the model.
- WorldPath.ToUnixPath: the path is a sequence of Unicode characters, while `std::replace` and `rfind` work on the bytes of a `std::string`. The two agree on UTF-8 paths, because a slash or a backslash byte never occurs inside a multi-byte character, but "same length" counts characters, not bytes.
- Node identity is the node's index in `mNodes`, not a pointer. The object loop's pointer comparison with the root node is therefore an index comparison.
- The robot pass's results are proved on the condition that link names are distinct, which holds because they are the keys of the link map.
