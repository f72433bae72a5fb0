# RRT tree bookkeeping of the turtlebot planner

This project models the bookkeeping core of a small kinodynamic RRT (rapidly
exploring random tree) planner for a TurtleBot. It covers:

- the tree node (`Milestone`, one sampled control edge and the pose it reaches);
- the goal test `checkToGoal`;
- the growth step `makeRRT`, which extends a randomly chosen stored node and appends the child;
- the path walk `createPath`, from the last node back to the root;
- the glue in the pose and map callbacks and in the main loop that seeds and gates the tree.

The node record has private fields and getters only, so it is an immutable
datatype (`Milestones.Milestone`). Parent pointers become links into an
append-only store: `Root` is the root `initial`, which is never put in the
store, and `Node(i)` is the node at position `i`. The planner's globals
(`initial`, `once`, `endRRT`, `nodes`, `globalMap`) are the fields of the
class `MotionPlanner.Planner`. Its methods change them as the callbacks,
`makeRRT` and the main loop's gate do.

The module `Tree` specifies the walk over the store as functions. It proves:

- the walk ends within the size of the store;
- the walk starts at the node's own destination and ends at the root's;
- the walk has depth + 1 entries;
- consecutive entries are the two ends of a real parent edge;
- appending a node changes no existing path.

`Planner.CreatePath` is the source's `while` loop. It is proved to compute
that walk.

Behaviour of the code that the model keeps:

- `createPath` returns the path goal end first: the last appended node's destination comes first and the root's comes last.
- The goal radius `threshold` is the integer 0, so the goal is reached only when a node lands exactly on the waypoint's x and y. The lemmas about the goal test hold for any threshold.
- Nodes are drawn for extension whether or not they are valid. There is no iteration budget and no failure state.
- The walk has no step bound. Instead, the store's invariant (a parent link always points to an earlier node or to the root) is proved to make it terminate.
- Every map message appends a fresh child of the root, also after the goal flag is up. The "last node" that `createPath` starts from is then no longer the goal node.
- `map_callback` dereferences `initial` without a check. `MapCallbackAsWritten` keeps that and so requires a root; `MapCallback` waits for the root before appending (see Findings).
- The `waypoint` the main loop passes to `makeRRT` is a default-constructed pose that is never assigned. The model takes it as a parameter.

## Model

| member | source | states |
|---|---|---|
| `Milestones.GettersReturnStoredFields` | turtlebot_example/src/rrt.h:15-30 | each getter (`getOrigin`, `getVelocityLinear`, `getVelocityAngular`, `getDuration`, `isValid`, `getMDestination`) returns exactly the field the node was built with; the duration is an integer, and the destination is read without any map |
| `Milestones.GettersDetermineMilestone` | turtlebot_example/src/rrt.h:24-30 | two nodes that agree on every getter are equal: the record has no other state and nothing can change it after construction |
| `Milestones.MakeRandomNode` | turtlebot_example/src/rrt.h:20 | the node `makeRandomNode` returns has the node it was called on as its one parent link, and keeps the sampled destination and validity |
| `GoalCheck.SquaredDistanceXY` | turtlebot_example/src/turtlebot_example.cpp:110-112 | the squared planar distance between a destination and the waypoint is never negative |
| `GoalCheck.CheckToGoal` | turtlebot_example/src/turtlebot_example.cpp:108-116 | true whenever the threshold is negative; when the node's destination has the waypoint's x and y, true exactly when the threshold is negative (so with threshold 0 an exact hit is the goal) |
| `GoalCheck.CheckToGoalMeansBeyondThreshold` | turtlebot_example/src/turtlebot_example.cpp:108-116 | take the non-negative d with d*d = dx*dx + dy*dy, which is what `sqrt` returns. `checkToGoal` is true exactly when d > threshold, so it answers "not yet close". It is false exactly when d <= threshold, which is when `endRRT` is raised |
| `GoalCheck.CheckToGoalIgnoresHeightAndOrientation` | turtlebot_example/src/turtlebot_example.cpp:110-112 | the goal test depends only on the x and y of the node's destination and of the waypoint |
| `Tree.PathFrom` | turtlebot_example/src/turtlebot_example.cpp:135-143 | the destinations from the link up to the root, goal end first: it starts with the link's own destination and has at least one and at most position + 2 entries |
| `Tree.PathShape` | turtlebot_example/src/turtlebot_example.cpp:135-143 | the walk from a node starts with that node's destination, ends with the root's destination, and has depth + 1 entries |
| `Tree.DepthBound` | turtlebot_example/src/turtlebot_example.cpp:137-141 | the walk from the node at position i reaches the root within i + 1 steps, so it never exceeds the size of the store |
| `Tree.ChainIsParentWalk` | turtlebot_example/src/turtlebot_example.cpp:137-141 | the stored nodes visited form a chain of real parent links: it starts at the node, each entry's parent is the next entry at a strictly smaller position, and the last entry's parent is the root |
| `Tree.PathFollowsEdges` | turtlebot_example/src/turtlebot_example.cpp:136-141 | every consecutive pair in the walk is (child destination, parent destination) for one stored node and its parent |
| `Tree.AppendKeepsTree` | turtlebot_example/src/turtlebot_example.cpp:125-129 | appending a node whose parent is the root or a stored node keeps every parent link pointing at the root or at an earlier entry, and grows the store by one |
| `Tree.PathStableUnderAppend` | turtlebot_example/src/turtlebot_example.cpp:129 | appending a node leaves the walk from every node already stored unchanged |
| `MotionPlanner.AsWrittenDrawOverruns` | turtlebot_example/src/turtlebot_example.cpp:121-125 | the inclusive draw `nodeSelect(0, sizeNodes)` can produce `sizeNodes`, one past the last stored node, which is outside the corrected range `MakeRRT` requires; on an empty store no index it can produce is inside that range |
| `MotionPlanner.DrawIsInBounds` | turtlebot_example/src/turtlebot_example.cpp:121-125 | the corrected draw `[0, sizeNodes - 1]` produces exactly the positions of stored nodes |
| `MotionPlanner.AsWrittenGrowsOnEmptyStore` | turtlebot_example/src/turtlebot_example.cpp:178-181 | for a planner in the start-up state (store empty, flag down), the gate as written calls `makeRRT`, the draw can produce an index, and no index it can produce is inside the range `MakeRRT` requires |
| `MotionPlanner.GrowthHasAnIndex` | turtlebot_example/src/turtlebot_example.cpp:178-181 | the corrected gate opens exactly when the goal flag is down and some stored node can be drawn |
| `MotionPlanner.Planner.constructor` | turtlebot_example/src/turtlebot_example.cpp:29-33 | before any message there is no root, `once` is set, `endRRT` is down, and the store and map are empty |
| `MotionPlanner.Planner.PoseCallback` | turtlebot_example/src/turtlebot_example.cpp:48-52 | the first pose message seeds the root and clears `once`; later pose messages leave the root and everything else unchanged |
| `MotionPlanner.AsWrittenMapBeforePose` | turtlebot_example/src/turtlebot_example.cpp:98-102 | the start-up state is consistent yet has no root, so a map message arriving before any pose message fails the as-written callback's precondition |
| `MotionPlanner.Planner.MapCallbackAsWritten` | turtlebot_example/src/turtlebot_example.cpp:98-102 | given a root, each map message appends exactly one child of the root, after all earlier entries, and replaces the map snapshot. The root and the goal flag are unchanged, and the tree invariant is kept |
| `MotionPlanner.Planner.MapCallback` | turtlebot_example/src/turtlebot_example.cpp:98-102 | corrected: in any consistent state a map message replaces the map snapshot; it appends exactly one child of the root when a root exists, and leaves the store unchanged otherwise. The root and the goal flag are unchanged |
| `MotionPlanner.Planner.MakeRRT` | turtlebot_example/src/turtlebot_example.cpp:118-130 | with the index in bounds, appends exactly one node, whose parent is the node at the drawn index, and leaves all earlier entries unchanged. `endRRT` is raised exactly when the new node fails `checkToGoal`. The tree invariant is kept |
| `MotionPlanner.Planner.CreatePath` | turtlebot_example/src/turtlebot_example.cpp:132-144 | the loop returns the walk from the last appended node to the root: it starts with that node's destination, ends with the root's, and has depth + 1 <= store size + 1 entries |
| `MotionPlanner.Planner.LoopStep` | turtlebot_example/src/turtlebot_example.cpp:178-181 | growth happens only while `endRRT` is down (and, corrected, once the store holds a node). Once the flag is up, no node is appended by growth and the flag stays up |

## Left out

- ROS plumbing: node set-up, subscribers and publishers, `spinOnce`, the loop rate, the printing of the pose, and the constant velocity command the main loop publishes. This is messaging and I/O.
- `drawCurve` and its markers: visualization on floating point.
- The body of `makeRandomNode`, the two `Milestone` constructors, `getDestination(Map)`, `Map`, and the use of `MAX_RETRY`. map.h and the file that implements these are not part of this model. The controls, validity and destination of a new node therefore come in as a `Sample` parameter. The root built from the first pose message comes in as a parameter of `PoseCallback`. The map snapshot is a type parameter that is only stored.
- The random engine and its distributions. The drawn node index is a parameter. Its legal range is the predicate `InDrawRange`; the range as written is `InDrawRangeAsWritten`.
- `float`/`double` rounding and `sqrt`. Coordinates and controls are `real`, and the goal test compares squared distances.
- Raw pointers, their identity comparison and their leaks. The store is an arena of values, and `origin` is a position in it.

## Findings

| source | as written | input that shows it | evidently intended | confidence | as-written member | corrected member |
|---|---|---|---|---|---|---|
| turtlebot_example/src/turtlebot_example.cpp:121-125 | `uniform_int_distribution<> nodeSelect(0, sizeNodes)` is inclusive at both ends, and `(*nodes)[index]` is read without a check | a store of n nodes and the draw `index == n` | draw from `[0, sizeNodes - 1]` | high; not executed | `MotionPlanner.AsWrittenDrawOverruns` | `MotionPlanner.DrawIsInBounds` |
| turtlebot_example/src/turtlebot_example.cpp:178-181 | the main loop calls `makeRRT` whenever `endRRT` is false, even before any map message has put a node in the store | the first loop pass with no map message yet: an empty store, where the only draw is 0 | grow only once the store holds a node | high; not executed | `MotionPlanner.AsWrittenGrowsOnEmptyStore` | `MotionPlanner.GrowthHasAnIndex` |
| turtlebot_example/src/turtlebot_example.cpp:98-102 | `map_callback` calls `initial->makeRandomNode` without checking that a pose message has set `initial` | a map message that arrives before the first pose message, while `initial` is still null | append a child of the root only once the root exists | medium; not executed | `MotionPlanner.AsWrittenMapBeforePose` | `MotionPlanner.Planner.MapCallback` |
