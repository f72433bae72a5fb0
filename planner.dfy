/** The planner state of turtlebot_example.cpp: the globals `initial`, `once`,
    `endRRT`, `nodes` and `globalMap` become the fields of one `Planner`
    object, and the callbacks, `makeRRT`, `createPath` and the growth gate of
    the main loop become its methods. Random choices (the node index drawn by
    `nodeSelect`, what `makeRandomNode` samples) arrive as parameters. */
module MotionPlanner {
  import opened Milestones
  import opened GoalCheck
  import opened Tree

  datatype Option<T> = None | Some(value: T)

  /** Indices `uniform_int_distribution<> nodeSelect(0, sizeNodes)` can draw:
      both bounds are inclusive. */
  predicate InDrawRangeAsWritten(size: int, index: int)
  {
    0 <= index <= size
  }

  /** The intended draw, `nodeSelect(0, sizeNodes - 1)`. */
  predicate InDrawRange(size: int, index: int)
  {
    0 <= index <= size - 1
  }

  /** As written, the draw can return `size`, one past the last stored node,
      whatever the size of the store, and that index fails `MakeRRT`'s
      precondition; on an empty store no index the draw can return meets it. */
  lemma AsWrittenDrawOverruns(size: nat)
    ensures InDrawRangeAsWritten(size, size) && !InDrawRange(size, size)
    ensures exists index :: InDrawRangeAsWritten(size, index) && !InDrawRange(size, index)
    ensures forall index :: InDrawRangeAsWritten(0, index) ==> !InDrawRange(0, index)
  {
    assert InDrawRangeAsWritten(size, size);
  }

  /** The corrected draw yields exactly the positions of stored nodes. */
  lemma DrawIsInBounds(size: nat, index: int)
    ensures InDrawRange(size, index) <==> 0 <= index < size
  {
  }

  /** The main loop's gate as written: grow whenever the goal flag is down. */
  predicate GrowsAsWritten(endRRT: bool, size: nat)
  {
    !endRRT
  }

  /** The intended gate: growth also waits for the first map message, which
      puts the first node into the store. */
  predicate Grows(endRRT: bool, size: nat)
  {
    !endRRT && size > 0
  }

  /** As written, a loop pass in the start-up state (empty store, flag down)
      calls `makeRRT`, and no index the draw can then return meets `MakeRRT`'s
      precondition. */
  lemma AsWrittenGrowsOnEmptyStore<M>(p: Planner<M>)
    requires p.StartUp()
    ensures GrowsAsWritten(p.endRRT, |p.nodes|)
    ensures exists index :: InDrawRangeAsWritten(|p.nodes|, index)
    ensures forall index :: InDrawRangeAsWritten(|p.nodes|, index) ==> !InDrawRange(|p.nodes|, index)
  {
    assert InDrawRangeAsWritten(|p.nodes|, 0);
  }

  /** As written, a map message that arrives in the start-up state, before any
      pose message, finds no root: the state is consistent, yet it fails
      `MapCallbackAsWritten`'s precondition that a root exists. */
  lemma AsWrittenMapBeforePose<M>(p: Planner<M>)
    requires p.StartUp()
    ensures p.Valid() && p.initial.None?
  {
  }

  /** The corrected gate opens exactly when the flag is down and some stored
      node can be drawn for extension. */
  lemma GrowthHasAnIndex(endRRT: bool, size: nat)
    ensures Grows(endRRT, size) <==> !endRRT && exists index :: InDrawRange(size, index)
  {
    if size > 0 {
      assert InDrawRange(size, 0);
    }
  }

  class Planner<Map> {
    /** The root, built from the first pose message; never stored in `nodes`. */
    var initial: Option<Milestone>
    /** Still waiting for the first pose message. */
    var once: bool
    /** The last node appended by `makeRRT` is within the goal threshold. */
    var endRRT: bool
    /** The append-only node store. */
    var nodes: seq<Milestone>
    /** The latest map snapshot. */
    var globalMap: Option<Map>

    ghost predicate Valid()
      reads this
    {
      && (once <==> initial.None?)
      && (nodes != [] ==> globalMap.Some?)
      && (nodes != [] ==> initial.Some?)
      && TreeValid(nodes)
    }

    /** The state before any message: no root, empty store, no map, flag down. */
    ghost predicate StartUp()
      reads this
    {
      once && !endRRT && initial == None && nodes == [] && globalMap == None
    }

    /** The globals before any message. */
    constructor ()
      ensures Valid() && StartUp()
    {
      initial := None;
      once := true;
      endRRT := false;
      nodes := [];
      globalMap := None;
    }

    /** `pose_callback`: the first pose message seeds the root (`root` is the
        node `new Milestone(msg)` builds); later messages change nothing. */
    method PoseCallback(root: Milestone)
      requires Valid()
      modifies this
      ensures Valid()
      ensures old(once) ==> initial == Some(root) && !once
      ensures !old(once) ==> initial == old(initial) && once == old(once)
      ensures nodes == old(nodes) && endRRT == old(endRRT) && globalMap == old(globalMap)
    {
      if once {
        initial := Some(root);
        once := false;
      }
    }

    /** `map_callback` as written: every map message appends a fresh child of
        the root and replaces the map snapshot. It dereferences `initial`
        without a check, so it is only defined once a root exists. */
    method MapCallbackAsWritten(grid: Map, sample: Sample)
      requires Valid() && initial.Some?
      modifies this
      ensures Valid()
      ensures nodes == old(nodes) + [MakeRandomNode(Root, sample)]
      ensures globalMap == Some(grid)
      ensures initial == old(initial) && once == old(once) && endRRT == old(endRRT)
    {
      var child := MakeRandomNode(Root, sample);
      AppendKeepsTree(nodes, child);
      nodes := nodes + [child];
      globalMap := Some(grid);
    }

    /** `map_callback`, corrected: a map message always replaces the snapshot,
        and appends a child of the root only once a root exists. */
    method MapCallback(grid: Map, sample: Sample)
      requires Valid()
      modifies this
      ensures Valid()
      ensures old(initial).Some? ==> nodes == old(nodes) + [MakeRandomNode(Root, sample)]
      ensures old(initial).None? ==> nodes == old(nodes)
      ensures globalMap == Some(grid)
      ensures initial == old(initial) && once == old(once) && endRRT == old(endRRT)
    {
      if initial.Some? {
        MapCallbackAsWritten(grid, sample);
      } else {
        globalMap := Some(grid);
      }
    }

    /** `makeRRT`: extend the stored node at the drawn `index`, raise the flag
        exactly when the new node is within the goal threshold, and append it. */
    method MakeRRT(waypoint: Pose, index: int, sample: Sample)
      requires Valid() && InDrawRange(|nodes|, index)
      modifies this
      ensures Valid()
      ensures nodes == old(nodes) + [MakeRandomNode(Node(index), sample)]
      ensures endRRT <==> !CheckToGoal(nodes[|nodes| - 1], waypoint, Threshold)
      ensures initial == old(initial) && once == old(once) && globalMap == old(globalMap)
    {
      var newNode := MakeRandomNode(Node(index), sample);
      endRRT := !CheckToGoal(newNode, waypoint, Threshold);
      AppendKeepsTree(nodes, newNode);
      nodes := nodes + [newNode];
    }

    /** `createPath`: walk parent links from the last appended node until the
        root, collecting destinations goal end first. */
    method CreatePath() returns (pose: seq<Pose>)
      requires Valid() && nodes != []
      ensures pose == PathFrom(initial.value, nodes, Node(|nodes| - 1))
      ensures |pose| == Depth(nodes, Node(|nodes| - 1)) + 1 <= |nodes| + 1
      ensures pose[0] == nodes[|nodes| - 1].GetMDestination()
      ensures pose[|pose| - 1] == initial.value.GetMDestination()
    {
      var root := initial.value;
      var last := Node(|nodes| - 1);
      var milestone := last;
      pose := [nodes[|nodes| - 1].GetMDestination()];
      while milestone != Root
        invariant InStore(nodes, milestone)
        invariant pose + PathFrom(root, nodes, milestone)[1..] == PathFrom(root, nodes, last)
        decreases Rank(milestone)
      {
        ghost var here := milestone;
        milestone := nodes[milestone.index].GetOrigin();
        PathShape(root, nodes, milestone);
        assert PathFrom(root, nodes, here)[1..] == PathFrom(root, nodes, milestone);
        pose := pose + [Dest(root, nodes, milestone)];
        assert PathFrom(root, nodes, milestone) == [Dest(root, nodes, milestone)] + PathFrom(root, nodes, milestone)[1..];
      }
      PathShape(root, nodes, last);
      DepthBound(nodes, last);
    }

    /** One pass of the main loop's growth gate: grow only while the goal has
        not been reached (and, corrected, once the store holds a node). Once
        the flag is up no further node is appended by growth and it stays up. */
    method LoopStep(waypoint: Pose, index: int, sample: Sample)
      requires Valid()
      requires Grows(endRRT, |nodes|) ==> InDrawRange(|nodes|, index)
      modifies this
      ensures Valid()
      ensures old(Grows(endRRT, |nodes|)) ==>
        && nodes == old(nodes) + [MakeRandomNode(Node(index), sample)]
        && (endRRT <==> !CheckToGoal(nodes[|nodes| - 1], waypoint, Threshold))
      ensures !old(Grows(endRRT, |nodes|)) ==> nodes == old(nodes) && endRRT == old(endRRT)
      ensures old(endRRT) ==> endRRT && nodes == old(nodes)
      ensures initial == old(initial) && once == old(once) && globalMap == old(globalMap)
    {
      if Grows(endRRT, |nodes|) {
        MakeRRT(waypoint, index, sample);
      }
    }
  }
}
