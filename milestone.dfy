/** The node record of the RRT planner (rrt.h): one tree node stands for one
    kinodynamic edge, the controls sampled for it and the pose they lead to.
    Every field is private with a read-only getter and no setter, so the
    record is an immutable datatype. The parent is not a pointer but a link
    into the planner's append-only node store. */
module Milestones {

  /** A C++ `int`. */
  newtype int32 = x: int | -0x8000_0000 <= x < 0x8000_0000

  /** geometry_msgs position and orientation; `float`/`double` become `real`. */
  datatype Point = Point(x: real, y: real, z: real)
  datatype Quaternion = Quaternion(x: real, y: real, z: real, w: real)
  datatype Pose = Pose(position: Point, orientation: Quaternion)

  /** What `mOrigin` points at: nothing (a root's own link), the root node
      `initial`, which is kept outside the store, or the stored node at `index`. */
  datatype Origin = Null | Root | Node(index: nat)

  datatype Milestone = Milestone(
    origin: Origin,
    velocityLinear: real,
    velocityAngular: real,
    duration: int32,
    valid: bool,
    destination: Pose)
  {
    function GetVelocityLinear(): real { velocityLinear }
    function GetVelocityAngular(): real { velocityAngular }
    function GetDuration(): int32 { duration }
    function GetOrigin(): Origin { origin }
    predicate IsValid() { valid }
    /** The stored destination; unlike `getDestination(Map)` no map is consulted. */
    function GetMDestination(): Pose { destination }
  }

  /** What `makeRandomNode` draws for a new edge: the controls, and what
      forward simulation against the map made of them. */
  datatype Sample = Sample(
    velocityLinear: real,
    velocityAngular: real,
    duration: int32,
    valid: bool,
    destination: Pose)

  /** `parent->makeRandomNode(map)`: a fresh node whose one link is the node it
      was called on; everything else is the sampler's draw. */
  function MakeRandomNode(parent: Origin, sample: Sample): (m: Milestone)
    ensures m.GetOrigin() == parent
    ensures m.GetMDestination() == sample.destination && m.IsValid() == sample.valid
  {
    Milestone(parent, sample.velocityLinear, sample.velocityAngular,
              sample.duration, sample.valid, sample.destination)
  }

  /** Each getter hands back exactly what the node was built with, and
      nothing else can be read out of or written into a node. */
  lemma GettersReturnStoredFields(origin: Origin, vl: real, va: real, duration: int32,
                                  valid: bool, destination: Pose)
    ensures var m := Milestone(origin, vl, va, duration, valid, destination);
      && m.GetOrigin() == origin
      && m.GetVelocityLinear() == vl
      && m.GetVelocityAngular() == va
      && m.GetDuration() == duration
      && m.IsValid() == valid
      && m.GetMDestination() == destination
  {
  }

  /** Two nodes that agree on every getter are the same node: the getters
      expose the whole record, which therefore cannot carry hidden state. */
  lemma GettersDetermineMilestone(m: Milestone, n: Milestone)
    requires m.GetOrigin() == n.GetOrigin()
    requires m.GetVelocityLinear() == n.GetVelocityLinear()
    requires m.GetVelocityAngular() == n.GetVelocityAngular()
    requires m.GetDuration() == n.GetDuration()
    requires m.IsValid() == n.IsValid()
    requires m.GetMDestination() == n.GetMDestination()
    ensures m == n
  {
  }
}
