/** The goal test `checkToGoal` (turtlebot_example.cpp). Despite its name it
    answers "is the node still FAR from the waypoint": it holds when the planar
    distance between the node's stored destination and the waypoint exceeds
    `threshold`. The source takes `sqrt` of the squared distance; here the
    comparison is done on squares, which is exact over `real`. */
module GoalCheck {
  import opened Milestones

  /** The global `threshold`: an `int` initialised to 0 and never reassigned. */
  const Threshold: int := 0

  /** dx*dx + dy*dy between two poses; height and orientation take no part. */
  function SquaredDistanceXY(p: Pose, q: Pose): (d: real)
    ensures d >= 0.0
  {
    var dx := p.position.x - q.position.x;
    var dy := p.position.y - q.position.y;
    dx * dx + dy * dy
  }

  /** `sqrt(dx*dx + dy*dy) > threshold`: every distance exceeds a negative
      threshold; otherwise compare the squares. */
  predicate CheckToGoal(node: Milestone, waypoint: Pose, threshold: int): (far: bool)
    ensures threshold < 0 ==> far
    ensures SquaredDistanceXY(node.GetMDestination(), waypoint) == 0.0 ==> (far <==> threshold < 0)
  {
    var t := threshold as real;
    threshold < 0 || SquaredDistanceXY(node.GetMDestination(), waypoint) > t * t
  }

  /** For the distance d that `sqrt` returns (the non-negative d with d*d equal
      to the squared planar distance), the goal test holds exactly when d is
      above the threshold, and fails exactly when d is within it. */
  lemma CheckToGoalMeansBeyondThreshold(node: Milestone, waypoint: Pose, threshold: int, d: real)
    requires d >= 0.0 && d * d == SquaredDistanceXY(node.GetMDestination(), waypoint)
    ensures CheckToGoal(node, waypoint, threshold) <==> d > threshold as real
    ensures !CheckToGoal(node, waypoint, threshold) <==> d <= threshold as real
  {
    if threshold >= 0 {
      SquaresKeepOrder(d, threshold as real);
    }
  }

  /** On non-negative reals, comparing squares is comparing the values. */
  lemma SquaresKeepOrder(d: real, t: real)
    requires d >= 0.0 && t >= 0.0
    ensures d > t <==> d * d > t * t
  {
    var gap := d - t;
    assert d * d - t * t == (d + t) * gap;
    if d > t {
      assert d + t > 0.0 && gap > 0.0;
    } else {
      assert d + t >= 0.0 && gap <= 0.0;
    }
  }

  /** Only the x and y of the node's destination and of the waypoint matter:
      nodes and waypoints that agree there get the same answer. */
  lemma CheckToGoalIgnoresHeightAndOrientation(m: Milestone, n: Milestone, w: Pose, v: Pose, threshold: int)
    requires m.GetMDestination().position.x == n.GetMDestination().position.x
    requires m.GetMDestination().position.y == n.GetMDestination().position.y
    requires w.position.x == v.position.x && w.position.y == v.position.y
    ensures CheckToGoal(m, w, threshold) == CheckToGoal(n, v, threshold)
  {
  }
}
