/** The node store as an arena: stored nodes are addressed by position, a
    node's parent link is `Root` or the position of an earlier node, and the
    root itself lives outside the store. This module states what walking the
    parent links yields (the specification of `createPath`) and proves that
    the walk ends, how long it is, and that it runs along real tree edges. */
module Tree {
  import opened Milestones

  /** A link the walk may stand on: the root, or a node present in the store. */
  predicate InStore(nodes: seq<Milestone>, link: Origin)
  {
    link.Root? || (link.Node? && link.index < |nodes|)
  }

  /** The parent of the node at position `i` is the root or an earlier node. */
  predicate ParentBefore(link: Origin, i: nat)
  {
    link.Root? || (link.Node? && link.index < i)
  }

  /** The arena invariant: no stored node is an orphan, and links only point back. */
  predicate TreeValid(nodes: seq<Milestone>)
  {
    forall i :: 0 <= i < |nodes| ==> ParentBefore(nodes[i].GetOrigin(), i)
  }

  /** Position plus one for a stored node, 0 for the root; strictly smaller at a parent. */
  function Rank(link: Origin): nat
  {
    if link.Node? then link.index + 1 else 0
  }

  /** The destination of the node a link designates. */
  function Dest(root: Milestone, nodes: seq<Milestone>, link: Origin): Pose
    requires InStore(nodes, link)
  {
    if link.Node? then nodes[link.index].GetMDestination() else root.GetMDestination()
  }

  /** The destinations met when walking parent links from `link` up to and
      including the root, goal end first. */
  function PathFrom(root: Milestone, nodes: seq<Milestone>, link: Origin): (path: seq<Pose>)
    requires TreeValid(nodes) && InStore(nodes, link)
    ensures 1 <= |path| <= Rank(link) + 1
    ensures path[0] == Dest(root, nodes, link)
    decreases Rank(link)
  {
    if link.Node? then
      [nodes[link.index].GetMDestination()] + PathFrom(root, nodes, nodes[link.index].GetOrigin())
    else
      [root.GetMDestination()]
  }

  /** Number of edges between the node and the root. */
  function Depth(nodes: seq<Milestone>, link: Origin): nat
    requires TreeValid(nodes) && InStore(nodes, link)
    decreases Rank(link)
  {
    if link.Node? then 1 + Depth(nodes, nodes[link.index].GetOrigin()) else 0
  }

  /** Positions of the stored nodes met on the walk, child first; the root is not stored. */
  function Chain(nodes: seq<Milestone>, link: Origin): seq<nat>
    requires TreeValid(nodes) && InStore(nodes, link)
    decreases Rank(link)
  {
    if link.Node? then [link.index] + Chain(nodes, nodes[link.index].GetOrigin()) else []
  }

  /** The walk starts at the node's own destination, ends at the root's
      destination, and visits depth + 1 nodes. */
  lemma {:induction false} PathShape(root: Milestone, nodes: seq<Milestone>, link: Origin)
    requires TreeValid(nodes) && InStore(nodes, link)
    ensures |PathFrom(root, nodes, link)| == Depth(nodes, link) + 1
    ensures PathFrom(root, nodes, link)[0] == Dest(root, nodes, link)
    ensures PathFrom(root, nodes, link)[Depth(nodes, link)] == root.GetMDestination()
    decreases Rank(link)
  {
    if link.Node? {
      PathShape(root, nodes, nodes[link.index].GetOrigin());
    }
  }

  /** The walk from a stored node reaches the root within as many steps as
      there are nodes up to and including it, so it never exceeds the store. */
  lemma {:induction false} DepthBound(nodes: seq<Milestone>, link: Origin)
    requires TreeValid(nodes) && InStore(nodes, link)
    ensures Depth(nodes, link) <= Rank(link) <= |nodes|
    decreases Rank(link)
  {
    if link.Node? {
      DepthBound(nodes, nodes[link.index].GetOrigin());
    }
  }

  /** The visited positions form a chain of real parent links: it starts at
      the node, each entry's parent is the next entry (so positions strictly
      decrease), and the last entry's parent is the root. */
  lemma {:induction false} ChainIsParentWalk(nodes: seq<Milestone>, link: Origin)
    requires TreeValid(nodes) && InStore(nodes, link)
    ensures var c := Chain(nodes, link);
      && |c| == Depth(nodes, link)
      && (link.Root? <==> c == [])
      && (link.Node? ==> c[0] == link.index)
      && (forall k :: 0 <= k < |c| ==> c[k] < |nodes|)
      && (forall k :: 0 <= k < |c| - 1 ==> nodes[c[k]].GetOrigin() == Node(c[k + 1]) && c[k + 1] < c[k])
      && (c != [] ==> nodes[c[|c| - 1]].GetOrigin() == Root)
    decreases Rank(link)
  {
    if link.Node? {
      var parent := nodes[link.index].GetOrigin();
      ChainIsParentWalk(nodes, parent);
      var rest := Chain(nodes, parent);
      var c := Chain(nodes, link);
      assert c == [link.index] + rest;
      forall k | 0 <= k < |c| - 1
        ensures nodes[c[k]].GetOrigin() == Node(c[k + 1]) && c[k + 1] < c[k]
      {
        if k == 0 {
          assert parent.Node? && rest[0] == parent.index;
        } else {
          assert c[k] == rest[k - 1] && c[k + 1] == rest[k];
        }
      }
    }
  }

  /** Consecutive entries of the walk are the two ends of one tree edge: entry
      k is a stored node's destination and entry k + 1 is its parent's. */
  lemma {:induction false} PathFollowsEdges(root: Milestone, nodes: seq<Milestone>, link: Origin)
    requires TreeValid(nodes) && InStore(nodes, link)
    ensures var p, c := PathFrom(root, nodes, link), Chain(nodes, link);
      && |p| == |c| + 1
      && (forall k :: 0 <= k < |c| ==>
            && c[k] < |nodes|
            && p[k] == nodes[c[k]].GetMDestination()
            && p[k + 1] == Dest(root, nodes, nodes[c[k]].GetOrigin()))
    decreases Rank(link)
  {
    if link.Node? {
      var parent := nodes[link.index].GetOrigin();
      PathFollowsEdges(root, nodes, parent);
      PathShape(root, nodes, parent);
      var p, c := PathFrom(root, nodes, link), Chain(nodes, link);
      var p', c' := PathFrom(root, nodes, parent), Chain(nodes, parent);
      assert p == [nodes[link.index].GetMDestination()] + p';
      assert c == [link.index] + c';
      forall k | 0 <= k < |c|
        ensures c[k] < |nodes|
        ensures p[k] == nodes[c[k]].GetMDestination()
        ensures p[k + 1] == Dest(root, nodes, nodes[c[k]].GetOrigin())
      {
        if k == 0 {
          assert p[1] == p'[0];
        } else {
          assert c[k] == c'[k - 1] && p[k] == p'[k - 1] && p[k + 1] == p'[k];
        }
      }
    }
  }

  /** Appending a node whose parent is the root or a stored node keeps the invariant. */
  lemma AppendKeepsTree(nodes: seq<Milestone>, m: Milestone)
    requires TreeValid(nodes) && InStore(nodes, m.GetOrigin())
    ensures TreeValid(nodes + [m])
    ensures |nodes + [m]| == |nodes| + 1
  {
    assert ParentBefore(m.GetOrigin(), |nodes|);
  }

  /** Appending never changes the walk from a node already present: earlier
      paths stay valid as the tree grows. */
  lemma {:induction false} PathStableUnderAppend(root: Milestone, nodes: seq<Milestone>, m: Milestone, link: Origin)
    requires TreeValid(nodes) && InStore(nodes, m.GetOrigin()) && InStore(nodes, link)
    ensures TreeValid(nodes + [m])
    ensures PathFrom(root, nodes + [m], link) == PathFrom(root, nodes, link)
    decreases Rank(link)
  {
    AppendKeepsTree(nodes, m);
    if link.Node? {
      assert (nodes + [m])[link.index] == nodes[link.index];
      PathStableUnderAppend(root, nodes, m, nodes[link.index].GetOrigin());
    }
  }
}
