// Walks in a directed graph given by its set of edges.  A walk is the sequence of
// nodes it visits, so a walk with n hops has n + 1 nodes.
module Walks {
  type Node = int
  type Edges = set<(Node, Node)>

  ghost predicate IsWalk(g: Edges, w: seq<Node>) {
    |w| >= 1 && forall t :: 0 <= t < |w| - 1 ==> (w[t], w[t + 1]) in g
  }

  ghost predicate WalkBetween(g: Edges, w: seq<Node>, i: Node, j: Node) {
    IsWalk(g, w) && w[0] == i && w[|w| - 1] == j
  }

  // Every node strictly between the two ends lies in `allowed`.
  ghost predicate InteriorIn(w: seq<Node>, allowed: set<Node>) {
    forall t :: 0 < t < |w| - 1 ==> w[t] in allowed
  }

  ghost predicate HasWalk(g: Edges, i: Node, j: Node, hops: nat) {
    exists w :: WalkBetween(g, w, i, j) && |w| == hops + 1
  }

  ghost predicate NoWalk(g: Edges, i: Node, j: Node) {
    forall w :: !WalkBetween(g, w, i, j)
  }

  // `hops` is the length of a shortest walk from i to j.
  ghost predicate IsDistance(g: Edges, i: Node, j: Node, hops: nat) {
    HasWalk(g, i, j, hops) && forall w :: WalkBetween(g, w, i, j) ==> hops <= |w| - 1
  }

  ghost predicate Distinct<T>(s: seq<T>) {
    forall a, b :: 0 <= a < b < |s| ==> s[a] != s[b]
  }

  lemma JoinWalks(g: Edges, u: seq<Node>, v: seq<Node>, i: Node, k: Node, j: Node)
    requires WalkBetween(g, u, i, k) && WalkBetween(g, v, k, j)
    ensures WalkBetween(g, u + v[1..], i, j)
  {
    var w := u + v[1..];
    forall t | 0 <= t < |w| - 1
      ensures (w[t], w[t + 1]) in g
    {
      if t >= |u| - 1 {
        assert w[t] == v[t - (|u| - 1)];
        assert w[t + 1] == v[t + 1 - (|u| - 1)];
      }
    }
  }

  lemma HasWalkJoin(g: Edges, i: Node, k: Node, j: Node, a: nat, b: nat)
    requires HasWalk(g, i, k, a) && HasWalk(g, k, j, b)
    ensures HasWalk(g, i, j, a + b)
  {
    var u :| WalkBetween(g, u, i, k) && |u| == a + 1;
    var v :| WalkBetween(g, v, k, j) && |v| == b + 1;
    JoinWalks(g, u, v, i, k, j);
    assert |u + v[1..]| == a + b + 1;
  }

  // A walk through `allowed + {k}` that is not already through `allowed` splits at k into two
  // walks through `allowed` that together are no longer: cut out everything between the first
  // and the last visit to k.
  lemma SplitAt(g: Edges, w: seq<Node>, i: Node, j: Node, allowed: set<Node>, k: Node)
    returns (u: seq<Node>, v: seq<Node>)
    requires WalkBetween(g, w, i, j) && InteriorIn(w, allowed + {k}) && !InteriorIn(w, allowed)
    ensures WalkBetween(g, u, i, k) && InteriorIn(u, allowed)
    ensures WalkBetween(g, v, k, j) && InteriorIn(v, allowed)
    ensures |u| - 1 + |v| - 1 <= |w| - 1
  {
    var t :| 0 < t < |w| - 1 && w[t] !in allowed;
    var first, last := t, t;
    while exists s :: 0 < s < first && w[s] == k
      invariant 0 < first <= t && w[first] == k
      decreases first
    {
      var s :| 0 < s < first && w[s] == k;
      first := s;
    }
    while exists s :: last < s < |w| - 1 && w[s] == k
      invariant t <= last < |w| - 1 && w[last] == k
      decreases |w| - last
    {
      var s :| last < s < |w| - 1 && w[s] == k;
      last := s;
    }
    u, v := w[..first + 1], w[last..];
  }

  // A shortest walk never visits a node twice: the loop between two visits could be cut out.
  lemma ShortestIsSimple(g: Edges, w: seq<Node>, i: Node, j: Node)
    requires WalkBetween(g, w, i, j)
    requires forall v :: WalkBetween(g, v, i, j) ==> |w| <= |v|
    ensures Distinct(w)
  {
    forall a, b | 0 <= a < b < |w|
      ensures w[a] != w[b]
    {
      if w[a] == w[b] {
        var u, v := w[..a + 1], w[b..];
        assert WalkBetween(g, u, i, w[a]) && WalkBetween(g, v, w[b], j);
        assert |u + v[1..]| < |w|;
        JoinWalks(g, u, v, i, w[a], j);
      }
    }
  }
}
