// All-pairs shortest paths as lab4/pox/pox/forwarding/l2_multi.py computes and unrolls them:
// a Floyd-Warshall pass that remembers, for each improved pair, the switch it went through.
module L2Paths {
  import Options
  import opened Walks

  type Port = int

  // adjacency[sw1][sw2]: an absent key and a key holding None both read as None.
  type Adjacency = map<(Node, Node), Options.Option<Port>>

  // path_map[sw1][sw2] = (distance, intermediate).
  datatype Entry = Entry(dist: Options.Option<nat>, via: Options.Option<Node>)
  type PathMap = map<(Node, Node), Entry>

  function PortTo(adj: Adjacency, a: Node, b: Node): Options.Option<Port> {
    if (a, b) in adj then adj[(a, b)] else Options.None
  }

  function Lookup(pm: PathMap, i: Node, j: Node): Entry {
    if (i, j) in pm then pm[(i, j)] else Entry(Options.None, Options.None)
  }

  function Dist(pm: PathMap, i: Node, j: Node): Options.Option<nat> {
    Lookup(pm, i, j).dist
  }

  // The pairs joined by a port.
  function EdgesOf(adj: Adjacency): Edges {
    set p | p in adj && adj[p].Some?
  }

  // ---- What the finished table means ----------------------------------------------------

  // Distances are exact and None means unreachable.
  ghost predicate Exact(pm: PathMap, g: Edges, sws: set<Node>) {
    forall i, j :: i in sws && j in sws ==> ExactAt(pm, g, i, j)
  }

  ghost predicate ExactAt(pm: PathMap, g: Edges, i: Node, j: Node) {
    match Dist(pm, i, j)
    case None => NoWalk(g, i, j)
    case Some(n) => IsDistance(g, i, j, n)
  }

  // What makes unrolling the intermediates terminate: both halves are known, neither half is
  // the whole, and together they are no longer than the recorded distance.
  ghost predicate ViaOk(pm: PathMap, g: Edges) {
    forall i, j {:trigger ViaOkAt(pm, g, i, j)} :: i != j && Dist(pm, i, j).Some? ==> ViaOkAt(pm, g, i, j)
  }

  ghost predicate ViaOkAt(pm: PathMap, g: Edges, i: Node, j: Node)
    requires Dist(pm, i, j).Some?
  {
    && Dist(pm, i, j).value >= 1
    && match Lookup(pm, i, j).via
       case None => Dist(pm, i, j).value == 1 && (i, j) in g
       case Some(k) =>
         && k != i && k != j
         && Dist(pm, i, k).Some? && Dist(pm, k, j).Some?
         && Dist(pm, i, k).value + Dist(pm, k, j).value <= Dist(pm, i, j).value
  }

  ghost predicate Within(pm: PathMap, sws: set<Node>) {
    forall p :: p in pm ==> p.0 in sws && p.1 in sws
  }

  ghost predicate ZeroDiagonal(pm: PathMap, sws: set<Node>) {
    forall i :: i in sws ==> Dist(pm, i, i) == Options.Some(0)
  }

  // Every recorded distance is realised by some walk.
  ghost predicate Sound(pm: PathMap, g: Edges, sws: set<Node>) {
    forall i, j :: i in sws && j in sws && Dist(pm, i, j).Some? ==>
      HasWalk(g, i, j, Dist(pm, i, j).value)
  }

  // No walk with interior in `done` beats the recorded distance.
  ghost predicate CompleteVia(pm: PathMap, g: Edges, sws: set<Node>, done: set<Node>) {
    forall i, j, w :: i in sws && j in sws && WalkBetween(g, w, i, j) && InteriorIn(w, done) ==>
      Dist(pm, i, j).Some? && Dist(pm, i, j).value <= |w| - 1
  }

  // The invariant of the outermost loop after the intermediates in `done` have been tried.
  ghost predicate StageInv(pm: PathMap, g: Edges, sws: set<Node>, done: set<Node>) {
    && ZeroDiagonal(pm, sws)
    && Sound(pm, g, sws)
    && CompleteVia(pm, g, sws, done)
    && Within(pm, sws)
    && ViaOk(pm, g)
  }

  // ---- One outer iteration --------------------------------------------------------------

  function Relaxed(pm: PathMap, k: Node, i: Node, j: Node): Entry {
    var a, b := Dist(pm, i, k), Dist(pm, k, j);
    if a.Some? && b.Some? && (Dist(pm, i, j).None? || a.value + b.value < Dist(pm, i, j).value)
    then Entry(Options.Some(a.value + b.value), Options.Some(k))
    else Lookup(pm, i, j)
  }

  // Row and column k are not changed by relaxing through k, so relaxing in place sees the same
  // values as relaxing a copy.
  lemma RelaxedFixesCross(pm: PathMap, sws: set<Node>, k: Node)
    requires ZeroDiagonal(pm, sws) && k in sws
    ensures forall i :: i in sws ==> Relaxed(pm, k, i, k) == Lookup(pm, i, k)
    ensures forall j :: j in sws ==> Relaxed(pm, k, k, j) == Lookup(pm, k, j)
  {
  }

  ghost predicate IsStage(before: PathMap, after: PathMap, sws: set<Node>, k: Node) {
    && Within(after, sws)
    && forall i, j :: i in sws && j in sws ==> Lookup(after, i, j) == Relaxed(before, k, i, j)
  }

  // A stage in progress: the rows in `rows`, and of row `row` the columns in `cols`, are relaxed.
  ghost predicate StagePartly(pm: PathMap, before: PathMap, sws: set<Node>, k: Node,
                              rows: set<Node>, row: Node, cols: set<Node>)
  {
    && Within(pm, sws)
    && forall i, j :: i in sws && j in sws ==>
         Lookup(pm, i, j) ==
         if i in rows || (i == row && j in cols) then Relaxed(before, k, i, j) else Lookup(before, i, j)
  }

  lemma StageStep(pm: PathMap, pm': PathMap, before: PathMap, sws: set<Node>, k: Node,
                  rows: set<Node>, i: Node, cols: set<Node>, j: Node)
    requires ZeroDiagonal(before, sws) && {k, i, j} <= sws
    requires StagePartly(pm, before, sws, k, rows, i, cols)
    requires pm' == pm || pm' == pm[(i, j) := Relaxed(pm, k, i, j)]
    requires Lookup(pm', i, j) == Relaxed(pm, k, i, j)
    ensures StagePartly(pm', before, sws, k, rows, i, cols + {j})
  {
    RelaxedFixesCross(before, sws, k);
    assert k in sws && i in sws && j in sws;
    assert Lookup(pm, i, k) == Lookup(before, i, k) && Lookup(pm, k, j) == Lookup(before, k, j);
    assert Lookup(pm, i, j) == Lookup(before, i, j) || Lookup(pm, i, j) == Relaxed(before, k, i, j);
    assert Lookup(pm', i, j) == Relaxed(before, k, i, j);
    forall x, y | x in sws && y in sws && (x, y) != (i, j)
      ensures Lookup(pm', x, y) == Lookup(pm, x, y)
    {
    }
  }

  lemma StageRowDone(pm: PathMap, before: PathMap, sws: set<Node>, k: Node, rows: set<Node>, i: Node)
    requires StagePartly(pm, before, sws, k, rows, i, sws)
    ensures StagePartly(pm, before, sws, k, rows + {i}, k, {})
  {
  }

  lemma StageSound(pm: PathMap, pm': PathMap, g: Edges, sws: set<Node>, k: Node)
    requires Sound(pm, g, sws) && k in sws && IsStage(pm, pm', sws, k)
    ensures Sound(pm', g, sws)
  {
    forall i, j | i in sws && j in sws && Dist(pm', i, j).Some?
      ensures HasWalk(g, i, j, Dist(pm', i, j).value)
    {
      if Lookup(pm', i, j) != Lookup(pm, i, j) {
        HasWalkJoin(g, i, k, j, Dist(pm, i, k).value, Dist(pm, k, j).value);
      }
    }
  }

  lemma StageComplete(pm: PathMap, pm': PathMap, g: Edges, sws: set<Node>, done: set<Node>, k: Node)
    requires CompleteVia(pm, g, sws, done) && k in sws && IsStage(pm, pm', sws, k)
    ensures CompleteVia(pm', g, sws, done + {k})
  {
    forall i, j, w | i in sws && j in sws && WalkBetween(g, w, i, j) && InteriorIn(w, done + {k})
      ensures Dist(pm', i, j).Some? && Dist(pm', i, j).value <= |w| - 1
    {
      if !InteriorIn(w, done) {
        var u, v := SplitAt(g, w, i, j, done, k);
        assert Dist(pm, i, k).Some? && Dist(pm, i, k).value <= |u| - 1;
        assert Dist(pm, k, j).Some? && Dist(pm, k, j).value <= |v| - 1;
      }
    }
  }

  lemma StageVia(pm: PathMap, pm': PathMap, g: Edges, sws: set<Node>, k: Node)
    requires ViaOk(pm, g) && ZeroDiagonal(pm, sws) && Within(pm, sws) && k in sws && IsStage(pm, pm', sws, k)
    ensures ViaOk(pm', g)
  {
    forall i, j | i != j && Dist(pm', i, j).Some?
      ensures ViaOkAt(pm', g, i, j)
    {
      assert i in sws && j in sws;
      RelaxedFixesCross(pm, sws, k);
      assert Dist(pm, i, j).Some? ==> ViaOkAt(pm, g, i, j);
      if i != k && k != j {
        assert Dist(pm, i, k).Some? ==> ViaOkAt(pm, g, i, k);
        assert Dist(pm, k, j).Some? ==> ViaOkAt(pm, g, k, j);
      }
    }
  }

  lemma StageKeeps(pm: PathMap, pm': PathMap, g: Edges, sws: set<Node>, done: set<Node>, k: Node)
    requires StageInv(pm, g, sws, done) && k in sws && IsStage(pm, pm', sws, k)
    ensures StageInv(pm', g, sws, done + {k})
  {
    StageSound(pm, pm', g, sws, k);
    StageComplete(pm, pm', g, sws, done, k);
    StageVia(pm, pm', g, sws, k);
  }

  lemma StagesDone(pm: PathMap, g: Edges, sws: set<Node>)
    requires Sound(pm, g, sws) && CompleteVia(pm, g, sws, sws)
    requires forall e :: e in g ==> e.0 in sws && e.1 in sws
    ensures Exact(pm, g, sws)
  {
    forall i, j | i in sws && j in sws
      ensures ExactAt(pm, g, i, j)
    {
      forall w | WalkBetween(g, w, i, j)
        ensures Dist(pm, i, j).Some? && Dist(pm, i, j).value <= |w| - 1
      {
        forall t | 0 < t < |w| - 1
          ensures w[t] in sws
        {
          assert (w[t], w[t + 1]) in g;
        }
        assert InteriorIn(w, sws);
      }
    }
  }

  // ---- Initialisation -------------------------------------------------------------------

  // What the first loop leaves: one hop per port, then zero on the diagonal.
  ghost predicate IsInitial(pm: PathMap, adj: Adjacency, sws: set<Node>) {
    && Within(pm, sws)
    && forall i, j :: i in sws && j in sws ==> Lookup(pm, i, j) == InitialEntry(adj, i, j)
  }

  function InitialEntry(adj: Adjacency, i: Node, j: Node): Entry {
    if i == j then Entry(Options.Some(0), Options.None)
    else if PortTo(adj, i, j).Some? then Entry(Options.Some(1), Options.None)
    else Entry(Options.None, Options.None)
  }

  lemma InteriorNeedsNodes(w: seq<Node>, allowed: set<Node>)
    requires InteriorIn(w, allowed) && |w| > 2
    ensures allowed != {}
  {
    assert w[1] in allowed;
  }

  lemma InitialInv(pm: PathMap, adj: Adjacency, sws: set<Node>)
    requires IsInitial(pm, adj, sws)
    ensures StageInv(pm, EdgesOf(adj), sws, {})
  {
    var g := EdgesOf(adj);
    forall i, j | i in sws && j in sws && Dist(pm, i, j).Some?
      ensures HasWalk(g, i, j, Dist(pm, i, j).value)
    {
      assert WalkBetween(g, [i], i, i);
      if i != j {
        assert WalkBetween(g, [i, j], i, j);
      }
    }
    forall i, j, w | i in sws && j in sws && WalkBetween(g, w, i, j) && InteriorIn(w, {})
      ensures Dist(pm, i, j).Some? && Dist(pm, i, j).value <= |w| - 1
    {
      if |w| > 2 {
        InteriorNeedsNodes(w, {});
      } else if |w| == 2 {
        assert (w[0], w[1]) in g;
      }
    }
  }

  // ---- Unrolling the intermediates ------------------------------------------------------

  // _get_raw_path once the table is filled: the switches strictly between src and dst.
  function RawPath(pm: PathMap, ghost g: Edges, src: Node, dst: Node): (r: Options.Option<seq<Node>>)
    requires ViaOk(pm, g)
    ensures src != dst ==> (r.Some? <==> Dist(pm, src, dst).Some?)
    decreases if src != dst && Dist(pm, src, dst).Some? then Dist(pm, src, dst).value else 0
  {
    if src == dst then Options.Some([])
    else if Dist(pm, src, dst).None? then Options.None
    else
      assert ViaOkAt(pm, g, src, dst);
      match Lookup(pm, src, dst).via
      case None => Options.Some([])
      case Some(k) =>
        assert ViaOkAt(pm, g, src, k) && ViaOkAt(pm, g, k, dst);
        Options.Some(RawPath(pm, g, src, k).value + [k] + RawPath(pm, g, k, dst).value)
  }

  // The unrolled path is a walk and takes no more hops than the table says.
  lemma {:induction false} RawPathIsWalk(pm: PathMap, g: Edges, src: Node, dst: Node)
    requires ViaOk(pm, g) && src != dst && Dist(pm, src, dst).Some?
    ensures var p := RawPath(pm, g, src, dst).value;
            WalkBetween(g, [src] + p + [dst], src, dst) && |p| + 1 <= Dist(pm, src, dst).value
    decreases Dist(pm, src, dst).value
  {
    assert ViaOkAt(pm, g, src, dst);
    match Lookup(pm, src, dst).via {
      case None =>
      case Some(k) =>
        assert ViaOkAt(pm, g, src, k) && ViaOkAt(pm, g, k, dst);
        RawPathIsWalk(pm, g, src, k);
        RawPathIsWalk(pm, g, k, dst);
        var u := [src] + RawPath(pm, g, src, k).value + [k];
        var v := [k] + RawPath(pm, g, k, dst).value + [dst];
        JoinWalks(g, u, v, src, k, dst);
        assert u + v[1..] == [src] + RawPath(pm, g, src, dst).value + [dst];
    }
  }

  // With exact distances the unrolled path is a shortest one and visits no switch twice.
  lemma RawPathIsShortest(pm: PathMap, g: Edges, sws: set<Node>, src: Node, dst: Node)
    requires ViaOk(pm, g) && Exact(pm, g, sws)
    requires src in sws && dst in sws && src != dst && Dist(pm, src, dst).Some?
    ensures var w := [src] + RawPath(pm, g, src, dst).value + [dst];
            && WalkBetween(g, w, src, dst) && Distinct(w)
            && |w| == Dist(pm, src, dst).value + 1
  {
    RawPathIsWalk(pm, g, src, dst);
    assert ExactAt(pm, g, src, dst);
    ShortestIsSimple(g, [src] + RawPath(pm, g, src, dst).value + [dst], src, dst);
  }
}
