// The state shared by lab4/pox/pox/forwarding/l2_multi.py and the discovery component that
// feeds it (lab4/pox/pox/openflow/discovery.py).  Valid() is the promise every handler keeps:
// `adjacency` is an exact index of the links seen in both directions, and `pathMap`, when it is
// not empty, holds the exact distances of the current adjacency.
module L2Multi {
  import opened Options
  import opened Sets
  import opened Walks
  import opened L2Paths

  datatype Mac = EthAddr(octets: seq<int>)

  // One direction of a cable, as a probe packet reveals it.
  datatype Link = Link(dpid1: Node, port1: Port, dpid2: Node, port2: Port)

  const LINK_TIMEOUT := 10

  function Flip(l: Link): Link {
    Link(l.dpid2, l.port2, l.dpid1, l.port1)
  }

  predicate BothWays(l: Link, links: set<Link>) {
    l in links && Flip(l) in links
  }

  // l joins a to b in both directions and leaves a through port p.
  predicate Joins(l: Link, links: set<Link>, a: Node, b: Node) {
    BothWays(l, links) && l.dpid1 == a && l.dpid2 == b
  }

  // adjacency[a][b] is a port exactly when some link between a and b is live both ways, and it
  // is the port of such a link.
  ghost predicate IndexAt(adj: Adjacency, links: set<Link>, a: Node, b: Node) {
    match PortTo(adj, a, b)
    case None => forall l :: !Joins(l, links, a, b)
    case Some(p) => exists l :: Joins(l, links, a, b) && l.port1 == p
  }

  ghost predicate ExactIndex(adj: Adjacency, links: set<Link>) {
    forall a, b :: IndexAt(adj, links, a, b)
  }

  // Only the entries of the two ends of a link may change when it comes or goes.
  ghost predicate SameElsewhere(adj: Adjacency, adj': Adjacency, l: Link) {
    forall a, b :: (a, b) != (l.dpid1, l.dpid2) && (a, b) != (l.dpid2, l.dpid1) ==>
      PortTo(adj', a, b) == PortTo(adj, a, b)
  }

  lemma IndexElsewhere(adj: Adjacency, links: set<Link>, links': set<Link>, l: Link, a: Node, b: Node)
    requires IndexAt(adj, links, a, b)
    requires links - {l} == links' - {l}
    requires (a, b) != (l.dpid1, l.dpid2) && (a, b) != (l.dpid2, l.dpid1)
    ensures IndexAt(adj, links', a, b)
  {
    forall m
      ensures Joins(m, links, a, b) <==> Joins(m, links', a, b)
    {
      if m != l && m != Flip(l) {
        assert m in links <==> m in links - {l};
        assert Flip(m) in links <==> Flip(m) in links - {l};
      }
    }
  }

  // Joining a to b is joining b to a with the link read backwards.
  lemma JoinsFlipped(m: Link, links: set<Link>, a: Node, b: Node)
    requires Joins(m, links, a, b)
    ensures Joins(Flip(m), links, b, a) && Flip(m).port1 == m.port2
  {
  }

  // Recording the ports of a link that joins the two ends restores the index.
  lemma IndexSet(adj: Adjacency, adj': Adjacency, links: set<Link>, links': set<Link>, l: Link, m: Link)
    requires ExactIndex(adj, links) && links - {l} == links' - {l}
    requires SameElsewhere(adj, adj', l)
    requires Joins(m, links', l.dpid1, l.dpid2)
    requires PortTo(adj', l.dpid2, l.dpid1) == Some(m.port2)
    requires l.dpid1 != l.dpid2 ==> PortTo(adj', l.dpid1, l.dpid2) == Some(m.port1)
    ensures ExactIndex(adj', links')
  {
    JoinsFlipped(m, links', l.dpid1, l.dpid2);
    forall a, b
      ensures IndexAt(adj', links', a, b)
    {
      if (a, b) != (l.dpid1, l.dpid2) && (a, b) != (l.dpid2, l.dpid1) {
        assert IndexAt(adj, links, a, b);
        IndexElsewhere(adj, links, links', l, a, b);
      }
    }
  }

  // So does recording nothing when no link joins them.
  lemma IndexCleared(adj: Adjacency, adj': Adjacency, links: set<Link>, links': set<Link>, l: Link)
    requires ExactIndex(adj, links) && links - {l} == links' - {l}
    requires SameElsewhere(adj, adj', l)
    requires forall m :: !Joins(m, links', l.dpid1, l.dpid2)
    requires PortTo(adj', l.dpid1, l.dpid2) == PortTo(adj', l.dpid2, l.dpid1) == None
    ensures ExactIndex(adj', links')
  {
    forall m
      ensures !Joins(m, links', l.dpid2, l.dpid1)
    {
      if Joins(m, links', l.dpid2, l.dpid1) {
        JoinsFlipped(m, links', l.dpid2, l.dpid1);
      }
    }
    forall a, b
      ensures IndexAt(adj', links', a, b)
    {
      if (a, b) != (l.dpid1, l.dpid2) && (a, b) != (l.dpid2, l.dpid1) {
        assert IndexAt(adj, links, a, b);
        IndexElsewhere(adj, links, links', l, a, b);
      }
    }
  }

  // A new link needs no attention when its ends are already joined.
  lemma IndexKept(adj: Adjacency, links: set<Link>, l: Link)
    requires ExactIndex(adj, links) && PortTo(adj, l.dpid1, l.dpid2).Some?
    ensures ExactIndex(adj, links + {l})
  {
    var links' := links + {l};
    assert IndexAt(adj, links, l.dpid1, l.dpid2) && IndexAt(adj, links, l.dpid2, l.dpid1);
    var m :| Joins(m, links, l.dpid1, l.dpid2) && m.port1 == PortTo(adj, l.dpid1, l.dpid2).value;
    JoinsFlipped(m, links, l.dpid1, l.dpid2);
    var back :| Joins(back, links, l.dpid2, l.dpid1) && Some(back.port1) == PortTo(adj, l.dpid2, l.dpid1);
    assert Joins(m, links', l.dpid1, l.dpid2) && Joins(back, links', l.dpid2, l.dpid1);
    forall a, b
      ensures IndexAt(adj, links', a, b)
    {
      if (a, b) != (l.dpid1, l.dpid2) && (a, b) != (l.dpid2, l.dpid1) {
        assert IndexAt(adj, links, a, b);
        IndexElsewhere(adj, links, links', l, a, b);
      }
    }
  }

  // The two ends are unjoined in both tables, or joined in both.
  lemma IndexSymmetric(adj: Adjacency, links: set<Link>, a: Node, b: Node)
    requires ExactIndex(adj, links)
    ensures PortTo(adj, a, b).Some? <==> PortTo(adj, b, a).Some?
  {
    assert IndexAt(adj, links, a, b) && IndexAt(adj, links, b, a);
    if PortTo(adj, a, b).Some? {
      var m :| Joins(m, links, a, b);
      JoinsFlipped(m, links, a, b);
    } else if PortTo(adj, b, a).Some? {
      var m :| Joins(m, links, b, a);
      JoinsFlipped(m, links, b, a);
    }
  }

  // The switches the cached table was computed for.
  function Known(pm: PathMap): set<Node> {
    set p | p in pm && p.0 == p.1 :: p.0
  }

  ghost predicate CacheExact(pm: PathMap, adj: Adjacency) {
    && Within(pm, Known(pm))
    && ViaOk(pm, EdgesOf(adj))
    && Exact(pm, EdgesOf(adj), Known(pm))
    && forall e :: e in EdgesOf(adj) ==> e.0 in Known(pm) && e.1 in Known(pm)
  }

  // r lists (switch, port) hops along the walk w, each leaving through adjacency's port and the
  // last through finalPort.
  ghost predicate Cooked(r: seq<(Node, Option<Port>)>, w: seq<Node>, adj: Adjacency, finalPort: Port) {
    && |r| == |w| >= 1
    && (forall t :: 0 <= t < |w| ==> r[t].0 == w[t])
    && (forall t :: 0 <= t < |w| - 1 ==> r[t].1 == PortTo(adj, w[t], w[t + 1]))
    && r[|w| - 1].1 == Some(finalPort)
  }

  // What _get_path promises: None exactly when dst is unreachable, and otherwise a shortest,
  // repeat-free path all of whose inner hops leave through a real port.
  ghost predicate GoodPath(
    r: Option<seq<(Node, Option<Port>)>>, adj: Adjacency, src: Node, dst: Node, finalPort: Port)
  {
    var g := EdgesOf(adj);
    match r
    case None => NoWalk(g, src, dst)
    case Some(hops) =>
      exists w: seq<Node> :: WalkBetween(g, w, src, dst) && Distinct(w) && IsDistance(g, src, dst, |w| - 1)
               && Cooked(hops, w, adj, finalPort)
  }

  // _check_path: every hop but the last leaves through the adjacency's port.
  predicate CheckPath(r: seq<(Node, Option<Port>)>, adj: Adjacency) {
    forall t :: 0 <= t < |r| - 1 ==> PortTo(adj, r[t].0, r[t + 1].0) == r[t].1
  }

  class Controller {
    var switches: seq<Node>
    var adjacency: Adjacency
    var pathMap: PathMap
    var macMap: map<Mac, (Node, Port)>
    var links: map<Link, int>
    var connected: set<Node>

    ghost predicate EdgesKnown()
      reads this
    {
      forall e :: e in EdgesOf(adjacency) ==> e.0 in switches && e.1 in switches
    }

    ghost predicate Consistent()
      reads this
    {
      && Distinct(switches)
      && connected <= SetOf(switches)
      && (forall l :: l in links ==> l.dpid1 in switches && l.dpid2 in switches)
      && EdgesKnown()
      && (pathMap != map[] ==> CacheExact(pathMap, adjacency) && Known(pathMap) <= SetOf(switches))
    }

    ghost predicate Valid()
      reads this
    {
      && Consistent()
      && ExactIndex(adjacency, links.Keys)
      && (forall l :: l in links ==> l.dpid1 in connected && l.dpid2 in connected)
    }

    constructor ()
      ensures Valid() && switches == [] && links == map[] && macMap == map[] && connected == {}
    {
      switches, adjacency, pathMap, macMap, links, connected := [], map[], map[], map[], map[], {};
    }

    // The first loop of _calc_paths.
    method StartPaths()
      requires EdgesKnown() && Distinct(switches)
      modifies this`pathMap
      ensures IsInitial(pathMap, adjacency, SetOf(switches))
    {
      ghost var nodes := SetOf(switches);
      pathMap := map[];
      for a := 0 to |switches|
        invariant Within(pathMap, nodes)
        invariant forall i: Node, j: Node :: i in nodes && j in nodes ==>
                    Lookup(pathMap, i, j) ==
                      if i in switches[..a] then InitialEntry(adjacency, i, j) else Entry(None, None)
      {
        StartRow(switches[a]);
        assert forall i :: i in switches[..a + 1] <==> i in switches[..a] || i == switches[a];
      }
      assert switches[..|switches|] == switches;
    }

    method StartRow(k: Node)
      requires EdgesKnown() && k in switches
      requires Within(pathMap, SetOf(switches))
      requires forall j: Node :: Lookup(pathMap, k, j) == Entry(None, None)
      modifies this`pathMap
      ensures Within(pathMap, SetOf(switches))
      ensures forall i: Node, j: Node :: Lookup(pathMap, i, j) ==
                if i == k then InitialEntry(adjacency, i, j) else Lookup(old(pathMap), i, j)
    {
      var row := set p | p in adjacency && p.0 == k;
      ghost var all := row;
      while row != {}
        invariant row <= all && Within(pathMap, SetOf(switches))
        invariant forall i: Node, j: Node :: Lookup(pathMap, i, j) ==
                    if (i, j) in all - row && PortTo(adjacency, i, j).Some? then Entry(Some(1), None)
                    else Lookup(old(pathMap), i, j)
        decreases row
      {
        var p :| p in row;
        row := row - {p};
        if adjacency[p].Some? {
          assert p in EdgesOf(adjacency);
          pathMap := pathMap[p := Entry(Some(1), None)];
        }
      }
      pathMap := pathMap[(k, k) := Entry(Some(0), None)];
    }

    // One round of the outer loop.  The two inner loops read a row and a column they may
    // already have rewritten, which is harmless: a zero diagonal fixes both.
    method RelaxThrough(k: Node)
      requires k in switches && ZeroDiagonal(pathMap, SetOf(switches)) && Within(pathMap, SetOf(switches))
      modifies this`pathMap
      ensures IsStage(old(pathMap), pathMap, SetOf(switches), k)
    {
      var sws := switches;
      ghost var nodes, before := SetOf(sws), pathMap;
      for b := 0 to |sws|
        invariant StagePartly(pathMap, before, nodes, k, SetOf(sws[..b]), k, {})
      {
        RelaxRow(k, sws[b], before, SetOf(sws[..b]));
        StageRowDone(pathMap, before, nodes, k, SetOf(sws[..b]), sws[b]);
        assert SetOf(sws[..b + 1]) == SetOf(sws[..b]) + {sws[b]};
      }
      assert sws[..|sws|] == sws;
    }

    method RelaxRow(k: Node, i: Node, ghost before: PathMap, ghost rows: set<Node>)
      requires {k, i} <= SetOf(switches) && ZeroDiagonal(before, SetOf(switches))
      requires StagePartly(pathMap, before, SetOf(switches), k, rows, i, {})
      modifies this`pathMap
      ensures StagePartly(pathMap, before, SetOf(switches), k, rows, i, SetOf(switches))
    {
      var sws := switches;
      ghost var nodes := SetOf(sws);
      for c := 0 to |sws|
        invariant StagePartly(pathMap, before, nodes, k, rows, i, SetOf(sws[..c]))
      {
        var j := sws[c];
        ghost var now := pathMap;
        if Dist(pathMap, i, k).Some? {
          if Dist(pathMap, k, j).Some? {
            var through := Dist(pathMap, i, k).value + Dist(pathMap, k, j).value;
            if Dist(pathMap, i, j).None? || through < Dist(pathMap, i, j).value {
              pathMap := pathMap[(i, j) := Entry(Some(through), Some(k))];
            }
          }
        }
        StageStep(now, pathMap, before, nodes, k, rows, i, SetOf(sws[..c]), j);
        assert SetOf(sws[..c + 1]) == SetOf(sws[..c]) + {j};
      }
      assert sws[..|sws|] == sws;
    }

    method Stage(k: Node, ghost done: set<Node>)
      requires k in switches && StageInv(pathMap, EdgesOf(adjacency), SetOf(switches), done)
      modifies this`pathMap
      ensures StageInv(pathMap, EdgesOf(adjacency), SetOf(switches), done + {k})
    {
      RelaxThrough(k);
      StageKeeps(old(pathMap), pathMap, EdgesOf(adjacency), SetOf(switches), done, k);
    }

    // Floyd-Warshall over the switches in dictionary order.
    method CalcPaths()
      requires Consistent()
      modifies this`pathMap
      ensures Consistent()
      ensures Known(pathMap) == SetOf(switches)
      ensures CacheExact(pathMap, adjacency)
      ensures switches != [] ==> pathMap != map[]
    {
      var sws := switches;
      ghost var nodes, g := SetOf(sws), EdgesOf(adjacency);
      StartPaths();
      InitialInv(pathMap, adjacency, nodes);
      assert SetOf(sws[..0]) == {};
      for a := 0 to |sws|
        invariant StageInv(pathMap, g, nodes, SetOf(sws[..a]))
      {
        Stage(sws[a], SetOf(sws[..a]));
        assert SetOf(sws[..a + 1]) == SetOf(sws[..a]) + {sws[a]};
      }
      assert sws[..|sws|] == sws;
      assert sws != [] ==> sws[0] in nodes;
      CacheFilled(pathMap, adjacency, nodes);
    }

    // _get_raw_path: fill the cache if a link event emptied it, then unroll.
    method GetRawPath(src: Node, dst: Node) returns (r: Option<seq<Node>>)
      requires Consistent() && src in switches && dst in switches
      modifies this`pathMap
      ensures Consistent() && CacheExact(pathMap, adjacency)
      ensures r == RawPath(pathMap, EdgesOf(adjacency), src, dst)
    {
      if pathMap == map[] {
        CalcPaths();
      }
      r := RawPath(pathMap, EdgesOf(adjacency), src, dst);
    }

    // _get_path.  Its closing assertion, CheckPath, always succeeds.
    method GetPath(src: Node, dst: Node, finalPort: Port) returns (r: Option<seq<(Node, Option<Port>)>>)
      requires Consistent() && src in switches && dst in switches
      modifies this`pathMap
      ensures Consistent()
      ensures GoodPath(r, adjacency, src, dst, finalPort)
      ensures r.Some? ==> CheckPath(r.value, adjacency)
    {
      var path := [src];
      if src != dst {
        var raw := GetRawPath(src, dst);
        RawPathMeaning(pathMap, adjacency, src, dst);
        if raw == None {
          return None;
        }
        path := [src] + raw.value + [dst];
      } else {
        TrivialWalk(EdgesOf(adjacency), src);
      }
      var hops := Cook(path, finalPort);
      r := Some(hops);
    }

    // The loop of _get_path that looks the ports up.
    method Cook(path: seq<Node>, finalPort: Port) returns (hops: seq<(Node, Option<Port>)>)
      requires path != []
      ensures Cooked(hops, path, adjacency, finalPort) && CheckPath(hops, adjacency)
    {
      hops := [];
      for t := 0 to |path| - 1
        invariant |hops| == t
        invariant forall s :: 0 <= s < t ==> hops[s].0 == path[s]
        invariant forall s :: 0 <= s < t ==> hops[s].1 == PortTo(adjacency, path[s], path[s + 1])
      {
        hops := hops + [(path[t], PortTo(adjacency, path[t], path[t + 1]))];
      }
      hops := hops + [(path[|path| - 1], Some(finalPort))];
    }

    // _handle_ConnectionUp of both components.
    method ConnectionUp(dpid: Node)
      requires Valid() && dpid !in connected
      modifies this`switches, this`connected
      ensures Valid()
      ensures connected == old(connected) + {dpid}
      ensures SetOf(switches) == old(SetOf(switches)) + {dpid}
    {
      if dpid !in switches {
        switches := switches + [dpid];
      }
      connected := connected + {dpid};
    }

    // l2_multi's handler.  The discovery component has already changed `links`.
    method LinkEvent(added: bool, l: Link, ghost before: set<Link>)
      requires Consistent() && l.dpid1 in switches && l.dpid2 in switches
      requires ExactIndex(adjacency, before)
      requires links.Keys == if added then before + {l} else before - {l}
      modifies this`adjacency, this`pathMap, this`macMap
      ensures Consistent() && ExactIndex(adjacency, links.Keys) && pathMap == map[]
      ensures macMap == if added then Unlearned(old(macMap), l) else old(macMap)
    {
      pathMap := map[];
      if added {
        AddLink(l, before);
        Unlearn(l);
      } else {
        RemoveLink(l, before);
      }
    }

    // The tail of discovery's packet handler: a probe sent on one end of l arrived on the other.
    // One from a switch that has left, or that came straight back, is ignored.
    method LinkSeen(l: Link, now: int)
      requires Valid() && l.dpid2 in connected
      modifies this`links, this`adjacency, this`pathMap, this`macMap
      ensures Valid()
      ensures links == if l.dpid1 !in connected || (l.dpid1, l.port1) == (l.dpid2, l.port2) then old(links)
                       else old(links)[l := now]
      ensures links.Keys == old(links).Keys ==>
                adjacency == old(adjacency) && pathMap == old(pathMap) && macMap == old(macMap)
      ensures links.Keys != old(links).Keys ==> macMap == Unlearned(old(macMap), l)
    {
      if l.dpid1 !in connected {
        return;
      }
      if (l.dpid2, l.port2) == (l.dpid1, l.port1) {
        return;
      }
      if l !in links {
        links := links[l := now];
        LinkEvent(true, l, old(links).Keys);
      } else {
        links := links[l := now];
        assert links.Keys == old(links).Keys;
      }
    }

    // _deleteLinks: the index is exact again after every single deletion.
    method DeleteLinks(doomed: seq<Link>)
      requires Consistent() && ExactIndex(adjacency, links.Keys)
      requires Distinct(doomed) && forall l :: l in doomed ==> l in links
      modifies this`links, this`adjacency, this`pathMap, this`macMap
      ensures Consistent() && ExactIndex(adjacency, links.Keys)
      ensures links == old(links) - SetOf(doomed)
      ensures macMap == old(macMap)
    {
      for n := 0 to |doomed|
        invariant Consistent() && ExactIndex(adjacency, links.Keys)
        invariant links == old(links) - SetOf(doomed[..n])
        invariant macMap == old(macMap)
      {
        var l := doomed[n];
        assert l !in doomed[..n];
        assert SetOf(doomed[..n + 1]) == SetOf(doomed[..n]) + {l};
        DeleteLink(l);
      }
      assert doomed[..|doomed|] == doomed;
    }

    method DeleteLink(l: Link)
      requires Consistent() && ExactIndex(adjacency, links.Keys) && l in links
      modifies this`links, this`adjacency, this`pathMap, this`macMap
      ensures Consistent() && ExactIndex(adjacency, links.Keys)
      ensures links == old(links) - {l} && macMap == old(macMap)
    {
      ghost var before := links.Keys;
      links := links - {l};
      LinkEvent(false, l, before);
    }

    // The links of a dictionary that satisfy a test, in some order.
    method Doomed(stale: Link --> bool) returns (doomed: seq<Link>)
      requires forall l :: l in links ==> stale.requires(l)
      ensures Distinct(doomed)
      ensures forall l :: l in doomed <==> l in links && stale(l)
    {
      doomed := [];
      var todo := links.Keys;
      while todo != {}
        invariant todo <= links.Keys && Distinct(doomed)
        invariant forall l :: l in doomed <==> l in links && l !in todo && stale(l)
      {
        var l :| l in todo;
        todo := todo - {l};
        if stale(l) {
          doomed := doomed + [l];
        }
      }
    }

    // _expireLinks.
    method ExpireLinks(now: int)
      requires Valid()
      modifies this`links, this`adjacency, this`pathMap, this`macMap
      ensures Valid()
      ensures links == map l | l in old(links) && now - old(links)[l] <= LINK_TIMEOUT :: old(links)[l]
    {
      var seen := links;
      var doomed := Doomed((l: Link) requires l in seen => now - seen[l] > LINK_TIMEOUT);
      DeleteLinks(doomed);
    }

    // discovery's _handle_ConnectionDown.
    method ConnectionDown(dpid: Node)
      requires Valid() && dpid in connected
      modifies this`links, this`adjacency, this`pathMap, this`macMap, this`connected
      ensures Valid()
      ensures connected == old(connected) - {dpid}
      ensures links == map l | l in old(links) && l.dpid1 != dpid && l.dpid2 != dpid :: old(links)[l]
    {
      connected := connected - {dpid};
      var doomed := Doomed((l: Link) => l.dpid1 == dpid || l.dpid2 == dpid);
      DeleteLinks(doomed);
    }

    method AddLink(l: Link, ghost before: set<Link>)
      requires EdgesKnown() && l.dpid1 in switches && l.dpid2 in switches
      requires ExactIndex(adjacency, before) && links.Keys == before + {l}
      modifies this`adjacency
      ensures EdgesKnown() && ExactIndex(adjacency, links.Keys)
    {
      var sw1, sw2 := l.dpid1, l.dpid2;
      ghost var was := adjacency;
      if PortTo(adjacency, sw1, sw2) == None {
        IndexSymmetric(was, before, sw1, sw2);
        if Flip(l) in links {
          adjacency := adjacency[(sw1, sw2) := Some(l.port1)];
          adjacency := adjacency[(sw2, sw1) := Some(l.port2)];
          IndexSet(was, adjacency, before, links.Keys, l, l);
        } else {
          assert IndexAt(was, before, sw1, sw2);
          forall m
            ensures !Joins(m, links.Keys, sw1, sw2)
          {
            assert !Joins(m, before, sw1, sw2);
          }
          IndexCleared(was, adjacency, before, links.Keys, l);
        }
      } else {
        IndexKept(was, before, l);
      }
    }

    // Forget the pair, then look for another link that still joins it.
    method RemoveLink(l: Link, ghost before: set<Link>)
      requires EdgesKnown() && l.dpid1 in switches && l.dpid2 in switches
      requires ExactIndex(adjacency, before) && links.Keys == before - {l}
      modifies this`adjacency
      ensures EdgesKnown() && ExactIndex(adjacency, links.Keys)
    {
      var sw1, sw2 := l.dpid1, l.dpid2;
      ghost var was := adjacency;
      adjacency := adjacency - {(sw1, sw2)};
      adjacency := adjacency - {(sw2, sw1)};
      ghost var cleared := adjacency;
      var todo := links.Keys;
      while todo != {}
        invariant todo <= links.Keys && adjacency == cleared
        invariant forall m :: m in links.Keys - todo ==> !Joins(m, links.Keys, sw1, sw2)
      {
        var ll :| ll in todo;
        todo := todo - {ll};
        if ll.dpid1 == l.dpid1 && ll.dpid2 == l.dpid2 {
          if Flip(ll) in links {
            adjacency := adjacency[(sw1, sw2) := Some(ll.port1)];
            adjacency := adjacency[(sw2, sw1) := Some(ll.port2)];
            IndexSet(was, adjacency, before, links.Keys, l, ll);
            return;
          }
        }
      }
      IndexCleared(was, adjacency, before, links.Keys, l);
    }

    method Unlearn(l: Link)
      modifies this`macMap
      ensures macMap == Unlearned(old(macMap), l)
    {
      var badMacs := BadMacs(l);
      macMap := macMap - badMacs;
    }

    method BadMacs(l: Link) returns (badMacs: set<Mac>)
      ensures forall m :: m in badMacs <==> m in macMap && LearnedOn(macMap[m], l)
    {
      badMacs := {};
      var todo := macMap.Keys;
      while todo != {}
        invariant todo <= macMap.Keys
        invariant forall m :: m in badMacs <==> m in macMap && m !in todo && LearnedOn(macMap[m], l)
      {
        var mac :| mac in todo;
        todo := todo - {mac};
        if macMap[mac] == (l.dpid1, l.port1) {
          badMacs := badMacs + {mac};
        }
        if macMap[mac] == (l.dpid2, l.port2) {
          badMacs := badMacs + {mac};
        }
      }
    }
  }

  predicate LearnedOn(place: (Node, Port), l: Link) {
    place == (l.dpid1, l.port1) || place == (l.dpid2, l.port2)
  }

  // The learned addresses that survive l coming up: those not seen on either of its ends.
  function Unlearned(macs: map<Mac, (Node, Port)>, l: Link): (r: map<Mac, (Node, Port)>)
    ensures forall m :: m in r <==>
              m in macs && macs[m] != (l.dpid1, l.port1) && macs[m] != (l.dpid2, l.port2)
    ensures forall m :: m in r ==> r[m] == macs[m]
  {
    map m | m in macs && !LearnedOn(macs[m], l) :: macs[m]
  }

  lemma TrivialWalk(g: Edges, i: Node)
    ensures WalkBetween(g, [i], i, i) && Distinct([i]) && IsDistance(g, i, i, 0)
  {
    assert WalkBetween(g, [i], i, i) && |[i]| == 0 + 1;
  }

  lemma WalkEndsKnown(g: Edges, w: seq<Node>, i: Node, j: Node, known: set<Node>)
    requires WalkBetween(g, w, i, j) && i != j
    requires forall e :: e in g ==> e.0 in known && e.1 in known
    ensures i in known && j in known
  {
    assert (w[0], w[1]) in g && (w[|w| - 2], w[|w| - 2 + 1]) in g;
  }

  // What unrolling an exact cache yields, also for a switch that joined after it was filled.
  lemma RawPathMeaning(pm: PathMap, adj: Adjacency, src: Node, dst: Node)
    requires CacheExact(pm, adj) && src != dst
    ensures var g := EdgesOf(adj);
            match RawPath(pm, g, src, dst)
            case None => NoWalk(g, src, dst)
            case Some(p) =>
              var w := [src] + p + [dst];
              WalkBetween(g, w, src, dst) && Distinct(w) && IsDistance(g, src, dst, |w| - 1)
  {
    var g, known := EdgesOf(adj), Known(pm);
    if src in known && dst in known {
      assert ExactAt(pm, g, src, dst);
      if Dist(pm, src, dst).Some? {
        RawPathIsShortest(pm, g, known, src, dst);
      }
    } else {
      forall w | WalkBetween(g, w, src, dst)
        ensures false
      {
        WalkEndsKnown(g, w, src, dst, known);
      }
    }
  }

  lemma CacheFilled(pm: PathMap, adj: Adjacency, sws: set<Node>)
    requires StageInv(pm, EdgesOf(adj), sws, sws)
    requires forall e :: e in EdgesOf(adj) ==> e.0 in sws && e.1 in sws
    ensures Known(pm) == sws && CacheExact(pm, adj)
    ensures sws != {} ==> pm != map[]
  {
    if pm == map[] {
      assert Known(pm) == {};
    }
    KnownAll(pm, sws);
    StagesDone(pm, EdgesOf(adj), sws);
  }

  lemma KnownAll(pm: PathMap, sws: set<Node>)
    requires ZeroDiagonal(pm, sws) && Within(pm, sws)
    ensures Known(pm) == sws
  {
    forall i | i in sws
      ensures i in Known(pm)
    {
      assert Dist(pm, i, i) == Some(0);
      assert (i, i) in pm;
    }
  }

  // ---- Whole runs ------------------------------------------------------------------------

  // What can happen to the controller: a switch joins or leaves, a probe comes in, the timer
  // drops stale links, a path is asked for.
  datatype Event =
    | Up(dpid: Node)
    | Down(dpid: Node)
    | Seen(link: Link, now: int)
    | Expire(now: int)
    | Query(src: Node, dst: Node, port: Port)

  function OnlineStep(online: set<Node>, e: Event): set<Node> {
    match e
    case Up(dpid) => online + {dpid}
    case Down(dpid) => online - {dpid}
    case _ => online
  }

  // The switches connected after the events.
  function Online(events: seq<Event>): set<Node> {
    if events == [] then {} else OnlineStep(Online(events[..|events| - 1]), events[|events| - 1])
  }

  // The switches that ever joined.
  function Joined(events: seq<Event>): set<Node> {
    set k | 0 <= k < |events| && events[k].Up? :: events[k].dpid
  }

  function LinksStep(links: map<Link, int>, online: set<Node>, e: Event): map<Link, int> {
    match e
    case Up(_) => links
    case Down(dpid) => map l | l in links && l.dpid1 != dpid && l.dpid2 != dpid :: links[l]
    case Seen(l, now) =>
      if l.dpid1 !in online || (l.dpid1, l.port1) == (l.dpid2, l.port2) then links else links[l := now]
    case Expire(now) => map l | l in links && now - links[l] <= LINK_TIMEOUT :: links[l]
    case Query(_, _, _) => links
  }

  // The links known after the events, with when each was last seen.
  function LinksAfter(events: seq<Event>): map<Link, int> {
    if events == [] then map[]
    else
      var init := events[..|events| - 1];
      LinksStep(LinksAfter(init), Online(init), events[|events| - 1])
  }

  // A switch that joined and has not left since.
  ghost predicate StayedSince(events: seq<Event>, dpid: Node, k: nat) {
    && k < |events| && events[k] == Up(dpid)
    && forall j :: k < j < |events| ==> events[j] != Down(dpid)
  }

  lemma {:induction false} OnlineExactly(events: seq<Event>, dpid: Node)
    ensures dpid in Online(events) <==> exists k: nat :: StayedSince(events, dpid, k)
  {
    if events != [] {
      var n := |events| - 1;
      var init := events[..n];
      OnlineExactly(init, dpid);
      assert forall j :: 0 <= j < n ==> init[j] == events[j];
      if events[n] == Up(dpid) {
        assert StayedSince(events, dpid, n);
      } else if events[n] != Down(dpid) {
        assert forall k: nat :: StayedSince(init, dpid, k) <==> StayedSince(events, dpid, k);
      }
    }
  }

  // Event k is a probe that counts for l: sent by a switch that was there, on another port.
  ghost predicate Sighting(events: seq<Event>, l: Link, k: nat) {
    && k < |events| && events[k].Seen? && events[k].link == l
    && l.dpid1 in Online(events[..k]) && (l.dpid1, l.port1) != (l.dpid2, l.port2)
  }

  // l was last seen at event k, and nothing has removed it since: neither of its switches left,
  // and no timer went off more than ten seconds after that.
  ghost predicate KnownSince(events: seq<Event>, l: Link, k: nat) {
    && Sighting(events, l, k)
    && forall j :: k < j < |events| ==>
         && !Sighting(events, l, j)
         && events[j] != Down(l.dpid1) && events[j] != Down(l.dpid2)
         && (events[j].Expire? ==> events[j].now - events[k].now <= 10)
  }

  lemma SightingBefore(events: seq<Event>, l: Link, k: nat, n: nat)
    requires k < n <= |events|
    ensures Sighting(events[..n], l, k) <==> Sighting(events, l, k)
  {
    assert events[..n][..k] == events[..k];
  }

  lemma KnownSnoc(events: seq<Event>, l: Link, k: nat)
    requires k < |events| - 1
    ensures var n := |events| - 1;
            KnownSince(events, l, k) <==>
              && KnownSince(events[..n], l, k) && !Sighting(events, l, n)
              && events[n] != Down(l.dpid1) && events[n] != Down(l.dpid2)
              && (events[n].Expire? ==> events[n].now - events[k].now <= 10)
  {
    var n := |events| - 1;
    var init := events[..n];
    forall j: nat | j < n
      ensures init[j] == events[j] && (Sighting(init, l, j) <==> Sighting(events, l, j))
    {
      SightingBefore(events, l, j, n);
    }
  }

  // Exactly which links are known after the events, and when each was last seen.
  lemma {:induction false} LinksExactly(events: seq<Event>, l: Link)
    ensures l in LinksAfter(events) <==> exists k: nat :: KnownSince(events, l, k)
    ensures forall k: nat :: KnownSince(events, l, k) ==> LinksAfter(events)[l] == events[k].now
  {
    if events != [] {
      var n := |events| - 1;
      LinksExactly(events[..n], l);
      forall k: nat | k < n
        ensures KnownSince(events, l, k) <==>
                  && KnownSince(events[..n], l, k) && !Sighting(events, l, n)
                  && events[n] != Down(l.dpid1) && events[n] != Down(l.dpid2)
                  && (events[n].Expire? ==> events[n].now - events[k].now <= 10)
      {
        KnownSnoc(events, l, k);
      }
      assert KnownSince(events, l, n) <==> Sighting(events, l, n);
    }
  }

  // What the switch connections guarantee: a switch joins when it is away and leaves when it is
  // there, and a probe comes in from one that is there.  Paths are asked for between known ones.
  predicate Plausible(online: set<Node>, joined: set<Node>, e: Event) {
    match e
    case Up(dpid) => dpid !in online
    case Down(dpid) => dpid in online
    case Seen(l, _) => l.dpid2 in online
    case Expire(_) => true
    case Query(src, dst, _) => src in joined && dst in joined
  }

  ghost predicate PlausibleRun(events: seq<Event>) {
    forall k: nat {:trigger events[..k]} :: k < |events| ==>
      Plausible(Online(events[..k]), Joined(events[..k]), events[k])
  }

  method HandleEvent(c: Controller, e: Event)
    requires c.Valid() && Plausible(c.connected, SetOf(c.switches), e)
    modifies c
    ensures c.Valid() && c.connected == OnlineStep(old(c.connected), e)
    ensures SetOf(c.switches) == old(SetOf(c.switches)) + if e.Up? then {e.dpid} else {}
    ensures c.links == LinksStep(old(c.links), old(c.connected), e)
  {
    match e {
      case Up(dpid) => c.ConnectionUp(dpid);
      case Down(dpid) => c.ConnectionDown(dpid);
      case Seen(l, now) => c.LinkSeen(l, now);
      case Expire(now) => c.ExpireLinks(now);
      case Query(src, dst, port) =>
        var r := c.GetPath(src, dst, port);
    }
  }

  // After any such run, with paths asked for at any time: the adjacency is an exact index of the
  // links the events leave, and a path asked for then is a shortest one over it, or there is none.
  method HandleEvents(events: seq<Event>, src: Node, dst: Node, port: Port)
    returns (adjacency: Adjacency, r: Option<seq<(Node, Option<Port>)>>)
    requires PlausibleRun(events) && src in Joined(events) && dst in Joined(events)
    ensures ExactIndex(adjacency, LinksAfter(events).Keys)
    ensures GoodPath(r, adjacency, src, dst, port) && (r.Some? ==> CheckPath(r.value, adjacency))
  {
    var c := new Controller();
    for k: nat := 0 to |events|
      invariant c.Valid() && c.connected == Online(events[..k]) && SetOf(c.switches) == Joined(events[..k])
      invariant c.links == LinksAfter(events[..k])
    {
      assert Plausible(Online(events[..k]), Joined(events[..k]), events[k]);
      HandleEvent(c, events[k]);
      assert events[..k + 1][..k] == events[..k];
      JoinedSnoc(events, k);
    }
    assert events[..|events|] == events;
    assert src in SetOf(c.switches) && dst in SetOf(c.switches);
    r := c.GetPath(src, dst, port);
    adjacency := c.adjacency;
  }

  lemma JoinedSnoc(events: seq<Event>, k: nat)
    requires k < |events|
    ensures Joined(events[..k + 1]) == Joined(events[..k]) + if events[k].Up? then {events[k].dpid} else {}
  {
    var more, fewer := events[..k + 1], events[..k];
    assert forall j :: 0 <= j < k ==> more[j] == fewer[j];
    assert more[k] == events[k];
  }
}
