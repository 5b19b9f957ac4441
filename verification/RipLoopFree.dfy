// Loop freedom.  While links deliver in order (and may lose), no interface goes down and no
// entry expires, the next hop of every live entry holds a live entry for the same network with
// a strictly smaller metric.
module RipLoopFree {
  import Options
  import Words
  import opened RipTable
  import opened RipNetwork
  import RipBounds

  // ---- The topologies -------------------------------------------------------------------

  // Links are symmetric, join different routers, and both ends are interfaces on one subnet.
  ghost predicate LinkOk(topo: Topology, q: PortId)
    requires q in topo.peer
  {
    var p := topo.peer[q];
    && p in topo.peer && topo.peer[p] == q && p.0 != q.0
    && (exists f :: HasPort(topo, q, f))
    && (forall f, h :: HasPort(topo, q, f) && HasPort(topo, p, h) ==> Subnet(f) == Subnet(h))
  }

  ghost predicate PointToPoint(topo: Topology) {
    && RipBounds.WellMasked(topo)
    && (forall r :: NamesDistinct(Ifs(topo, r)))
    && (forall q {:trigger LinkOk(topo, q)} :: q in topo.peer ==> LinkOk(topo, q))
  }

  // ---- The runs -------------------------------------------------------------------------

  ghost predicate Calm(topo: Topology, s: State, step: Step) {
    match step
    case Deliver(q, pos, now) => pos == 0
    case Lose(q, pos) => true
    case Pass(r, up, now) =>
      && (forall f :: f in Ifs(topo, r) ==> f.name in up)
      && (forall e :: e in Table(s, r) ==> now - e.updated <= EXPIRY)
    case Respond(r) => true
  }

  ghost predicate CalmRun(topo: Topology, s: State, steps: seq<Step>) {
    steps != [] ==>
      && CalmRun(topo, s, steps[..|steps| - 1])
      && Calm(topo, Run(topo, s, steps[..|steps| - 1]), steps[|steps| - 1])
  }

  // ---- The invariant --------------------------------------------------------------------

  // 17 stands for no entry at all.
  function Metric(t: seq<RtEntry>, net: Words.Word): int {
    match Find(t, net)
    case None => INFINITY + 1
    case Some(e) => e.metric
  }

  // Every attached subnet has its direct entry, and metric 0 means attached.
  ghost predicate DirectOk(topo: Topology, r: RouterId, t: seq<RtEntry>) {
    && (forall f :: f in Ifs(topo, r) ==> DirectFor(t, f))
    && (forall net :: Metric(t, net) == 0 ==> Attached(topo, r, net))
    && (forall net :: Find(t, net).Some? ==> Find(t, net).value.metric <= INFINITY)
  }

  ghost predicate DirectFor(t: seq<RtEntry>, f: Iface) {
    match Find(t, Subnet(f))
    case None => false
    case Some(e) => e.metric == 0 && e.gw == 0 && e.iface == f.name
  }

  ghost predicate ChanBelow(msgs: seq<Msg>, net: Words.Word, bound: int) {
    forall m, x :: m in msgs && x in m.routes && RouteNet(x) == net ==> x.metric <= bound
  }

  // A live entry that is not direct is backed by the router it points to: what that router holds
  // now, and all it has on the way here, is strictly closer.
  ghost predicate Backed(topo: Topology, s: State, r: RouterId, net: Words.Word) {
    match Find(Table(s, r), net)
    case None => true
    case Some(e) => 0 < e.metric < INFINITY ==> BackedBy(topo, s, (r, e.iface), e, net)
  }

  ghost predicate BackedBy(topo: Topology, s: State, q: PortId, e: RtEntry, net: Words.Word) {
    && q in topo.peer
    && e.gw == IpOf(topo, topo.peer[q])
    && Metric(Table(s, topo.peer[q].0), net) < e.metric
    && ChanBelow(Chan(s, q), net, e.metric - 1)
  }

  // What is queued towards q: later responses never advertise a worse metric than earlier ones,
  // nor a better one than the sender holds, and none advertises the link's own subnet.
  ghost predicate ChanOk(topo: Topology, s: State, q: PortId)
    requires q in topo.peer
  {
    && NonIncreasing(Chan(s, q))
    && (forall m :: m in Chan(s, q) ==> MsgOk(topo, s, q, m))
  }

  ghost predicate MsgOk(topo: Topology, s: State, q: PortId, m: Msg)
    requires q in topo.peer
  {
    && m.src == IpOf(topo, topo.peer[q])
    && RoutesDistinct(m.routes)
    && (forall x :: x in m.routes ==> RouteOk(topo, s, q, x))
  }

  ghost predicate RouteOk(topo: Topology, s: State, q: PortId, x: Route)
    requires q in topo.peer
  {
    && x.metric <= INFINITY
    && Metric(Table(s, topo.peer[q].0), RouteNet(x)) <= x.metric
    && (forall f :: HasPort(topo, q, f) ==> RouteNet(x) != Subnet(f))
  }

  ghost predicate NonIncreasing(msgs: seq<Msg>) {
    forall a, b :: 0 <= a < b < |msgs| ==> NoWorse(msgs[a], msgs[b])
  }

  ghost predicate NoWorse(earlier: Msg, later: Msg) {
    forall x, y :: x in earlier.routes && y in later.routes && RouteNet(x) == RouteNet(y) ==> y.metric <= x.metric
  }

  ghost predicate Core(topo: Topology, s: State) {
    && (forall r {:trigger DirectOk(topo, r, Table(s, r))} :: DirectOk(topo, r, Table(s, r)))
    && (forall r, net :: Backed(topo, s, r, net))
    && (forall q {:trigger ChanOk(topo, s, q)} :: q in topo.peer ==> ChanOk(topo, s, q))
  }

  // ---- One response at the receiver -----------------------------------------------------

  // o' is the route x as heard through q, and is an improvement.
  ghost predicate Adopted(topo: Topology, q: PortId, x: Route, o: Options.Option<RtEntry>, o': Options.Option<RtEntry>)
    requires q in topo.peer
  {
    && o'.Some?
    && o'.value.metric == Heard(x.metric) && 0 < o'.value.metric <= INFINITY
    && o'.value.gw == IpOf(topo, topo.peer[q]) && o'.value.iface == q.1
    && (o.Some? ==> o'.value.metric < o.value.metric)
  }

  // The only poisoning the code does cannot happen here: a metric of 15 or 16 heard through the
  // interface in use would contradict what backs the entry.
  lemma AbsorbRoute(topo: Topology, s: State, q: PortId, m: Msg, x: Route, now: int)
    requires q in topo.peer && m in Chan(s, q) && x in m.routes
    requires DirectOk(topo, q.0, Table(s, q.0)) && RouteOk(topo, s, q, x) && Backed(topo, s, q.0, RouteNet(x))
    ensures var o := Find(Table(s, q.0), RouteNet(x));
            var o' := Options.Some(Absorbed(o, x, IpOf(topo, topo.peer[q]), q.1, now));
            SameRoute(o, o') || Adopted(topo, q, x, o, o')
  {
    var net := RouteNet(x);
    var o := Find(Table(s, q.0), net);
    if o.Some? && o.value.iface == q.1 {
      if o.value.metric == 0 {
        DirectNotHeard(topo, s, q, x);
      } else if o.value.metric < INFINITY {
        assert (q.0, o.value.iface) == q;
        assert BackedBy(topo, s, q, o.value, net);
      }
    }
  }

  lemma DirectNotHeard(topo: Topology, s: State, q: PortId, x: Route)
    requires q in topo.peer && RouteOk(topo, s, q, x) && DirectOk(topo, q.0, Table(s, q.0))
    requires Find(Table(s, q.0), RouteNet(x)).Some?
    requires Find(Table(s, q.0), RouteNet(x)).value.metric == 0
    ensures Find(Table(s, q.0), RouteNet(x)).value.iface != q.1
  {
    var net := RouteNet(x);
    assert Metric(Table(s, q.0), net) == 0;
    var f :| f in Ifs(topo, q.0) && Subnet(f) == net;
    assert DirectFor(Table(s, q.0), f);
    assert HasPort(topo, q, f) ==> net != Subnet(f);
  }

  ghost predicate Settled(topo: Topology, s: State, q: PortId, m: Msg, t': seq<RtEntry>, net: Words.Word)
    requires q in topo.peer
  {
    var o, o' := Find(Table(s, q.0), net), Find(t', net);
    SameRoute(o, o') || exists x :: x in m.routes && RouteNet(x) == net && Adopted(topo, q, x, o, o')
  }

  // What the whole response does to one network.
  lemma AbsorbNet(topo: Topology, s: State, q: PortId, m: Msg, now: int, net: Words.Word)
    requires q in topo.peer && m in Chan(s, q) && MsgOk(topo, s, q, m)
    requires DirectOk(topo, q.0, Table(s, q.0)) && Backed(topo, s, q.0, net)
    ensures Settled(topo, s, q, m, UpdateAll(Table(s, q.0), m.routes, m.src, q.1, now), net)
  {
    UpdateAllFind(Table(s, q.0), m.routes, m.src, q.1, now, net);
    if x :| x in m.routes && RouteNet(x) == net {
      AbsorbRoute(topo, s, q, m, x, now);
    }
  }

  // ---- Steps before the triggered response ----------------------------------------------

  ghost predicate Thinner(was: seq<Msg>, now: seq<Msg>) {
    && (forall m :: m in now ==> m in was)
    && (NonIncreasing(was) ==> NonIncreasing(now))
  }

  // Queues only lose messages and metrics only go down.
  ghost predicate Advances(topo: Topology, s: State, s': State) {
    && (forall q :: q in topo.peer ==> Thinner(Chan(s, q), Chan(s', q)))
    && (forall r, net :: Metric(Table(s', r), net) <= Metric(Table(s, r), net))
  }

  lemma ChanKeeps(topo: Topology, s: State, s': State, q: PortId)
    requires Advances(topo, s, s') && q in topo.peer && ChanOk(topo, s, q)
    ensures ChanOk(topo, s', q)
  {
    assert Thinner(Chan(s, q), Chan(s', q));
    forall m | m in Chan(s', q)
      ensures MsgOk(topo, s', q, m)
    {
      assert MsgOk(topo, s, q, m);
      forall x | x in m.routes
        ensures RouteOk(topo, s', q, x)
      {
        assert RouteOk(topo, s, q, x);
      }
    }
  }

  lemma BackedKeeps(topo: Topology, s: State, s': State, r: RouterId, net: Words.Word)
    requires Advances(topo, s, s') && Backed(topo, s, r, net)
    requires SameRoute(Find(Table(s, r), net), Find(Table(s', r), net))
    ensures Backed(topo, s', r, net)
  {
    var o := Find(Table(s, r), net);
    if o.Some? && 0 < o.value.metric < INFINITY {
      var q := (r, o.value.iface);
      assert BackedBy(topo, s, q, o.value, net);
      assert Thinner(Chan(s, q), Chan(s', q));
    }
  }

  lemma DirectKeeps(topo: Topology, r: RouterId, t: seq<RtEntry>, t': seq<RtEntry>)
    requires DirectOk(topo, r, t)
    requires forall net :: Metric(t', net) <= Metric(t, net) && (Metric(t', net) == 0 ==> Metric(t, net) == 0)
    requires forall net :: Find(t', net).Some? ==> Find(t', net).value.metric <= INFINITY
    requires forall net :: Metric(t, net) == 0 ==> SameRoute(Find(t, net), Find(t', net))
    ensures DirectOk(topo, r, t')
  {
    forall f | f in Ifs(topo, r)
      ensures DirectFor(t', f)
    {
      assert DirectFor(t, f) && Metric(t, Subnet(f)) == 0;
    }
  }

  lemma HeadRemoved(msgs: seq<Msg>)
    requires msgs != []
    ensures Thinner(msgs, msgs[1..])
    ensures NonIncreasing(msgs) ==> forall m :: m in msgs[1..] ==> NoWorse(msgs[0], m)
  {
    if NonIncreasing(msgs) {
      forall a, b | 0 <= a < b < |msgs[1..]|
        ensures NoWorse(msgs[1..][a], msgs[1..][b])
      {
        assert NoWorse(msgs[a + 1], msgs[b + 1]);
      }
    }
  }

  lemma OneRemoved(msgs: seq<Msg>, pos: nat)
    requires pos < |msgs|
    ensures Thinner(msgs, Without(msgs, pos))
  {
    var rest := Without(msgs, pos);
    if NonIncreasing(msgs) {
      forall a, b | 0 <= a < b < |rest|
        ensures NoWorse(rest[a], rest[b])
      {
        assert NoWorse(msgs[if a < pos then a else a + 1], msgs[if b < pos then b else b + 1]);
      }
    }
  }

  // A route just adopted is backed by the neighbour that advertised it.
  lemma BackedNew(topo: Topology, s: State, s': State, q: PortId, x: Route, net: Words.Word)
    requires q in topo.peer && ChanOk(topo, s, q) && Advances(topo, s, s')
    requires Chan(s, q) != [] && Chan(s', q) == Chan(s, q)[1..]
    requires x in Chan(s, q)[0].routes && RouteNet(x) == net
    requires Adopted(topo, q, x, Find(Table(s, q.0), net), Find(Table(s', q.0), net))
    ensures Backed(topo, s', q.0, net)
  {
    var m, e := Chan(s, q)[0], Find(Table(s', q.0), net).value;
    assert m in Chan(s, q);
    assert MsgOk(topo, s, q, m) && RouteOk(topo, s, q, x);
    HeadRemoved(Chan(s, q));
    if e.metric < INFINITY {
      assert (q.0, e.iface) == q;
      forall n, y | n in Chan(s', q) && y in n.routes && RouteNet(y) == net
        ensures y.metric <= e.metric - 1
      {
        assert NoWorse(m, n);
      }
      assert BackedBy(topo, s', q, e, net);
    }
  }

  // Every route is the old one or one adopted from the head of q's queue.
  ghost predicate SettledAll(topo: Topology, s: State, s': State, q: PortId, m: Msg)
    requires q in topo.peer
  {
    forall net :: Settled(topo, s, q, m, Table(s', q.0), net)
  }

  lemma SettledMetric(topo: Topology, s: State, s': State, q: PortId, m: Msg, net: Words.Word)
    requires q in topo.peer && Settled(topo, s, q, m, Table(s', q.0), net)
    requires DirectOk(topo, q.0, Table(s, q.0))
    ensures var t, t' := Table(s, q.0), Table(s', q.0);
            && Metric(t', net) <= Metric(t, net)
            && (Metric(t', net) == 0 ==> Metric(t, net) == 0)
            && (Metric(t, net) == 0 ==> SameRoute(Find(t, net), Find(t', net)))
            && (Find(t', net).Some? ==> Find(t', net).value.metric <= INFINITY)
  {
  }

  lemma AbsorbCore(topo: Topology, s: State, q: PortId, now: int)
    requires Core(topo, s) && q in topo.peer && Chan(s, q) != []
    ensures Core(topo, Absorb(s, q, 0, now))
  {
    var m, s' := Chan(s, q)[0], Absorb(s, q, 0, now);
    assert m in Chan(s, q) && ChanOk(topo, s, q) && MsgOk(topo, s, q, m);
    assert Chan(s', q) == Chan(s, q)[1..];
    assert forall h :: h != q.0 ==> Table(s', h) == Table(s, h);
    assert forall p :: p != q ==> Chan(s', p) == Chan(s, p);
    forall net
      ensures Settled(topo, s, q, m, Table(s', q.0), net)
    {
      assert Backed(topo, s, q.0, net);
      AbsorbNet(topo, s, q, m, now, net);
    }
    AbsorbAdvances(topo, s, s', q, m);
    AbsorbBacked(topo, s, s', q, m);
    forall p | p in topo.peer
      ensures ChanOk(topo, s', p)
    {
      ChanKeeps(topo, s, s', p);
    }
  }

  lemma AbsorbAdvances(topo: Topology, s: State, s': State, q: PortId, m: Msg)
    requires q in topo.peer && Chan(s, q) != [] && SettledAll(topo, s, s', q, m)
    requires Chan(s', q) == Chan(s, q)[1..]
    requires forall r {:trigger DirectOk(topo, r, Table(s, r))} :: DirectOk(topo, r, Table(s, r))
    requires forall h :: h != q.0 ==> Table(s', h) == Table(s, h)
    requires forall p :: p != q ==> Chan(s', p) == Chan(s, p)
    ensures Advances(topo, s, s')
    ensures forall r {:trigger DirectOk(topo, r, Table(s', r))} :: DirectOk(topo, r, Table(s', r))
  {
    HeadRemoved(Chan(s, q));
    forall net
      ensures var t, t' := Table(s, q.0), Table(s', q.0);
              && Metric(t', net) <= Metric(t, net)
              && (Metric(t', net) == 0 ==> Metric(t, net) == 0)
              && (Metric(t, net) == 0 ==> SameRoute(Find(t, net), Find(t', net)))
              && (Find(t', net).Some? ==> Find(t', net).value.metric <= INFINITY)
    {
      assert DirectOk(topo, q.0, Table(s, q.0)) && Settled(topo, s, q, m, Table(s', q.0), net);
      SettledMetric(topo, s, s', q, m, net);
    }
    assert DirectOk(topo, q.0, Table(s, q.0));
    DirectKeeps(topo, q.0, Table(s, q.0), Table(s', q.0));
  }

  lemma AbsorbBacked(topo: Topology, s: State, s': State, q: PortId, m: Msg)
    requires q in topo.peer && Chan(s, q) != [] && m == Chan(s, q)[0] && SettledAll(topo, s, s', q, m)
    requires ChanOk(topo, s, q) && Chan(s', q) == Chan(s, q)[1..] && Advances(topo, s, s')
    requires forall r, net :: Backed(topo, s, r, net)
    requires forall h :: h != q.0 ==> Table(s', h) == Table(s, h)
    ensures forall r, net :: Backed(topo, s', r, net)
  {
    forall r, net
      ensures Backed(topo, s', r, net)
    {
      assert Backed(topo, s, r, net);
      if r != q.0 || SameRoute(Find(Table(s, r), net), Find(Table(s', r), net)) {
        BackedKeeps(topo, s, s', r, net);
      } else {
        assert Settled(topo, s, q, m, Table(s', q.0), net);
        var x :| && x in m.routes && RouteNet(x) == net
                 && Adopted(topo, q, x, Find(Table(s, r), net), Find(Table(s', r), net));
        BackedNew(topo, s, s', q, x, net);
      }
    }
  }

  lemma LoseCore(topo: Topology, s: State, q: PortId, pos: nat)
    requires Core(topo, s) && pos < |Chan(s, q)|
    ensures Core(topo, Dropped(s, q, pos))
  {
    var s' := Dropped(s, q, pos);
    assert forall h :: Table(s', h) == Table(s, h);
    assert forall p :: p != q ==> Chan(s', p) == Chan(s, p);
    OneRemoved(Chan(s, q), pos);
    forall r, net
      ensures Backed(topo, s', r, net)
    {
      assert Backed(topo, s, r, net);
      BackedKeeps(topo, s, s', r, net);
    }
    forall p | p in topo.peer
      ensures ChanOk(topo, s', p)
    {
      ChanKeeps(topo, s, s', p);
    }
  }

  // ---- The periodic pass ----------------------------------------------------------------

  // With every interface up and nothing expired a pass only refreshes times.
  lemma SweepSame(topo: Topology, s: State, r: RouterId, up: set<string>, now: int, net: Words.Word)
    requires PointToPoint(topo) && RipBounds.GoodState(topo, s) && DirectOk(topo, r, Table(s, r)) && r in topo.ifs
    requires Calm(topo, s, Pass(r, up, now))
    ensures SameRoute(Find(Table(s, r), net), Find(Tick(Table(s, r), topo.ifs[r], up, now), net))
  {
    var t, ifs := Table(s, r), topo.ifs[r];
    var t' := Tick(t, ifs, up, now);
    assert RipBounds.GoodTable(topo, t);
    forall i | 0 <= i < |t|
      ensures i < |t'| && NetOf(t'[i]) == NetOf(t[i]) && SameRoute(Options.Some(t[i]), Options.Some(t'[i]))
    {
      SweepEntry(topo, t, r, up, now, i);
    }
    SweepNoNew(topo, t, r, up, now);
    assert IndexOf(t', net) == IndexOf(t, net);
  }

  lemma SweepEntry(topo: Topology, t: seq<RtEntry>, r: RouterId, up: set<string>, now: int, i: nat)
    requires PointToPoint(topo) && RipBounds.GoodTable(topo, t) && DirectOk(topo, r, t) && r in topo.ifs && i < |t|
    requires forall f :: f in topo.ifs[r] ==> f.name in up
    requires forall e :: e in t ==> now - e.updated <= EXPIRY
    ensures var t' := Tick(t, topo.ifs[r], up, now);
            i < |t'| && NetOf(t'[i]) == NetOf(t[i]) && SameRoute(Options.Some(t[i]), Options.Some(t'[i]))
  {
    var ifs := topo.ifs[r];
    TickKeeps(t, ifs, up, now, i);
    assert t[i] in t && IndexOf(t, NetOf(t[i])) == i;
    if f :| f in ifs && Matches(t[i], f) {
      assert DirectFor(t, f);
    }
  }

  lemma SweepNoNew(topo: Topology, t: seq<RtEntry>, r: RouterId, up: set<string>, now: int)
    requires PointToPoint(topo) && RipBounds.GoodTable(topo, t) && DirectOk(topo, r, t) && r in topo.ifs
    requires forall f :: f in topo.ifs[r] ==> f.name in up
    requires forall e :: e in t ==> now - e.updated <= EXPIRY
    ensures |Tick(t, topo.ifs[r], up, now)| == |t|
  {
    var ifs := topo.ifs[r];
    var t' := Tick(t, ifs, up, now);
    RipBounds.GoodTick(topo, r, t, up, now);
    TickIfacesDirect(MapEntries(t, e => Expired(e, now)), ifs, up, now);
    if |t'| > |t| {
      var f :| f in ifs && f.name in up && IsDirect(t'[|t|], f, now);
      assert DirectFor(t, f);
      var i, n: nat := IndexOf(t, Subnet(f)), |t|;
      SweepEntry(topo, t, r, up, now, i);
      NotTwice(t', i, n);
    }
  }

  lemma NotTwice(t: seq<RtEntry>, i: nat, j: nat)
    requires NetsDistinct(t) && i < j < |t|
    ensures NetOf(t[i]) != NetOf(t[j])
  {
  }

  // A change of times alone keeps everything.
  lemma SameRoutesCore(topo: Topology, s: State, s': State)
    requires Core(topo, s)
    requires forall r, net :: SameRoute(Find(Table(s, r), net), Find(Table(s', r), net))
    requires forall q :: Chan(s', q) == Chan(s, q)
    ensures Core(topo, s')
  {
    SameRoutesAdvance(topo, s, s');
    forall r
      ensures DirectOk(topo, r, Table(s', r))
    {
      assert DirectOk(topo, r, Table(s, r));
      SameRoutesDirect(topo, r, Table(s, r), Table(s', r));
    }
    forall r, net
      ensures Backed(topo, s', r, net)
    {
      assert Backed(topo, s, r, net);
      BackedKeeps(topo, s, s', r, net);
    }
    forall p | p in topo.peer
      ensures ChanOk(topo, s', p)
    {
      ChanKeeps(topo, s, s', p);
    }
  }

  lemma SameRoutesAdvance(topo: Topology, s: State, s': State)
    requires forall r, net :: SameRoute(Find(Table(s, r), net), Find(Table(s', r), net))
    requires forall q :: Chan(s', q) == Chan(s, q)
    ensures Advances(topo, s, s')
  {
    forall r, net
      ensures Metric(Table(s', r), net) <= Metric(Table(s, r), net)
    {
      assert SameRoute(Find(Table(s, r), net), Find(Table(s', r), net));
    }
    forall q | q in topo.peer
      ensures Thinner(Chan(s, q), Chan(s', q))
    {
      assert Chan(s', q) == Chan(s, q);
    }
  }

  lemma SameRoutesDirect(topo: Topology, r: RouterId, t: seq<RtEntry>, t': seq<RtEntry>)
    requires DirectOk(topo, r, t)
    requires forall net :: SameRoute(Find(t, net), Find(t', net))
    ensures DirectOk(topo, r, t')
  {
    forall net
      ensures Metric(t', net) == Metric(t, net)
      ensures Find(t', net).Some? ==> Find(t', net).value.metric <= INFINITY
    {
      assert SameRoute(Find(t, net), Find(t', net));
    }
    DirectKeeps(topo, r, t, t');
  }

  lemma SweepCore(topo: Topology, s: State, r: RouterId, up: set<string>, now: int)
    requires PointToPoint(topo) && RipBounds.GoodState(topo, s) && Core(topo, s) && r in topo.ifs
    requires Calm(topo, s, Pass(r, up, now))
    ensures Core(topo, Swept(topo, s, r, up, now))
  {
    var s' := Swept(topo, s, r, up, now);
    forall h, net
      ensures SameRoute(Find(Table(s, h), net), Find(Table(s', h), net))
    {
      if h == r {
        assert DirectOk(topo, r, Table(s, r));
        SweepSame(topo, s, r, up, now, net);
      } else {
        assert Table(s', h) == Table(s, h);
      }
    }
    SameRoutesCore(topo, s, s');
  }

  // ---- Responses ------------------------------------------------------------------------

  // Every advertised route is the sender's one entry for that network, not learned from the link.
  lemma Advertised(topo: Topology, s: State, q: PortId, x: Route)
    requires q in topo.peer && LinkOk(topo, q) && LinkOk(topo, topo.peer[q])
    requires DirectOk(topo, topo.peer[q].0, Table(s, topo.peer[q].0)) && NetsDistinct(Table(s, topo.peer[q].0))
    requires x in MsgTo(topo, s, q).routes
    ensures Metric(Table(s, topo.peer[q].0), RouteNet(x)) == x.metric
    ensures RouteOk(topo, s, q, x)
  {
    var p := topo.peer[q];
    var t := Table(s, p.0);
    ResponseMember(t, p.1, x);
    var e :| e in t && e.iface != p.1 && Advert(e) == x;
    FindUnique(t, e);
    forall f | HasPort(topo, q, f)
      ensures RouteNet(x) != Subnet(f)
    {
      var h :| HasPort(topo, p, h);
      assert Subnet(f) == Subnet(h);
      assert DirectFor(t, h);
    }
  }

  // The message r is about to send towards q fits what is already queued there.
  lemma NewMsg(topo: Topology, s: State, q: PortId)
    requires q in topo.peer && LinkOk(topo, q) && LinkOk(topo, topo.peer[q])
    requires DirectOk(topo, topo.peer[q].0, Table(s, topo.peer[q].0)) && NetsDistinct(Table(s, topo.peer[q].0))
    ensures MsgOk(topo, s, q, MsgTo(topo, s, q))
    ensures forall m :: MsgOk(topo, s, q, m) ==> NoWorse(m, MsgTo(topo, s, q))
  {
    ResponseDistinct(Table(s, topo.peer[q].0), topo.peer[q].1);
    forall x | x in MsgTo(topo, s, q).routes
      ensures RouteOk(topo, s, q, x) && Metric(Table(s, topo.peer[q].0), RouteNet(x)) == x.metric
    {
      Advertised(topo, s, q, x);
    }
  }

  lemma Appended(msgs: seq<Msg>, m: Msg)
    requires NonIncreasing(msgs) && forall n :: n in msgs ==> NoWorse(n, m)
    ensures NonIncreasing(msgs + [m])
  {
  }

  lemma SendChan(topo: Topology, s: State, r: RouterId, q: PortId)
    requires q in topo.peer && LinkOk(topo, q) && LinkOk(topo, topo.peer[q]) && topo.peer[q].0 == r
    requires DirectOk(topo, r, Table(s, r)) && NetsDistinct(Table(s, r)) && ChanOk(topo, s, q)
    ensures ChanOk(topo, Send(topo, s, r), q)
  {
    var s', m := Send(topo, s, r), MsgTo(topo, s, q);
    assert Chan(s', q) == Chan(s, q) + [m];
    NewMsg(topo, s, q);
    Appended(Chan(s, q), m);
    assert forall k :: Table(s', k) == Table(s, k);
    forall n | n in Chan(s', q)
      ensures MsgOk(topo, s', q, n)
    {
      assert MsgOk(topo, s, q, n);
      SameMsg(topo, s, s', q, n);
    }
  }

  lemma SameMsg(topo: Topology, s: State, s': State, q: PortId, m: Msg)
    requires q in topo.peer && MsgOk(topo, s, q, m) && Table(s', topo.peer[q].0) == Table(s, topo.peer[q].0)
    ensures MsgOk(topo, s', q, m)
  {
    forall x | x in m.routes
      ensures RouteOk(topo, s', q, x)
    {
      assert RouteOk(topo, s, q, x);
    }
  }

  lemma SendBacked(topo: Topology, s: State, r: RouterId, q: PortId, e: RtEntry, net: Words.Word)
    requires DirectOk(topo, r, Table(s, r)) && NetsDistinct(Table(s, r))
    requires BackedBy(topo, s, q, e, net) && LinkOk(topo, q) && LinkOk(topo, topo.peer[q])
    ensures BackedBy(topo, Send(topo, s, r), q, e, net)
  {
    var s' := Send(topo, s, r);
    assert Table(s', topo.peer[q].0) == Table(s, topo.peer[q].0);
    forall m, x | m in Chan(s', q) && x in m.routes && RouteNet(x) == net
      ensures x.metric <= e.metric - 1
    {
      if m !in Chan(s, q) {
        assert m == MsgTo(topo, s, q);
        Advertised(topo, s, q, x);
      }
    }
  }

  lemma SendKeepsBacked(topo: Topology, s: State, r: RouterId, h: RouterId, net: Words.Word)
    requires PointToPoint(topo) && DirectOk(topo, r, Table(s, r)) && NetsDistinct(Table(s, r))
    requires Backed(topo, s, h, net)
    ensures Backed(topo, Send(topo, s, r), h, net)
  {
    assert Table(Send(topo, s, r), h) == Table(s, h);
    var o := Find(Table(s, h), net);
    if o.Some? && 0 < o.value.metric < INFINITY {
      var q := (h, o.value.iface);
      assert BackedBy(topo, s, q, o.value, net);
      assert LinkOk(topo, q) && LinkOk(topo, topo.peer[q]);
      SendBacked(topo, s, r, q, o.value, net);
    }
  }

  lemma SendKeepsChan(topo: Topology, s: State, r: RouterId, q: PortId)
    requires PointToPoint(topo) && DirectOk(topo, r, Table(s, r)) && NetsDistinct(Table(s, r))
    requires q in topo.peer && ChanOk(topo, s, q)
    ensures ChanOk(topo, Send(topo, s, r), q)
  {
    assert LinkOk(topo, q) && LinkOk(topo, topo.peer[q]);
    if topo.peer[q].0 == r {
      SendChan(topo, s, r, q);
    } else {
      assert Chan(Send(topo, s, r), q) == Chan(s, q);
      assert Table(Send(topo, s, r), topo.peer[q].0) == Table(s, topo.peer[q].0);
      SameChan(topo, s, Send(topo, s, r), q);
    }
  }

  lemma SendCore(topo: Topology, s: State, r: RouterId)
    requires PointToPoint(topo) && NetsDistinct(Table(s, r)) && Core(topo, s)
    ensures Core(topo, Send(topo, s, r))
  {
    var s' := Send(topo, s, r);
    assert DirectOk(topo, r, Table(s, r));
    forall h
      ensures DirectOk(topo, h, Table(s', h))
    {
      assert Table(s', h) == Table(s, h) && DirectOk(topo, h, Table(s, h));
    }
    forall h, net
      ensures Backed(topo, s', h, net)
    {
      assert Backed(topo, s, h, net);
      SendKeepsBacked(topo, s, r, h, net);
    }
    forall q | q in topo.peer
      ensures ChanOk(topo, s', q)
    {
      assert ChanOk(topo, s, q);
      SendKeepsChan(topo, s, r, q);
    }
  }

  lemma SameChan(topo: Topology, s: State, s': State, q: PortId)
    requires q in topo.peer && ChanOk(topo, s, q) && Chan(s', q) == Chan(s, q)
    requires Table(s', topo.peer[q].0) == Table(s, topo.peer[q].0)
    ensures ChanOk(topo, s', q)
  {
    forall m | m in Chan(s', q)
      ensures MsgOk(topo, s', q, m)
    {
      assert MsgOk(topo, s, q, m);
      SameMsg(topo, s, s', q, m);
    }
  }

  // ---- Runs -----------------------------------------------------------------------------

  lemma DeliverCore(topo: Topology, s: State, q: PortId, now: int)
    requires PointToPoint(topo) && RipBounds.GoodState(topo, s) && Core(topo, s) && q in topo.peer && Chan(s, q) != []
    ensures Core(topo, Delivered(topo, s, q, 0, now))
  {
    AbsorbCore(topo, s, q, now);
    assert NetsDistinct(Table(Absorb(s, q, 0, now), q.0)) by {
      RipBounds.GoodAbsorb(topo, s, q, 0, now);
      assert RipBounds.GoodTable(topo, Table(Absorb(s, q, 0, now), q.0));
    }
    SendCore(topo, Absorb(s, q, 0, now), q.0);
  }

  lemma PassCore(topo: Topology, s: State, r: RouterId, up: set<string>, now: int)
    requires PointToPoint(topo) && RipBounds.GoodState(topo, s) && Core(topo, s) && r in topo.ifs
    requires Calm(topo, s, Pass(r, up, now))
    ensures Core(topo, Send(topo, Swept(topo, s, r, up, now), r))
  {
    SweepCore(topo, s, r, up, now);
    assert NetsDistinct(Table(Swept(topo, s, r, up, now), r)) by {
      RipBounds.GoodSweep(topo, s, r, up, now);
      assert RipBounds.GoodTable(topo, Table(Swept(topo, s, r, up, now), r));
    }
    SendCore(topo, Swept(topo, s, r, up, now), r);
  }

  lemma CoreNext(topo: Topology, s: State, step: Step)
    requires PointToPoint(topo) && RipBounds.GoodState(topo, s) && Core(topo, s) && Calm(topo, s, step)
    ensures Core(topo, Next(topo, s, step))
  {
    match step {
      case Deliver(q, pos, now) =>
        if q in topo.peer && pos < |Chan(s, q)| {
          DeliverCore(topo, s, q, now);
        }
      case Lose(q, pos) =>
        if q in topo.peer && pos < |Chan(s, q)| {
          LoseCore(topo, s, q, pos);
        }
      case Pass(r, up, now) =>
        if r in topo.ifs {
          PassCore(topo, s, r, up, now);
        }
      case Respond(r) =>
        assert RipBounds.GoodTable(topo, Table(s, r));
        SendCore(topo, s, r);
    }
  }

  lemma StartDirect(topo: Topology, r: RouterId, now: int)
    requires SubnetsDistinct(Ifs(topo, r))
    ensures DirectOk(topo, r, Build(Ifs(topo, r), now))
  {
    var ifs := Ifs(topo, r);
    var t := Build(ifs, now);
    BuildDistinct(ifs, now);
    forall f | f in ifs
      ensures DirectFor(t, f)
    {
      var i :| 0 <= i < |ifs| && ifs[i] == f;
      assert IndexOf(t, Subnet(f)) == i;
    }
    forall net | Metric(t, net) == 0
      ensures Attached(topo, r, net)
    {
      assert ifs[IndexOf(t, net)] in ifs;
    }
  }

  lemma StartCore(topo: Topology, now: int)
    requires PointToPoint(topo)
    ensures Core(topo, Start(topo, now))
  {
    var s := Start(topo, now);
    forall r
      ensures DirectOk(topo, r, Table(s, r))
      ensures forall net :: Backed(topo, s, r, net)
    {
      assert SubnetsDistinct(Ifs(topo, r));
      assert Table(s, r) == Build(Ifs(topo, r), now);
      StartDirect(topo, r, now);
    }
  }

  lemma {:induction false} CoreRun(topo: Topology, now: int, steps: seq<Step>)
    requires PointToPoint(topo) && CalmRun(topo, Start(topo, now), steps)
    ensures RipBounds.GoodState(topo, Run(topo, Start(topo, now), steps))
    ensures Core(topo, Run(topo, Start(topo, now), steps))
  {
    if steps == [] {
      StartCore(topo, now);
      RipBounds.GoodRun(topo, now, []);
    } else {
      CoreRun(topo, now, steps[..|steps| - 1]);
      CoreNext(topo, Run(topo, Start(topo, now), steps[..|steps| - 1]), steps[|steps| - 1]);
      RipBounds.GoodRun(topo, now, steps);
    }
  }

  // ---- What it means for forwarding -----------------------------------------------------

  // The router r hands packets for net to, by a live entry that is not direct.
  ghost predicate Gateway(topo: Topology, s: State, net: Words.Word, r: RouterId, next: RouterId) {
    var o := Find(Table(s, r), net);
    && o.Some? && 0 < o.value.metric < INFINITY
    && (r, o.value.iface) in topo.peer && topo.peer[(r, o.value.iface)].0 == next
    && exists f :: HasPort(topo, topo.peer[(r, o.value.iface)], f) && o.value.gw == f.ip
  }

  // The address a peer's responses come from is that of its interface.
  lemma PeerAddress(topo: Topology, q: PortId)
    requires PointToPoint(topo) && q in topo.peer
    ensures exists f :: HasPort(topo, topo.peer[q], f) && IpOf(topo, topo.peer[q]) == f.ip
  {
    var p := topo.peer[q];
    assert LinkOk(topo, q) && LinkOk(topo, p);
    var f :| HasPort(topo, p, f);
    IpNamedIs(Ifs(topo, p.0), f);
  }

  ghost predicate FollowsGateways(topo: Topology, s: State, net: Words.Word, path: seq<RouterId>) {
    path != [] && forall k :: 0 <= k < |path| - 1 ==> Gateway(topo, s, net, path[k], path[k + 1])
  }

  // After any calm run, a live entry is either direct, or its gateway is the address of the
  // neighbour's interface at the other end of the link, and the neighbour holds a live entry for
  // the network with a smaller metric.
  lemma GatewaysAreCloser(topo: Topology, now: int, steps: seq<Step>, r: RouterId, e: RtEntry)
    requires PointToPoint(topo) && CalmRun(topo, Start(topo, now), steps)
    requires e in Table(Run(topo, Start(topo, now), steps), r) && e.metric < INFINITY
    ensures var s := Run(topo, Start(topo, now), steps);
            if e.metric == 0 then Attached(topo, r, NetOf(e))
            else exists next :: && Gateway(topo, s, NetOf(e), r, next)
                                && Metric(Table(s, next), NetOf(e)) < e.metric
  {
    var s := Run(topo, Start(topo, now), steps);
    CoreRun(topo, now, steps);
    assert RipBounds.GoodTable(topo, Table(s, r)) && DirectOk(topo, r, Table(s, r));
    FindUnique(Table(s, r), e);
    assert Metric(Table(s, r), NetOf(e)) == e.metric;
    if e.metric > 0 {
      var next := HandsOn(topo, s, NetOf(e), r);
    }
  }

  lemma {:induction false} MetricFalls(topo: Topology, s: State, net: Words.Word, path: seq<RouterId>, a: nat, b: nat)
    requires Core(topo, s) && FollowsGateways(topo, s, net, path) && a < b < |path|
    ensures Metric(Table(s, path[b]), net) < Metric(Table(s, path[a]), net)
    decreases b
  {
    assert Gateway(topo, s, net, path[b - 1], path[b - 1 + 1]);
    assert Backed(topo, s, path[b - 1], net);
    if a < b - 1 {
      MetricFalls(topo, s, net, path, a, b - 1);
    }
  }

  // No packet following gateways ever comes back to a router it has passed.
  lemma NoForwardingLoop(topo: Topology, now: int, steps: seq<Step>, net: Words.Word, path: seq<RouterId>)
    requires PointToPoint(topo) && CalmRun(topo, Start(topo, now), steps)
    requires FollowsGateways(topo, Run(topo, Start(topo, now), steps), net, path)
    ensures forall a, b :: 0 <= a < b < |path| ==> path[a] != path[b]
  {
    var s := Run(topo, Start(topo, now), steps);
    CoreRun(topo, now, steps);
    forall a, b | 0 <= a < b < |path|
      ensures path[a] != path[b]
    {
      MetricFalls(topo, s, net, path, a, b);
    }
  }

  // A live entry that is not direct hands packets to a router strictly closer.
  lemma HandsOn(topo: Topology, s: State, net: Words.Word, r: RouterId) returns (next: RouterId)
    requires PointToPoint(topo) && Core(topo, s) && 0 < Metric(Table(s, r), net) < INFINITY
    ensures Gateway(topo, s, net, r, next) && 0 <= Metric(Table(s, next), net) < Metric(Table(s, r), net)
  {
    var e := Find(Table(s, r), net).value;
    assert Backed(topo, s, r, net);
    assert BackedBy(topo, s, (r, e.iface), e, net);
    PeerAddress(topo, (r, e.iface));
    next := topo.peer[(r, e.iface)].0;
  }

  lemma FollowsOnward(topo: Topology, s: State, net: Words.Word, r: RouterId, path: seq<RouterId>)
    requires FollowsGateways(topo, s, net, path) && Gateway(topo, s, net, r, path[0])
    ensures FollowsGateways(topo, s, net, [r] + path)
  {
    var longer := [r] + path;
    forall k | 0 <= k < |longer| - 1
      ensures Gateway(topo, s, net, longer[k], longer[k + 1])
    {
      if k > 0 {
        assert Gateway(topo, s, net, path[k - 1], path[k - 1 + 1]);
      }
    }
  }

  lemma {:induction false} GatewaysArrive(topo: Topology, s: State, net: Words.Word, r: RouterId)
    returns (path: seq<RouterId>)
    requires PointToPoint(topo) && Core(topo, s) && Metric(Table(s, r), net) < INFINITY
    ensures FollowsGateways(topo, s, net, path) && path[0] == r
    ensures Attached(topo, path[|path| - 1], net) && |path| - 1 <= Metric(Table(s, r), net)
    decreases Metric(Table(s, r), net)
  {
    if Metric(Table(s, r), net) == 0 {
      assert DirectOk(topo, r, Table(s, r));
      path := [r];
    } else {
      var next := HandsOn(topo, s, net, r);
      var rest := GatewaysArrive(topo, s, net, next);
      FollowsOnward(topo, s, net, r, rest);
      path := [r] + rest;
    }
  }

  // Following gateways from any router with a live entry reaches a directly attached router in
  // at most `metric` hops.
  lemma GatewaysReachNetwork(topo: Topology, now: int, steps: seq<Step>, net: Words.Word, r: RouterId)
    requires PointToPoint(topo) && CalmRun(topo, Start(topo, now), steps)
    requires Metric(Table(Run(topo, Start(topo, now), steps), r), net) < INFINITY
    ensures var s := Run(topo, Start(topo, now), steps);
            exists path :: && FollowsGateways(topo, s, net, path) && path[0] == r
                           && Attached(topo, path[|path| - 1], net)
                           && |path| - 1 <= Metric(Table(s, r), net)
  {
    CoreRun(topo, now, steps);
    var path := GatewaysArrive(topo, Run(topo, Start(topo, now), steps), net, r);
  }
}
