// Why nothing is said about convergence.  A router with one interface never gets a better metric
// for a network than the first one it heard: two runs end with it holding a worse metric than the
// shortest, for good, although its only neighbour keeps offering the shortest.
module RipStuck {
  import Options
  import opened Words
  import opened RipTable
  import opened RipNetwork
  import RipBounds

  // Router r's one interface is f.
  ghost predicate SingleHomed(topo: Topology, r: RouterId, f: Iface) {
    r in topo.ifs && topo.ifs[r] == [f] && forall q :: q in topo.peer && q.0 == r ==> q.1 == f.name
  }

  // r's entry for net is at m, or dead, and uses f.
  ghost predicate Pinned(s: State, r: RouterId, f: Iface, net: Word, m: Word32) {
    var o := Find(Table(s, r), net);
    o.Some? && o.value.iface == f.name && (o.value.metric == m || o.value.metric == INFINITY)
  }

  // Whatever comes through the interface in use can only kill an entry.
  lemma {:induction false} OwnInterface(
    table: seq<RtEntry>, xs: seq<Route>, src: Word, iface: string, now: int, net: Word)
    requires Find(table, net).Some? && Find(table, net).value.iface == iface
    ensures var e, o := Find(table, net).value, Find(UpdateAll(table, xs, src, iface, now), net);
            && o.Some? && o.value.iface == iface
            && (o.value.metric == e.metric || o.value.metric == INFINITY)
  {
    if xs != [] {
      var init, last := xs[..|xs| - 1], xs[|xs| - 1];
      OwnInterface(table, init, src, iface, now, net);
      UpdateOneFind(UpdateAll(table, init, src, iface, now), last, src, iface, now, net);
    }
  }

  // No step gives the entry another metric, short of killing it.
  lemma PinnedNext(topo: Topology, s: State, step: Step, r: RouterId, f: Iface, net: Word, m: Word32)
    requires SingleHomed(topo, r, f) && Subnet(f) != net && Pinned(s, r, f, net, m)
    ensures Pinned(Next(topo, s, step), r, f, net, m)
  {
    match step {
      case Deliver(q, pos, now) =>
        if q in topo.peer && pos < |Chan(s, q)| {
          var msg := Chan(s, q)[pos];
          if q.0 == r {
            OwnInterface(Table(s, r), msg.routes, msg.src, q.1, now, net);
          }
          assert Pinned(Absorb(s, q, pos, now), r, f, net, m);
          SameTable(topo, Absorb(s, q, pos, now), q.0, r);
        }
      case Lose(q, pos) =>
      case Pass(router, up, now) =>
        if router in topo.ifs {
          if router == r {
            TickFind(Table(s, r), [f], up, now, net);
          }
          assert Pinned(Swept(topo, s, router, up, now), r, f, net, m);
          SameTable(topo, Swept(topo, s, router, up, now), router, r);
        }
      case Respond(router) => SameTable(topo, s, router, r);
    }
  }

  lemma SameTable(topo: Topology, s: State, sender: RouterId, r: RouterId)
    ensures Table(Send(topo, s, sender), r) == Table(s, r)
  {
  }

  // Nor does any run.
  lemma {:induction false} PinnedForever(
    topo: Topology, s: State, steps: seq<Step>, r: RouterId, f: Iface, net: Word, m: Word32)
    requires SingleHomed(topo, r, f) && Subnet(f) != net && Pinned(s, r, f, net, m)
    ensures Pinned(Run(topo, s, steps), r, f, net, m)
  {
    if steps != [] {
      PinnedForever(topo, s, steps[..|steps| - 1], r, f, net, m);
      PinnedNext(topo, Run(topo, s, steps[..|steps| - 1]), steps[|steps| - 1], r, f, net, m);
    }
  }

  // ---- A neighbour that keeps offering -------------------------------------------------------

  // r is directly attached to h's network and says so.
  ghost predicate Offering(s: State, r: RouterId, h: Iface) {
    var o := Find(Table(s, r), Subnet(h));
    o.Some? && o.value.metric == 0 && o.value.iface == h.name && o.value.mask == h.mask
  }

  // h is an interface of r with no router at its other end.
  ghost predicate Stub(topo: Topology, r: RouterId, h: Iface) {
    r in topo.ifs && h in topo.ifs[r] && SubnetsDistinct(topo.ifs[r]) && (r, h.name) !in topo.peer
  }

  // The step does not find h down.
  predicate SeenUp(step: Step, r: RouterId, h: Iface) {
    step.Pass? && step.router == r ==> h.name in step.up
  }

  // Nothing heard elsewhere is better than 0.
  lemma {:induction false} ZeroKept(
    table: seq<RtEntry>, xs: seq<Route>, src: Word, iface: string, now: int, net: Word)
    requires Find(table, net).Some? && Find(table, net).value.metric == 0 && Find(table, net).value.iface != iface
    ensures Find(UpdateAll(table, xs, src, iface, now), net) == Find(table, net)
  {
    if xs != [] {
      var init, last := xs[..|xs| - 1], xs[|xs| - 1];
      ZeroKept(table, init, src, iface, now, net);
      UpdateOneFind(UpdateAll(table, init, src, iface, now), last, src, iface, now, net);
    }
  }

  lemma OfferingNext(topo: Topology, s: State, step: Step, r: RouterId, h: Iface)
    requires Stub(topo, r, h) && Offering(s, r, h) && SeenUp(step, r, h)
    ensures Offering(Next(topo, s, step), r, h)
  {
    var net := Subnet(h);
    match step {
      case Deliver(q, pos, now) =>
        if q in topo.peer && pos < |Chan(s, q)| {
          var msg := Chan(s, q)[pos];
          if q.0 == r {
            ZeroKept(Table(s, r), msg.routes, msg.src, q.1, now, net);
          }
          assert Offering(Absorb(s, q, pos, now), r, h);
          SameTable(topo, Absorb(s, q, pos, now), q.0, r);
        }
      case Lose(q, pos) =>
      case Pass(router, up, now) =>
        if router in topo.ifs {
          if router == r {
            assert NetOf(Find(Table(s, r), net).value) == net;
            TickFind(Table(s, r), topo.ifs[r], up, now, net);
          }
          assert Offering(Swept(topo, s, router, up, now), r, h);
          SameTable(topo, Swept(topo, s, router, up, now), router, r);
        }
      case Respond(router) => SameTable(topo, s, router, r);
    }
  }

  // Over every run that never finds h down, whatever is delivered, lost or expires meanwhile.
  lemma {:induction false} OfferingRun(topo: Topology, s: State, steps: seq<Step>, r: RouterId, h: Iface)
    requires Stub(topo, r, h) && Offering(s, r, h)
    requires forall k :: 0 <= k < |steps| ==> SeenUp(steps[k], r, h)
    ensures Offering(Run(topo, s, steps), r, h)
  {
    if steps != [] {
      OfferingRun(topo, s, steps[..|steps| - 1], r, h);
      OfferingNext(topo, Run(topo, s, steps[..|steps| - 1]), steps[|steps| - 1], r, h);
    }
  }

  // The response towards q offers h's network at metric 0.
  ghost predicate Offered(topo: Topology, s: State, q: PortId, h: Iface) {
    q in topo.peer &&
    exists x :: x in MsgTo(topo, s, q).routes && RouteNet(x) == Subnet(h) && x.mask == h.mask && x.metric == 0
  }

  lemma OfferingIsOffered(topo: Topology, s: State, q: PortId, h: Iface)
    requires q in topo.peer && Offering(s, topo.peer[q].0, h) && topo.peer[q].1 != h.name
    ensures Offered(topo, s, q, h)
  {
    var p := topo.peer[q];
    var e := Find(Table(s, p.0), Subnet(h)).value;
    ResponseMember(Table(s, p.0), p.1, Advert(e));
    assert Advert(e) in MsgTo(topo, s, q).routes;
  }

  // ---- Steps seen at one network ---------------------------------------------------------------

  // r's entry for net.
  ghost predicate Holds(s: State, r: RouterId, net: Word, iface: string, metric: Word32, mask: Word) {
    var o := Find(Table(s, r), net);
    o.Some? && o.value.iface == iface && o.value.metric == metric && o.value.mask == mask
  }

  // An entry that a route heard at metric m through iface would replace or precede.
  ghost predicate Open(s: State, r: RouterId, net: Word, iface: string, m: Word32) {
    var o := Find(Table(s, r), net);
    o.None? || (o.value.iface != iface && m < o.value.metric)
  }

  // What sending does to one queue.
  lemma SendTo(topo: Topology, s: State, r: RouterId, q: PortId)
    requires q in topo.peer
    ensures var u := Send(topo, s, r);
            && Chan(u, q) == (if topo.peer[q].0 == r then Chan(s, q) + [MsgTo(topo, s, q)] else Chan(s, q))
            && forall h :: Table(u, h) == Table(s, h)
  {
  }

  // A table's response, with what the table holds for net in it.
  ghost predicate Carries(m: Msg, table: seq<RtEntry>, port: string, net: Word, metric: Word32, mask: Word) {
    && NetsDistinct(table) && m.routes == Response(table, port)
    && Find(table, net).Some? && Find(table, net).value.iface != port
    && Find(table, net).value.metric == metric && Find(table, net).value.mask == mask
  }

  ghost predicate HasEntry(table: seq<RtEntry>, net: Word, iface: string, metric: Word32, mask: Word) {
    var o := Find(table, net);
    o.Some? && o.value.iface == iface && o.value.metric == metric && o.value.mask == mask
  }

  lemma AbsorbsNews(
    mine: seq<RtEntry>, table: seq<RtEntry>, port: string, src: Word, iface: string, now: int, net: Word,
    metric: Word32, mask: Word)
    requires NetsDistinct(table) && Find(table, net).Some? && Find(table, net).value.iface != port
    requires Find(table, net).value.metric == metric && Find(table, net).value.mask == mask
    requires metric + 1 < INFINITY
    requires var o := Find(mine, net); o.None? || (o.value.iface != iface && metric + 1 < o.value.metric)
    ensures HasEntry(UpdateAll(mine, Response(table, port), src, iface, now), net, iface, metric + 1, mask)
  {
    var e := Find(table, net).value;
    assert e in table;
    ResponseMember(table, port, Advert(e));
    ResponseDistinct(table, port);
    UpdateAllFind(mine, Response(table, port), src, iface, now, net);
    assert Advert(e) in Response(table, port) && RouteNet(Advert(e)) == net;
  }

  // A router absorbs a neighbour's response that is news to it.
  lemma HearsNews(
    topo: Topology, s: State, q: PortId, now: int, table: seq<RtEntry>, port: string, net: Word,
    metric: Word32, mask: Word)
    requires q in topo.peer && Chan(s, q) != [] && metric + 1 < INFINITY
    requires Carries(Chan(s, q)[0], table, port, net, metric, mask) && Open(s, q.0, net, q.1, metric + 1)
    ensures var u := Next(topo, s, Deliver(q, 0, now));
            && Holds(u, q.0, net, q.1, metric + 1, mask)
            && forall h :: h != q.0 ==> Table(u, h) == Table(s, h)
  {
    var m := Chan(s, q)[0];
    AbsorbsNews(Table(s, q.0), table, port, m.src, q.1, now, net, metric, mask);
    AbsorbTables(topo, s, q, now);
  }

  lemma AbsorbTables(topo: Topology, s: State, q: PortId, now: int)
    requires q in topo.peer && Chan(s, q) != []
    ensures var u, m := Next(topo, s, Deliver(q, 0, now)), Chan(s, q)[0];
            && Table(u, q.0) == UpdateAll(Table(s, q.0), m.routes, m.src, q.1, now)
            && forall h :: h != q.0 ==> Table(u, h) == Table(s, h)
  {
    SendTo(topo, Absorb(s, q, 0, now), q.0, q);
  }

  // What delivering to q does to another queue: nothing, or the triggered response follows.
  lemma DeliverElsewhere(topo: Topology, s: State, q: PortId, now: int, other: PortId)
    requires q in topo.peer && other in topo.peer && q != other && Chan(s, q) != []
    ensures var u := Next(topo, s, Deliver(q, 0, now));
            || Chan(u, other) == Chan(s, other)
            || Chan(u, other) == Chan(s, other) + [MsgTo(topo, u, other)]
  {
    var u := Next(topo, s, Deliver(q, 0, now));
    var absorbed := Absorb(s, q, 0, now);
    assert Chan(absorbed, other) == Chan(s, other);
    SendTo(topo, absorbed, q.0, other);
    assert forall h :: Table(u, h) == Table(absorbed, h);
  }

  // Two steps of it: a neighbour responds into an empty queue and the response arrives.
  lemma RespondAndHear(
    topo: Topology, s: State, q: PortId, now: int, net: Word, metric: Word32, mask: Word, iface: string)
    requires q in topo.peer && Chan(s, q) == [] && topo.peer[q].0 != q.0
    requires NetsDistinct(Table(s, topo.peer[q].0)) && metric + 1 < INFINITY
    requires Holds(s, topo.peer[q].0, net, iface, metric, mask) && iface != topo.peer[q].1
    requires Open(s, q.0, net, q.1, metric + 1)
    ensures var u := Next(topo, Next(topo, s, Respond(topo.peer[q].0)), Deliver(q, 0, now));
            && Holds(u, q.0, net, q.1, metric + 1, mask)
            && forall h :: h != q.0 ==> Table(u, h) == Table(s, h)
  {
    var p := topo.peer[q];
    SendTo(topo, s, p.0, q);
    var t := Next(topo, s, Respond(p.0));
    assert Chan(t, q) == [MsgTo(topo, s, q)];
    HearsNews(topo, t, q, now, Table(s, p.0), p.1, net, metric, mask);
  }

  // ---- Stuck for good --------------------------------------------------------------------------

  // Once r's only entry for h's network is at m or dead, it is so after every further run; and
  // unless its neighbour finds h down, every response the neighbour has for it offers the
  // network at metric 0.
  lemma StuckForGood(topo: Topology, s: State, more: seq<Step>, q: PortId, f: Iface, h: Iface, m: Word32)
    requires SingleHomed(topo, q.0, f) && Subnet(f) != Subnet(h) && Pinned(s, q.0, f, Subnet(h), m)
    requires q in topo.peer && topo.peer[q] in topo.peer
    requires Stub(topo, topo.peer[q].0, h) && Offering(s, topo.peer[q].0, h)
    ensures var u := Run(topo, s, more);
            && Pinned(u, q.0, f, Subnet(h), m)
            && ((forall k :: 0 <= k < |more| ==> SeenUp(more[k], topo.peer[q].0, h)) ==> Offered(topo, u, q, h))
  {
    PinnedForever(topo, s, more, q.0, f, Subnet(h), m);
    if forall k :: 0 <= k < |more| ==> SeenUp(more[k], topo.peer[q].0, h) {
      OfferingRun(topo, s, more, topo.peer[q].0, h);
      assert topo.peer[q] == (topo.peer[q].0, topo.peer[q].1);
      OfferingIsOffered(topo, Run(topo, s, more), q, h);
    }
  }

  lemma RunSnoc(topo: Topology, s: State, steps: seq<Step>, step: Step)
    ensures Run(topo, s, steps + [step]) == Next(topo, Run(topo, s, steps), step)
  {
    assert (steps + [step])[..|steps|] == steps;
  }

  lemma RunTwo(topo: Topology, s: State, steps: seq<Step>, first: Step, second: Step)
    ensures Run(topo, s, steps + [first, second]) == Next(topo, Next(topo, Run(topo, s, steps), first), second)
  {
    var one, both := steps + [first], steps + [first, second];
    assert both == one + [second];
    assert Run(topo, s, both) == Next(topo, Run(topo, s, one), second) by {
      RunSnoc(topo, s, one, second);
    }
    assert Run(topo, s, one) == Next(topo, Run(topo, s, steps), first) by {
      RunSnoc(topo, s, steps, first);
    }
  }

  lemma BuiltEntry(ifs: seq<Iface>, now: int, i: nat)
    requires SubnetsDistinct(ifs) && i < |ifs|
    ensures Find(Build(ifs, now), Subnet(ifs[i])) ==
            Options.Some(RtEntry(Subnet(ifs[i]), 0, ifs[i].mask, ifs[i].name, 0, now))
  {
    BuildDistinct(ifs, now);
    var e := Build(ifs, now)[i];
    assert e in Build(ifs, now);
    FindUnique(Build(ifs, now), e);
  }

  lemma NotBuilt(ifs: seq<Iface>, now: int, net: Word)
    requires SubnetsDistinct(ifs) && forall i :: 0 <= i < |ifs| ==> Subnet(ifs[i]) != net
    ensures Find(Build(ifs, now), net).None?
  {
    BuildDistinct(ifs, now);
  }

  // ---- A run to a dead entry -------------------------------------------------------------------

  const ETH0: string := "eth0"
  const ETH1: string := "eth1"
  const ETH2: string := "eth2"

  lemma NamesDiffer()
    ensures ETH0 != ETH1 && ETH0 != ETH2 && ETH1 != ETH2
  {
    assert ETH0[3] != ETH1[3] && ETH0[3] != ETH2[3] && ETH1[3] != ETH2[3];
  }

  // Router 1 has f on a link; router 2 has g on the same link and h on a network beyond it.
  function Pair(f: Iface, g: Iface, h: Iface): Topology {
    Topology(map[1 := [f], 2 := [g, h]], map[(1, ETH0) := (2, ETH0), (2, ETH0) := (1, ETH0)])
  }

  ghost predicate PairOk(f: Iface, g: Iface, h: Iface) {
    && f.name == ETH0 && g.name == ETH0 && h.name == ETH1
    && Subnet(f) == Subnet(g) && f.mask == g.mask && Subnet(h) != Subnet(f)
  }

  // What the runs need to know of the pair.
  ghost predicate IsPair(topo: Topology, f: Iface, h: Iface) {
    var q := (1, ETH0);
    && SingleHomed(topo, 1, f) && Stub(topo, 2, h) && Subnet(f) != Subnet(h)
    && f.name == ETH0 && h.name == ETH1 && ETH0 != ETH1
    && q in topo.peer && topo.peer[q] == (2, ETH0) && topo.peer[q] in topo.peer
  }

  lemma PairIs(f: Iface, g: Iface, h: Iface)
    requires PairOk(f, g, h)
    ensures IsPair(Pair(f, g, h), f, h)
    ensures var s := Start(Pair(f, g, h), 0);
            && Find(Table(s, 1), Subnet(h)).None? && Holds(s, 2, Subnet(h), ETH1, 0, h.mask)
            && NetsDistinct(Table(s, 2)) && Chan(s, (1, ETH0)) == []
  {
    NamesDiffer();
    assert Pair(f, g, h).ifs[2][1] == h;
    NotBuilt([f], 0, Subnet(h));
    BuiltEntry([g, h], 0, 1);
    BuildDistinct([g, h], 0);
  }

  // Router 1 hears of the network, sees its interface down once, and sees it up again.
  const FLAP: seq<Step> := [Respond(2), Deliver((1, ETH0), 0, 1), Pass(1, {}, 2), Pass(1, {ETH0}, 3)]

  // The entry it heard dies when the interface is seen down, and stays dead when it is seen up.
  lemma Flaps(topo: Topology, f: Iface, h: Iface, s: State)
    requires IsPair(topo, f, h) && Pinned(s, 1, f, Subnet(h), 1) && Offering(s, 2, h)
    ensures var u := Next(topo, Next(topo, s, Pass(1, {}, 2)), Pass(1, {ETH0}, 3));
            && Pinned(u, 1, f, Subnet(h), INFINITY) && Offering(u, 2, h)
            && exists e :: e in Table(u, 1) && IsDirect(e, f, 3)
  {
    TickFind(Table(s, 1), [f], {}, 2, Subnet(h));
    var down := Next(topo, s, Pass(1, {}, 2));
    SameTable(topo, Swept(topo, s, 1, {}, 2), 1, 1);
    assert Table(down, 1) == Tick(Table(s, 1), [f], {}, 2);
    PinnedNext(topo, down, Pass(1, {ETH0}, 3), 1, f, Subnet(h), INFINITY);
    OfferingNext(topo, s, Pass(1, {}, 2), 2, h);
    OfferingNext(topo, down, Pass(1, {ETH0}, 3), 2, h);
    TickPost(Table(down, 1), [f], {ETH0}, 3);
    SameTable(topo, Swept(topo, down, 1, {ETH0}, 3), 1, 1);
  }

  lemma FlapIs()
    ensures FLAP == [] + [Respond(2), Deliver((1, ETH0), 0, 1)] + [Pass(1, {}, 2), Pass(1, {ETH0}, 3)]
  {
  }

  lemma HearsThenFlaps(topo: Topology, f: Iface, h: Iface, s: State)
    requires IsPair(topo, f, h) && Find(Table(s, 1), Subnet(h)).None? && Holds(s, 2, Subnet(h), ETH1, 0, h.mask)
    requires NetsDistinct(Table(s, 2)) && Chan(s, (1, ETH0)) == []
    ensures var u := Run(topo, s, FLAP);
            && Pinned(u, 1, f, Subnet(h), INFINITY) && Offering(u, 2, h)
            && exists e :: e in Table(u, 1) && IsDirect(e, f, 3)
  {
    RespondAndHear(topo, s, (1, ETH0), 1, Subnet(h), 0, h.mask, ETH1);
    var heard := Next(topo, Next(topo, s, Respond(2)), Deliver((1, ETH0), 0, 1));
    Flaps(topo, f, h, heard);
    RunTwo(topo, s, [], Respond(2), Deliver((1, ETH0), 0, 1));
    RunTwo(topo, s, [] + [Respond(2), Deliver((1, ETH0), 0, 1)], Pass(1, {}, 2), Pass(1, {ETH0}, 3));
    FlapIs();
  }

  lemma FlapCuts(f: Iface, g: Iface, h: Iface)
    requires PairOk(f, g, h)
    ensures var u := Run(Pair(f, g, h), Start(Pair(f, g, h), 0), FLAP);
            && Pinned(u, 1, f, Subnet(h), INFINITY) && Offering(u, 2, h)
            && exists e :: e in Table(u, 1) && IsDirect(e, f, 3)
  {
    PairIs(f, g, h);
    HearsThenFlaps(Pair(f, g, h), f, h, Start(Pair(f, g, h), 0));
  }

  // After the flap router 1's entry for the network stays at 16 over every further run, however
  // many responses it hears; and unless router 2 finds the network's interface down, every
  // response router 2 has for it offers the network at metric 0.
  lemma NeverConverges(f: Iface, g: Iface, h: Iface, more: seq<Step>)
    requires PairOk(f, g, h)
    ensures var topo := Pair(f, g, h);
            var u := Run(topo, Run(topo, Start(topo, 0), FLAP), more);
            && Pinned(u, 1, f, Subnet(h), INFINITY)
            && ((forall k :: 0 <= k < |more| ==> SeenUp(more[k], 2, h)) ==> Offered(topo, u, (1, ETH0), h))
  {
    PairIs(f, g, h);
    FlapCuts(f, g, h);
    StuckForGood(Pair(f, g, h), Run(Pair(f, g, h), Start(Pair(f, g, h), 0), FLAP), more, (1, ETH0), f, h, INFINITY);
  }

  // ---- A run to a live entry that is too high ----------------------------------------------------

  // The interfaces of three routers in a row, the last two of which share a network.
  datatype Trio = Trio(a: Iface, b: Iface, n2: Iface, c: Iface, d: Iface, n3: Iface)

  function Row(t: Trio): Topology {
    Topology(map[1 := [t.a], 2 := [t.b, t.n2, t.c], 3 := [t.d, t.n3]],
             map[(1, ETH0) := (2, ETH0), (2, ETH0) := (1, ETH0), (2, ETH2) := (3, ETH0), (3, ETH0) := (2, ETH2)])
  }

  ghost predicate RowOk(t: Trio) {
    && t.a.name == ETH0 && t.b.name == ETH0 && t.n2.name == ETH1 && t.c.name == ETH2
    && t.d.name == ETH0 && t.n3.name == ETH1
    && Subnet(t.a) == Subnet(t.b) && Subnet(t.c) == Subnet(t.d) && Subnet(t.n2) == Subnet(t.n3)
    && t.a.mask == t.b.mask && t.c.mask == t.d.mask && t.n2.mask == t.n3.mask
    && Subnet(t.a) != Subnet(t.c) && Subnet(t.a) != Subnet(t.n2) && Subnet(t.c) != Subnet(t.n2)
  }

  // What the run needs to know of the row.
  ghost predicate IsRow(topo: Topology, t: Trio) {
    && RowOk(t) && ETH0 != ETH1 && ETH0 != ETH2 && ETH1 != ETH2
    && SingleHomed(topo, 1, t.a) && Stub(topo, 2, t.n2) && Stub(topo, 3, t.n3)
    && 2 in topo.ifs && topo.ifs[2] == [t.b, t.n2, t.c]
    && (1, ETH0) in topo.peer && topo.peer[(1, ETH0)] == (2, ETH0) && (2, ETH0) in topo.peer
    && (2, ETH2) in topo.peer && topo.peer[(2, ETH2)] == (3, ETH0)
    && RipBounds.WellMasked(topo)
  }

  lemma RowIs(t: Trio)
    requires RowOk(t)
    ensures IsRow(Row(t), t)
  {
    NamesDiffer();
    var topo := Row(t);
    assert topo.ifs[1] == [t.a] && topo.ifs[2] == [t.b, t.n2, t.c] && topo.ifs[3] == [t.d, t.n3];
    assert topo.ifs[2][1] == t.n2 && topo.ifs[3][1] == t.n3;
    forall k | k in RipBounds.Subnets(topo)
      ensures k == (Subnet(t.a), t.a.mask) || k == (Subnet(t.n2), t.n2.mask) || k == (Subnet(t.c), t.c.mask)
    {
    }
  }

  // Where the run stands before each pair of steps: router 3 always offers the network, the
  // entries of routers 1 and 2, and two queues.
  ghost predicate AtStart(s: State, t: Trio) {
    && Find(Table(s, 1), Subnet(t.n2)).None? && Holds(s, 2, Subnet(t.n2), ETH1, 0, t.n2.mask)
    && Holds(s, 3, Subnet(t.n2), ETH1, 0, t.n2.mask)
    && Chan(s, (1, ETH0)) == [] && Chan(s, (2, ETH2)) == []
  }

  ghost predicate AfterDown(s: State, t: Trio) {
    && Find(Table(s, 1), Subnet(t.n2)).None? && Holds(s, 2, Subnet(t.n2), ETH1, INFINITY, t.n2.mask)
    && Holds(s, 3, Subnet(t.n2), ETH1, 0, t.n2.mask)
    && Chan(s, (1, ETH0)) == [] && Chan(s, (2, ETH2)) == []
  }

  ghost predicate AfterDetour(s: State, t: Trio) {
    && Find(Table(s, 1), Subnet(t.n2)).None? && Holds(s, 2, Subnet(t.n2), ETH2, 1, t.n2.mask)
  }

  lemma RowStart(t: Trio)
    requires RowOk(t)
    ensures AtStart(Start(Row(t), 0), t)
  {
    NotBuilt([t.a], 0, Subnet(t.n2));
    BuiltEntry([t.b, t.n2, t.c], 0, 1);
    BuiltEntry([t.d, t.n3], 0, 1);
  }

  lemma DownTick(t: Trio, table: seq<RtEntry>)
    requires RowOk(t) && ETH0 != ETH1 && ETH1 != ETH2 && HasEntry(table, Subnet(t.n2), ETH1, 0, t.n2.mask)
    ensures HasEntry(Tick(table, [t.b, t.n2, t.c], {ETH0, ETH2}, 1), Subnet(t.n2), ETH1, INFINITY, t.n2.mask)
  {
    var ifs, up, net := [t.b, t.n2, t.c], {ETH0, ETH2}, Subnet(t.n2);
    var e := Find(table, net).value;
    assert ifs[1] == t.n2 && t.n2 in ifs && DownFor(e, ifs, up);
    assert Unclaimed(e, ifs, up);
    TickFind(table, ifs, up, 1, net);
  }

  // What a pass of r does to a queue.
  lemma PassTo(topo: Topology, s: State, r: RouterId, up: set<string>, now: int, q: PortId)
    requires r in topo.ifs && q in topo.peer
    ensures var u := Next(topo, s, Pass(r, up, now));
            && Table(u, r) == Tick(Table(s, r), topo.ifs[r], up, now)
            && (forall h :: h != r ==> Table(u, h) == Table(s, h))
            && |Chan(u, q)| == |Chan(s, q)| + (if topo.peer[q].0 == r then 1 else 0)
            && Chan(s, q) <= Chan(u, q)
  {
    SendTo(topo, Swept(topo, s, r, up, now), r, q);
  }

  // Router 2 finds its interface on the network down, and its response to router 1 is lost;
  lemma GoesDown(topo: Topology, t: Trio, s: State)
    requires IsRow(topo, t) && AtStart(s, t)
    ensures AfterDown(Next(topo, Next(topo, s, Pass(2, {ETH0, ETH2}, 1)), Lose((1, ETH0), 0)), t)
  {
    DownTick(t, Table(s, 2));
    PassTo(topo, s, 2, {ETH0, ETH2}, 1, (1, ETH0));
    PassTo(topo, s, 2, {ETH0, ETH2}, 1, (2, ETH2));
    LosesOnly(topo, Next(topo, s, Pass(2, {ETH0, ETH2}, 1)), (1, ETH0), (2, ETH2));
  }

  lemma LosesOnly(topo: Topology, s: State, q: PortId, other: PortId)
    requires q in topo.peer && |Chan(s, q)| == 1 && other != q
    ensures var u := Next(topo, s, Lose(q, 0));
            && Chan(u, q) == [] && Chan(u, other) == Chan(s, other)
            && forall h :: Table(u, h) == Table(s, h)
  {
  }

  // it hears of the network from router 3 instead;
  lemma TakesDetour(topo: Topology, t: Trio, s: State)
    requires IsRow(topo, t) && AfterDown(s, t) && NetsDistinct(Table(s, 3))
    ensures var u := Next(topo, Next(topo, s, Respond(3)), Deliver((2, ETH2), 0, 2));
            && AfterDetour(u, t)
            && (Chan(u, (1, ETH0)) == [] || Chan(u, (1, ETH0)) == [MsgTo(topo, u, (1, ETH0))])
  {
    RespondAndHear(topo, s, (2, ETH2), 2, Subnet(t.n2), 0, t.n2.mask, ETH1);
    SendTo(topo, s, 3, (1, ETH0));
    SendTo(topo, s, 3, (2, ETH2));
    DeliverElsewhere(topo, Next(topo, s, Respond(3)), (2, ETH2), 2, (1, ETH0));
  }

  // router 1 hears of that;
  lemma HearsDetour(topo: Topology, t: Trio, s: State)
    requires IsRow(topo, t) && AfterDetour(s, t) && NetsDistinct(Table(s, 2))
    requires Chan(s, (1, ETH0)) == [] || Chan(s, (1, ETH0)) == [MsgTo(topo, s, (1, ETH0))]
    ensures var u := Next(topo, Next(topo, s, Respond(2)), Deliver((1, ETH0), 0, 3));
            && Pinned(u, 1, t.a, Subnet(t.n2), 2) && Holds(u, 2, Subnet(t.n2), ETH2, 1, t.n2.mask)
            && Holds(u, 1, Subnet(t.n2), ETH0, 2, t.n2.mask)
  {
    var sent := Next(topo, s, Respond(2));
    SendTo(topo, s, 2, (1, ETH0));
    assert Chan(sent, (1, ETH0))[0] == MsgTo(topo, s, (1, ETH0));
    HearsNews(topo, sent, (1, ETH0), 3, Table(s, 2), ETH0, Subnet(t.n2), 1, t.n2.mask);
  }

  // and router 2 is back on the network itself.
  lemma ComesBack(topo: Topology, t: Trio, s: State)
    requires IsRow(topo, t) && Holds(s, 1, Subnet(t.n2), ETH0, 2, t.n2.mask)
    requires Holds(s, 2, Subnet(t.n2), ETH2, 1, t.n2.mask)
    ensures var u := Next(topo, s, Pass(2, {ETH0, ETH1, ETH2}, 4));
            Holds(u, 1, Subnet(t.n2), ETH0, 2, t.n2.mask) && Offering(u, 2, t.n2)
  {
    var ifs, up, net := [t.b, t.n2, t.c], {ETH0, ETH1, ETH2}, Subnet(t.n2);
    var e := Find(Table(s, 2), net).value;
    assert ifs[1] == t.n2 && t.n2 in ifs && NetOf(e) == net && Matches(e, t.n2);
    TickFind(Table(s, 2), ifs, up, 4, net);
    SameTable(topo, Swept(topo, s, 2, up, 4), 2, 1);
    SameTable(topo, Swept(topo, s, 2, up, 4), 2, 2);
  }

  const DETOUR: seq<Step> :=
    [Pass(2, {ETH0, ETH2}, 1), Lose((1, ETH0), 0), Respond(3), Deliver((2, ETH2), 0, 2),
     Respond(2), Deliver((1, ETH0), 0, 3), Pass(2, {ETH0, ETH1, ETH2}, 4)]

  lemma Detours(topo: Topology, t: Trio, p0: seq<Step>, p1: seq<Step>, p2: seq<Step>, p3: seq<Step>)
    requires IsRow(topo, t) && AtStart(Run(topo, Start(topo, 0), p0), t)
    requires p1 == p0 + [Pass(2, {ETH0, ETH2}, 1), Lose((1, ETH0), 0)]
    requires p2 == p1 + [Respond(3), Deliver((2, ETH2), 0, 2)] && p3 == p2 + [Respond(2), Deliver((1, ETH0), 0, 3)]
    ensures var u := Run(topo, Start(topo, 0), p3 + [Pass(2, {ETH0, ETH1, ETH2}, 4)]);
            Holds(u, 1, Subnet(t.n2), ETH0, 2, t.n2.mask) && Offering(u, 2, t.n2)
  {
    var s := Start(topo, 0);
    GoesDown(topo, t, Run(topo, s, p0));
    RunTwo(topo, s, p0, Pass(2, {ETH0, ETH2}, 1), Lose((1, ETH0), 0));
    TablesDistinct(topo, p1, 3);
    TakesDetour(topo, t, Run(topo, s, p1));
    RunTwo(topo, s, p1, Respond(3), Deliver((2, ETH2), 0, 2));
    TablesDistinct(topo, p2, 2);
    HearsDetour(topo, t, Run(topo, s, p2));
    RunTwo(topo, s, p2, Respond(2), Deliver((1, ETH0), 0, 3));
    ComesBack(topo, t, Run(topo, s, p3));
    RunSnoc(topo, s, p3, Pass(2, {ETH0, ETH1, ETH2}, 4));
  }

  lemma DetourEnds(t: Trio)
    requires RowOk(t)
    ensures var u := Run(Row(t), Start(Row(t), 0), DETOUR);
            Holds(u, 1, Subnet(t.n2), ETH0, 2, t.n2.mask) && Offering(u, 2, t.n2)
  {
    RowIs(t);
    RowStart(t);
    var p0, p1, p2, p3 := DetourCut();
    Detours(Row(t), t, p0, p1, p2, p3);
  }

  lemma DetourCut() returns (p0: seq<Step>, p1: seq<Step>, p2: seq<Step>, p3: seq<Step>)
    ensures p0 == [] && p1 == p0 + [Pass(2, {ETH0, ETH2}, 1), Lose((1, ETH0), 0)]
    ensures p2 == p1 + [Respond(3), Deliver((2, ETH2), 0, 2)] && p3 == p2 + [Respond(2), Deliver((1, ETH0), 0, 3)]
    ensures DETOUR == p3 + [Pass(2, {ETH0, ETH1, ETH2}, 4)]
  {
    p0 := [];
    p1 := p0 + [Pass(2, {ETH0, ETH2}, 1), Lose((1, ETH0), 0)];
    p2 := p1 + [Respond(3), Deliver((2, ETH2), 0, 2)];
    p3 := p2 + [Respond(2), Deliver((1, ETH0), 0, 3)];
  }

  lemma TablesDistinct(topo: Topology, steps: seq<Step>, r: RouterId)
    requires RipBounds.WellMasked(topo)
    ensures NetsDistinct(Table(Run(topo, Start(topo, 0), steps), r))
  {
    RipBounds.TablesStayMaps(topo, 0, steps, r);
  }

  // Router 1 is one hop from the network and has it at 2; over every further run it never gets
  // anything better, while unless router 2 finds the network's interface down every response
  // router 2 has for it offers the network at metric 0.
  lemma StaleMetricStays(t: Trio, more: seq<Step>)
    requires RowOk(t)
    ensures var topo := Row(t);
            var u := Run(topo, Run(topo, Start(topo, 0), DETOUR), more);
            && Near(topo, 1, Subnet(t.n2), 1)
            && Holds(Run(topo, Start(topo, 0), DETOUR), 1, Subnet(t.n2), ETH0, 2, t.n2.mask)
            && Pinned(u, 1, t.a, Subnet(t.n2), 2)
            && ((forall k :: 0 <= k < |more| ==> SeenUp(more[k], 2, t.n2)) ==> Offered(topo, u, (1, ETH0), t.n2))
  {
    RowIs(t);
    DetourEnds(t);
    var topo := Row(t);
    StuckForGood(topo, Run(topo, Start(topo, 0), DETOUR), more, (1, ETH0), t.a, t.n2, 2);
    OneHop(topo, (1, ETH0), t.n2);
  }

  lemma OneHop(topo: Topology, q: PortId, h: Iface)
    requires q in topo.peer && Stub(topo, topo.peer[q].0, h)
    ensures Near(topo, q.0, Subnet(h), 1)
  {
    assert Attached(topo, topo.peer[q].0, Subnet(h));
    assert Near(topo, topo.peer[q].0, Subnet(h), 0);
  }

  // ---- Such routers exist --------------------------------------------------------------------------

  lemma Halve(x: Word, y: Word)
    requires x >= 0 && y >= 0
    ensures BitAnd(x, 2 * y) == 2 * BitAnd(x / 2, y)
  {
  }

  lemma MaskTwo(x: Word, c: Word)
    requires x >= 0 && c >= 0
    ensures BitAnd(x, 4 * c) == 4 * BitAnd(x / 4, c)
  {
    Halve(x, 2 * c);
    Halve(x / 2, c);
    assert x / 2 / 2 == x / 4;
  }

  lemma MaskFour(x: Word, c: Word)
    requires x >= 0 && c >= 0
    ensures BitAnd(x, 16 * c) == 16 * BitAnd(x / 16, c)
  {
    MaskTwo(x, 4 * c);
    MaskTwo(x / 4, c);
    assert x / 4 / 4 == x / 16;
  }

  // Masking off the low byte.
  lemma MaskByte(x: Word, c: Word)
    requires x >= 0 && c >= 0
    ensures BitAnd(x, 256 * c) == 256 * BitAnd(x / 256, c)
  {
    MaskFour(x, 16 * c);
    MaskFour(x / 16, c);
    assert x / 16 / 16 == x / 256;
  }

  lemma {:induction false} MaskNone(x: Word, n: nat)
    requires 0 <= x < Pow2(n)
    ensures BitAnd(x, Pow2(n) - 1) == x
  {
    if n > 0 && x > 0 {
      MaskNone(x / 2, n - 1);
      assert (Pow2(n) - 1) / 2 == Pow2(n - 1) - 1 && (Pow2(n) - 1) % 2 == 1;
    }
  }

  lemma Slash24(f: Iface)
    requires 0 <= f.ip < WORD && f.mask == 0xFFFF_FF00
    ensures Subnet(f) == 256 * (f.ip / 256)
  {
    var n: nat := 24;
    Powers();
    MaskByte(f.ip, Pow2(n) - 1);
    MaskNone(f.ip / 256, n);
  }

  // Two addresses in one 24-bit network and one in another will do,
  lemma PairFrom(f: Iface, g: Iface, h: Iface)
    requires f.name == ETH0 && g.name == ETH0 && h.name == ETH1
    requires f.mask == 0xFFFF_FF00 && g.mask == 0xFFFF_FF00 && h.mask == 0xFFFF_FF00
    requires 0 <= f.ip < WORD && 0 <= g.ip < WORD && 0 <= h.ip < WORD
    requires f.ip / 256 == g.ip / 256 != h.ip / 256
    ensures PairOk(f, g, h)
  {
    Slash24(f);
    Slash24(g);
    Slash24(h);
  }

  // such as 10.0.0.1/24, 10.0.0.2/24 and 10.0.1.1/24, read most significant byte first.
  lemma PairExists() returns (f: Iface, g: Iface, h: Iface)
    ensures f == Iface(ETH0, 0x0A00_0001, 0xFFFF_FF00)
    ensures g == Iface(ETH0, 0x0A00_0002, 0xFFFF_FF00)
    ensures h == Iface(ETH1, 0x0A00_0101, 0xFFFF_FF00)
    ensures PairOk(f, g, h)
  {
    f := Iface(ETH0, 0x0A00_0001, 0xFFFF_FF00);
    g := Iface(ETH0, 0x0A00_0002, 0xFFFF_FF00);
    h := Iface(ETH1, 0x0A00_0101, 0xFFFF_FF00);
    PairFrom(f, g, h);
  }

  lemma InNetwork(f: Iface, third: int)
    requires f.mask == 0xFFFF_FF00 && 0 <= third < 256 && f.ip / 256 == 0xA_0000 + third && f.ip >= 0
    ensures Subnet(f) == 256 * (0xA_0000 + third)
  {
    Slash24(f);
  }

  // And for the row 10.0.0.1/24; 10.0.0.2/24, 10.0.1.2/24, 10.0.2.2/24; 10.0.2.3/24, 10.0.1.3/24.
  lemma RowExists() returns (t: Trio)
    ensures t.a == Iface(ETH0, 0x0A00_0001, 0xFFFF_FF00)
    ensures t.b == Iface(ETH0, 0x0A00_0002, 0xFFFF_FF00)
    ensures t.n2 == Iface(ETH1, 0x0A00_0102, 0xFFFF_FF00)
    ensures t.c == Iface(ETH2, 0x0A00_0202, 0xFFFF_FF00)
    ensures t.d == Iface(ETH0, 0x0A00_0203, 0xFFFF_FF00)
    ensures t.n3 == Iface(ETH1, 0x0A00_0103, 0xFFFF_FF00)
    ensures RowOk(t)
  {
    var a, b := Iface(ETH0, 0x0A00_0001, 0xFFFF_FF00), Iface(ETH0, 0x0A00_0002, 0xFFFF_FF00);
    var n2, n3 := Iface(ETH1, 0x0A00_0102, 0xFFFF_FF00), Iface(ETH1, 0x0A00_0103, 0xFFFF_FF00);
    var c, d := Iface(ETH2, 0x0A00_0202, 0xFFFF_FF00), Iface(ETH0, 0x0A00_0203, 0xFFFF_FF00);
    InNetwork(a, 0);
    InNetwork(b, 0);
    InNetwork(n2, 1);
    InNetwork(n3, 1);
    InNetwork(c, 2);
    InNetwork(d, 2);
    t := Trio(a, b, n2, c, d, n3);
  }
}
