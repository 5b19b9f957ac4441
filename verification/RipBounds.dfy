// A routing table stays a map from networks over every run, so it never outgrows the number of
// networks there are, and with at most 25 of them no response overruns its packet.
module RipBounds {
  import Words
  import opened RipTable
  import RipRouter
  import opened RipNetwork

  // A network together with its mask.
  type Key = (Words.Word, Words.Word)

  function KeyOf(e: RtEntry): Key {
    (NetOf(e), e.mask)
  }

  function RouteKey(x: Route): Key {
    (RouteNet(x), x.mask)
  }

  function Subnets(topo: Topology): set<Key> {
    set r, f | r in topo.ifs && f in topo.ifs[r] :: (Subnet(f), f.mask)
  }

  // A network value always carries one mask, and no router has two interfaces on one network.
  ghost predicate WellMasked(topo: Topology) {
    && (forall a, b :: a in Subnets(topo) && b in Subnets(topo) && a.0 == b.0 ==> a == b)
    && (forall r :: r in topo.ifs ==> SubnetsDistinct(topo.ifs[r]))
  }

  ghost predicate GoodTable(topo: Topology, t: seq<RtEntry>) {
    NetsDistinct(t) && forall e :: e in t ==> KeyOf(e) in Subnets(topo)
  }

  ghost predicate GoodRoutes(topo: Topology, xs: seq<Route>) {
    forall x :: x in xs ==> RouteKey(x) in Subnets(topo)
  }

  ghost predicate GoodState(topo: Topology, s: State) {
    && (forall r {:trigger GoodTable(topo, Table(s, r))} :: GoodTable(topo, Table(s, r)))
    && (forall q, m :: m in Chan(s, q) ==> GoodRoutes(topo, m.routes))
  }

  lemma {:induction false} GoodUpdate(
    topo: Topology, t: seq<RtEntry>, xs: seq<Route>, src: Words.Word, iface: string, now: int)
    requires GoodTable(topo, t) && GoodRoutes(topo, xs)
    ensures GoodTable(topo, UpdateAll(t, xs, src, iface, now))
  {
    if xs != [] {
      var init, x := xs[..|xs| - 1], xs[|xs| - 1];
      GoodUpdate(topo, t, init, src, iface, now);
      var t0, t1 := UpdateAll(t, init, src, iface, now), UpdateAll(t, xs, src, iface, now);
      UpdateOneDistinct(t0, x, src, iface, now);
      assert RouteKey(x) in Subnets(topo);
      forall e | e in t1
        ensures KeyOf(e) in Subnets(topo)
      {
        if e !in t0 {
          var i := IndexOf(t0, RouteNet(x));
          assert i < |t0| ==> KeyOf(t0[i]) in Subnets(topo);
          assert e == if i < |t0| then Revised(t0[i], x, src, iface, now) else Learned(x, src, iface, now);
        }
      }
    }
  }

  lemma GoodTick(topo: Topology, r: RouterId, t: seq<RtEntry>, up: set<string>, now: int)
    requires WellMasked(topo) && r in topo.ifs && GoodTable(topo, t)
    ensures GoodTable(topo, Tick(t, topo.ifs[r], up, now))
  {
    var ifs, expired := topo.ifs[r], MapEntries(t, e => Expired(e, now));
    forall f | f in ifs
      ensures (Subnet(f), f.mask) in Subnets(topo)
    {
    }
    forall e | e in expired
      ensures KeyOf(e) in Subnets(topo)
    {
      var i :| 0 <= i < |expired| && expired[i] == e;
      assert t[i] in t;
    }
    assert MasksAgree(expired, ifs) by {
      forall e, f | e in expired && f in ifs && NetOf(e) == Subnet(f)
        ensures e.mask == f.mask
      {
        assert KeyOf(e) in Subnets(topo) && (Subnet(f), f.mask) in Subnets(topo);
      }
    }
    TickIfacesDistinct(expired, ifs, up, now);
  }

  lemma GoodSend(topo: Topology, s: State, r: RouterId)
    requires GoodState(topo, s)
    ensures GoodState(topo, Send(topo, s, r))
  {
    var s' := Send(topo, s, r);
    assert forall h :: Table(s', h) == Table(s, h);
    forall q, m | m in Chan(s', q)
      ensures GoodRoutes(topo, m.routes)
    {
      if m !in Chan(s, q) {
        var p := topo.peer[q];
        assert GoodTable(topo, Table(s, p.0));
        forall x | x in m.routes
          ensures RouteKey(x) in Subnets(topo)
        {
          ResponseMember(Table(s, p.0), p.1, x);
        }
      }
    }
  }

  lemma GoodAbsorb(topo: Topology, s: State, q: PortId, pos: nat, now: int)
    requires GoodState(topo, s) && pos < |Chan(s, q)|
    ensures GoodState(topo, Absorb(s, q, pos, now))
  {
    var m, s' := Chan(s, q)[pos], Absorb(s, q, pos, now);
    GoodUpdate(topo, Table(s, q.0), m.routes, m.src, q.1, now);
    assert forall h :: h != q.0 ==> Table(s', h) == Table(s, h);
    assert forall p :: p != q ==> Chan(s', p) == Chan(s, p);
    assert forall n :: n in Chan(s', q) ==> n in Chan(s, q);
  }

  lemma GoodSweep(topo: Topology, s: State, r: RouterId, up: set<string>, now: int)
    requires WellMasked(topo) && GoodState(topo, s) && r in topo.ifs
    ensures GoodState(topo, Swept(topo, s, r, up, now))
  {
    var s' := Swept(topo, s, r, up, now);
    GoodTick(topo, r, Table(s, r), up, now);
    assert forall h :: h != r ==> Table(s', h) == Table(s, h);
    assert forall q :: Chan(s', q) == Chan(s, q);
  }

  lemma GoodNext(topo: Topology, s: State, step: Step)
    requires WellMasked(topo) && GoodState(topo, s)
    ensures GoodState(topo, Next(topo, s, step))
  {
    match step {
      case Deliver(q, pos, now) =>
        if q in topo.peer && pos < |Chan(s, q)| {
          GoodAbsorb(topo, s, q, pos, now);
          GoodSend(topo, Absorb(s, q, pos, now), q.0);
        }
      case Lose(q, pos) =>
        var s' := Next(topo, s, step);
        assert forall h :: Table(s', h) == Table(s, h);
        assert forall p :: p != q ==> Chan(s', p) == Chan(s, p);
        assert forall n :: n in Chan(s', q) ==> n in Chan(s, q);
      case Pass(r, up, now) =>
        if r in topo.ifs {
          GoodSweep(topo, s, r, up, now);
          GoodSend(topo, Swept(topo, s, r, up, now), r);
        }
      case Respond(r) => GoodSend(topo, s, r);
    }
  }

  lemma {:induction false} GoodRun(topo: Topology, now: int, steps: seq<Step>)
    requires WellMasked(topo)
    ensures GoodState(topo, Run(topo, Start(topo, now), steps))
  {
    if steps == [] {
      forall r
        ensures GoodTable(topo, Table(Start(topo, now), r))
      {
        if r in topo.ifs {
          BuildDistinct(topo.ifs[r], now);
        }
      }
    } else {
      GoodRun(topo, now, steps[..|steps| - 1]);
      GoodNext(topo, Run(topo, Start(topo, now), steps[..|steps| - 1]), steps[|steps| - 1]);
    }
  }

  // A table with distinct networks drawn from a set is no longer than the set.
  lemma {:induction false} TableSize(t: seq<RtEntry>, keys: set<Key>)
    requires NetsDistinct(t) && forall e :: e in t ==> KeyOf(e) in keys
    ensures |t| <= |keys|
  {
    if t != [] {
      var init, last := t[..|t| - 1], t[|t| - 1];
      assert last in t;
      forall e | e in init
        ensures KeyOf(e) in keys - {KeyOf(last)}
      {
        assert e in t;
      }
      TableSize(init, keys - {KeyOf(last)});
    }
  }

  // Over every run: each network has at most one entry, tables never outgrow the networks, and
  // when there are at most 25 networks every response fits its packet and is read back whole.
  lemma TablesStayMaps(topo: Topology, now: int, steps: seq<Step>, r: RouterId)
    requires WellMasked(topo)
    ensures var t := Table(Run(topo, Start(topo, now), steps), r);
            && NetsDistinct(t) && |t| <= |Subnets(topo)|
            && (|Subnets(topo)| <= 25 ==>
                  && RipRouter.Fits(t, Ifs(topo, r))
                  && forall iface :: Decode(Encode(Response(t, iface))) == Response(t, iface))
  {
    var t := Table(Run(topo, Start(topo, now), steps), r);
    assert GoodTable(topo, t) by {
      GoodRun(topo, now, steps);
    }
    TableSize(t, Subnets(topo));
    if |t| <= MAX_NUM_ENTRIES {
      SmallTableFits(t, Ifs(topo, r));
    }
  }

  lemma SmallTableFits(t: seq<RtEntry>, ifs: seq<Iface>)
    requires |t| <= MAX_NUM_ENTRIES
    ensures RipRouter.Fits(t, ifs)
    ensures forall iface :: Decode(Encode(Response(t, iface))) == Response(t, iface)
  {
    forall iface
      ensures Decode(Encode(Response(t, iface))) == Response(t, iface)
    {
      WireRoundTrip(Response(t, iface));
    }
  }

  // What the network queues when router r sends is what the packets of send_rip_response hold:
  // towards each neighbour, the one that leaves through the link's own interface, from its
  // address; no table and no other queue changes.
  lemma SendIsBroadcast(topo: Topology, s: State, r: RouterId, q: PortId, i: nat)
    requires NamesDistinct(Ifs(topo, r)) && RipRouter.Fits(Table(s, r), Ifs(topo, r))
    requires q in topo.peer && i < |Ifs(topo, r)|
    requires topo.peer[q].0 == r ==> topo.peer[q].1 == Ifs(topo, r)[i].name
    ensures var p := RipRouter.Broadcast(Table(s, r), Ifs(topo, r))[i];
            Chan(Send(topo, s, r), q) ==
              Chan(s, q) + if topo.peer[q].0 == r then [Msg(p.src, Decode(p.slots))] else []
    ensures Send(topo, s, r).tables == s.tables
  {
    var f := Ifs(topo, r)[i];
    assert f in Ifs(topo, r);
    IpNamedIs(Ifs(topo, r), f);
    WireRoundTrip(Response(Table(s, r), f.name));
  }
}
