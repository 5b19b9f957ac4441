// A network of RIP routers joined by point-to-point links, each end of a link owning the queue
// of responses on their way to it.  The steps are the sections lab4/router/sr_rt.c runs under
// its lock; between them the network may lose or reorder whatever is queued.
module RipNetwork {
  import Words
  import opened RipTable

  type RouterId = int
  // A router and the name of one of its interfaces.
  type PortId = (RouterId, string)

  datatype Topology = Topology(ifs: map<RouterId, seq<Iface>>, peer: map<PortId, PortId>)
  datatype Msg = Msg(src: Words.Word, routes: seq<Route>)
  datatype State = State(tables: map<RouterId, seq<RtEntry>>, chans: map<PortId, seq<Msg>>)

  datatype Step =
    | Deliver(port: PortId, pos: nat, now: int)
    | Lose(port: PortId, pos: nat)
    | Pass(router: RouterId, up: set<string>, now: int)
    | Respond(router: RouterId)

  function Ifs(topo: Topology, r: RouterId): seq<Iface> {
    if r in topo.ifs then topo.ifs[r] else []
  }

  function Table(s: State, r: RouterId): seq<RtEntry> {
    if r in s.tables then s.tables[r] else []
  }

  function Chan(s: State, q: PortId): seq<Msg> {
    if q in s.chans then s.chans[q] else []
  }

  function WithTable(s: State, r: RouterId, t: seq<RtEntry>): State {
    s.(tables := s.tables[r := t])
  }

  function IpNamed(ifs: seq<Iface>, name: string): Words.Word {
    if ifs == [] then 0 else if ifs[0].name == name then ifs[0].ip else IpNamed(ifs[1..], name)
  }

  function IpOf(topo: Topology, p: PortId): Words.Word {
    IpNamed(Ifs(topo, p.0), p.1)
  }

  ghost predicate HasPort(topo: Topology, q: PortId, f: Iface) {
    f in Ifs(topo, q.0) && f.name == q.1
  }

  ghost predicate NamesDistinct(ifs: seq<Iface>) {
    forall f, h :: f in ifs && h in ifs && f.name == h.name ==> f == h
  }

  lemma {:induction false} IpNamedIs(ifs: seq<Iface>, f: Iface)
    requires NamesDistinct(ifs) && f in ifs
    ensures IpNamed(ifs, f.name) == f.ip
  {
    if ifs[0].name != f.name {
      IpNamedIs(ifs[1..], f);
    } else {
      assert ifs[0] in ifs;
    }
  }

  // The response the far end of q would send towards q now.
  function MsgTo(topo: Topology, s: State, q: PortId): Msg
    requires q in topo.peer
  {
    var p := topo.peer[q];
    Msg(IpOf(topo, p), Response(Table(s, p.0), p.1))
  }

  // Router r sends its response out of every interface.
  function Send(topo: Topology, s: State, r: RouterId): State {
    s.(chans := map q | q in topo.peer ::
         if topo.peer[q].0 == r then Chan(s, q) + [MsgTo(topo, s, q)] else Chan(s, q))
  }

  function Without<T>(xs: seq<T>, pos: nat): seq<T>
    requires pos < |xs|
  {
    xs[..pos] + xs[pos + 1..]
  }

  function Dropped(s: State, q: PortId, pos: nat): State
    requires pos < |Chan(s, q)|
  {
    s.(chans := s.chans[q := Without(Chan(s, q), pos)])
  }

  // The receiver has absorbed a response but not yet reacted to it.
  function Absorb(s: State, q: PortId, pos: nat, now: int): State
    requires pos < |Chan(s, q)|
  {
    var m := Chan(s, q)[pos];
    WithTable(Dropped(s, q, pos), q.0, UpdateAll(Table(s, q.0), m.routes, m.src, q.1, now))
  }

  function Delivered(topo: Topology, s: State, q: PortId, pos: nat, now: int): State
    requires pos < |Chan(s, q)|
  {
    var m := Chan(s, q)[pos];
    if ChangesAny(Table(s, q.0), m.routes, m.src, q.1, now) then Send(topo, Absorb(s, q, pos, now), q.0)
    else Absorb(s, q, pos, now)
  }

  // The periodic pass of router r, before its response.
  function Swept(topo: Topology, s: State, r: RouterId, up: set<string>, now: int): State {
    WithTable(s, r, Tick(Table(s, r), Ifs(topo, r), up, now))
  }

  // A step that names no queued message does nothing.
  function Next(topo: Topology, s: State, step: Step): State {
    match step
    case Deliver(q, pos, now) =>
      if q in topo.peer && pos < |Chan(s, q)| then Delivered(topo, s, q, pos, now) else s
    case Lose(q, pos) =>
      if q in topo.peer && pos < |Chan(s, q)| then Dropped(s, q, pos) else s
    case Pass(r, up, now) =>
      if r in topo.ifs then
        Send(topo, Swept(topo, s, r, up, now), r)
      else s
    case Respond(r) => Send(topo, s, r)
  }

  // A step changes the table of one router, takes at most one message off one queue, and queues
  // that router's new response towards its neighbours, or not.
  ghost predicate Moved(topo: Topology, s: State, s': State, r: RouterId, t: seq<RtEntry>, sends: bool) {
    && Table(s', r) == t
    && (forall h :: h != r ==> Table(s', h) == Table(s, h))
    && forall p :: p in topo.peer ==>
         Chan(s', p) == Chan(s, p) + if sends && topo.peer[p].0 == r then [MsgTo(topo, s', p)] else []
  }

  // A delivery absorbs the response taken off the queue, and the receiver answers with its new
  // table exactly when some network has another metric, gateway or interface than before.
  lemma DeliverExactly(topo: Topology, s: State, q: PortId, pos: nat, now: int)
    requires q in topo.peer && pos < |Chan(s, q)|
    ensures var m, before := Chan(s, q)[pos], Table(s, q.0);
            var after := UpdateAll(before, m.routes, m.src, q.1, now);
            Moved(topo, Dropped(s, q, pos), Next(topo, s, Deliver(q, pos, now)), q.0, after,
                  exists net :: !SameRoute(Find(before, net), Find(after, net)))
  {
    var m := Chan(s, q)[pos];
    TriggersExactly(Table(s, q.0), m.routes, m.src, q.1, now);
    var s1, s' := Absorb(s, q, pos, now), Next(topo, s, Deliver(q, pos, now));
    assert s'.tables == s1.tables && s1.chans == Dropped(s, q, pos).chans;
  }

  // A pass always sends.
  lemma PassExactly(topo: Topology, s: State, r: RouterId, up: set<string>, now: int)
    requires r in topo.ifs
    ensures Moved(topo, s, Next(topo, s, Pass(r, up, now)), r, Tick(Table(s, r), topo.ifs[r], up, now), true)
  {
    var s1, s' := Swept(topo, s, r, up, now), Next(topo, s, Pass(r, up, now));
    assert s'.tables == s1.tables && s1.chans == s.chans;
  }

  // Every router has built its table and nothing has been sent.
  function Start(topo: Topology, now: int): State {
    State(map r | r in topo.ifs :: Build(topo.ifs[r], now), map[])
  }

  function Run(topo: Topology, s: State, steps: seq<Step>): State {
    if steps == [] then s
    else Next(topo, Run(topo, s, steps[..|steps| - 1]), steps[|steps| - 1])
  }

  // ---- Never under-estimating -----------------------------------------------------------

  ghost predicate Attached(topo: Topology, r: RouterId, net: Words.Word) {
    exists f :: f in Ifs(topo, r) && Subnet(f) == net
  }

  // Some router attached to net is at most `hops` links away, all interfaces up or not.
  ghost predicate Near(topo: Topology, r: RouterId, net: Words.Word, hops: nat)
    decreases hops
  {
    || Attached(topo, r, net)
    || (hops > 0 && exists q :: q in topo.peer && q.0 == r && Near(topo, topo.peer[q].0, net, hops - 1))
  }

  // A metric is honest when it is 16, or at least the distance to the network.
  ghost predicate Honest(topo: Topology, r: RouterId, net: Words.Word, metric: Words.Word32) {
    metric <= INFINITY && (metric < INFINITY ==> Near(topo, r, net, metric))
  }

  ghost predicate HonestTable(topo: Topology, r: RouterId, t: seq<RtEntry>) {
    forall e :: e in t ==> Honest(topo, r, NetOf(e), e.metric)
  }

  ghost predicate HonestMsg(topo: Topology, r: RouterId, m: Msg) {
    forall x :: x in m.routes ==> Honest(topo, r, RouteNet(x), x.metric)
  }

  ghost predicate HonestState(topo: Topology, s: State) {
    && (forall r :: HonestTable(topo, r, Table(s, r)))
    && (forall q, m :: q in topo.peer && m in Chan(s, q) ==> HonestMsg(topo, topo.peer[q].0, m))
  }

  lemma {:induction false} HonestUpdate(
    topo: Topology, q: PortId, t: seq<RtEntry>, xs: seq<Route>, src: Words.Word, now: int)
    requires q in topo.peer && HonestTable(topo, q.0, t)
    requires forall x :: x in xs ==> Honest(topo, topo.peer[q].0, RouteNet(x), x.metric)
    ensures HonestTable(topo, q.0, UpdateAll(t, xs, src, q.1, now))
  {
    if xs != [] {
      var init, x := xs[..|xs| - 1], xs[|xs| - 1];
      HonestUpdate(topo, q, t, init, src, now);
      var t0, t1 := UpdateAll(t, init, src, q.1, now), UpdateAll(t, xs, src, q.1, now);
      assert x in xs;
      assert Honest(topo, q.0, RouteNet(x), Heard(x.metric));
      forall e | e in t1
        ensures Honest(topo, q.0, NetOf(e), e.metric)
      {
        if e !in t0 {
          var i := IndexOf(t0, RouteNet(x));
          assert i < |t0| ==> t0[i] in t0;
          assert e == if i < |t0| then Revised(t0[i], x, src, q.1, now) else Learned(x, src, q.1, now);
        }
      }
    }
  }

  lemma {:induction false} HonestTick(
    topo: Topology, r: RouterId, t: seq<RtEntry>, ifs: seq<Iface>, up: set<string>, now: int)
    requires HonestTable(topo, r, t)
    requires forall f :: f in ifs ==> f in Ifs(topo, r)
    ensures HonestTable(topo, r, TickIfaces(t, ifs, up, now))
  {
    if ifs != [] {
      var init, last := ifs[..|ifs| - 1], ifs[|ifs| - 1];
      HonestTick(topo, r, t, init, up, now);
      var t0, t1 := TickIfaces(t, init, up, now), TickIfaces(t, ifs, up, now);
      assert last in ifs && Attached(topo, r, Subnet(last));
      forall k | 0 <= k < |t1|
        ensures Honest(topo, r, NetOf(t1[k]), t1[k].metric)
      {
        if k < |t0| {
          assert t0[k] in t0 && t1[k] == Touch(t0[k], last, up, now);
        }
      }
    }
  }

  lemma HonestSend(topo: Topology, s: State, r: RouterId)
    requires HonestState(topo, s)
    ensures HonestState(topo, Send(topo, s, r))
  {
    var s' := Send(topo, s, r);
    assert forall h :: Table(s', h) == Table(s, h);
    forall q, m | q in topo.peer && m in Chan(s', q)
      ensures HonestMsg(topo, topo.peer[q].0, m)
    {
      if m !in Chan(s, q) {
        var p := topo.peer[q];
        assert m == MsgTo(topo, s, q);
        forall x | x in m.routes
          ensures Honest(topo, p.0, RouteNet(x), x.metric)
        {
          ResponseMember(Table(s, p.0), p.1, x);
        }
      }
    }
  }

  lemma HonestNext(topo: Topology, s: State, step: Step)
    requires HonestState(topo, s)
    ensures HonestState(topo, Next(topo, s, step))
  {
    match step {
      case Deliver(q, pos, now) =>
        if q in topo.peer && pos < |Chan(s, q)| {
          var m := Chan(s, q)[pos];
          assert HonestMsg(topo, topo.peer[q].0, m);
          HonestUpdate(topo, q, Table(s, q.0), m.routes, m.src, now);
          var s' := Absorb(s, q, pos, now);
          assert forall h :: h != q.0 ==> Table(s', h) == Table(s, h);
          assert forall p :: p != q ==> Chan(s', p) == Chan(s, p);
          assert forall n :: n in Chan(s', q) ==> n in Chan(s, q);
          assert HonestState(topo, s');
          HonestSend(topo, s', q.0);
        }
      case Lose(q, pos) =>
        assert forall h :: Table(Next(topo, s, step), h) == Table(s, h);
      case Pass(r, up, now) =>
        if r in topo.ifs {
          var s' := Swept(topo, s, r, up, now);
          var t := MapEntries(Table(s, r), e => Expired(e, now));
          assert HonestTable(topo, r, t) by {
            forall k | 0 <= k < |t|
              ensures Honest(topo, r, NetOf(t[k]), t[k].metric)
            {
              assert Table(s, r)[k] in Table(s, r);
            }
          }
          HonestTick(topo, r, t, Ifs(topo, r), up, now);
          assert forall h :: h != r ==> Table(s', h) == Table(s, h);
          assert forall q :: Chan(s', q) == Chan(s, q);
          HonestSend(topo, s', r);
        }
      case Respond(r) => HonestSend(topo, s, r);
    }
  }

  // Over every run, with loss, reordering, expiry and interfaces going up and down: no table and
  // no queued response ever holds a metric above 16, nor one below 16 that is short of the
  // distance in the full topology.
  lemma {:induction false} NeverUnderestimates(topo: Topology, now: int, steps: seq<Step>)
    ensures HonestState(topo, Run(topo, Start(topo, now), steps))
  {
    if steps == [] {
      forall r, e | e in Table(Start(topo, now), r)
        ensures Honest(topo, r, NetOf(e), e.metric)
      {
        var i :| 0 <= i < |Ifs(topo, r)| && Build(Ifs(topo, r), now)[i] == e;
        MaskingTwice(Ifs(topo, r)[i].ip, Ifs(topo, r)[i].mask);
        assert Ifs(topo, r)[i] in Ifs(topo, r);
      }
    } else {
      NeverUnderestimates(topo, now, steps[..|steps| - 1]);
      HonestNext(topo, Run(topo, Start(topo, now), steps[..|steps| - 1]), steps[|steps| - 1]);
    }
  }
}
