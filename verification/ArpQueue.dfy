// The ARP cache and request queue of lab4/router/sr_arpcache.c, with the pending-packet loop of
// sr_handle_arp in lab4/router/sr_router.c.  Each locked function is one atomic step.
module ArpQueue {
  import opened Options

  const SLOTS: nat := 100
  const LIFETIME: nat := 15
  const TRIES: nat := 5

  type Mac = seq<nat>

  datatype Packet = Packet(frame: seq<nat>, iface: string)

  datatype Request = Request(ip: nat, sent: int, timesSent: nat, packets: seq<Packet>)

  datatype Entry = Entry(mac: Mac, ip: nat, added: int, valid: bool)

  // What became of a packet: sent on to a hardware address out of a port, or answered with an
  // ICMP port-unreachable message.
  datatype Fate = Sent(mac: Mac, port: string) | PortUnreachable

  datatype Outcome = Outcome(packet: Packet, fate: Fate)

  datatype Output = Ask(iface: string, ip: nat) | Done(ip: nat, outcome: Outcome)

  // ---- The request list ----------------------------------------------------------------

  function Find(requests: seq<Request>, ip: nat): (r: Option<Request>)
    ensures r.Some? ==> r.value in requests && r.value.ip == ip
    ensures r.None? <==> forall q <- requests :: q.ip != ip
  {
    if requests == [] then None
    else if requests[0].ip == ip then Some(requests[0])
    else Find(requests[1..], ip)
  }

  // The packets waiting for ip, in order.
  function Waiting(requests: seq<Request>, ip: nat): seq<Packet> {
    match Find(requests, ip)
    case None => []
    case Some(r) => r.packets
  }

  ghost predicate Distinct(requests: seq<Request>) {
    forall i, j :: 0 <= i < j < |requests| ==> requests[i].ip != requests[j].ip
  }

  function Detach(requests: seq<Request>, ip: nat): seq<Request> {
    if requests == [] then []
    else if requests[0].ip == ip then requests[1..]
    else [requests[0]] + Detach(requests[1..], ip)
  }

  function AppendTo(requests: seq<Request>, ip: nat, packets: seq<Packet>): seq<Request> {
    if requests == [] then []
    else if requests[0].ip == ip then [requests[0].(packets := requests[0].packets + packets)] + requests[1..]
    else [requests[0]] + AppendTo(requests[1..], ip, packets)
  }

  function Opened(requests: seq<Request>, ip: nat): seq<Request> {
    if Find(requests, ip).None? then [Request(ip, 0, 0, [])] + requests else requests
  }

  function Queue(requests: seq<Request>, ip: nat, packets: seq<Packet>): seq<Request> {
    AppendTo(Opened(requests, ip), ip, packets)
  }

  // What a sweep leaves of one request.
  function Retried(r: Request, ifaces: seq<string>, now: int): seq<Request> {
    if r.timesSent >= TRIES then []
    else [r.(sent := if ifaces == [] then r.sent else now, timesSent := r.timesSent + |ifaces|)]
  }

  function Asks(ifaces: seq<string>, ip: nat): seq<Output> {
    if ifaces == [] then [] else [Ask(ifaces[0], ip)] + Asks(ifaces[1..], ip)
  }

  function Finished(packets: seq<Packet>, ip: nat, fate: Fate): seq<Output> {
    if packets == [] then [] else [Done(ip, Outcome(packets[0], fate))] + Finished(packets[1..], ip, fate)
  }

  function RetryOutput(r: Request, ifaces: seq<string>): seq<Output> {
    if r.timesSent >= TRIES then Finished(r.packets, r.ip, PortUnreachable) else Asks(ifaces, r.ip)
  }

  function Swept(requests: seq<Request>, ifaces: seq<string>, now: int): seq<Request> {
    if requests == [] then [] else Retried(requests[0], ifaces, now) + Swept(requests[1..], ifaces, now)
  }

  function SweepOutput(requests: seq<Request>, ifaces: seq<string>): seq<Output> {
    if requests == [] then [] else RetryOutput(requests[0], ifaces) + SweepOutput(requests[1..], ifaces)
  }

  lemma TailDistinct(requests: seq<Request>)
    requires Distinct(requests) && requests != []
    ensures Distinct(requests[1..]) && Find(requests[1..], requests[0].ip).None?
  {
    var rest := requests[1..];
    assert forall k :: 0 <= k < |rest| ==> rest[k] == requests[k + 1];
  }

  lemma ConsDistinct(r: Request, rest: seq<Request>)
    requires Distinct(rest) && Find(rest, r.ip).None?
    ensures Distinct([r] + rest)
  {
    var all := [r] + rest;
    forall i, j | 0 <= i < j < |all|
      ensures all[i].ip != all[j].ip
    {
      assert rest[j - 1] in rest;
      if i > 0 {
        assert rest[i - 1].ip != rest[j - 1].ip;
      }
    }
  }

  lemma {:induction false} DetachRemoves(requests: seq<Request>, ip: nat)
    requires Distinct(requests)
    ensures Distinct(Detach(requests, ip))
    ensures forall x :: Find(Detach(requests, ip), x) == if x == ip then None else Find(requests, x)
  {
    if requests != [] {
      TailDistinct(requests);
      if requests[0].ip != ip {
        DetachRemoves(requests[1..], ip);
        ConsDistinct(requests[0], Detach(requests[1..], ip));
      }
    }
  }

  lemma {:induction false} AppendToAppends(requests: seq<Request>, ip: nat, packets: seq<Packet>)
    requires Distinct(requests)
    ensures Distinct(AppendTo(requests, ip, packets))
    ensures forall x :: Find(AppendTo(requests, ip, packets), x) ==
                        match Find(requests, x)
                        case None => None
                        case Some(r) => Some(if x == ip then r.(packets := r.packets + packets) else r)
  {
    if requests != [] {
      TailDistinct(requests);
      if requests[0].ip == ip {
        ConsDistinct(requests[0].(packets := requests[0].packets + packets), requests[1..]);
      } else {
        AppendToAppends(requests[1..], ip, packets);
        ConsDistinct(requests[0], AppendTo(requests[1..], ip, packets));
      }
    }
  }

  // Queueing keeps addresses distinct and adds the packets after those already waiting for ip.
  lemma QueueAdds(requests: seq<Request>, ip: nat, packets: seq<Packet>)
    requires Distinct(requests)
    ensures var after := Queue(requests, ip, packets);
            && Distinct(after)
            && Find(after, ip) == Some((match Find(requests, ip)
                                       case None => Request(ip, 0, 0, packets)
                                       case Some(r) => r.(packets := r.packets + packets)))
            && (forall x :: x != ip ==> Find(after, x) == Find(requests, x))
            && (Find(requests, ip).None? ==> after == [Request(ip, 0, 0, packets)] + requests)
  {
    if Find(requests, ip).None? {
      ConsDistinct(Request(ip, 0, 0, []), requests);
      assert Opened(requests, ip)[1..] == requests;
    }
    AppendToAppends(Opened(requests, ip), ip, packets);
    assert [] + packets == packets;
  }

  // A sweep destroys exactly the requests already sent five times and counts one more request
  // per interface for the others.
  lemma {:induction false} SweepRetries(requests: seq<Request>, ifaces: seq<string>, now: int)
    requires Distinct(requests)
    ensures Distinct(Swept(requests, ifaces, now))
    ensures forall x :: Find(Swept(requests, ifaces, now), x) ==
                        match Find(requests, x)
                        case None => None
                        case Some(r) => if r.timesSent >= TRIES then None else Some(Retried(r, ifaces, now)[0])
  {
    if requests != [] {
      TailDistinct(requests);
      SweepRetries(requests[1..], ifaces, now);
      if requests[0].timesSent < TRIES {
        ConsDistinct(Retried(requests[0], ifaces, now)[0], Swept(requests[1..], ifaces, now));
      } else {
        assert Swept(requests, ifaces, now) == Swept(requests[1..], ifaces, now);
      }
    }
  }

  // Field by field: a request that survives a sweep keeps its packets.
  lemma SweepCounts(requests: seq<Request>, ifaces: seq<string>, now: int, ip: nat)
    requires Distinct(requests) && Find(requests, ip).Some? && Find(requests, ip).value.timesSent < 5
    ensures var r, o := Find(requests, ip).value, Find(Swept(requests, ifaces, now), ip);
            && o.Some? && o.value.ip == ip && o.value.packets == r.packets
            && o.value.timesSent == r.timesSent + |ifaces| && (ifaces != [] ==> o.value.sent == now)
  {
    SweepRetries(requests, ifaces, now);
  }

  // ---- What happened to the packets of one address ---------------------------------------

  function Outcomes(output: seq<Output>, ip: nat): seq<Outcome> {
    if output == [] then []
    else (if output[0].Done? && output[0].ip == ip then [output[0].outcome] else []) + Outcomes(output[1..], ip)
  }

  function PacketsOf(outcomes: seq<Outcome>): (r: seq<Packet>)
    ensures |r| == |outcomes| && forall k :: 0 <= k < |r| ==> r[k] == outcomes[k].packet
  {
    seq(|outcomes|, k requires 0 <= k < |outcomes| => outcomes[k].packet)
  }

  // The packets answered with the given fate.
  function AllFated(packets: seq<Packet>, fate: Fate): (r: seq<Outcome>)
    ensures PacketsOf(r) == packets
  {
    seq(|packets|, k requires 0 <= k < |packets| => Outcome(packets[k], fate))
  }

  lemma {:induction false} OutcomesConcat(a: seq<Output>, b: seq<Output>, ip: nat)
    ensures Outcomes(a + b, ip) == Outcomes(a, ip) + Outcomes(b, ip)
  {
    if a == [] {
      assert a + b == b;
    } else {
      assert (a + b)[1..] == a[1..] + b;
      OutcomesConcat(a[1..], b, ip);
    }
  }

  lemma {:induction false} FinishedOutcomes(packets: seq<Packet>, ip: nat, fate: Fate, x: nat)
    ensures Outcomes(Finished(packets, ip, fate), x) == if x == ip then AllFated(packets, fate) else []
  {
    if packets != [] {
      var out := Finished(packets, ip, fate);
      assert out[1..] == Finished(packets[1..], ip, fate);
      FinishedOutcomes(packets[1..], ip, fate, x);
      assert AllFated(packets, fate) == [Outcome(packets[0], fate)] + AllFated(packets[1..], fate);
    }
  }

  lemma {:induction false} AsksOutcomes(ifaces: seq<string>, ip: nat, x: nat)
    ensures Outcomes(Asks(ifaces, ip), x) == []
  {
    if ifaces != [] {
      assert Asks(ifaces, ip)[1..] == Asks(ifaces[1..], ip);
      AsksOutcomes(ifaces[1..], ip, x);
    }
  }

  // A sweep answers a packet exactly when it destroys the request the packet waits in.
  lemma {:induction false} SweepAnswers(requests: seq<Request>, ifaces: seq<string>, ip: nat)
    requires Distinct(requests)
    ensures Outcomes(SweepOutput(requests, ifaces), ip) ==
            match Find(requests, ip)
            case None => []
            case Some(r) => if r.timesSent >= TRIES then AllFated(r.packets, PortUnreachable) else []
  {
    if requests != [] {
      TailDistinct(requests);
      var r := requests[0];
      SweepAnswers(requests[1..], ifaces, ip);
      OutcomesConcat(RetryOutput(r, ifaces), SweepOutput(requests[1..], ifaces), ip);
      FinishedOutcomes(r.packets, r.ip, PortUnreachable, ip);
      AsksOutcomes(ifaces, r.ip, ip);
    }
  }

  // The interfaces an ARP request for ip went out of, in order.
  function AskedFor(output: seq<Output>, ip: nat): seq<string> {
    if output == [] then []
    else (if output[0].Ask? && output[0].ip == ip then [output[0].iface] else []) + AskedFor(output[1..], ip)
  }

  lemma {:induction false} AskedConcat(a: seq<Output>, b: seq<Output>, ip: nat)
    ensures AskedFor(a + b, ip) == AskedFor(a, ip) + AskedFor(b, ip)
  {
    if a == [] {
      assert a + b == b;
    } else {
      assert (a + b)[1..] == a[1..] + b;
      AskedConcat(a[1..], b, ip);
    }
  }

  lemma {:induction false} AsksAsked(ifaces: seq<string>, ip: nat, x: nat)
    ensures AskedFor(Asks(ifaces, ip), x) == if x == ip then ifaces else []
  {
    if ifaces != [] {
      assert Asks(ifaces, ip)[1..] == Asks(ifaces[1..], ip);
      AsksAsked(ifaces[1..], ip, x);
    }
  }

  lemma {:induction false} FinishedAsked(packets: seq<Packet>, ip: nat, fate: Fate, x: nat)
    ensures AskedFor(Finished(packets, ip, fate), x) == []
  {
    if packets != [] {
      assert Finished(packets, ip, fate)[1..] == Finished(packets[1..], ip, fate);
      FinishedAsked(packets[1..], ip, fate, x);
    }
  }

  // A sweep asks for an address on every interface once, in order, exactly when its request has
  // not been sent five times; it asks for nothing else.
  lemma {:induction false} SweepAsks(requests: seq<Request>, ifaces: seq<string>, ip: nat)
    requires Distinct(requests)
    ensures AskedFor(SweepOutput(requests, ifaces), ip) ==
            match Find(requests, ip)
            case None => []
            case Some(r) => if r.timesSent < 5 then ifaces else []
  {
    if requests != [] {
      TailDistinct(requests);
      var r := requests[0];
      SweepAsks(requests[1..], ifaces, ip);
      AskedConcat(RetryOutput(r, ifaces), SweepOutput(requests[1..], ifaces), ip);
      FinishedAsked(r.packets, r.ip, PortUnreachable, ip);
      AsksAsked(ifaces, r.ip, ip);
    }
  }

  // ---- Two threads -----------------------------------------------------------------------

  datatype Item = Item(ip: nat, packet: Packet)

  // A request the packet thread has taken off the list and is answering.
  datatype InHand = InHand(ip: nat, mac: Mac, port: string, packets: seq<Packet>)

  datatype State = State(
    requests: seq<Request>,
    hand: Option<InHand>,
    accepted: seq<Item>,
    output: seq<Output>)

  // Queued, Learned, Transmit and Release are the packet thread's; Sweep is the timer's and may
  // come between any two of them.
  datatype Step =
    | Queued(ip: nat, packet: Option<Packet>)
    | Learned(ip: nat, mac: Mac, port: string)
    | Transmit
    | Release
    | Sweep(now: int)

  predicate Enabled(s: State, step: Step) {
    match step
    case Queued(_, _) => s.hand.None?
    case Learned(_, _, _) => s.hand.None?
    case Transmit => s.hand.Some? && s.hand.value.packets != []
    case Release => s.hand.Some? && s.hand.value.packets == []
    case Sweep(_) => true
  }

  function ItemsOf(packet: Option<Packet>): seq<Packet> {
    if packet.Some? then [packet.value] else []
  }

  function Next(s: State, step: Step, ifaces: seq<string>): State
    requires Enabled(s, step)
  {
    match step
    case Queued(ip, packet) =>
      s.(requests := Queue(s.requests, ip, ItemsOf(packet)),
         accepted := if packet.Some? then s.accepted + [Item(ip, packet.value)] else s.accepted)
    case Learned(ip, mac, port) =>
      s.(requests := Detach(s.requests, ip),
         hand := match Find(s.requests, ip)
                 case None => None
                 case Some(r) => Some(InHand(ip, mac, port, r.packets)))
    case Transmit =>
      var h := s.hand.value;
      s.(hand := Some(h.(packets := h.packets[1..])),
         output := s.output + [Done(h.ip, Outcome(h.packets[0], Sent(h.mac, h.port)))])
    case Release => s.(hand := None)
    case Sweep(now) =>
      s.(requests := Swept(s.requests, ifaces, now), output := s.output + SweepOutput(s.requests, ifaces))
  }

  const START: State := State([], None, [], [])

  // The state after the given steps, if each was possible.
  function Run(s: State, steps: seq<Step>, ifaces: seq<string>): Option<State> {
    if steps == [] then Some(s)
    else
      match Run(s, steps[..|steps| - 1], ifaces)
      case None => None
      case Some(t) =>
        var step := steps[|steps| - 1];
        if Enabled(t, step) then Some(Next(t, step, ifaces)) else None
  }

  function Accepted(items: seq<Item>, ip: nat): seq<Packet> {
    if items == [] then []
    else
      var last := items[|items| - 1];
      Accepted(items[..|items| - 1], ip) + if last.ip == ip then [last.packet] else []
  }

  function Carried(hand: Option<InHand>, ip: nat): seq<Packet> {
    if hand.Some? && hand.value.ip == ip then hand.value.packets else []
  }

  // The packets for ip that have left the queue: answered, sent, or in the packet thread's hand.
  function Handled(s: State, ip: nat): seq<Packet> {
    PacketsOf(Outcomes(s.output, ip)) + Carried(s.hand, ip)
  }

  // In order of arrival, every packet accepted for an address is answered, then in hand, then
  // queued, exactly once.
  ghost predicate ConservedAt(s: State, ip: nat) {
    Accepted(s.accepted, ip) == Handled(s, ip) + Waiting(s.requests, ip)
  }

  ghost predicate Inv(s: State) {
    && Distinct(s.requests)
    && (s.hand.Some? ==> Find(s.requests, s.hand.value.ip).None?)
    && forall ip: nat {:trigger ConservedAt(s, ip)} :: ConservedAt(s, ip)
  }

  lemma AcceptedSnoc(items: seq<Item>, item: Item, ip: nat)
    ensures Accepted(items + [item], ip) == Accepted(items, ip) + if item.ip == ip then [item.packet] else []
  {
    assert (items + [item])[..|items|] == items;
  }

  lemma PacketsConcat(a: seq<Outcome>, b: seq<Outcome>)
    ensures PacketsOf(a + b) == PacketsOf(a) + PacketsOf(b)
  {
  }

  lemma QueueWaits(requests: seq<Request>, ip: nat, packets: seq<Packet>, x: nat)
    requires Distinct(requests)
    ensures Waiting(Queue(requests, ip, packets), x) == Waiting(requests, x) + if x == ip then packets else []
  {
    QueueAdds(requests, ip, packets);
  }

  lemma QueuedConserves(s: State, ip: nat, packet: Option<Packet>, ifaces: seq<string>, x: nat)
    requires Distinct(s.requests) && s.hand.None? && ConservedAt(s, x)
    ensures ConservedAt(Next(s, Queued(ip, packet), ifaces), x)
  {
    var t := Next(s, Queued(ip, packet), ifaces);
    var added := if x == ip then ItemsOf(packet) else [];
    assert Waiting(t.requests, x) == Waiting(s.requests, x) + added by {
      QueueWaits(s.requests, ip, ItemsOf(packet), x);
    }
    assert Accepted(t.accepted, x) == Accepted(s.accepted, x) + added by {
      if packet.Some? {
        AcceptedSnoc(s.accepted, Item(ip, packet.value), x);
      }
    }
    assert Handled(t, x) == Handled(s, x);
  }

  lemma LearnedConserves(s: State, ip: nat, mac: Mac, port: string, ifaces: seq<string>, x: nat)
    requires Distinct(s.requests) && s.hand.None? && ConservedAt(s, x)
    ensures ConservedAt(Next(s, Learned(ip, mac, port), ifaces), x)
  {
    DetachRemoves(s.requests, ip);
    var done := PacketsOf(Outcomes(s.output, x));
    assert Handled(s, x) == done;
  }

  // What new output adds to the packets done for x.
  lemma MoreDone(output: seq<Output>, more: seq<Output>, x: nat)
    ensures PacketsOf(Outcomes(output + more, x)) == PacketsOf(Outcomes(output, x)) + PacketsOf(Outcomes(more, x))
  {
    OutcomesConcat(output, more, x);
    PacketsConcat(Outcomes(output, x), Outcomes(more, x));
  }

  lemma OneDone(ip: nat, outcome: Outcome, x: nat)
    ensures PacketsOf(Outcomes([Done(ip, outcome)], x)) == if x == ip then [outcome.packet] else []
  {
  }

  lemma TransmitHandles(s: State, ifaces: seq<string>, x: nat)
    requires s.hand.Some? && s.hand.value.packets != []
    ensures Handled(Next(s, Transmit, ifaces), x) == Handled(s, x)
  {
    var h := s.hand.value;
    var outcome := Outcome(h.packets[0], Sent(h.mac, h.port));
    MoreDone(s.output, [Done(h.ip, outcome)], x);
    OneDone(h.ip, outcome, x);
    if x == h.ip {
      var done := PacketsOf(Outcomes(s.output, x));
      assert done + h.packets == (done + [h.packets[0]]) + h.packets[1..];
    }
  }

  lemma SweepWaits(requests: seq<Request>, ifaces: seq<string>, now: int, x: nat)
    requires Distinct(requests)
    ensures PacketsOf(Outcomes(SweepOutput(requests, ifaces), x)) + Waiting(Swept(requests, ifaces, now), x)
            == Waiting(requests, x)
  {
    SweepRetries(requests, ifaces, now);
    SweepAnswers(requests, ifaces, x);
  }

  lemma SweepConserves(s: State, now: int, ifaces: seq<string>, x: nat)
    requires Distinct(s.requests) && ConservedAt(s, x)
    requires s.hand.Some? ==> Find(s.requests, s.hand.value.ip).None?
    ensures ConservedAt(Next(s, Sweep(now), ifaces), x)
  {
    SweepWaits(s.requests, ifaces, now, x);
    MoreDone(s.output, SweepOutput(s.requests, ifaces), x);
    var done, carried := PacketsOf(Outcomes(s.output, x)), Carried(s.hand, x);
    var answered := PacketsOf(Outcomes(SweepOutput(s.requests, ifaces), x));
    var left := Waiting(Swept(s.requests, ifaces, now), x);
    assert carried == [] || answered + left == [];
    Regroup(done, carried, answered, left);
  }

  lemma Regroup(done: seq<Packet>, carried: seq<Packet>, answered: seq<Packet>, left: seq<Packet>)
    requires carried == [] || answered + left == []
    ensures (done + carried) + (answered + left) == ((done + answered) + carried) + left
  {
    if carried != [] {
      assert |answered + left| == 0;
      assert answered == [] && left == [];
    }
  }

  lemma InvNext(s: State, step: Step, ifaces: seq<string>)
    requires Inv(s) && Enabled(s, step)
    ensures Inv(Next(s, step, ifaces))
  {
    var t := Next(s, step, ifaces);
    forall x: nat
      ensures ConservedAt(t, x)
    {
      assert ConservedAt(s, x);
      match step
      case Queued(ip, packet) => QueuedConserves(s, ip, packet, ifaces, x);
      case Learned(ip, mac, port) => LearnedConserves(s, ip, mac, port, ifaces, x);
      case Transmit => TransmitHandles(s, ifaces, x);
      case Release =>
      case Sweep(now) => SweepConserves(s, now, ifaces, x);
    }
    match step
    case Queued(ip, packet) => QueueAdds(s.requests, ip, ItemsOf(packet));
    case Learned(ip, mac, port) => DetachRemoves(s.requests, ip);
    case Transmit =>
    case Release =>
    case Sweep(now) => SweepRetries(s.requests, ifaces, now);
  }

  // Conservation over every run, however the timer thread interleaves with the packet thread.
  lemma {:induction false} PacketsConserved(steps: seq<Step>, ifaces: seq<string>)
    ensures Run(START, steps, ifaces).Some? ==> Inv(Run(START, steps, ifaces).value)
  {
    if steps == [] {
      assert Inv(START);
    } else {
      var before := steps[..|steps| - 1];
      PacketsConserved(before, ifaces);
      var s := Run(START, before, ifaces);
      if s.Some? && Enabled(s.value, steps[|steps| - 1]) {
        InvNext(s.value, steps[|steps| - 1], ifaces);
      }
    }
  }

  // ---- How long a packet can wait --------------------------------------------------------

  function Sweeps(steps: seq<Step>): nat {
    if steps == [] then 0
    else Sweeps(steps[..|steps| - 1]) + if steps[|steps| - 1].Sweep? then 1 else 0
  }

  lemma HandledGrows(s: State, step: Step, ifaces: seq<string>, x: nat)
    requires Enabled(s, step)
    ensures |Handled(Next(s, step, ifaces), x)| >= |Handled(s, x)|
  {
    match step
    case Queued(_, _) =>
    case Learned(_, _, _) =>
    case Transmit => TransmitHandles(s, ifaces, x);
    case Release =>
    case Sweep(now) => MoreDone(s.output, SweepOutput(s.requests, ifaces), x);
  }

  // After k sweeps the first m packets accepted for ip are handled, or their request has been
  // sent at least k times on every one of the n interfaces.
  ghost predicate Pressed(t: State, ip: nat, m: nat, k: nat, n: nat) {
    || m <= |Handled(t, ip)|
    || (&& Find(t.requests, ip).Some?
        && Find(t.requests, ip).value.timesSent >= k * n
        && (k > 0 ==> (k - 1) * n < TRIES))
  }

  lemma PressedNext(t: State, step: Step, ifaces: seq<string>, ip: nat, m: nat, k: nat)
    requires Inv(t) && Enabled(t, step) && m <= |Accepted(t.accepted, ip)|
    requires Pressed(t, ip, m, k, |ifaces|)
    ensures Pressed(Next(t, step, ifaces), ip, m, k + if step.Sweep? then 1 else 0, |ifaces|)
  {
    var u := Next(t, step, ifaces);
    HandledGrows(t, step, ifaces, ip);
    assert ConservedAt(t, ip);
    match step
    case Queued(x, packet) => QueueAdds(t.requests, x, ItemsOf(packet));
    case Learned(x, mac, port) => DetachRemoves(t.requests, x);
    case Transmit =>
    case Release =>
    case Sweep(now) =>
      if m > |Handled(t, ip)| {
        SweepRetries(t.requests, ifaces, now);
        assert (k + 1) * |ifaces| == k * |ifaces| + |ifaces|;
        if Find(t.requests, ip).value.timesSent >= TRIES {
          InvNext(t, step, ifaces);
          assert ConservedAt(u, ip);
          assert Waiting(u.requests, ip) == [];
        }
      }
  }

  lemma AcceptedGrows(t: State, step: Step, ifaces: seq<string>, ip: nat)
    requires Enabled(t, step)
    ensures Accepted(t.accepted, ip) <= Accepted(Next(t, step, ifaces).accepted, ip)
  {
    if step.Queued? && step.packet.Some? {
      AcceptedSnoc(t.accepted, Item(step.ip, step.packet.value), ip);
    }
  }

  lemma {:induction false} PressedRun(s: State, steps: seq<Step>, ifaces: seq<string>, ip: nat)
    requires Inv(s) && Run(s, steps, ifaces).Some?
    ensures var t := Run(s, steps, ifaces).value;
            && Inv(t)
            && Accepted(s.accepted, ip) <= Accepted(t.accepted, ip)
            && Pressed(t, ip, |Accepted(s.accepted, ip)|, Sweeps(steps), |ifaces|)
  {
    var m := |Accepted(s.accepted, ip)|;
    if steps == [] {
      assert ConservedAt(s, ip);
    } else {
      var before, step := steps[..|steps| - 1], steps[|steps| - 1];
      PressedRun(s, before, ifaces, ip);
      var t := Run(s, before, ifaces).value;
      InvNext(t, step, ifaces);
      AcceptedGrows(t, step, ifaces, ip);
      PressedNext(t, step, ifaces, ip, m, Sweeps(before));
    }
  }

  // No packet waits longer than ceil(5/n) + 1 sweeps, whatever else happens meanwhile.
  lemma NoPacketWaitsForever(s: State, steps: seq<Step>, ifaces: seq<string>, ip: nat)
    requires Inv(s) && Run(s, steps, ifaces).Some?
    requires Sweeps(steps) > 0 && (Sweeps(steps) - 1) * |ifaces| >= TRIES
    ensures Accepted(s.accepted, ip) <= Handled(Run(s, steps, ifaces).value, ip)
  {
    PressedRun(s, steps, ifaces, ip);
    assert ConservedAt(Run(s, steps, ifaces).value, ip);
  }

  ghost predicate Learns(steps: seq<Step>, ip: nat) {
    exists k :: 0 <= k < |steps| && steps[k].Learned? && steps[k].ip == ip
  }

  // How often a request has been sent after k more sweeps over n interfaces.
  function TimesSent(sent: nat, k: nat, n: nat): nat {
    if k == 0 then sent else TimesSent(sent, k - 1, n) + n
  }

  lemma {:induction false} TimesSentIs(sent: nat, k: nat, n: nat)
    ensures TimesSent(sent, k, n) == sent + k * n
  {
    if k > 0 {
      TimesSentIs(sent, k - 1, n);
      assert k * n == (k - 1) * n + n;
    }
  }

  // Whether a request already sent `sent` times outlives k sweeps over n interfaces.
  predicate Outlives(sent: nat, k: nat, n: nat) {
    k == 0 || TimesSent(sent, k - 1, n) < TRIES
  }

  ghost predicate Waited(s: State, t: State, r: Request, k: nat, n: nat) {
    HeldOrAnswered(Outcomes(s.output, r.ip), Find(t.requests, r.ip), Outcomes(t.output, r.ip), r, k, n)
  }

  ghost predicate HeldOrAnswered(
    before: seq<Outcome>, now: Option<Request>, after: seq<Outcome>, r: Request, k: nat, n: nat)
  {
    if Outlives(r.timesSent, k, n) then
      && now.Some?
      && now.value.timesSent == TimesSent(r.timesSent, k, n)
      && r.packets <= now.value.packets
      && after == before
    else
      before + AllFated(r.packets, PortUnreachable) <= after
  }

  lemma TimesSentGrows(sent: nat, k: nat, n: nat)
    ensures TimesSent(sent, k + 1, n) == TimesSent(sent, k, n) + n
    ensures Outlives(sent, k + 1, n) <==> TimesSent(sent, k, n) < TRIES
    ensures Outlives(sent, k + 1, n) ==> Outlives(sent, k, n)
  {
  }

  lemma HeldThroughSweep(
    before: seq<Outcome>, now: Option<Request>, after: seq<Outcome>, r: Request, k: nat, n: nat,
    now': Option<Request>, more: seq<Outcome>)
    requires HeldOrAnswered(before, now, after, r, k, n)
    requires now.Some? && now.value.timesSent < TRIES ==>
               && now'.Some? && now'.value.timesSent == now.value.timesSent + n
               && now'.value.packets == now.value.packets && more == []
    requires now.Some? && now.value.timesSent >= TRIES ==> more == AllFated(now.value.packets, PortUnreachable)
    ensures HeldOrAnswered(before, now', after + more, r, k + 1, n)
  {
    TimesSentGrows(r.timesSent, k, n);
    if Outlives(r.timesSent, k, n) {
      var answered := AllFated(now.value.packets, PortUnreachable);
      assert AllFated(r.packets, PortUnreachable) <= answered;
    }
  }

  lemma WaitedSweep(s: State, t: State, r: Request, k: nat, now: int, ifaces: seq<string>)
    requires Distinct(t.requests) && Waited(s, t, r, k, |ifaces|)
    ensures Waited(s, Next(t, Sweep(now), ifaces), r, k + 1, |ifaces|)
  {
    SweepRetries(t.requests, ifaces, now);
    SweepAnswers(t.requests, ifaces, r.ip);
    OutcomesConcat(t.output, SweepOutput(t.requests, ifaces), r.ip);
    HeldThroughSweep(
      Outcomes(s.output, r.ip), Find(t.requests, r.ip), Outcomes(t.output, r.ip), r, k, |ifaces|,
      Find(Swept(t.requests, ifaces, now), r.ip), Outcomes(SweepOutput(t.requests, ifaces), r.ip));
  }

  lemma WaitedQueue(s: State, t: State, r: Request, k: nat, ip: nat, packet: Option<Packet>, ifaces: seq<string>)
    requires Distinct(t.requests) && Waited(s, t, r, k, |ifaces|) && t.hand.None?
    ensures Waited(s, Next(t, Queued(ip, packet), ifaces), r, k, |ifaces|)
  {
    QueueAdds(t.requests, ip, ItemsOf(packet));
  }

  lemma WaitedTransmit(s: State, t: State, r: Request, k: nat, ifaces: seq<string>)
    requires Waited(s, t, r, k, |ifaces|) && Enabled(t, Transmit) && t.hand.value.ip != r.ip
    ensures Waited(s, Next(t, Transmit, ifaces), r, k, |ifaces|)
  {
    var h := t.hand.value;
    OutcomesConcat(t.output, [Done(h.ip, Outcome(h.packets[0], Sent(h.mac, h.port)))], r.ip);
  }

  lemma WaitedNext(s: State, t: State, step: Step, ifaces: seq<string>, r: Request, k: nat)
    requires Inv(t) && Enabled(t, step) && Waited(s, t, r, k, |ifaces|)
    requires (t.hand.Some? ==> t.hand.value.ip != r.ip) && (step.Learned? ==> step.ip != r.ip)
    ensures Waited(s, Next(t, step, ifaces), r, k + if step.Sweep? then 1 else 0, |ifaces|)
  {
    match step
    case Queued(ip, packet) => WaitedQueue(s, t, r, k, ip, packet, ifaces);
    case Learned(ip, mac, port) => DetachRemoves(t.requests, ip);
    case Transmit => WaitedTransmit(s, t, r, k, ifaces);
    case Release =>
    case Sweep(now) => WaitedSweep(s, t, r, k, now, ifaces);
  }

  lemma HandStaysOther(t: State, step: Step, ifaces: seq<string>, ip: nat)
    requires Enabled(t, step) && (t.hand.Some? ==> t.hand.value.ip != ip) && (step.Learned? ==> step.ip != ip)
    ensures var u := Next(t, step, ifaces); u.hand.Some? ==> u.hand.value.ip != ip
  {
  }

  ghost predicate Unanswered(s: State, t: State, r: Request, k: nat, n: nat) {
    Inv(t) && (t.hand.Some? ==> t.hand.value.ip != r.ip) && Waited(s, t, r, k, n)
  }

  lemma UnansweredNext(s: State, t: State, step: Step, ifaces: seq<string>, r: Request, k: nat)
    requires Unanswered(s, t, r, k, |ifaces|) && Enabled(t, step) && (step.Learned? ==> step.ip != r.ip)
    ensures Unanswered(s, Next(t, step, ifaces), r, k + if step.Sweep? then 1 else 0, |ifaces|)
  {
    InvNext(t, step, ifaces);
    HandStaysOther(t, step, ifaces, r.ip);
    WaitedNext(s, t, step, ifaces, r, k);
  }

  // Exactly how long an unanswered request lives: while it has been sent fewer than five times
  // before a sweep, it stays, with every packet it held; the next sweep after that answers them
  // all as unreachable.
  lemma {:induction false} UnansweredRequest(s: State, steps: seq<Step>, ifaces: seq<string>, r: Request)
    requires Inv(s) && Find(s.requests, r.ip) == Some(r)
    requires Run(s, steps, ifaces).Some? && !Learns(steps, r.ip)
    ensures Unanswered(s, Run(s, steps, ifaces).value, r, Sweeps(steps), |ifaces|)
  {
    if steps != [] {
      var before, step := steps[..|steps| - 1], steps[|steps| - 1];
      assert !Learns(before, r.ip);
      UnansweredRequest(s, before, ifaces, r);
      assert step.Learned? ==> step.ip != r.ip;
      UnansweredNext(s, Run(s, before, ifaces).value, step, ifaces, r, Sweeps(before));
    }
  }

  // A router without interfaces never gives up on a request.
  lemma NoInterfacesNoAnswer(s: State, steps: seq<Step>, r: Request)
    requires Inv(s) && Find(s.requests, r.ip) == Some(r) && r.timesSent < TRIES
    requires Run(s, steps, []).Some? && !Learns(steps, r.ip)
    ensures r.packets <= Waiting(Run(s, steps, []).value.requests, r.ip)
  {
    UnansweredRequest(s, steps, [], r);
    TimesSentIs(r.timesSent, Sweeps(steps), 0);
    if Sweeps(steps) > 0 {
      TimesSentIs(r.timesSent, Sweeps(steps) - 1, 0);
    }
  }

  // ---- The address table -----------------------------------------------------------------

  function FirstFree(entries: seq<Entry>): (i: nat)
    ensures i <= |entries| && (i < |entries| ==> !entries[i].valid)
    ensures forall k :: 0 <= k < i ==> entries[k].valid
  {
    if entries == [] || !entries[0].valid then 0 else 1 + FirstFree(entries[1..])
  }

  predicate Hit(e: Entry, ip: nat) {
    e.valid && e.ip == ip
  }

  // The slot a lookup reads: the last one that is valid and holds ip.
  function LastHit(entries: seq<Entry>, ip: nat): (i: Option<nat>)
    ensures i.Some? ==> i.value < |entries| && Hit(entries[i.value], ip)
    ensures forall k :: (if i.Some? then i.value + 1 else 0) <= k < |entries| ==> !Hit(entries[k], ip)
  {
    if entries == [] then None
    else
      var last := |entries| - 1;
      if Hit(entries[last], ip) then Some(last) else LastHit(entries[..last], ip)
  }

  function Filled(entries: seq<Entry>, mac: Mac, ip: nat, now: int): seq<Entry> {
    var i := FirstFree(entries);
    if i < |entries| then entries[i := Entry(mac, ip, now, true)] else entries
  }

  function Aged(entries: seq<Entry>, now: int): (r: seq<Entry>)
    ensures |r| == |entries|
  {
    seq(|entries|, k requires 0 <= k < |entries| =>
      if entries[k].valid && now - entries[k].added > LIFETIME then entries[k].(valid := false) else entries[k])
  }

  // A new mapping is the one a lookup then finds exactly when there is a free slot and no valid
  // entry for the address sits above the first one; mappings of other addresses are untouched.
  lemma InsertThenLookup(entries: seq<Entry>, mac: Mac, ip: nat, now: int)
    ensures var i := FirstFree(entries);
            LastHit(Filled(entries, mac, ip, now), ip) == Some(i)
            <==> i < |entries| && forall k :: i < k < |entries| ==> !Hit(entries[k], ip)
    ensures forall x: nat :: x != ip ==> LastHit(Filled(entries, mac, ip, now), x) == LastHit(entries, x)
  {
    var i, after := FirstFree(entries), Filled(entries, mac, ip, now);
    assert forall k :: 0 <= k < |entries| && k != i ==> after[k] == entries[k];
    if i < |entries| {
      assert Hit(after[i], ip);
      var found := LastHit(after, ip).value;
      assert found > i ==> Hit(entries[found], ip);
    }
    forall x: nat | x != ip
      ensures LastHit(after, x) == LastHit(entries, x)
    {
      var a, b := LastHit(after, x), LastHit(entries, x);
      if a.Some? {
        assert Hit(entries[a.value], x);
      }
      if b.Some? {
        assert Hit(after[b.value], x);
      }
    }
  }

  // A table as it is set up: every slot zeroed.
  function Unused(): (entries: seq<Entry>)
    ensures |entries| == 100 && forall k :: 0 <= k < 100 ==> entries[k] == Entry([0, 0, 0, 0, 0, 0], 0, 0, false)
  {
    seq(SLOTS, _ => Entry([0, 0, 0, 0, 0, 0], 0, 0, false))
  }

  lemma FilledAt(entries: seq<Entry>, i: nat, mac: Mac, ip: nat, now: int)
    requires i < |entries| && !entries[i].valid && forall k :: 0 <= k < i ==> entries[k].valid
    ensures FirstFree(entries) == i && Filled(entries, mac, ip, now) == entries[i := Entry(mac, ip, now, true)]
  {
  }

  // So a lookup need not return the newest mapping: a host answers at seconds 100 and 105, the first
  // slot expires at 116, and its answer at 117, from a new card, goes below the older mapping.
  lemma NewestMappingCanBeHidden()
    ensures var old1, old2, newest := [2, 0, 0, 0, 0, 1], [2, 0, 0, 0, 0, 2], [2, 0, 0, 0, 0, 3];
            var twice := Filled(Filled(Unused(), old1, 7, 100), old2, 7, 105);
            var after := Filled(Aged(twice, 116), newest, 7, 117);
            && LastHit(after, 7) == Some(1) && after[1].mac == old2
            && after[0] == Entry(newest, 7, 117, true)
  {
    var old1, old2, newest := [2, 0, 0, 0, 0, 1], [2, 0, 0, 0, 0, 2], [2, 0, 0, 0, 0, 3];
    var empty := Unused();
    FilledAt(empty, 0, old1, 7, 100);
    var once := Filled(empty, old1, 7, 100);
    FilledAt(once, 1, old2, 7, 105);
    var twice := Filled(once, old2, 7, 105);
    var aged := Aged(twice, 116);
    FilledAt(aged, 0, newest, 7, 117);
    var after := Filled(aged, newest, 7, 117);
    assert Hit(after[1], 7) && forall k :: 1 < k < SLOTS ==> !Hit(after[k], 7);
  }

  // After the expiry pass a lookup succeeds exactly when some valid entry is young enough, and
  // what it reads is such an entry, unchanged.
  lemma LookupsAreFresh(entries: seq<Entry>, now: int, ip: nat)
    ensures var i := LastHit(Aged(entries, now), ip);
            && (i.Some? <==>
                  exists k :: 0 <= k < |entries| && Hit(entries[k], ip) && now - entries[k].added <= 15)
            && (i.Some? ==> && Aged(entries, now)[i.value] == entries[i.value]
                            && now - entries[i.value].added <= 15)
  {
    var after := Aged(entries, now);
    assert forall k :: 0 <= k < |entries| ==>
             (Hit(after[k], ip) <==> Hit(entries[k], ip) && now - entries[k].added <= LIFETIME);
  }

  // ---- The packet thread's answer, when nothing interrupts it -----------------------------

  lemma FinishedSnoc(packets: seq<Packet>, p: Packet, ip: nat, fate: Fate)
    ensures Finished(packets + [p], ip, fate) == Finished(packets, ip, fate) + [Done(ip, Outcome(p, fate))]
  {
    if packets != [] {
      assert (packets + [p])[1..] == packets[1..] + [p];
      FinishedSnoc(packets[1..], p, ip, fate);
    }
  }

  function Transmits(k: nat): (steps: seq<Step>)
    ensures |steps| == k
  {
    seq(k, _ => Transmit)
  }

  lemma {:induction false} TransmitRun(s: State, ip: nat, mac: Mac, port: string, k: nat, ifaces: seq<string>)
    requires s.hand.None? && k <= |Waiting(s.requests, ip)| && Find(s.requests, ip).Some?
    ensures var packets := Waiting(s.requests, ip);
            Run(s, [Learned(ip, mac, port)] + Transmits(k), ifaces) ==
            Some(State(Detach(s.requests, ip), Some(InHand(ip, mac, port, packets[k..])), s.accepted,
                       s.output + Finished(packets[..k], ip, Sent(mac, port))))
  {
    var steps := [Learned(ip, mac, port)] + Transmits(k);
    var packets, fate := Waiting(s.requests, ip), Sent(mac, port);
    if k == 0 {
      assert steps == [Learned(ip, mac, port)] && steps[..|steps| - 1] == [];
      assert Run(s, [], ifaces) == Some(s);
      assert packets[0..] == packets && packets[..0] == [];
      assert s.output + [] == s.output;
    } else {
      assert steps[..|steps| - 1] == [Learned(ip, mac, port)] + Transmits(k - 1);
      assert steps[|steps| - 1] == Transmit;
      assert packets[k - 1..][1..] == packets[k..];
      TransmitRun(s, ip, mac, port, k - 1, ifaces);
      assert packets[..k] == packets[..k - 1] + [packets[k - 1]];
      FinishedSnoc(packets[..k - 1], packets[k - 1], ip, fate);
      assert s.output + Finished(packets[..k], ip, fate) ==
             (s.output + Finished(packets[..k - 1], ip, fate)) + [Done(ip, Outcome(packets[k - 1], fate))];
    }
  }

  // Uninterrupted, the packet thread's steps do what its code does in one go.
  lemma AnswersAll(s: State, ip: nat, mac: Mac, port: string, ifaces: seq<string>)
    requires s.hand.None? && Find(s.requests, ip).Some?
    ensures var packets := Waiting(s.requests, ip);
            Run(s, [Learned(ip, mac, port)] + Transmits(|packets|) + [Release], ifaces) ==
            Some(s.(requests := Detach(s.requests, ip), output := s.output + Finished(packets, ip, Sent(mac, port))))
  {
    var packets := Waiting(s.requests, ip);
    TransmitRun(s, ip, mac, port, |packets|, ifaces);
    var steps := [Learned(ip, mac, port)] + Transmits(|packets|) + [Release];
    assert steps[..|steps| - 1] == [Learned(ip, mac, port)] + Transmits(|packets|);
    assert packets[..|packets|] == packets && packets[|packets|..] == [];
  }

  // ---- The functions themselves ------------------------------------------------------------

  class ArpCache {
    const entries: array<Entry>
    var requests: seq<Request>
    var output: seq<Output>

    ghost predicate Valid()
      reads this
    {
      entries.Length == SLOTS && Distinct(requests)
    }

    // sr_arpcache_init
    constructor ()
      ensures Valid() && fresh(entries) && requests == [] && output == []
      ensures entries[..] == Unused() && forall ip: nat :: LastHit(entries[..], ip).None?
    {
      entries := new Entry[SLOTS](_ => Entry([0, 0, 0, 0, 0, 0], 0, 0, false));
      requests, output := [], [];
    }

    // sr_arpcache_lookup
    method Lookup(ip: nat) returns (copy: Option<Entry>)
      ensures match LastHit(entries[..], ip)
              case None => copy == None
              case Some(i) => copy == Some(entries[i])
    {
      ghost var found: Option<nat> := None;
      copy := None;
      for i := 0 to entries.Length
        invariant found == LastHit(entries[..i], ip)
        invariant copy == if found.Some? then Some(entries[found.value]) else None
      {
        assert entries[..i + 1][..i] == entries[..i];
        if entries[i].valid && entries[i].ip == ip {
          copy, found := Some(entries[i]), Some(i);
        }
      }
      assert entries[..entries.Length] == entries[..];
    }

    // The walk along the request list that queuereq and insert share.
    method Locate(ip: nat) returns (i: nat)
      ensures i <= |requests| && (forall k :: 0 <= k < i ==> requests[k].ip != ip)
      ensures i < |requests| ==> requests[i].ip == ip
    {
      i := 0;
      while i < |requests| && requests[i].ip != ip
        invariant i <= |requests| && forall k :: 0 <= k < i ==> requests[k].ip != ip
      {
        i := i + 1;
      }
    }

    // sr_arpcache_queuereq: without a frame or an interface the request is opened all the same.
    method QueueReq(ip: nat, frame: Option<seq<nat>>, iface: Option<string>)
      requires Valid()
      modifies this`requests
      ensures Valid()
      ensures requests == Queue(old(requests), ip,
                                if frame.None? || frame.value == [] || iface.None? then []
                                else [Packet(frame.value, iface.value)])
    {
      ghost var packets :=
        if frame.None? || frame.value == [] || iface.None? then [] else [Packet(frame.value, iface.value)];
      QueueAdds(requests, ip, packets);
      var i := Locate(ip);
      LocatedFind(requests, ip, i);
      if i == |requests| {
        requests := [Request(ip, 0, 0, [])] + requests;
        i := 0;
      }
      LocatedAppend(requests, ip, i, packets);
      if frame.Some? && frame.value != [] && iface.Some? {
        requests := requests[i := AddPacket(requests[i], Packet(frame.value, iface.value))];
      } else {
        AddNothing(requests, i);
      }
    }

    // sr_arpcache_insert
    method Insert(mac: Mac, ip: nat, now: int) returns (req: Option<Request>)
      requires Valid()
      modifies this`requests, entries
      ensures Valid() && req == Find(old(requests), ip) && requests == Detach(old(requests), ip)
      ensures entries[..] == Filled(old(entries[..]), mac, ip, now)
    {
      DetachRemoves(requests, ip);
      var i := Locate(ip);
      LocatedFind(requests, ip, i);
      LocatedDetach(requests, ip, i);
      req := None;
      if i < |requests| {
        req := Some(requests[i]);
        requests := requests[..i] + requests[i + 1..];
      }
      var j := FreeSlot();
      if j != entries.Length {
        entries[j] := Entry(mac, ip, now, true);
      }
    }

    method FreeSlot() returns (i: nat)
      ensures i == FirstFree(entries[..])
    {
      i := 0;
      while i < entries.Length && entries[i].valid
        invariant i <= entries.Length && forall k :: 0 <= k < i ==> entries[k].valid
      {
        i := i + 1;
      }
    }

    // send_unreachable_to_queued
    method SendUnreachable(r: Request)
      modifies this`output
      ensures output == old(output) + Finished(r.packets, r.ip, PortUnreachable)
    {
      for k := 0 to |r.packets|
        invariant output + Finished(r.packets[k..], r.ip, PortUnreachable) ==
                  old(output) + Finished(r.packets, r.ip, PortUnreachable)
      {
        assert r.packets[k..][1..] == r.packets[k + 1..];
        output := output + [Done(r.ip, Outcome(r.packets[k], PortUnreachable))];
      }
    }

    // The inner loop of the sweep: one ARP request on every interface.
    method AskAll(r: Request, ifaces: seq<string>, now: int) returns (asked: Request)
      requires r.timesSent < TRIES
      modifies this`output
      ensures Retried(r, ifaces, now) == [asked] && output == old(output) + Asks(ifaces, r.ip)
    {
      asked := r;
      for k := 0 to |ifaces|
        invariant output + Asks(ifaces[k..], r.ip) == old(output) + Asks(ifaces, r.ip)
        invariant asked == r.(sent := if k == 0 then r.sent else now, timesSent := r.timesSent + k)
      {
        assert ifaces[k..][1..] == ifaces[k + 1..];
        output := output + [Ask(ifaces[k], r.ip)];
        asked := asked.(sent := now, timesSent := asked.timesSent + 1);
      }
    }

    // The body of the sweep's loop, for the request at `current`; returns where the next one is.
    method SweepOne(current: nat, ifaces: seq<string>, now: int) returns (next: nat)
      requires current < |requests| && now > 1
      modifies this`requests, this`output
      ensures var r := old(requests)[current];
              && requests == old(requests)[..current] + Retried(r, ifaces, now) + old(requests)[current + 1..]
              && output == old(output) + RetryOutput(r, ifaces)
              && next == current + |Retried(r, ifaces, now)|
    {
      var r := requests[current];
      next := current + 1;
      if now - (if r.sent > 1 then 1 else 0) != 0 {
        if r.timesSent >= TRIES {
          SendUnreachable(r);
          requests := requests[..current] + requests[current + 1..];
          next := current;
        } else {
          var asked := AskAll(r, ifaces, now);
          requests := requests[current := asked];
        }
      }
    }

    // sr_arpcache_sweepreqs: the list is spliced while it is walked.  The clock reads at least 2.
    method SweepReqs(ifaces: seq<string>, now: int)
      requires Valid() && now > 1
      modifies this`requests, this`output
      ensures Valid() && requests == Swept(old(requests), ifaces, now)
      ensures output == old(output) + SweepOutput(old(requests), ifaces)
    {
      SweepRetries(requests, ifaces, now);
      ghost var kept, rest := [], requests;
      var current := 0;
      while current < |requests|
        invariant requests == kept + rest && current == |kept|
        invariant kept + Swept(rest, ifaces, now) == Swept(old(requests), ifaces, now)
        invariant output + SweepOutput(rest, ifaces) == old(output) + SweepOutput(old(requests), ifaces)
        decreases |rest|
      {
        SweepHead(kept, output, rest, ifaces, now);
        Splice(kept, rest);
        current := SweepOne(current, ifaces, now);
        kept, rest := kept + Retried(rest[0], ifaces, now), rest[1..];
      }
      assert rest == [];
      assert requests == kept + Swept([], ifaces, now);
    }

    // One round of sr_arpcache_timeout.
    method Timeout(ifaces: seq<string>, now: int)
      requires Valid() && now > 1
      modifies this`requests, this`output, entries
      ensures Valid() && entries[..] == Aged(old(entries[..]), now)
      ensures requests == Swept(old(requests), ifaces, now)
      ensures output == old(output) + SweepOutput(old(requests), ifaces)
    {
      for i := 0 to entries.Length
        invariant requests == old(requests) && output == old(output)
        invariant forall k :: i <= k < entries.Length ==> entries[k] == old(entries[k])
        invariant forall k :: 0 <= k < i ==> entries[k] == Aged(old(entries[..]), now)[k]
      {
        if entries[i].valid && now - entries[i].added > LIFETIME {
          entries[i] := entries[i].(valid := false);
        }
      }
      SweepReqs(ifaces, now);
    }

    // sr_handle_arp, for requests and replies alike: the sender's address is learned and whatever
    // waited for it is sent on through the port the message came in by.
    method HandleArp(mac: Mac, ip: nat, port: string, now: int)
      requires Valid()
      modifies this`requests, this`output, entries
      ensures Valid() && requests == Detach(old(requests), ip)
      ensures output == old(output) + Finished(Waiting(old(requests), ip), ip, Sent(mac, port))
      ensures entries[..] == Filled(old(entries[..]), mac, ip, now)
    {
      var pending := Insert(mac, ip, now);
      if pending.Some? {
        var packets := pending.value.packets;
        for k := 0 to |packets|
          invariant Valid() && requests == Detach(old(requests), ip)
          invariant entries[..] == Filled(old(entries[..]), mac, ip, now)
          invariant output + Finished(packets[k..], ip, Sent(mac, port)) ==
                    old(output) + Finished(packets, ip, Sent(mac, port))
        {
          assert packets[k..][1..] == packets[k + 1..];
          output := output + [Done(ip, Outcome(packets[k], Sent(mac, port)))];
        }
      }
    }
  }

  // The same through the functions themselves.
  method HiddenMapping() returns (found: Option<Entry>)
    ensures found == Some(Entry([2, 0, 0, 0, 0, 2], 7, 105, true))
  {
    var cache := new ArpCache();
    assert cache.entries[..] == Unused();
    cache.HandleArp([2, 0, 0, 0, 0, 1], 7, "eth1", 100);
    cache.HandleArp([2, 0, 0, 0, 0, 2], 7, "eth1", 105);
    cache.Timeout(["eth1"], 116);
    cache.HandleArp([2, 0, 0, 0, 0, 3], 7, "eth1", 117);
    NewestMappingCanBeHidden();
    FilledAt(Unused(), 0, [2, 0, 0, 0, 0, 1], 7, 100);
    found := cache.Lookup(7);
  }

  lemma SweepHead(kept: seq<Request>, output: seq<Output>, rest: seq<Request>, ifaces: seq<string>, now: int)
    requires rest != []
    ensures kept + Swept(rest, ifaces, now) == (kept + Retried(rest[0], ifaces, now)) + Swept(rest[1..], ifaces, now)
    ensures output + SweepOutput(rest, ifaces) ==
            (output + RetryOutput(rest[0], ifaces)) + SweepOutput(rest[1..], ifaces)
  {
  }

  lemma Splice(kept: seq<Request>, rest: seq<Request>)
    requires rest != []
    ensures var all := kept + rest;
            all[|kept|] == rest[0] && all[..|kept|] == kept && all[|kept| + 1..] == rest[1..]
  {
  }

  lemma {:induction false} LocatedFind(requests: seq<Request>, ip: nat, i: nat)
    requires i <= |requests| && (forall k :: 0 <= k < i ==> requests[k].ip != ip)
    requires i < |requests| ==> requests[i].ip == ip
    ensures Find(requests, ip) == if i < |requests| then Some(requests[i]) else None
  {
    if i > 0 {
      LocatedFind(requests[1..], ip, i - 1);
    }
  }

  lemma {:induction false} LocatedDetach(requests: seq<Request>, ip: nat, i: nat)
    requires i <= |requests| && (forall k :: 0 <= k < i ==> requests[k].ip != ip)
    requires i < |requests| ==> requests[i].ip == ip
    ensures Detach(requests, ip) == if i < |requests| then requests[..i] + requests[i + 1..] else requests
  {
    if i > 0 {
      LocatedDetach(requests[1..], ip, i - 1);
      assert requests == [requests[0]] + requests[1..];
    }
  }

  lemma {:induction false} LocatedAppend(requests: seq<Request>, ip: nat, i: nat, packets: seq<Packet>)
    requires i < |requests| && (forall k :: 0 <= k < i ==> requests[k].ip != ip) && requests[i].ip == ip
    ensures AppendTo(requests, ip, packets) == requests[i := requests[i].(packets := requests[i].packets + packets)]
  {
    if i > 0 {
      LocatedAppend(requests[1..], ip, i - 1, packets);
      assert requests == [requests[0]] + requests[1..];
    }
  }

  lemma AddNothing(requests: seq<Request>, i: nat)
    requires i < |requests|
    ensures requests[i := requests[i].(packets := requests[i].packets + [])] == requests
  {
    assert requests[i].packets + [] == requests[i].packets;
  }

  function AddPacket(r: Request, p: Packet): Request {
    r.(packets := r.packets + [p])
  }
}
