// One router's half of RIP, from lab4/router/sr_rt.c: the routing table, the update rule for a
// received response, the periodic pass over entries and interfaces, and the split-horizon
// response.  Each rule is a function on the table.
module RipTable {
  import Options
  import opened Words

  const INFINITY := 16
  const MAX_NUM_ENTRIES := 25
  const EXPIRY := 20

  datatype RtEntry = RtEntry(dest: Word, gw: Word, mask: Word, iface: string, metric: Word32, updated: int)
  datatype Iface = Iface(name: string, ip: Word, mask: Word)

  // One advertised route, and its slot on the wire: unused slots are all zero.
  datatype Route = Route(address: Word, mask: Word, nextHop: Word, metric: Word32)
  datatype Slot = Slot(afi: Word32, route: Route)

  function Net(address: Word, mask: Word): Word {
    BitAnd(address, mask)
  }

  function NetOf(e: RtEntry): Word {
    Net(e.dest, e.mask)
  }

  function RouteNet(x: Route): Word {
    Net(x.address, x.mask)
  }

  function Subnet(f: Iface): Word {
    Net(f.ip, f.mask)
  }

  ghost predicate NetsDistinct(table: seq<RtEntry>) {
    forall i, j :: 0 <= i < j < |table| ==> NetOf(table[i]) != NetOf(table[j])
  }

  // The first entry for a network; |table| when there is none.
  function IndexOf(table: seq<RtEntry>, net: Word): (i: nat)
    ensures i <= |table|
    ensures forall k :: 0 <= k < i ==> NetOf(table[k]) != net
    ensures i < |table| ==> NetOf(table[i]) == net
  {
    if table == [] then 0
    else if NetOf(table[0]) == net then 0
    else 1 + IndexOf(table[1..], net)
  }

  function Find(table: seq<RtEntry>, net: Word): Options.Option<RtEntry> {
    if IndexOf(table, net) < |table| then Options.Some(table[IndexOf(table, net)]) else Options.None
  }

  lemma FindUnique(table: seq<RtEntry>, e: RtEntry)
    requires NetsDistinct(table) && e in table
    ensures Find(table, NetOf(e)) == Options.Some(e)
  {
    var i :| 0 <= i < |table| && table[i] == e;
    assert IndexOf(table, NetOf(e)) == i;
  }

  // ---- A received route -----------------------------------------------------------------

  // min(metric + 1, 16), with the sum taken in 32 bits: the largest metric wraps to 0.
  function Heard(metric: Word32): (m: Word32)
    ensures m == if metric == 0xffff_ffff then 0 else if metric < 15 then metric + 1 else 16
  {
    var m := (metric + 1) % WORD;
    if m < INFINITY then m else INFINITY
  }

  // The entry a route leaves behind, heard on `iface` from `src`, when one was there already.
  function Revised(was: RtEntry, x: Route, src: Word, iface: string, now: int): RtEntry {
    var m := Heard(x.metric);
    if was.iface == iface then
      was.(updated := now, metric := if m == INFINITY then INFINITY else was.metric)
    else if m < was.metric then RtEntry(x.address, src, x.mask, iface, m, now)
    else was
  }

  function Learned(x: Route, src: Word, iface: string, now: int): RtEntry {
    RtEntry(x.address, src, x.mask, iface, Heard(x.metric), now)
  }

  function UpdateOne(table: seq<RtEntry>, x: Route, src: Word, iface: string, now: int): seq<RtEntry> {
    var i := IndexOf(table, RouteNet(x));
    if i < |table| then table[i := Revised(table[i], x, src, iface, now)]
    else table + [Learned(x, src, iface, now)]
  }

  // Whether a route triggers an immediate response.
  predicate Changes(table: seq<RtEntry>, x: Route, iface: string) {
    var i := IndexOf(table, RouteNet(x));
    i == |table| ||
    if table[i].iface == iface then Heard(x.metric) == INFINITY && table[i].metric != INFINITY
    else Heard(x.metric) < table[i].metric
  }

  function UpdateAll(table: seq<RtEntry>, xs: seq<Route>, src: Word, iface: string, now: int): seq<RtEntry> {
    if xs == [] then table
    else UpdateOne(UpdateAll(table, xs[..|xs| - 1], src, iface, now), xs[|xs| - 1], src, iface, now)
  }

  predicate ChangesAny(table: seq<RtEntry>, xs: seq<Route>, src: Word, iface: string, now: int) {
    xs != [] &&
    (|| ChangesAny(table, xs[..|xs| - 1], src, iface, now)
     || Changes(UpdateAll(table, xs[..|xs| - 1], src, iface, now), xs[|xs| - 1], iface))
  }

  // A route touches the entry of its own network only, and that one as Revised or Learned say.
  lemma UpdateOneFind(table: seq<RtEntry>, x: Route, src: Word, iface: string, now: int, net: Word)
    ensures Find(UpdateOne(table, x, src, iface, now), net) ==
              if net != RouteNet(x) then Find(table, net)
              else match Find(table, net)
                   case None => Options.Some(Learned(x, src, iface, now))
                   case Some(e) => Options.Some(Revised(e, x, src, iface, now))
  {
    var t' := UpdateOne(table, x, src, iface, now);
    var i := IndexOf(table, RouteNet(x));
    var k := IndexOf(table, net);
    assert forall j :: 0 <= j < |table| ==> NetOf(t'[j]) == NetOf(table[j]);
    if k < |table| {
      assert IndexOf(t', net) == k;
    } else if net == RouteNet(x) {
      assert t'[|table|] == Learned(x, src, iface, now) && NetOf(t'[|table|]) == net;
      assert forall j :: 0 <= j < |table| ==> NetOf(t'[j]) == NetOf(table[j]);
    } else {
      assert IndexOf(t', net) == |t'|;
    }
  }

  lemma UpdateOneDistinct(table: seq<RtEntry>, x: Route, src: Word, iface: string, now: int)
    requires NetsDistinct(table)
    ensures NetsDistinct(UpdateOne(table, x, src, iface, now))
  {
    var t' := UpdateOne(table, x, src, iface, now);
    var i := IndexOf(table, RouteNet(x));
    assert forall j :: 0 <= j < |table| ==> NetOf(t'[j]) == NetOf(table[j]);
    if i == |table| {
      assert NetOf(t'[|table|]) == RouteNet(x);
    }
  }

  // No response, whatever it holds, makes two entries describe the same network.
  lemma {:induction false} UpdateAllDistinct(table: seq<RtEntry>, xs: seq<Route>, src: Word, iface: string, now: int)
    requires NetsDistinct(table)
    ensures NetsDistinct(UpdateAll(table, xs, src, iface, now))
  {
    if xs != [] {
      UpdateAllDistinct(table, xs[..|xs| - 1], src, iface, now);
      UpdateOneDistinct(UpdateAll(table, xs[..|xs| - 1], src, iface, now), xs[|xs| - 1], src, iface, now);
    }
  }

  // Nothing finite heard through the interface an entry already uses changes its metric, better
  // or worse, so an entry that died stays dead for as long as that interface is all it hears.
  lemma {:induction false} DeadStaysDead(
    table: seq<RtEntry>, xs: seq<Route>, src: Word, iface: string, now: int, net: Word)
    requires Find(table, net).Some? && Find(table, net).value.metric == INFINITY
    requires Find(table, net).value.iface == iface
    ensures var o := Find(UpdateAll(table, xs, src, iface, now), net);
            o.Some? && o.value.metric == INFINITY && o.value.iface == iface
  {
    if xs != [] {
      DeadStaysDead(table, xs[..|xs| - 1], src, iface, now, net);
      UpdateOneFind(UpdateAll(table, xs[..|xs| - 1], src, iface, now), xs[|xs| - 1], src, iface, now, net);
    }
  }

  // A route that could make an entry for net live.
  predicate Offers(x: Route, net: Word) {
    RouteNet(x) == net && Heard(x.metric) < INFINITY
  }

  function FirstOffer(xs: seq<Route>, net: Word): (i: Options.Option<nat>)
    ensures match i
            case None => forall j :: 0 <= j < |xs| ==> !Offers(xs[j], net)
            case Some(k) => k < |xs| && Offers(xs[k], net) && forall j :: 0 <= j < k ==> !Offers(xs[j], net)
  {
    if xs == [] then Options.None
    else
      var before := FirstOffer(xs[..|xs| - 1], net);
      if before.Some? then before
      else if Offers(xs[|xs| - 1], net) then Options.Some(|xs| - 1)
      else Options.None
  }

  // Nothing after place i says that net is gone.
  ghost predicate NotWithdrawn(xs: seq<Route>, net: Word, i: nat) {
    forall j :: i < j < |xs| && RouteNet(xs[j]) == net ==> Heard(xs[j].metric) < INFINITY
  }

  // A response absorbed by a table whose entry e for net is dead and uses another interface: the
  // first offer is taken, and a later withdrawal in the same response kills it again.
  lemma {:induction false} DeadElsewhere(
    table: seq<RtEntry>, xs: seq<Route>, src: Word, iface: string, now: int, net: Word)
    requires Find(table, net).Some? && Find(table, net).value.metric == INFINITY
    requires Find(table, net).value.iface != iface
    ensures var o, first := Find(UpdateAll(table, xs, src, iface, now), net), FirstOffer(xs, net);
            && o.Some?
            && (first.None? ==> o == Find(table, net))
            && (first.Some? ==>
                  && o.value.iface == iface && o.value.metric <= INFINITY
                  && (o.value.metric < INFINITY <==> NotWithdrawn(xs, net, first.value)))
  {
    if xs != [] {
      var init, last := xs[..|xs| - 1], xs[|xs| - 1];
      DeadElsewhere(table, init, src, iface, now, net);
      UpdateOneFind(UpdateAll(table, init, src, iface, now), last, src, iface, now, net);
      var first := FirstOffer(init, net);
      if first.Some? {
        WithdrawnLast(xs, net, first.value);
      } else if Offers(last, net) {
        assert NotWithdrawn(xs, net, |xs| - 1);
      }
    }
  }

  lemma WithdrawnLast(xs: seq<Route>, net: Word, i: nat)
    requires i < |xs| - 1
    ensures NotWithdrawn(xs, net, i) <==>
            && NotWithdrawn(xs[..|xs| - 1], net, i)
            && (RouteNet(xs[|xs| - 1]) == net ==> Heard(xs[|xs| - 1].metric) < INFINITY)
  {
    var init := xs[..|xs| - 1];
    assert forall j :: 0 <= j < |init| ==> xs[j] == init[j];
  }

  // Exactly when a dead entry becomes live again: the response comes through another interface,
  // offers the network, and does not withdraw it after its first offer.
  lemma RevivesExactly(table: seq<RtEntry>, xs: seq<Route>, src: Word, iface: string, now: int, net: Word)
    requires Find(table, net).Some? && Find(table, net).value.metric == INFINITY
    ensures var o, first := Find(UpdateAll(table, xs, src, iface, now), net), FirstOffer(xs, net);
            && o.Some?
            && (o.value.metric < INFINITY <==>
                  Find(table, net).value.iface != iface && first.Some? && NotWithdrawn(xs, net, first.value))
  {
    if Find(table, net).value.iface == iface {
      DeadStaysDead(table, xs, src, iface, now, net);
    } else {
      DeadElsewhere(table, xs, src, iface, now, net);
    }
  }

  // For the responses routers send, which name a network once.
  lemma RevivesOnce(table: seq<RtEntry>, xs: seq<Route>, src: Word, iface: string, now: int, net: Word)
    requires Find(table, net).Some? && Find(table, net).value.metric == INFINITY && RoutesDistinct(xs)
    ensures var o := Find(UpdateAll(table, xs, src, iface, now), net);
            o.Some? && (o.value.metric < INFINITY <==>
                          Find(table, net).value.iface != iface && exists x :: x in xs && Offers(x, net))
  {
    RevivesExactly(table, xs, src, iface, now, net);
    var first := FirstOffer(xs, net);
    if first.Some? {
      assert xs[first.value] in xs && Offers(xs[first.value], net);
    }
  }

  // ---- The response sent out of an interface --------------------------------------------

  function Advert(e: RtEntry): Route {
    Route(e.dest, e.mask, e.gw, e.metric)
  }

  // Split horizon: everything but the routes that leave through the interface itself.
  function Response(table: seq<RtEntry>, iface: string): (xs: seq<Route>)
    ensures |xs| <= |table|
  {
    if table == [] then []
    else if table[|table| - 1].iface != iface then
      Response(table[..|table| - 1], iface) + [Advert(table[|table| - 1])]
    else Response(table[..|table| - 1], iface)
  }

  lemma {:induction false} ResponseMember(table: seq<RtEntry>, iface: string, x: Route)
    ensures x in Response(table, iface) <==> exists e :: e in table && e.iface != iface && Advert(e) == x
  {
    if table != [] {
      var init, last := table[..|table| - 1], table[|table| - 1];
      assert table == init + [last];
      ResponseMember(init, iface, x);
    }
  }

  // The response lists the entries in the table's order, each by itself.
  lemma {:induction false} ResponseInOrder(a: seq<RtEntry>, b: seq<RtEntry>, iface: string)
    ensures Response(a + b, iface) == Response(a, iface) + Response(b, iface)
    ensures |b| == 1 ==>
              Response(b, iface) == if b[0].iface == iface then [] else
                                      [Route(b[0].dest, b[0].mask, b[0].gw, b[0].metric)]
  {
    if b == [] {
      assert a + b == a;
    } else {
      assert (a + b)[..|a + b| - 1] == a + b[..|b| - 1];
      ResponseInOrder(a, b[..|b| - 1], iface);
    }
  }

  ghost predicate RoutesDistinct(xs: seq<Route>) {
    forall i, j :: 0 <= i < j < |xs| ==> RouteNet(xs[i]) != RouteNet(xs[j])
  }

  lemma {:induction false} ResponseDistinct(table: seq<RtEntry>, iface: string)
    requires NetsDistinct(table)
    ensures RoutesDistinct(Response(table, iface))
  {
    if table != [] {
      var init, last := table[..|table| - 1], table[|table| - 1];
      ResponseDistinct(init, iface);
      forall x | x in Response(init, iface)
        ensures RouteNet(x) != NetOf(last)
      {
        ResponseMember(init, iface, x);
      }
    }
  }

  function Absorbed(o: Options.Option<RtEntry>, x: Route, src: Word, iface: string, now: int): RtEntry {
    match o
    case None => Learned(x, src, iface, now)
    case Some(e) => Revised(e, x, src, iface, now)
  }

  // A response with distinct networks updates each entry once, from its value before.
  lemma {:induction false} UpdateAllFind(
    table: seq<RtEntry>, xs: seq<Route>, src: Word, iface: string, now: int, net: Word)
    requires RoutesDistinct(xs)
    ensures forall x :: x in xs && RouteNet(x) == net ==>
              Find(UpdateAll(table, xs, src, iface, now), net) ==
              Options.Some(Absorbed(Find(table, net), x, src, iface, now))
    ensures (forall x :: x in xs ==> RouteNet(x) != net) ==>
              Find(UpdateAll(table, xs, src, iface, now), net) == Find(table, net)
  {
    if xs != [] {
      var init, last := xs[..|xs| - 1], xs[|xs| - 1];
      UpdateAllFind(table, init, src, iface, now, net);
      UpdateOneFind(UpdateAll(table, init, src, iface, now), last, src, iface, now, net);
      assert last in xs && forall x :: x in xs <==> x in init || x == last;
    }
  }

  // Only the time of the entry may differ.
  ghost predicate SameRoute(o: Options.Option<RtEntry>, o': Options.Option<RtEntry>) {
    match (o, o')
    case (None, None) => true
    case (Some(e), Some(e')) => e'.metric == e.metric && e'.gw == e.gw && e'.iface == e.iface
    case _ => false
  }

  // One route triggers a response exactly when it changes where some network goes, or how far.
  lemma ChangesExactly(table: seq<RtEntry>, x: Route, src: Word, iface: string, now: int)
    ensures Changes(table, x, iface) <==>
            !SameRoute(Find(table, RouteNet(x)), Find(UpdateOne(table, x, src, iface, now), RouteNet(x)))
  {
    UpdateOneFind(table, x, src, iface, now, RouteNet(x));
  }

  lemma {:induction false} QuietKeeps(
    table: seq<RtEntry>, xs: seq<Route>, src: Word, iface: string, now: int, net: Word)
    requires !ChangesAny(table, xs, src, iface, now)
    ensures SameRoute(Find(table, net), Find(UpdateAll(table, xs, src, iface, now), net))
  {
    if xs != [] {
      var t := UpdateAll(table, xs[..|xs| - 1], src, iface, now);
      QuietKeeps(table, xs[..|xs| - 1], src, iface, now, net);
      ChangesExactly(t, xs[|xs| - 1], src, iface, now);
      UpdateOneFind(t, xs[|xs| - 1], src, iface, now, net);
    }
  }

  // The changes a response can make: a first entry, a turn to its own interface, or a death.
  ghost predicate Changed(o: Options.Option<RtEntry>, o': Options.Option<RtEntry>, iface: string) {
    && o'.Some?
    && (o.None?
        || (o.value.iface != iface && o'.value.iface == iface)
        || (o.value.iface == iface && o'.value.iface == iface
            && o.value.metric != INFINITY && o'.value.metric == INFINITY))
  }

  // None of them is undone by the rest of the response.
  lemma {:induction false} ChangeLasts(table: seq<RtEntry>, xs: seq<Route>, src: Word, iface: string, now: int)
    returns (net: Word)
    requires ChangesAny(table, xs, src, iface, now)
    ensures Changed(Find(table, net), Find(UpdateAll(table, xs, src, iface, now), net), iface)
  {
    var init, last := xs[..|xs| - 1], xs[|xs| - 1];
    var t := UpdateAll(table, init, src, iface, now);
    if ChangesAny(table, init, src, iface, now) {
      net := ChangeLasts(table, init, src, iface, now);
    } else {
      net := RouteNet(last);
      QuietKeeps(table, init, src, iface, now, net);
      ChangesExactly(t, last, src, iface, now);
    }
    UpdateOneFind(t, last, src, iface, now, net);
  }

  // Any response triggers one of our own exactly when it leaves some network with another metric,
  // gateway or interface, or with its first entry.
  lemma TriggersExactly(table: seq<RtEntry>, xs: seq<Route>, src: Word, iface: string, now: int)
    ensures ChangesAny(table, xs, src, iface, now) <==>
            exists net :: !SameRoute(Find(table, net), Find(UpdateAll(table, xs, src, iface, now), net))
  {
    if ChangesAny(table, xs, src, iface, now) {
      var net := ChangeLasts(table, xs, src, iface, now);
      assert !SameRoute(Find(table, net), Find(UpdateAll(table, xs, src, iface, now), net));
    } else {
      forall net
        ensures SameRoute(Find(table, net), Find(UpdateAll(table, xs, src, iface, now), net))
      {
        QuietKeeps(table, xs, src, iface, now, net);
      }
    }
  }

  // The entry a route leaves, field by field: a new or better one is the route's own, through the
  // interface and address it was heard from; one that used the interface already is only
  // refreshed, or killed; any other stays as it was.
  lemma RouteTaken(table: seq<RtEntry>, xs: seq<Route>, x: Route, src: Word, iface: string, now: int)
    requires RoutesDistinct(xs) && x in xs
    ensures var was, o := Find(table, RouteNet(x)), Find(UpdateAll(table, xs, src, iface, now), RouteNet(x));
            && o.Some?
            && (if was.None? || (was.value.iface != iface && Heard(x.metric) < was.value.metric) then
                  o.value == RtEntry(x.address, src, x.mask, iface, Heard(x.metric), now)
                else if was.value.iface == iface then
                  o.value == was.value.(updated := now,
                                        metric := if Heard(x.metric) == INFINITY then 16 else was.value.metric)
                else o == was)
  {
    UpdateAllFind(table, xs, src, iface, now, RouteNet(x));
  }

  // An entry a response leaves on its own interface carries the time it was heard; an entry it
  // leaves on another is untouched.
  lemma {:induction false} HeardStamps(
    table: seq<RtEntry>, xs: seq<Route>, src: Word, iface: string, now: int, net: Word)
    ensures var o := Find(UpdateAll(table, xs, src, iface, now), net);
            if (exists x :: x in xs && RouteNet(x) == net) && o.Some? && o.value.iface == iface
            then o.value.updated == now else o == Find(table, net)
  {
    if xs != [] {
      var init, last := xs[..|xs| - 1], xs[|xs| - 1];
      assert forall x :: x in xs <==> x in init || x == last;
      HeardStamps(table, init, src, iface, now, net);
      UpdateOneFind(UpdateAll(table, init, src, iface, now), last, src, iface, now, net);
    }
  }

  // Exactly when an entry ends up no worse than what a response offers: when it was no worse, or
  // uses another interface.  A better metric from the interface in use is ignored.
  lemma NoWorseExactly(table: seq<RtEntry>, xs: seq<Route>, x: Route, src: Word, iface: string, now: int)
    requires RoutesDistinct(xs) && x in xs
    requires Find(table, RouteNet(x)).Some? && Find(table, RouteNet(x)).value.metric <= INFINITY
    ensures var e, o := Find(table, RouteNet(x)).value, Find(UpdateAll(table, xs, src, iface, now), RouteNet(x));
            o.Some? && (o.value.metric <= Heard(x.metric) <==> e.metric <= Heard(x.metric) || e.iface != iface)
  {
    UpdateAllFind(table, xs, src, iface, now, RouteNet(x));
  }

  // So an entry keeps its metric when its own interface later offers a better one: at 6, say, it
  // keeps 6 when offered 2.
  lemma StaleMetricKept(e: RtEntry, x: Route, src: Word, now: int)
    requires RouteNet(x) == NetOf(e) && e.metric == 6 && x.metric == 1
    ensures UpdateAll([e], [x], src, e.iface, now) == [e.(updated := now)] && Heard(x.metric) < e.metric
  {
    var none: seq<Route> := [x][..0];
    assert UpdateAll([e], none, src, e.iface, now) == [e];
    assert IndexOf([e], RouteNet(x)) == 0;
  }

  const BLANK := Slot(0, Route(0, 0, 0, 0))

  // The entries array of a response packet: zeroed, then filled from the front.
  function Encode(xs: seq<Route>): seq<Slot>
    requires |xs| <= MAX_NUM_ENTRIES
  {
    seq(MAX_NUM_ENTRIES, i requires 0 <= i < MAX_NUM_ENTRIES => if i < |xs| then Slot(2, xs[i]) else BLANK)
  }

  // What the receiver's scan keeps: the slots with a nonzero address family.
  function Decode(slots: seq<Slot>): seq<Route> {
    if slots == [] then []
    else Decode(slots[..|slots| - 1]) + (if slots[|slots| - 1].afi != 0 then [slots[|slots| - 1].route] else [])
  }

  lemma {:induction false} DecodeFilled(xs: seq<Route>, n: nat)
    requires |xs| <= MAX_NUM_ENTRIES && n <= MAX_NUM_ENTRIES
    ensures Decode(Encode(xs)[..n]) == xs[..if n < |xs| then n else |xs|]
  {
    if n > 0 {
      DecodeFilled(xs, n - 1);
      assert Encode(xs)[..n][..n - 1] == Encode(xs)[..n - 1];
    }
  }

  // The receiver sees exactly the sender's list, in order.
  lemma WireRoundTrip(xs: seq<Route>)
    requires |xs| <= MAX_NUM_ENTRIES
    ensures Decode(Encode(xs)) == xs
  {
    DecodeFilled(xs, MAX_NUM_ENTRIES);
    assert Encode(xs)[..MAX_NUM_ENTRIES] == Encode(xs);
    assert xs[..|xs|] == xs;
  }

  // ---- The periodic pass ----------------------------------------------------------------

  function Expired(e: RtEntry, now: int): RtEntry {
    if now - e.updated > EXPIRY then e.(metric := INFINITY) else e
  }

  predicate Matches(e: RtEntry, f: Iface) {
    NetOf(e) == Subnet(f) && e.mask == f.mask
  }

  function Direct(e: RtEntry, f: Iface, now: int): RtEntry {
    e.(updated := now, metric := 0, gw := 0, iface := f.name)
  }

  // What one interface does to one entry.
  function Touch(e: RtEntry, f: Iface, up: set<string>, now: int): RtEntry {
    if f.name !in up then if e.iface == f.name then e.(metric := INFINITY) else e
    else if Matches(e, f) then Direct(e, f, now)
    else e
  }

  function FreshEntry(f: Iface, now: int): RtEntry {
    RtEntry(f.ip, 0, f.mask, f.name, 0, now)
  }

  function MapEntries(table: seq<RtEntry>, step: RtEntry -> RtEntry): (r: seq<RtEntry>)
    ensures |r| == |table| && forall i :: 0 <= i < |table| ==> r[i] == step(table[i])
  {
    seq(|table|, i requires 0 <= i < |table| => step(table[i]))
  }

  function TickIface(table: seq<RtEntry>, f: Iface, up: set<string>, now: int): seq<RtEntry> {
    var touched := MapEntries(table, e => Touch(e, f, up, now));
    if f.name in up && forall i :: 0 <= i < |table| ==> !Matches(table[i], f)
    then touched + [FreshEntry(f, now)]
    else touched
  }

  function TickIfaces(table: seq<RtEntry>, ifs: seq<Iface>, up: set<string>, now: int): seq<RtEntry> {
    if ifs == [] then table
    else TickIface(TickIfaces(table, ifs[..|ifs| - 1], up, now), ifs[|ifs| - 1], up, now)
  }

  function Tick(table: seq<RtEntry>, ifs: seq<Iface>, up: set<string>, now: int): seq<RtEntry> {
    TickIfaces(MapEntries(table, e => Expired(e, now)), ifs, up, now)
  }

  function Build(ifs: seq<Iface>, now: int): (t: seq<RtEntry>)
    ensures |t| == |ifs|
  {
    seq(|ifs|, i requires 0 <= i < |ifs| =>
      RtEntry(Subnet(ifs[i]), 0, ifs[i].mask, ifs[i].name, 0, now))
  }

  ghost predicate SubnetsDistinct(ifs: seq<Iface>) {
    forall i, j :: 0 <= i < j < |ifs| ==> Subnet(ifs[i]) != Subnet(ifs[j])
  }

  lemma MaskingTwice(a: Word, m: Word)
    ensures Net(Net(a, m), m) == Net(a, m)
  {
    BitAndTwice(a, m);
  }

  lemma BuildDistinct(ifs: seq<Iface>, now: int)
    requires SubnetsDistinct(ifs)
    ensures NetsDistinct(Build(ifs, now))
    ensures forall i :: 0 <= i < |ifs| ==>
              NetOf(Build(ifs, now)[i]) == Subnet(ifs[i]) && IsDirect(Build(ifs, now)[i], ifs[i], now)
  {
    forall i | 0 <= i < |ifs|
      ensures NetOf(Build(ifs, now)[i]) == Subnet(ifs[i])
    {
      MaskingTwice(ifs[i].ip, ifs[i].mask);
    }
  }

  // ---- What one pass leaves behind ------------------------------------------------------

  predicate DownFor(e: RtEntry, ifs: seq<Iface>, up: set<string>) {
    exists f :: f in ifs && f.name !in up && f.name == e.iface
  }

  ghost predicate Unclaimed(e: RtEntry, ifs: seq<Iface>, up: set<string>) {
    forall f :: f in ifs && f.name in up ==> !Matches(e, f)
  }

  lemma LastSubnetNew(ifs: seq<Iface>, f: Iface)
    requires SubnetsDistinct(ifs) && ifs != [] && f in ifs[..|ifs| - 1]
    ensures Subnet(f) != Subnet(ifs[|ifs| - 1])
  {
  }

  lemma {:induction false} TickIfacesAt(t: seq<RtEntry>, ifs: seq<Iface>, up: set<string>, now: int, i: nat)
    requires SubnetsDistinct(ifs) && i < |t|
    ensures i < |TickIfaces(t, ifs, up, now)|
    ensures forall f :: f in ifs && f.name in up && Matches(t[i], f) ==>
              TickIfaces(t, ifs, up, now)[i] == Direct(t[i], f, now)
    ensures Unclaimed(t[i], ifs, up) ==>
              TickIfaces(t, ifs, up, now)[i] == if DownFor(t[i], ifs, up) then t[i].(metric := INFINITY) else t[i]
  {
    if ifs != [] {
      var init, last := ifs[..|ifs| - 1], ifs[|ifs| - 1];
      assert forall f :: f in ifs <==> f in init || f == last;
      TickIfacesAt(t, init, up, now, i);
      var before := TickIfaces(t, init, up, now)[i];
      assert TickIfaces(t, ifs, up, now)[i] == Touch(before, last, up, now);
      if f :| f in init && f.name in up && Matches(t[i], f) {
        assert before == Direct(t[i], f, now);
        LastSubnetNew(ifs, f);
      }
    }
  }

  ghost predicate HasDirect(r: seq<RtEntry>, f: Iface, now: int) {
    exists k :: 0 <= k < |r| && IsDirect(r[k], f, now)
  }

  ghost predicate DirectForSome(e: RtEntry, ifs: seq<Iface>, up: set<string>, now: int) {
    exists f :: f in ifs && f.name in up && IsDirect(e, f, now)
  }

  // Every interface that is up ends with its own live direct entry, and entries are only ever
  // appended for such interfaces.
  lemma {:induction false} TickIfacesDirect(t: seq<RtEntry>, ifs: seq<Iface>, up: set<string>, now: int)
    requires SubnetsDistinct(ifs)
    ensures var r := TickIfaces(t, ifs, up, now);
            && |t| <= |r|
            && (forall f :: f in ifs && f.name in up ==> HasDirect(r, f, now))
            && (forall k :: |t| <= k < |r| ==> DirectForSome(r[k], ifs, up, now))
  {
    if ifs != [] {
      var init, last := ifs[..|ifs| - 1], ifs[|ifs| - 1];
      TickIfacesDirect(t, init, up, now);
      OneMoreDirect(TickIfaces(t, init, up, now), |t|, ifs, up, now);
    }
  }

  // The step for the last interface.
  lemma OneMoreDirect(r0: seq<RtEntry>, n: nat, ifs: seq<Iface>, up: set<string>, now: int)
    requires SubnetsDistinct(ifs) && ifs != [] && n <= |r0|
    requires forall f :: f in ifs[..|ifs| - 1] && f.name in up ==> HasDirect(r0, f, now)
    requires forall k :: n <= k < |r0| ==> DirectForSome(r0[k], ifs[..|ifs| - 1], up, now)
    ensures var r := TickIface(r0, ifs[|ifs| - 1], up, now);
            && |r0| <= |r|
            && (forall f :: f in ifs && f.name in up ==> HasDirect(r, f, now))
            && (forall k :: n <= k < |r| ==> DirectForSome(r[k], ifs, up, now))
  {
    var init, last := ifs[..|ifs| - 1], ifs[|ifs| - 1];
    var r := TickIface(r0, last, up, now);
    assert forall f :: f in ifs <==> f in init || f == last;
    forall k, f | 0 <= k < |r0| && f in init && f.name in up && IsDirect(r0[k], f, now)
      ensures r[k] == r0[k]
    {
      LastSubnetNew(ifs, f);
    }
    forall f | f in ifs && f.name in up
      ensures HasDirect(r, f, now)
    {
      if f in init {
        assert HasDirect(r0, f, now);
        var k :| 0 <= k < |r0| && IsDirect(r0[k], f, now);
        assert IsDirect(r[k], f, now);
      } else if k :| 0 <= k < |r0| && Matches(r0[k], last) {
        assert IsDirect(r[k], f, now);
      } else {
        assert IsDirect(r[|r0|], f, now);
      }
    }
    forall k | n <= k < |r|
      ensures DirectForSome(r[k], ifs, up, now)
    {
      if k < |r0| {
        assert DirectForSome(r0[k], init, up, now);
        var f :| f in init && f.name in up && IsDirect(r0[k], f, now);
        assert r[k] == r0[k];
      } else {
        assert IsDirect(r[k], last, now);
      }
    }
  }

  // A live entry for f's own subnet, through f itself.
  predicate IsDirect(e: RtEntry, f: Iface, now: int) {
    Matches(e, f) && e.metric == 0 && e.gw == 0 && e.iface == f.name && e.updated == now
  }

  // The three promises of one pass, whatever the order of the interface list: entries through a
  // down interface are dead, every up interface's subnet is directly attached, and whatever is
  // over 20 seconds old is dead.
  lemma TickPost(table: seq<RtEntry>, ifs: seq<Iface>, up: set<string>, now: int)
    requires SubnetsDistinct(ifs)
    ensures var r := Tick(table, ifs, up, now);
            && (forall e :: e in r && DownFor(e, ifs, up) ==> e.metric == INFINITY)
            && (forall f :: f in ifs && f.name in up ==> exists e :: e in r && IsDirect(e, f, now))
            && (forall e :: e in r && now - e.updated > EXPIRY ==> e.metric == INFINITY)
  {
    var t, r := MapEntries(table, e => Expired(e, now)), Tick(table, ifs, up, now);
    TickIfacesDirect(t, ifs, up, now);
    forall k | 0 <= k < |r|
      ensures DownFor(r[k], ifs, up) ==> r[k].metric == INFINITY
      ensures now - r[k].updated > EXPIRY ==> r[k].metric == INFINITY
    {
      if k < |t| {
        TickIfacesAt(t, ifs, up, now, k);
      }
    }
  }

  // One pass never changes which network an entry is for, and leaves each entry as it was unless
  // an interface claims it, an interface it uses is down, or it is too old.
  lemma TickKeeps(table: seq<RtEntry>, ifs: seq<Iface>, up: set<string>, now: int, i: nat)
    requires SubnetsDistinct(ifs) && i < |table|
    ensures i < |Tick(table, ifs, up, now)|
    ensures var e, e' := table[i], Tick(table, ifs, up, now)[i];
            && (forall f :: f in ifs && f.name in up && Matches(e, f) ==> e' == Direct(e, f, now))
            && (Unclaimed(e, ifs, up) ==>
                e' == if DownFor(e, ifs, up) || now - e.updated > EXPIRY then e.(metric := INFINITY) else e)
  {
    var t := MapEntries(table, e => Expired(e, now));
    TickIfacesAt(t, ifs, up, now, i);
    assert forall f :: Matches(t[i], f) <==> Matches(table[i], f);
  }

  lemma {:induction false} TickIfacesNet(t: seq<RtEntry>, ifs: seq<Iface>, up: set<string>, now: int, i: nat)
    requires i < |t|
    ensures i < |TickIfaces(t, ifs, up, now)| && NetOf(TickIfaces(t, ifs, up, now)[i]) == NetOf(t[i])
  {
    if ifs != [] {
      var init, last := ifs[..|ifs| - 1], ifs[|ifs| - 1];
      TickIfacesNet(t, init, up, now, i);
      assert TickIfaces(t, ifs, up, now)[i] == Touch(TickIfaces(t, init, up, now)[i], last, up, now);
    }
  }

  // A pass seen at one network the table has an entry for.
  lemma TickFind(table: seq<RtEntry>, ifs: seq<Iface>, up: set<string>, now: int, net: Word)
    requires SubnetsDistinct(ifs) && Find(table, net).Some?
    ensures var e, o := Find(table, net).value, Find(Tick(table, ifs, up, now), net);
            && o.Some?
            && (forall f :: f in ifs && f.name in up && Matches(e, f) ==> o.value == Direct(e, f, now))
            && (Unclaimed(e, ifs, up) ==>
                o.value == if DownFor(e, ifs, up) || now - e.updated > EXPIRY then e.(metric := INFINITY) else e)
  {
    var i, t, r := IndexOf(table, net), MapEntries(table, e => Expired(e, now)), Tick(table, ifs, up, now);
    TickKeeps(table, ifs, up, now, i);
    forall k: nat | k <= i
      ensures k < |r| && NetOf(r[k]) == NetOf(table[k])
    {
      TickIfacesNet(t, ifs, up, now, k);
    }
    assert IndexOf(r, net) == i;
  }

  // So an entry heard at `now` outlives every pass of the next 20 seconds that neither claims it
  // for an interface nor finds its own interface down, and none after.
  lemma HeardOutlives(
    table: seq<RtEntry>, xs: seq<Route>, x: Route, src: Word, iface: string, now: int,
    ifs: seq<Iface>, up: set<string>, later: int)
    requires SubnetsDistinct(ifs) && x in xs
    requires var o := Find(UpdateAll(table, xs, src, iface, now), RouteNet(x));
             o.Some? && o.value.iface == iface && o.value.metric != INFINITY
             && Unclaimed(o.value, ifs, up) && !DownFor(o.value, ifs, up)
    ensures var heard := UpdateAll(table, xs, src, iface, now);
            var o := Find(Tick(heard, ifs, up, later), RouteNet(x));
            && o.Some? && (o.value.metric != INFINITY <==> later <= now + 20)
            && (later <= now + 20 ==> o == Find(heard, RouteNet(x)))
  {
    HeardStamps(table, xs, src, iface, now, RouteNet(x));
    TickFind(UpdateAll(table, xs, src, iface, now), ifs, up, later, RouteNet(x));
  }

  // Networks stay distinct when a network value always comes with the mask of the interface
  // that owns it.
  ghost predicate MasksAgree(table: seq<RtEntry>, ifs: seq<Iface>) {
    forall e, f :: e in table && f in ifs && NetOf(e) == Subnet(f) ==> e.mask == f.mask
  }

  // e is for the network of an entry of t or of an interface's subnet, mask included.
  ghost predicate Inherited(e: RtEntry, t: seq<RtEntry>, ifs: seq<Iface>) {
    || (exists e0 :: e0 in t && e0.dest == e.dest && e0.mask == e.mask)
    || (exists f :: f in ifs && Matches(e, f))
  }

  lemma {:induction false} TickIfacesDistinct(t: seq<RtEntry>, ifs: seq<Iface>, up: set<string>, now: int)
    requires NetsDistinct(t) && SubnetsDistinct(ifs) && MasksAgree(t, ifs)
    ensures NetsDistinct(TickIfaces(t, ifs, up, now))
    ensures forall e :: e in TickIfaces(t, ifs, up, now) ==> Inherited(e, t, ifs)
  {
    if ifs != [] {
      var init, last := ifs[..|ifs| - 1], ifs[|ifs| - 1];
      var r0, r := TickIfaces(t, init, up, now), TickIfaces(t, ifs, up, now);
      TickIfacesDistinct(t, init, up, now);
      assert forall k :: 0 <= k < |r0| ==>
               r[k].dest == r0[k].dest && r[k].mask == r0[k].mask && NetOf(r[k]) == NetOf(r0[k]);
      if |r| > |r0| {
        forall k | 0 <= k < |r0|
          ensures NetOf(r0[k]) != Subnet(last)
        {
          assert r0[k] in r0 && !Matches(r0[k], last) && Inherited(r0[k], t, init);
          if f :| f in init && Matches(r0[k], f) {
            LastSubnetNew(ifs, f);
          }
        }
        assert Matches(r[|r0|], last);
      }
      forall k | 0 <= k < |r|
        ensures Inherited(r[k], t, ifs)
      {
        if k < |r0| {
          assert r0[k] in r0 && Inherited(r0[k], t, init);
          if f :| f in init && Matches(r0[k], f) {
            assert f in ifs && Matches(r[k], f);
          }
        } else {
          assert last in ifs && Matches(r[k], last);
        }
      }
    }
  }

  lemma TickDistinct(table: seq<RtEntry>, ifs: seq<Iface>, up: set<string>, now: int)
    requires NetsDistinct(table) && SubnetsDistinct(ifs) && MasksAgree(table, ifs)
    ensures NetsDistinct(Tick(table, ifs, up, now))
  {
    TickIfacesDistinct(MapEntries(table, e => Expired(e, now)), ifs, up, now);
  }
}
