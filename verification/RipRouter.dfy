// The loops of lab4/router/sr_rt.c over one router's routing table, each proved to compute the
// rule RipTable states.  Every method is one section under the routing-table lock.
module RipRouter {
  import Words
  import opened RipTable

  // What goes out of one interface: its name, the source address, and the response's slots.
  datatype Packet = Packet(iface: string, src: Words.Word, slots: seq<Slot>)

  // One response per interface, in the order of the interface list.
  function Broadcast(table: seq<RtEntry>, ifs: seq<Iface>): seq<Packet>
    requires Fits(table, ifs)
  {
    seq(|ifs|, i requires 0 <= i < |ifs| => Packet(ifs[i].name, ifs[i].ip, Encode(Response(table, ifs[i].name))))
  }

  // Every interface's response fits the 25 slots of a packet.
  predicate Fits(table: seq<RtEntry>, ifs: seq<Iface>) {
    forall f :: f in ifs ==> |Response(table, f.name)| <= MAX_NUM_ENTRIES
  }

  // Split horizon on the wire: packet i leaves through interface i under its address, and the
  // receiver reads from it exactly the entries that leave through some other interface.
  lemma BroadcastSplits(table: seq<RtEntry>, ifs: seq<Iface>, i: nat)
    requires Fits(table, ifs) && i < |ifs|
    ensures |Broadcast(table, ifs)| == |ifs|
    ensures var p := Broadcast(table, ifs)[i];
            && p.iface == ifs[i].name && p.src == ifs[i].ip && |p.slots| == MAX_NUM_ENTRIES
            && forall x :: x in Decode(p.slots) <==>
                             exists e :: e in table && e.iface != ifs[i].name
                                         && x == Route(e.dest, e.mask, e.gw, e.metric)
  {
    var xs := Response(table, ifs[i].name);
    assert ifs[i] in ifs;
    WireRoundTrip(xs);
    forall x
      ensures x in xs <==> exists e :: e in table && e.iface != ifs[i].name
                                       && x == Route(e.dest, e.mask, e.gw, e.metric)
    {
      ResponseMember(table, ifs[i].name, x);
      if e :| e in table && e.iface != ifs[i].name && Advert(e) == x {
        assert x == Route(e.dest, e.mask, e.gw, e.metric);
      }
      if e :| e in table && e.iface != ifs[i].name && x == Route(e.dest, e.mask, e.gw, e.metric) {
        assert Advert(e) == x;
      }
    }
  }

  class Router {
    var table: seq<RtEntry>
    const ifs: seq<Iface>
    var up: set<string>
    var sent: seq<Packet>

    constructor (ifs: seq<Iface>, up: set<string>)
      ensures table == [] && this.ifs == ifs && this.up == up && sent == []
    {
      table, this.ifs, this.up, sent := [], ifs, up, [];
    }

    // sr_add_rt_entry
    method AddRtEntry(dest: Words.Word, gw: Words.Word, mask: Words.Word, metric: Words.Word32, iface: string, now: int)
      modifies this`table
      ensures table == old(table) + [RtEntry(dest, gw, mask, iface, metric, now)]
    {
      table := table + [RtEntry(dest, gw, mask, iface, metric, now)];
    }

    // sr_build_rt
    method BuildRt(now: int)
      modifies this`table
      ensures table == old(table) + Build(ifs, now)
    {
      for n := 0 to |ifs|
        invariant table == old(table) + Build(ifs, now)[..n]
      {
        var f := ifs[n];
        AddRtEntry(Words.BitAnd(f.ip, f.mask), 0, f.mask, 0, f.name, now);
        assert Build(ifs, now)[..n + 1] == Build(ifs, now)[..n] + [Build(ifs, now)[n]];
      }
    }

    // send_rip_response
    method SendRipResponse()
      requires Fits(table, ifs)
      modifies this`sent
      ensures sent == old(sent) + Broadcast(table, ifs)
    {
      for n := 0 to |ifs|
        invariant sent == old(sent) + Broadcast(table, ifs)[..n]
      {
        var slots := FillEntries(ifs[n].name);
        sent := sent + [Packet(ifs[n].name, ifs[n].ip, slots)];
      }
    }

    // The loop that fills one packet's zeroed entries array.
    method FillEntries(iface: string) returns (slots: seq<Slot>)
      requires |Response(table, iface)| <= MAX_NUM_ENTRIES
      ensures slots == Encode(Response(table, iface))
    {
      var entries := new Slot[MAX_NUM_ENTRIES](_ => BLANK);
      var i := 0;
      var walker := table;
      ghost var got := [];
      EncodeIs(entries[..], got);
      for t := 0 to |walker|
        invariant got == Response(walker[..t], iface) && |got| <= |Response(walker, iface)| && i == |got|
        invariant entries[..] == Encode(got)
      {
        ResponseStep(walker, iface, t);
        if walker[t].iface != iface {
          ghost var before := entries[..];
          entries[i] := Slot(2, Route(walker[t].dest, walker[t].mask, walker[t].gw, walker[t].metric));
          assert entries[..] == before[i := Slot(2, Advert(walker[t]))];
          EncodeNext(got, Advert(walker[t]));
          i := i + 1;
        }
        got := Response(walker[..t + 1], iface);
      }
      assert walker[..|walker|] == walker;
      slots := entries[..];
    }

    // update_route_table, for a response heard on `iface` from `src`.
    method UpdateRouteTable(slots: seq<Slot>, src: Words.Word, iface: string, now: int)
      requires |slots| == MAX_NUM_ENTRIES
      requires Fits(UpdateAll(table, Decode(slots), src, iface, now), ifs)
      modifies this`table, this`sent
      ensures table == UpdateAll(old(table), Decode(slots), src, iface, now)
      ensures sent == if ChangesAny(old(table), Decode(slots), src, iface, now)
                      then old(sent) + Broadcast(table, ifs) else old(sent)
    {
      var changed := Absorb(slots, src, iface, now);
      if changed {
        SendRipResponse();
      }
    }

    // The loop over the entries of a response.
    method Absorb(slots: seq<Slot>, src: Words.Word, iface: string, now: int) returns (changed: bool)
      modifies this`table
      ensures table == UpdateAll(old(table), Decode(slots), src, iface, now)
      ensures changed == ChangesAny(old(table), Decode(slots), src, iface, now)
    {
      changed := false;
      for i := 0 to |slots|
        invariant table == UpdateAll(old(table), Decode(slots[..i]), src, iface, now)
        invariant changed == ChangesAny(old(table), Decode(slots[..i]), src, iface, now)
      {
        DecodeStep(slots, i);
        if slots[i].afi != 0 {
          UpdateAllSnoc(old(table), Decode(slots[..i]), slots[i].route, src, iface, now);
          var hit := UpdateWith(slots[i].route, src, iface, now);
          changed := changed || hit;
        }
      }
      assert slots[..|slots|] == slots;
    }

    // The body of that loop for one valid entry.
    method UpdateWith(x: Route, src: Words.Word, iface: string, now: int) returns (changed: bool)
      modifies this`table
      ensures table == UpdateOne(old(table), x, src, iface, now)
      ensures changed == Changes(old(table), x, iface)
    {
      var metric := if (x.metric + 1) % Words.WORD < INFINITY then (x.metric + 1) % Words.WORD else INFINITY;
      var t := 0;
      while t < |table|
        invariant 0 <= t <= |table|
        invariant forall k :: 0 <= k < t ==> NetOf(table[k]) != RouteNet(x)
      {
        if Net(x.address, x.mask) == Net(table[t].dest, table[t].mask) {
          changed := Revise(t, metric, x, src, iface, now);
          return;
        }
        t := t + 1;
      }
      AddRtEntry(x.address, src, x.mask, metric, iface, now);
      changed := true;
    }

    // What happens to the entry found.
    method Revise(t: nat, metric: Words.Word32, x: Route, src: Words.Word, iface: string, now: int)
      returns (changed: bool)
      requires t < |table| && metric == Heard(x.metric)
      modifies this`table
      ensures table == old(table)[t := Revised(old(table)[t], x, src, iface, now)]
      ensures changed == if old(table)[t].iface == iface then metric == INFINITY && old(table)[t].metric != INFINITY
                         else metric < old(table)[t].metric
    {
      changed := false;
      if table[t].iface == iface {
        table := table[t := table[t].(updated := now)];
        if metric == INFINITY && table[t].metric != INFINITY {
          changed := true;
          table := table[t := table[t].(metric := INFINITY)];
        }
      } else {
        if metric < table[t].metric {
          changed := true;
          table := table[t := RtEntry(x.address, src, x.mask, iface, metric, now)];
        }
      }
    }

    // One pass of sr_rip_timeout.
    method TimeoutPass(now: int)
      requires Fits(Tick(table, ifs, up, now), ifs)
      modifies this`table, this`sent
      ensures table == Tick(old(table), ifs, up, now)
      ensures sent == old(sent) + Broadcast(table, ifs)
    {
      ghost var before := table;
      for t := 0 to |table|
        invariant |table| == |before| && sent == old(sent)
        invariant forall k :: 0 <= k < |table| ==> table[k] == if k < t then Expired(before[k], now) else before[k]
      {
        if now - table[t].updated > EXPIRY {
          table := table[t := table[t].(metric := INFINITY)];
        }
      }
      assert table == MapEntries(before, e => Expired(e, now));
      ghost var expired := table;
      for n := 0 to |ifs|
        invariant table == TickIfaces(expired, ifs[..n], up, now) && sent == old(sent)
      {
        assert ifs[..n + 1][..n] == ifs[..n];
        if ifs[n].name !in up {
          TakeDown(ifs[n], now);
        } else {
          Attach(ifs[n], now);
        }
      }
      assert ifs[..|ifs|] == ifs;
      SendRipResponse();
    }

    // The pass over the table for an interface that is down.
    method TakeDown(f: Iface, ghost now: int)
      requires f.name !in up
      modifies this`table
      ensures table == TickIface(old(table), f, up, now)
    {
      for t := 0 to |table|
        invariant |table| == |old(table)|
        invariant forall k :: 0 <= k < |table| ==>
                    table[k] == if k < t then Touch(old(table)[k], f, up, now) else old(table)[k]
      {
        if table[t].iface == f.name {
          table := table[t := table[t].(metric := INFINITY)];
        }
      }
    }

    // The pass over the table for an interface that is up.
    method Attach(f: Iface, now: int)
      requires f.name in up
      modifies this`table
      ensures table == TickIface(old(table), f, up, now)
    {
      var found := false;
      for t := 0 to |table|
        invariant |table| == |old(table)|
        invariant forall k :: 0 <= k < |table| ==>
                    table[k] == if k < t then Touch(old(table)[k], f, up, now) else old(table)[k]
        invariant found <==> exists k :: 0 <= k < t && Matches(old(table)[k], f)
      {
        if Net(table[t].dest, table[t].mask) == Net(f.ip, f.mask) && table[t].mask == f.mask {
          table := table[t := table[t].(updated := now, metric := 0, gw := 0, iface := f.name)];
          found := true;
        }
      }
      if !found {
        AddRtEntry(f.ip, 0, f.mask, 0, f.name, now);
      }
    }
  }

  lemma EncodeIs(slots: seq<Slot>, xs: seq<Route>)
    requires |slots| == MAX_NUM_ENTRIES && |xs| <= MAX_NUM_ENTRIES
    requires forall k :: 0 <= k < |xs| ==> slots[k] == Slot(2, xs[k])
    requires forall k :: |xs| <= k < MAX_NUM_ENTRIES ==> slots[k] == BLANK
    ensures slots == Encode(xs)
  {
  }

  lemma EncodeNext(xs: seq<Route>, x: Route)
    requires |xs| < MAX_NUM_ENTRIES
    ensures Encode(xs + [x]) == Encode(xs)[|xs| := Slot(2, x)]
  {
  }

  lemma ResponseStep(table: seq<RtEntry>, iface: string, t: nat)
    requires t < |table|
    ensures Response(table[..t + 1], iface) ==
              Response(table[..t], iface) + if table[t].iface != iface then [Advert(table[t])] else []
    ensures |Response(table[..t + 1], iface)| <= |Response(table, iface)|
  {
    assert table[..t + 1][..t] == table[..t];
    ResponsePrefix(table, iface, t + 1);
  }

  lemma DecodeStep(slots: seq<Slot>, i: nat)
    requires i < |slots|
    ensures Decode(slots[..i + 1]) ==
              if slots[i].afi != 0 then Decode(slots[..i]) + [slots[i].route] else Decode(slots[..i])
  {
    assert slots[..i + 1][..i] == slots[..i];
  }

  lemma UpdateAllSnoc(table: seq<RtEntry>, xs: seq<Route>, x: Route, src: Words.Word, iface: string, now: int)
    ensures UpdateAll(table, xs + [x], src, iface, now) ==
              UpdateOne(UpdateAll(table, xs, src, iface, now), x, src, iface, now)
    ensures ChangesAny(table, xs + [x], src, iface, now) <==>
              ChangesAny(table, xs, src, iface, now) || Changes(UpdateAll(table, xs, src, iface, now), x, iface)
  {
    assert (xs + [x])[..|xs|] == xs;
  }

  lemma {:induction false} ResponsePrefix(table: seq<RtEntry>, iface: string, n: nat)
    requires n <= |table|
    ensures Response(table[..n], iface) <= Response(table, iface)
    decreases |table|
  {
    if n < |table| {
      assert table[..|table| - 1][..n] == table[..n];
      ResponsePrefix(table[..|table| - 1], iface, n);
    } else {
      assert table[..n] == table;
    }
  }
}
