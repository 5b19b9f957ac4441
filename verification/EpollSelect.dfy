// select() on top of epoll, from lab4/pox/pox/lib/epoll_select.py: only the differences between
// one call's lists and the next are passed on to the kernel.
module EpollSelect {
  import Options

  datatype Fd = Fd(number: nat)

  // Something with a fileno method, or a bare descriptor.
  datatype Handle = Object(id: nat, fileno: Fd) | Bare(fd: Fd)

  // EPOLLIN|EPOLLPRI and EPOLLOUT; the source sets and clears the first two together.
  datatype Mask = Mask(read: bool, write: bool)

  datatype Op = Read | Write

  // A poll result: which of the three groups of bits the tests at lines 92, 94 and 96 find.
  datatype Event = Event(fd: Fd, readable: bool, writable: bool, failed: bool)

  const NOTHING: Mask := Mask(false, false)

  type Interest = map<Fd, Mask>

  function FdOf(h: Handle): Fd {
    match h
    case Object(_, fileno) => fileno
    case Bare(fd) => fd
  }

  function Fds(handles: seq<Handle>): set<Fd> {
    set h | h in handles :: FdOf(h)
  }

  function Set(m: Mask, op: Op, on: bool): Mask {
    if op.Read? then m.(read := on) else m.(write := on)
  }

  // The interest the current lists call for, computed directly.
  function Wanted(r: set<Fd>, w: set<Fd>): Interest {
    map fd | fd in r + w :: Mask(fd in r, fd in w)
  }

  // A mask to start from: the one already scheduled, else the one registered, else none.
  function Base(delta: Interest, registered: Interest, fd: Fd): Mask {
    if fd in delta then delta[fd] else if fd in registered then registered[fd] else NOTHING
  }

  function Differ(a: set<Fd>, b: set<Fd>): set<Fd> {
    (a - b) + (b - a)
  }

  // What modify_table makes of its table for one list.
  function Scheduled(delta: Interest, registered: Interest, was: set<Fd>, now: set<Fd>, op: Op): Interest {
    map fd | fd in delta.Keys + Differ(was, now) ::
      if fd in Differ(was, now) then Set(Base(delta, registered, fd), op, fd in now) else delta[fd]
  }

  function AllSet(delta: Interest, registered: Interest, fds: set<Fd>, op: Op, on: bool): Interest {
    map fd | fd in delta.Keys + fds :: if fd in fds then Set(Base(delta, registered, fd), op, on) else delta[fd]
  }

  lemma SetOneMore(delta: Interest, registered: Interest, fds: set<Fd>, fd: Fd, op: Op, on: bool)
    requires fd !in fds
    ensures var was := AllSet(delta, registered, fds, op, on);
            was[fd := Set(Base(was, registered, fd), op, on)] == AllSet(delta, registered, fds + {fd}, op, on)
  {
  }

  lemma SetStep(delta: Interest, registered: Interest, fds: set<Fd>, left: set<Fd>, fd: Fd, op: Op, on: bool)
    requires fd in left && left <= fds
    ensures var was := AllSet(delta, registered, fds - left, op, on);
            was[fd := Set(Base(was, registered, fd), op, on)] == AllSet(delta, registered, fds - (left - {fd}), op, on)
  {
    assert fds - (left - {fd}) == (fds - left) + {fd};
    SetOneMore(delta, registered, fds - left, fd, op, on);
  }

  lemma NothingSet(delta: Interest, registered: Interest, fds: set<Fd>, op: Op, on: bool)
    ensures AllSet(delta, registered, fds - fds, op, on) == delta
  {
  }

  lemma NoChange(delta: Interest, registered: Interest, fds: set<Fd>, op: Op)
    ensures Scheduled(delta, registered, fds, fds, op) == delta
  {
  }

  lemma BothSet(delta: Interest, registered: Interest, was: set<Fd>, now: set<Fd>, op: Op)
    ensures AllSet(AllSet(delta, registered, now - was, op, true), registered, was - now, op, false) ==
            Scheduled(delta, registered, was, now, op)
  {
  }

  // The two calls of modify_table together schedule exactly the descriptors whose interest
  // changes, each with the mask it should end up with.
  lemma SchedulesTheDifference(r: set<Fd>, w: set<Fd>, r': set<Fd>, w': set<Fd>)
    ensures var registered := Wanted(r, w);
            var delta := Scheduled(Scheduled(map[], registered, r, r', Read), registered, w, w', Write);
            && delta.Keys == Differ(r, r') + Differ(w, w')
            && forall fd :: fd in delta ==> delta[fd] == Mask(fd in r', fd in w')
  {
  }

  // Applying a schedule: a mask of nothing unregisters.
  function Applied(registered: Interest, delta: Interest): Interest {
    map fd | fd in registered.Keys + delta.Keys && (fd in delta ==> delta[fd] != NOTHING) ::
      if fd in delta then delta[fd] else registered[fd]
  }

  function With(registered: Interest, fd: Fd, mask: Mask): Interest {
    if mask == NOTHING then registered - {fd} else registered[fd := mask]
  }

  // The first k entries applied, in some order.
  function AppliedTo(registered: Interest, delta: Interest, order: seq<Fd>, k: nat): Interest
    requires k <= |order| && forall fd :: fd in order ==> fd in delta
  {
    if k == 0 then registered
    else With(AppliedTo(registered, delta, order, k - 1), order[k - 1], delta[order[k - 1]])
  }

  lemma {:induction false} AppliedAt(registered: Interest, delta: Interest, order: seq<Fd>, k: nat, fd: Fd)
    requires k <= |order| && forall x :: x in order ==> x in delta
    ensures var after := AppliedTo(registered, delta, order, k);
            if fd in order[..k] then
              if delta[fd] == NOTHING then fd !in after else fd in after && after[fd] == delta[fd]
            else
              (fd in after <==> fd in registered) && (fd in after ==> after[fd] == registered[fd])
  {
    if k > 0 {
      AppliedAt(registered, delta, order, k - 1, fd);
      assert order[..k] == order[..k - 1] + [order[k - 1]];
    }
  }

  // Any order gives the same result.
  lemma AppliedAll(registered: Interest, delta: Interest, order: seq<Fd>)
    requires IsList(order, delta.Keys)
    ensures AppliedTo(registered, delta, order, |order|) == Applied(registered, delta)
  {
    var a, b := AppliedTo(registered, delta, order, |order|), Applied(registered, delta);
    assert order[..|order|] == order;
    forall fd
      ensures fd in a <==> fd in b
      ensures fd in a ==> a[fd] == b[fd]
    {
      AppliedAt(registered, delta, order, |order|, fd);
    }
  }

  lemma NotYetApplied(registered: Interest, delta: Interest, order: seq<Fd>, k: nat)
    requires k < |order| && IsList(order, delta.Keys)
    ensures order[k] in AppliedTo(registered, delta, order, k) <==> order[k] in registered
  {
    AppliedAt(registered, delta, order, k, order[k]);
  }

  // A list of the members of a set, each once.
  ghost predicate IsList(log: seq<Fd>, fds: set<Fd>) {
    (forall fd :: fd in log <==> fd in fds) && forall i, j :: 0 <= i < j < |log| ==> log[i] != log[j]
  }

  ghost predicate Lists(calls: seq<Fd>, before: seq<Fd>, fds: set<Fd>) {
    before <= calls && IsList(calls[|before|..], fds)
  }

  lemma ListsLog(before: seq<Fd>, log: seq<Fd>, fds: set<Fd>)
    requires IsList(log, fds)
    ensures Lists(before + log, before, fds)
  {
    assert (before + log)[|before|..] == log;
  }

  // The order in which a set or a dictionary happens to be iterated.
  method Enumerate(fds: set<Fd>) returns (order: seq<Fd>)
    ensures IsList(order, fds)
  {
    order := [];
    var left := fds;
    while left != {}
      invariant left <= fds && IsList(order, fds - left)
      decreases |left|
    {
      var fd :| fd in left;
      order := order + [fd];
      left := left - {fd};
    }
  }

  lemma DifferenceSuffices(r: set<Fd>, w: set<Fd>, r': set<Fd>, w': set<Fd>, delta: Interest)
    requires delta.Keys == Differ(r, r') + Differ(w, w')
    requires forall fd :: fd in delta ==> delta[fd] == Mask(fd in r', fd in w')
    ensures Applied(Wanted(r, w), delta) == Wanted(r', w')
    ensures forall fd :: fd in delta && fd !in Wanted(r, w) ==> delta[fd] != NOTHING
  {
    var after := Applied(Wanted(r, w), delta);
    forall fd
      ensures fd in after <==> fd in Wanted(r', w')
      ensures fd in after ==> after[fd] == Wanted(r', w')[fd]
    {
    }
  }

  // What the two calls schedule, applied to the interest of the old lists, is the interest of the
  // new ones, and nothing unregistered is ever scheduled for neither reading nor writing.
  lemma IncrementalIsDirect(r: set<Fd>, w: set<Fd>, r': set<Fd>, w': set<Fd>)
    ensures var delta := Scheduled(Scheduled(map[], Wanted(r, w), r, r', Read), Wanted(r, w), w, w', Write);
            && delta.Keys == Differ(r, r') + Differ(w, w')
            && Applied(Wanted(r, w), delta) == Wanted(r', w')
            && forall fd :: fd in delta && fd !in Wanted(r, w) ==> delta[fd] != NOTHING
  {
    SchedulesTheDifference(r, w, r', w');
    var delta := Scheduled(Scheduled(map[], Wanted(r, w), r, r', Read), Wanted(r, w), w, w', Write);
    DifferenceSuffices(r, w, r', w', delta);
  }

  // The kernel's side.  Each call fails on a descriptor that is not, or is already, registered.
  class Epoll {
    var interest: Interest
    var calls: seq<Fd>

    constructor ()
      ensures interest == map[] && calls == []
    {
      interest, calls := map[], [];
    }

    method Register(fd: Fd, mask: Mask)
      requires fd !in interest
      modifies this
      ensures interest == old(interest)[fd := mask] && calls == old(calls) + [fd]
    {
      interest, calls := interest[fd := mask], calls + [fd];
    }

    method Modify(fd: Fd, mask: Mask)
      requires fd in interest
      modifies this
      ensures interest == old(interest)[fd := mask] && calls == old(calls) + [fd]
    {
      interest, calls := interest[fd := mask], calls + [fd];
    }

    method Unregister(fd: Fd)
      requires fd in interest
      modifies this
      ensures interest == old(interest) - {fd} && calls == old(calls) + [fd]
    {
      interest, calls := interest - {fd}, calls + [fd];
    }
  }

  // The kernel reports only registered descriptors, readable or writable only when asked.
  ghost predicate Reports(interest: Interest, events: seq<Event>) {
    forall e :: e in events ==>
      e.fd in interest && (e.readable ==> interest[e.fd].read) && (e.writable ==> interest[e.fd].write)
  }

  function Returned(events: seq<Event>, objects: map<Fd, Handle>, chosen: Event -> bool): seq<Handle>
    requires forall e :: e in events ==> e.fd in objects
  {
    if events == [] then []
    else
      var last := events[|events| - 1];
      Returned(events[..|events| - 1], objects, chosen) + if chosen(last) then [objects[last.fd]] else []
  }

  ghost predicate Picks(e: Event, objects: map<Fd, Handle>, chosen: Event -> bool, h: Handle) {
    e.fd in objects && chosen(e) && objects[e.fd] == h
  }

  // An object is returned exactly for the chosen events on its descriptor.
  lemma {:induction false} ReturnedFrom(events: seq<Event>, objects: map<Fd, Handle>, chosen: Event -> bool, h: Handle)
    requires forall e :: e in events ==> e.fd in objects
    ensures h in Returned(events, objects, chosen) <==>
            exists k: nat :: k < |events| && Picks(events[k], objects, chosen, h)
  {
    if events != [] {
      var n := |events| - 1;
      var init := events[..n];
      assert forall e :: e in init ==> e in events;
      ReturnedFrom(init, objects, chosen, h);
      if Picks(events[n], objects, chosen, h) {
        assert h in Returned(events, objects, chosen);
      }
      if k: nat :| k < |init| && Picks(init[k], objects, chosen, h) {
        assert Picks(events[k], objects, chosen, h);
      }
      if k: nat :| k < |events| && Picks(events[k], objects, chosen, h) {
        assert k < n ==> Picks(init[k], objects, chosen, h);
      }
    }
  }

  // Events are answered in order, each by itself.
  lemma {:induction false} ReturnedInOrder(
    a: seq<Event>, b: seq<Event>, objects: map<Fd, Handle>, chosen: Event -> bool)
    requires forall e :: e in a || e in b ==> e.fd in objects
    ensures Returned(a + b, objects, chosen) == Returned(a, objects, chosen) + Returned(b, objects, chosen)
    ensures |b| == 1 ==> Returned(b, objects, chosen) == if chosen(b[0]) then [objects[b[0].fd]] else []
  {
    if b == [] {
      assert a + b == a;
    } else {
      var init := b[..|b| - 1];
      assert (a + b)[..|a + b| - 1] == a + init;
      ReturnedInOrder(a, init, objects, chosen);
    }
  }

  // The descriptor table after a list has been walked: the last object of a descriptor stays.
  function Mapped(objects: map<Fd, Handle>, handles: seq<Handle>): map<Fd, Handle> {
    if handles == [] then objects
    else
      var last := handles[|handles| - 1];
      Mapped(objects, handles[..|handles| - 1])[FdOf(last) := last]
  }

  function MappedIf(changed: bool, objects: map<Fd, Handle>, handles: seq<Handle>): map<Fd, Handle> {
    if changed then Mapped(objects, handles) else objects
  }

  lemma {:induction false} MappedKeys(objects: map<Fd, Handle>, handles: seq<Handle>)
    ensures Mapped(objects, handles).Keys == objects.Keys + Fds(handles)
  {
    if handles != [] {
      var init, last := handles[..|handles| - 1], handles[|handles| - 1];
      MappedKeys(objects, init);
      assert handles == init + [last];
      assert Fds(handles) == Fds(init) + {FdOf(last)};
    }
  }

  // The last object of a list with a descriptor.
  function LastOn(handles: seq<Handle>, fd: Fd): (h: Options.Option<Handle>)
    ensures h.Some? ==> h.value in handles && FdOf(h.value) == fd
  {
    if handles == [] then Options.None
    else
      var last := handles[|handles| - 1];
      if FdOf(last) == fd then Options.Some(last) else LastOn(handles[..|handles| - 1], fd)
  }

  lemma {:induction false} LastOnListed(handles: seq<Handle>, fd: Fd)
    ensures LastOn(handles, fd).Some? <==> fd in Fds(handles)
  {
    if handles != [] {
      var init, last := handles[..|handles| - 1], handles[|handles| - 1];
      LastOnListed(init, fd);
      assert handles == init + [last];
      assert Fds(handles) == Fds(init) + {FdOf(last)};
    }
  }

  // Walking a list leaves its last object for a descriptor, or what was there.
  lemma {:induction false} MappedLast(objects: map<Fd, Handle>, handles: seq<Handle>, fd: Fd)
    ensures var after, last := Mapped(objects, handles), LastOn(handles, fd);
            if last.Some? then fd in after && after[fd] == last.value
            else (fd in after <==> fd in objects) && (fd in after ==> after[fd] == objects[fd])
  {
    if handles != [] {
      MappedLast(objects, handles[..|handles| - 1], fd);
    }
  }

  // ---- Whose objects are returned --------------------------------------------------------------

  // What a selector remembers that decides it: its descriptor table and its last two lists.
  datatype Memory = Memory(objects: map<Fd, Handle>, rl: seq<Handle>, wl: seq<Handle>)

  ghost predicate Covered(m: Memory) {
    Fds(m.rl) + Fds(m.wl) <= m.objects.Keys
  }

  function TableAfter(m: Memory, rl: seq<Handle>, wl: seq<Handle>): map<Fd, Handle> {
    MappedIf(wl != m.wl, MappedIf(rl != m.rl, m.objects, rl), wl)
  }

  // The object remembered for a descriptor before the call is on a list.
  predicate Remembered(m: Memory, fd: Fd, handles: seq<Handle>) {
    fd in m.objects && m.objects[fd] in handles
  }

  // Before the call: a readable fd will be answered with an object of the read list.  The write
  // list is walked last, so its object for fd wins when that list changed.
  predicate ReadsOwn(m: Memory, rl: seq<Handle>, wl: seq<Handle>, fd: Fd) {
    var last := LastOn(wl, fd);
    if wl != m.wl && last.Some? then last.value in rl
    else rl != m.rl || Remembered(m, fd, rl)
  }

  // Before the call: a writable fd will be answered with an object of the write list.
  predicate WritesOwn(m: Memory, rl: seq<Handle>, wl: seq<Handle>, fd: Fd) {
    var last := LastOn(rl, fd);
    if wl != m.wl then true
    else if rl != m.rl && last.Some? then last.value in wl
    else Remembered(m, fd, wl)
  }

  // Before the call: a failed fd will be answered with an object of either list.
  predicate FailsOwn(m: Memory, rl: seq<Handle>, wl: seq<Handle>, fd: Fd) {
    || (wl != m.wl && LastOn(wl, fd).Some?)
    || (rl != m.rl && LastOn(rl, fd).Some?)
    || Remembered(m, fd, rl + wl)
  }

  // The three conditions say of the table after the call what they are meant to.
  lemma OwnMeans(m: Memory, rl: seq<Handle>, wl: seq<Handle>, fd: Fd)
    requires Covered(m) && fd in Fds(rl) + Fds(wl)
    ensures fd in TableAfter(m, rl, wl)
    ensures fd in Fds(rl) ==> (TableAfter(m, rl, wl)[fd] in rl <==> ReadsOwn(m, rl, wl, fd))
    ensures fd in Fds(wl) ==> (TableAfter(m, rl, wl)[fd] in wl <==> WritesOwn(m, rl, wl, fd))
    ensures TableAfter(m, rl, wl)[fd] in rl + wl <==> FailsOwn(m, rl, wl, fd)
  {
    LastOnListed(rl, fd);
    LastOnListed(wl, fd);
    MappedLast(m.objects, rl, fd);
    MappedLast(MappedIf(rl != m.rl, m.objects, rl), wl, fd);
  }

  // All that Returned yields is on a list exactly when each chosen event's object is.
  lemma ReturnedOn(events: seq<Event>, objects: map<Fd, Handle>, chosen: Event -> bool, handles: seq<Handle>)
    requires forall e :: e in events ==> e.fd in objects
    ensures (forall h :: h in Returned(events, objects, chosen) ==> h in handles) <==>
            forall k: nat :: k < |events| && chosen(events[k]) ==> objects[events[k].fd] in handles
  {
    forall k: nat | k < |events| && chosen(events[k])
      ensures objects[events[k].fd] in Returned(events, objects, chosen)
    {
      assert events[k] in events && Picks(events[k], objects, chosen, objects[events[k].fd]);
      ReturnedFrom(events, objects, chosen, objects[events[k].fd]);
    }
    forall h | h in Returned(events, objects, chosen)
      ensures exists k: nat :: k < |events| && Picks(events[k], objects, chosen, h)
    {
      ReturnedFrom(events, objects, chosen, h);
    }
  }

  // What a call returns for one poll result is what was asked for, list by list.
  ghost predicate ReadableListed(m: Memory, rl: seq<Handle>, wl: seq<Handle>, events: seq<Event>) {
    && (forall e :: e in events ==> e.fd in TableAfter(m, rl, wl))
    && forall h :: h in Returned(events, TableAfter(m, rl, wl), (e: Event) => e.readable) ==> h in rl
  }

  ghost predicate WritableListed(m: Memory, rl: seq<Handle>, wl: seq<Handle>, events: seq<Event>) {
    && (forall e :: e in events ==> e.fd in TableAfter(m, rl, wl))
    && forall h :: h in Returned(events, TableAfter(m, rl, wl), (e: Event) => e.writable) ==> h in wl
  }

  ghost predicate FailedListed(m: Memory, rl: seq<Handle>, wl: seq<Handle>, events: seq<Event>) {
    && (forall e :: e in events ==> e.fd in TableAfter(m, rl, wl))
    && forall h :: h in Returned(events, TableAfter(m, rl, wl), (e: Event) => e.failed) ==> h in rl + wl
  }

  // A poll result the kernel can give when the current lists are registered.
  ghost predicate Possible(rl: seq<Handle>, wl: seq<Handle>, events: seq<Event>) {
    Reports(Wanted(Fds(rl), Fds(wl)), events)
  }

  lemma PossibleKnown(m: Memory, rl: seq<Handle>, wl: seq<Handle>, events: seq<Event>)
    requires Covered(m) && Possible(rl, wl, events)
    ensures forall e :: e in events ==> e.fd in TableAfter(m, rl, wl) && e.fd in Fds(rl) + Fds(wl)
    ensures forall e :: e in events && e.readable ==> e.fd in Fds(rl)
    ensures forall e :: e in events && e.writable ==> e.fd in Fds(wl)
  {
    forall e: Event | e in events
      ensures e.fd in TableAfter(m, rl, wl)
    {
      OwnMeans(m, rl, wl, e.fd);
    }
  }

  // For one poll result, exactly.
  lemma ReadableExactly(m: Memory, rl: seq<Handle>, wl: seq<Handle>, events: seq<Event>)
    requires Covered(m) && Possible(rl, wl, events)
    ensures ReadableListed(m, rl, wl, events) <==> forall e :: e in events && e.readable ==> ReadsOwn(m, rl, wl, e.fd)
  {
    PossibleKnown(m, rl, wl, events);
    ReturnedOn(events, TableAfter(m, rl, wl), (e: Event) => e.readable, rl);
    forall e: Event | e in events && e.readable
      ensures TableAfter(m, rl, wl)[e.fd] in rl <==> ReadsOwn(m, rl, wl, e.fd)
    {
      OwnMeans(m, rl, wl, e.fd);
    }
    assert forall k: nat :: k < |events| ==> events[k] in events;
  }

  lemma WritableExactly(m: Memory, rl: seq<Handle>, wl: seq<Handle>, events: seq<Event>)
    requires Covered(m) && Possible(rl, wl, events)
    ensures WritableListed(m, rl, wl, events) <==> forall e :: e in events && e.writable ==> WritesOwn(m, rl, wl, e.fd)
  {
    PossibleKnown(m, rl, wl, events);
    ReturnedOn(events, TableAfter(m, rl, wl), (e: Event) => e.writable, wl);
    forall e: Event | e in events && e.writable
      ensures TableAfter(m, rl, wl)[e.fd] in wl <==> WritesOwn(m, rl, wl, e.fd)
    {
      OwnMeans(m, rl, wl, e.fd);
    }
    assert forall k: nat :: k < |events| ==> events[k] in events;
  }

  lemma FailedExactly(m: Memory, rl: seq<Handle>, wl: seq<Handle>, events: seq<Event>)
    requires Covered(m) && Possible(rl, wl, events)
    ensures FailedListed(m, rl, wl, events) <==> forall e :: e in events && e.failed ==> FailsOwn(m, rl, wl, e.fd)
  {
    PossibleKnown(m, rl, wl, events);
    ReturnedOn(events, TableAfter(m, rl, wl), (e: Event) => e.failed, rl + wl);
    forall e: Event | e in events && e.failed
      ensures TableAfter(m, rl, wl)[e.fd] in rl + wl <==> FailsOwn(m, rl, wl, e.fd)
    {
      OwnMeans(m, rl, wl, e.fd);
    }
    assert forall k: nat :: k < |events| ==> events[k] in events;
  }

  ghost predicate AllOwn(m: Memory, rl: seq<Handle>, wl: seq<Handle>) {
    && (forall fd :: fd in Fds(rl) ==> ReadsOwn(m, rl, wl, fd))
    && (forall fd :: fd in Fds(wl) ==> WritesOwn(m, rl, wl, fd))
  }

  // All three results are what was asked for.
  ghost predicate AllListed(m: Memory, rl: seq<Handle>, wl: seq<Handle>, events: seq<Event>) {
    ReadableListed(m, rl, wl, events) && WritableListed(m, rl, wl, events) && FailedListed(m, rl, wl, events)
  }

  lemma OwnFails(m: Memory, rl: seq<Handle>, wl: seq<Handle>, fd: Fd)
    requires Covered(m) && AllOwn(m, rl, wl) && fd in Fds(rl) + Fds(wl)
    ensures FailsOwn(m, rl, wl, fd)
  {
    OwnMeans(m, rl, wl, fd);
  }

  // Whatever the kernel reports, readable objects are from the read list, if and only if every
  // descriptor of that list meets its condition before the call.
  lemma ReadableAlways(m: Memory, rl: seq<Handle>, wl: seq<Handle>)
    requires Covered(m)
    ensures (forall events: seq<Event> :: Possible(rl, wl, events) ==> ReadableListed(m, rl, wl, events)) <==>
            forall fd :: fd in Fds(rl) ==> ReadsOwn(m, rl, wl, fd)
  {
    forall events: seq<Event> | Possible(rl, wl, events)
      ensures ReadableListed(m, rl, wl, events) <==>
              forall e :: e in events && e.readable ==> ReadsOwn(m, rl, wl, e.fd)
    {
      ReadableExactly(m, rl, wl, events);
    }
    forall fd | fd in Fds(rl)
      ensures var e := Event(fd, true, false, false);
              e in [e] && e.readable && Possible(rl, wl, [e])
    {
    }
    forall events: seq<Event> | Possible(rl, wl, events)
      ensures forall e :: e in events && e.readable ==> e.fd in Fds(rl)
    {
      PossibleKnown(m, rl, wl, events);
    }
  }

  // The same for writable ones,
  lemma WritableAlways(m: Memory, rl: seq<Handle>, wl: seq<Handle>)
    requires Covered(m)
    ensures (forall events: seq<Event> :: Possible(rl, wl, events) ==> WritableListed(m, rl, wl, events)) <==>
            forall fd :: fd in Fds(wl) ==> WritesOwn(m, rl, wl, fd)
  {
    forall events: seq<Event> | Possible(rl, wl, events)
      ensures WritableListed(m, rl, wl, events) <==>
              forall e :: e in events && e.writable ==> WritesOwn(m, rl, wl, e.fd)
    {
      WritableExactly(m, rl, wl, events);
    }
    forall fd | fd in Fds(wl)
      ensures var e := Event(fd, false, true, false);
              e in [e] && e.writable && Possible(rl, wl, [e])
    {
    }
    forall events: seq<Event> | Possible(rl, wl, events)
      ensures forall e :: e in events && e.writable ==> e.fd in Fds(wl)
    {
      PossibleKnown(m, rl, wl, events);
    }
  }

  // and for failed ones, on either list.
  lemma FailedAlways(m: Memory, rl: seq<Handle>, wl: seq<Handle>)
    requires Covered(m)
    ensures (forall events: seq<Event> :: Possible(rl, wl, events) ==> FailedListed(m, rl, wl, events)) <==>
            forall fd :: fd in Fds(rl) + Fds(wl) ==> FailsOwn(m, rl, wl, fd)
  {
    forall events: seq<Event> | Possible(rl, wl, events)
      ensures FailedListed(m, rl, wl, events) <==>
              forall e :: e in events && e.failed ==> FailsOwn(m, rl, wl, e.fd)
    {
      FailedExactly(m, rl, wl, events);
    }
    forall fd | fd in Fds(rl) + Fds(wl)
      ensures var e := Event(fd, false, false, true);
              e in [e] && e.failed && Possible(rl, wl, [e])
    {
    }
    forall events: seq<Event> | Possible(rl, wl, events)
      ensures forall e :: e in events && e.failed ==> e.fd in Fds(rl) + Fds(wl)
    {
      PossibleKnown(m, rl, wl, events);
    }
  }

  // And for all three results at once.
  lemma ReturnsOwnExactly(m: Memory, rl: seq<Handle>, wl: seq<Handle>)
    requires Covered(m)
    ensures (forall events: seq<Event> :: Possible(rl, wl, events) ==> AllListed(m, rl, wl, events))
            <==> AllOwn(m, rl, wl)
  {
    ReadableAlways(m, rl, wl);
    WritableAlways(m, rl, wl);
    FailedAlways(m, rl, wl);
    if AllOwn(m, rl, wl) {
      forall fd | fd in Fds(rl) + Fds(wl)
        ensures FailsOwn(m, rl, wl, fd)
      {
        OwnFails(m, rl, wl, fd);
      }
    }
  }

  ghost predicate Owned(objects: map<Fd, Handle>, owner: Fd -> Handle) {
    forall fd :: fd in objects ==> objects[fd] == owner(fd)
  }

  // The exact condition holds when no descriptor ever has two objects.
  lemma OwnedIsOwn(m: Memory, rl: seq<Handle>, wl: seq<Handle>, owner: Fd -> Handle)
    requires Covered(m) && Owned(m.objects, owner)
    requires forall h :: h in rl || h in wl ==> h == owner(FdOf(h))
    ensures AllOwn(m, rl, wl)
    ensures Owned(TableAfter(m, rl, wl), owner)
  {
    forall fd
      ensures fd in Fds(rl) ==> ReadsOwn(m, rl, wl, fd)
      ensures fd in Fds(wl) ==> WritesOwn(m, rl, wl, fd)
      ensures fd in TableAfter(m, rl, wl) ==> TableAfter(m, rl, wl)[fd] == owner(fd)
    {
      LastOnListed(rl, fd);
      LastOnListed(wl, fd);
      MappedLast(m.objects, rl, fd);
      MappedLast(MappedIf(rl != m.rl, m.objects, rl), wl, fd);
    }
  }

  class Selector {
    const epoll: Epoll
    var fdToObj: map<Fd, Handle>
    var registered: Interest
    var lastRl: seq<Handle>
    var lastRlSet: set<Fd>
    var lastWl: seq<Handle>
    var lastWlSet: set<Fd>

    ghost predicate Valid()
      reads this, epoll
    {
      && lastRlSet == Fds(lastRl) && lastWlSet == Fds(lastWl)
      && registered == Wanted(lastRlSet, lastWlSet)
      && epoll.interest == registered
      && registered.Keys <= fdToObj.Keys
    }

    constructor ()
      ensures Valid() && fresh(epoll) && lastRl == [] && lastWl == [] && fdToObj == map[]
    {
      epoll := new Epoll();
      fdToObj, registered := map[], map[];
      lastRl, lastRlSet, lastWl, lastWlSet := [], {}, [], {};
    }

    // modify_table
    method ModifyTable(handles: seq<Handle>, was: set<Fd>, op: Op, delta: Interest)
      returns (now: set<Fd>, scheduled: Interest)
      modifies this`fdToObj
      ensures now == Fds(handles) && scheduled == Scheduled(delta, registered, was, now, op)
      ensures fdToObj == Mapped(old(fdToObj), handles) && fdToObj.Keys == old(fdToObj.Keys) + now
    {
      now := {};
      for k := 0 to |handles|
        invariant now == Fds(handles[..k]) && fdToObj == Mapped(old(fdToObj), handles[..k])
      {
        assert handles[..k + 1][..k] == handles[..k];
        var fd := FdOf(handles[k]);
        fdToObj := fdToObj[fd := handles[k]];
        now := now + {fd};
        assert handles[..k + 1] == handles[..k] + [handles[k]];
      }
      assert handles[..|handles|] == handles;
      MappedKeys(old(fdToObj), handles);
      scheduled := SetAll(delta, now - was, op, true);
      scheduled := SetAll(scheduled, was - now, op, false);
      BothSet(delta, registered, was, now, op);
    }

    // One of the two loops over new and expired descriptors.
    method SetAll(delta: Interest, fds: set<Fd>, op: Op, on: bool) returns (scheduled: Interest)
      ensures scheduled == AllSet(delta, registered, fds, op, on)
    {
      scheduled := delta;
      var left := fds;
      NothingSet(delta, registered, fds, op, on);
      while left != {}
        invariant left <= fds && scheduled == AllSet(delta, registered, fds - left, op, on)
        decreases |left|
      {
        var fd :| fd in left;
        SetStep(delta, registered, fds, left, fd, op, on);
        scheduled := scheduled[fd := Set(Base(scheduled, registered, fd), op, on)];
        left := left - {fd};
      }
      assert fds - {} == fds;
    }

    // The loop over modify.iteritems().
    method Apply(delta: Interest)
      requires epoll.interest == registered
      requires forall fd :: fd in delta && fd !in registered ==> delta[fd] != NOTHING
      modifies this`registered, epoll
      ensures registered == Applied(old(registered), delta) && epoll.interest == registered
      ensures Lists(epoll.calls, old(epoll.calls), delta.Keys)
    {
      var order := Enumerate(delta.Keys);
      for k := 0 to |order|
        invariant epoll.interest == registered
        invariant registered == AppliedTo(old(registered), delta, order, k)
        invariant epoll.calls == old(epoll.calls) + order[..k]
      {
        NotYetApplied(old(registered), delta, order, k);
        ApplyOne(order[k], delta[order[k]]);
        assert order[..k + 1] == order[..k] + [order[k]];
      }
      AppliedAll(old(registered), delta, order);
      ListsLog(old(epoll.calls), order, delta.Keys);
      assert order[..|order|] == order;
    }

    // Its body; the AssertionError would be the last branch.
    method ApplyOne(fd: Fd, mask: Mask)
      requires epoll.interest == registered && (fd !in registered ==> mask != NOTHING)
      modifies this`registered, epoll
      ensures registered == With(old(registered), fd, mask) && epoll.interest == registered
      ensures epoll.calls == old(epoll.calls) + [fd]
    {
      if fd in registered {
        if mask == NOTHING {
          epoll.Unregister(fd);
          registered := registered - {fd};
        } else {
          epoll.Modify(fd, mask);
          registered := registered[fd := mask];
        }
      } else {
        if mask == NOTHING {
          assert false;
        } else {
          epoll.Register(fd, mask);
          registered := registered[fd := mask];
        }
      }
    }

    method UpdateRead(rl: seq<Handle>) returns (delta: Interest)
      requires lastRlSet == Fds(lastRl) && lastRlSet <= fdToObj.Keys
      modifies this`fdToObj, this`lastRl, this`lastRlSet
      ensures lastRl == rl && lastRlSet == Fds(rl)
      ensures delta == Scheduled(map[], registered, old(lastRlSet), lastRlSet, Read)
      ensures fdToObj == MappedIf(rl != old(lastRl), old(fdToObj), rl)
      ensures old(fdToObj.Keys) + lastRlSet <= fdToObj.Keys
    {
      delta := map[];
      NoChange(delta, registered, lastRlSet, Read);
      if rl != lastRl {
        lastRlSet, delta := ModifyTable(rl, lastRlSet, Read, delta);
        lastRl := rl;
      }
    }

    method UpdateWrite(wl: seq<Handle>, before: Interest) returns (delta: Interest)
      requires lastWlSet == Fds(lastWl) && lastWlSet <= fdToObj.Keys
      modifies this`fdToObj, this`lastWl, this`lastWlSet
      ensures lastWl == wl && lastWlSet == Fds(wl)
      ensures delta == Scheduled(before, registered, old(lastWlSet), lastWlSet, Write)
      ensures fdToObj == MappedIf(wl != old(lastWl), old(fdToObj), wl)
      ensures old(fdToObj.Keys) + lastWlSet <= fdToObj.Keys
    {
      delta := before;
      NoChange(delta, registered, lastWlSet, Write);
      if wl != lastWl {
        lastWlSet, delta := ModifyTable(wl, lastWlSet, Write, delta);
        lastWl := wl;
      }
    }

    // The registration half of select.
    method Update(rl: seq<Handle>, wl: seq<Handle>)
      requires Valid()
      modifies this, epoll
      ensures Valid() && lastRl == rl && lastWl == wl
      ensures fdToObj == MappedIf(wl != old(lastWl), MappedIf(rl != old(lastRl), old(fdToObj), rl), wl)
      // The kernel is called once for each descriptor whose interest changes, and for no other.
      ensures Lists(epoll.calls, old(epoll.calls), Differ(old(lastRlSet), Fds(rl)) + Differ(old(lastWlSet), Fds(wl)))
    {
      assert registered.Keys == lastRlSet + lastWlSet;
      var delta := UpdateRead(rl);
      delta := UpdateWrite(wl, delta);
      IncrementalIsDirect(old(lastRlSet), old(lastWlSet), lastRlSet, lastWlSet);
      Apply(delta);
      assert registered.Keys == lastRlSet + lastWlSet;
    }

    // select: `poll` says what the kernel reports for a given interest.
    method Select(rl: seq<Handle>, wl: seq<Handle>, poll: Interest -> seq<Event>)
      returns (events: seq<Event>, retrl: seq<Handle>, retwl: seq<Handle>, retxl: seq<Handle>)
      requires Valid() && forall interest :: Reports(interest, poll(interest))
      modifies this, epoll
      ensures Valid() && lastRl == rl && lastWl == wl
      ensures fdToObj == MappedIf(wl != old(lastWl), MappedIf(rl != old(lastRl), old(fdToObj), rl), wl)
      ensures events == poll(Wanted(Fds(rl), Fds(wl)))
      ensures forall e :: e in events ==> e.fd in fdToObj
      ensures retrl == Returned(events, fdToObj, (e: Event) => e.readable)
      ensures retwl == Returned(events, fdToObj, (e: Event) => e.writable)
      ensures retxl == Returned(events, fdToObj, (e: Event) => e.failed)
    {
      Update(rl, wl);
      events := poll(epoll.interest);
      assert Reports(epoll.interest, events);
      retrl, retwl, retxl := Sort(events);
    }

    // The loop over the events.
    method Sort(events: seq<Event>) returns (retrl: seq<Handle>, retwl: seq<Handle>, retxl: seq<Handle>)
      requires forall e :: e in events ==> e.fd in fdToObj
      ensures retrl == Returned(events, fdToObj, (e: Event) => e.readable)
      ensures retwl == Returned(events, fdToObj, (e: Event) => e.writable)
      ensures retxl == Returned(events, fdToObj, (e: Event) => e.failed)
    {
      retrl, retwl, retxl := [], [], [];
      for k := 0 to |events|
        invariant retrl == Returned(events[..k], fdToObj, (e: Event) => e.readable)
        invariant retwl == Returned(events[..k], fdToObj, (e: Event) => e.writable)
        invariant retxl == Returned(events[..k], fdToObj, (e: Event) => e.failed)
      {
        assert events[..k + 1][..k] == events[..k];
        var e := events[k];
        if e.readable {
          retrl := retrl + [fdToObj[e.fd]];
        }
        if e.writable {
          retwl := retwl + [fdToObj[e.fd]];
        }
        if e.failed {
          retxl := retxl + [fdToObj[e.fd]];
        }
      }
      assert events[..|events|] == events;
    }
  }

  // A call whose lists meet the condition returns only what was asked for.
  method SelectOwn(s: Selector, rl: seq<Handle>, wl: seq<Handle>, poll: Interest -> seq<Event>)
    returns (retrl: seq<Handle>, retwl: seq<Handle>, retxl: seq<Handle>)
    requires s.Valid() && forall interest :: Reports(interest, poll(interest))
    requires AllOwn(Memory(s.fdToObj, s.lastRl, s.lastWl), rl, wl)
    modifies s, s.epoll
    ensures s.Valid()
    ensures s.fdToObj == TableAfter(Memory(old(s.fdToObj), old(s.lastRl), old(s.lastWl)), rl, wl)
    ensures forall h :: h in retrl ==> h in rl
    ensures forall h :: h in retwl ==> h in wl
    ensures forall h :: h in retxl ==> h in rl || h in wl
  {
    ghost var m := Memory(s.fdToObj, s.lastRl, s.lastWl);
    assert Covered(m);
    var events;
    events, retrl, retwl, retxl := s.Select(rl, wl, poll);
    ReturnsOwnExactly(m, rl, wl);
    assert Possible(rl, wl, events);
    assert AllListed(m, rl, wl, events);
    assert forall h :: h in retxl ==> h in rl + wl;
  }

  // In particular when a descriptor belongs to one object only.
  method SelectOwned(s: Selector, rl: seq<Handle>, wl: seq<Handle>, poll: Interest -> seq<Event>, owner: Fd -> Handle)
    returns (retrl: seq<Handle>, retwl: seq<Handle>, retxl: seq<Handle>)
    requires s.Valid() && Owned(s.fdToObj, owner) && forall interest :: Reports(interest, poll(interest))
    requires forall h :: h in rl || h in wl ==> h == owner(FdOf(h))
    modifies s, s.epoll
    ensures s.Valid() && Owned(s.fdToObj, owner)
    ensures forall h :: h in retrl ==> h in rl
    ensures forall h :: h in retwl ==> h in wl
    ensures forall h :: h in retxl ==> h in rl || h in wl
  {
    assert Covered(Memory(s.fdToObj, s.lastRl, s.lastWl));
    OwnedIsOwn(Memory(s.fdToObj, s.lastRl, s.lastWl), rl, wl, owner);
    retrl, retwl, retxl := SelectOwn(s, rl, wl, poll);
  }

  // Without that, an object can be returned that is on neither list: the write list's object
  // takes over the descriptor, and an unchanged read list does not claim it back.
  method StaleObject(poll: Interest -> seq<Event>) returns (retrl: seq<Handle>)
    requires forall interest :: Reports(interest, poll(interest))
    requires poll(map[Fd(3) := Mask(true, false)]) == [Event(Fd(3), true, false, false)]
    ensures retrl == [Object(2, Fd(3))]
  {
    var mine, other := Object(1, Fd(3)), Object(2, Fd(3));
    var s := new Selector();
    var events, w, x;
    events, retrl, w, x := s.Select([mine], [], poll);
    assert s.fdToObj[Fd(3)] == mine;
    events, retrl, w, x := s.Select([mine], [other], poll);
    assert s.fdToObj[Fd(3)] == other;
    events, retrl, w, x := s.Select([mine], [], poll);
    assert Wanted(Fds([mine]), Fds([])) == map[Fd(3) := Mask(true, false)];
  }
}
