// Component registration and the callbacks waiting for components, from lab5/pox/pox/core.py.
// A callback is known by the names it registers before it returns or raises.
module Waiters {
  import Sets

  datatype Entry = Entry(needs: seq<string>, offers: seq<string>)

  // A callback that was called, and what was registered at that moment.
  datatype Firing = Firing(entry: Entry, present: set<string>)

  predicate Within(names: seq<string>, there: set<string>) {
    forall n :: n in names ==> n in there
  }

  // ---- Least closure ---------------------------------------------------------------------

  ghost predicate Closed(there: set<string>, rules: multiset<Entry>) {
    forall e :: e in rules && Within(e.needs, there) ==> Within(e.offers, there)
  }

  // The smallest set that contains base and is closed under the rules.
  ghost predicate Least(there: set<string>, base: set<string>, rules: multiset<Entry>) {
    && base <= there
    && Closed(there, rules)
    && forall bound :: base <= bound && Closed(bound, rules) ==> there <= bound
  }

  function FirstReady(rules: seq<Entry>, there: set<string>): (i: nat)
    ensures i <= |rules|
    ensures i < |rules| ==> Within(rules[i].needs, there)
    ensures forall k :: 0 <= k < i ==> !Within(rules[k].needs, there)
  {
    if rules == [] || Within(rules[0].needs, there) then 0 else 1 + FirstReady(rules[1..], there)
  }

  // Firing rules one at a time, first ready one first.
  function Closure(base: set<string>, rules: seq<Entry>): set<string>
    decreases |rules|
  {
    var i := FirstReady(rules, base);
    if i == |rules| then base
    else Closure(base + Sets.SetOf(rules[i].offers), rules[..i] + rules[i + 1..])
  }

  lemma TakeOut(rules: seq<Entry>, i: nat)
    requires i < |rules|
    ensures multiset(rules) == multiset(rules[..i] + rules[i + 1..]) + multiset{rules[i]}
  {
    assert rules == rules[..i] + [rules[i]] + rules[i + 1..];
  }

  lemma LeastAfterFiring(there: set<string>, base: set<string>, e: Entry, rest: multiset<Entry>)
    requires Within(e.needs, base) && Least(there, base + Sets.SetOf(e.offers), rest)
    ensures Least(there, base, rest + multiset{e})
  {
    var rules := rest + multiset{e};
    forall n | n in e.offers
      ensures n in there
    {
      assert n in Sets.SetOf(e.offers);
    }
    assert forall x :: x in rules ==> x in rest || x == e;
    forall bound | base <= bound && Closed(bound, rules)
      ensures there <= bound
    {
      assert e in rules && Within(e.needs, bound);
      assert forall x :: x in rest ==> x in rules;
    }
  }

  lemma {:induction false} ClosureIsLeast(base: set<string>, rules: seq<Entry>)
    ensures Least(Closure(base, rules), base, multiset(rules))
    decreases |rules|
  {
    var i := FirstReady(rules, base);
    if i < |rules| {
      var rest := rules[..i] + rules[i + 1..];
      ClosureIsLeast(base + Sets.SetOf(rules[i].offers), rest);
      TakeOut(rules, i);
      LeastAfterFiring(Closure(base, rules), base, rules[i], multiset(rest));
    } else {
      NothingReady(base, rules);
    }
  }

  lemma NothingReady(base: set<string>, rules: seq<Entry>)
    requires forall k :: 0 <= k < |rules| ==> !Within(rules[k].needs, base)
    ensures Least(base, base, multiset(rules))
  {
    assert forall e :: e in multiset(rules) ==> e in rules;
  }

  lemma LeastIsUnique(a: set<string>, b: set<string>, base: set<string>, rules: multiset<Entry>)
    requires Least(a, base, rules) && Least(b, base, rules)
    ensures a == b
  {
  }

  // The order in which waiters were added, and in which they fire, does not matter.
  lemma OrderIrrelevant(base: set<string>, rules: seq<Entry>, other: seq<Entry>)
    requires multiset(rules) == multiset(other)
    ensures Closure(base, rules) == Closure(base, other)
  {
    ClosureIsLeast(base, rules);
    ClosureIsLeast(base, other);
    LeastIsUnique(Closure(base, rules), Closure(base, other), base, multiset(rules));
  }

  // ---- The core object -------------------------------------------------------------------

  function Entries(fired: seq<Firing>): (r: seq<Entry>)
    ensures |r| == |fired| && forall k :: 0 <= k < |r| ==> r[k] == fired[k].entry
  {
    seq(|fired|, k requires 0 <= k < |fired| => fired[k].entry)
  }

  // Every callback called had all it needed then, and what it registers is there now.
  ghost predicate Sound(fired: seq<Firing>, there: set<string>) {
    forall f {:trigger SoundOne(f, there)} :: f in fired ==> SoundOne(f, there)
  }

  ghost predicate SoundOne(firing: Firing, there: set<string>) {
    && Within(firing.entry.needs, firing.present)
    && firing.present <= there
    && Within(firing.entry.offers, there)
  }

  ghost predicate Quiet(waiters: seq<Entry>, there: set<string>) {
    forall e {:trigger Blocked(e, there)} :: e in waiters ==> Blocked(e, there)
  }

  predicate Blocked(entry: Entry, there: set<string>) {
    !Within(entry.needs, there)
  }

  // Nothing but this one occurrence of entry can be ready.
  ghost predicate QuietBut(entry: Entry, waiters: seq<Entry>, there: set<string>) {
    forall e {:trigger Blocked(e, there)} :: e in multiset(waiters) - multiset{entry} ==> Blocked(e, there)
  }

  // Each firing took one waiter off the list.
  ghost predicate Accounts(waiters: seq<Entry>, left: seq<Entry>, fired: seq<Firing>) {
    multiset(waiters) == multiset(left) + multiset(Entries(fired))
  }

  // Nothing is registered that base and the waiters do not force.
  ghost predicate Forced(base: set<string>, waiters: seq<Entry>, there: set<string>) {
    forall bound :: base <= bound && Closed(bound, multiset(waiters)) ==> there <= bound
  }

  // What a stretch of work does, `more` being its firings.
  ghost predicate Progress(
    base: set<string>, waiters: seq<Entry>, there: set<string>, left: seq<Entry>, more: seq<Firing>)
  {
    base <= there && Accounts(waiters, left, more) && Sound(more, there) && Forced(base, waiters, there)
  }

  lemma NoProgress(base: set<string>, waiters: seq<Entry>)
    ensures Progress(base, waiters, base, waiters, [])
  {
  }

  lemma AccountsThen(
    waiters: seq<Entry>, left: seq<Entry>, more: seq<Firing>, added: seq<Entry>, left': seq<Entry>, more': seq<Firing>)
    requires Accounts(waiters, left, more) && Accounts(left + added, left', more')
    ensures Accounts(waiters + added, left', more + more')
  {
    assert Entries(more + more') == Entries(more) + Entries(more');
    Sums(multiset(waiters), multiset(left), multiset(Entries(more)), multiset(added),
         multiset(left'), multiset(Entries(more')));
  }

  lemma Sums<T>(
    all: multiset<T>, left: multiset<T>, more: multiset<T>, added: multiset<T>, left': multiset<T>, more': multiset<T>)
    requires all == left + more && left + added == left' + more'
    ensures all + added == left' + (more + more')
  {
    forall x: T
      ensures (all + added)[x] == (left' + (more + more'))[x]
    {
      assert (left + added)[x] == (left' + more')[x];
    }
  }

  lemma FewerRules(bound: set<string>, rules: multiset<Entry>, fewer: multiset<Entry>)
    requires Closed(bound, rules) && fewer <= rules
    ensures Closed(bound, fewer)
  {
    assert forall e :: e in fewer ==> e in rules;
  }

  lemma ForcedThen(
    base: set<string>, waiters: seq<Entry>, there: set<string>, left: seq<Entry>,
    extra: set<string>, added: seq<Entry>, there': set<string>)
    requires Forced(base, waiters, there) && multiset(left) <= multiset(waiters)
    requires Forced(there + extra, left + added, there')
    ensures Forced(base + extra, waiters + added, there')
  {
    forall bound | base + extra <= bound && Closed(bound, multiset(waiters + added))
      ensures there' <= bound
    {
      FewerRules(bound, multiset(waiters + added), multiset(waiters));
      assert base <= bound && there <= bound;
      FewerRules(bound, multiset(waiters + added), multiset(left + added));
      assert there + extra <= bound;
    }
  }

  // One stretch of work after another, with names registered and waiters added in between.
  lemma ProgressThen(
    base: set<string>, waiters: seq<Entry>, there: set<string>, left: seq<Entry>, more: seq<Firing>,
    extra: set<string>, added: seq<Entry>, there': set<string>, left': seq<Entry>, more': seq<Firing>)
    requires Progress(base, waiters, there, left, more)
    requires Progress(there + extra, left + added, there', left', more')
    ensures Progress(base + extra, waiters + added, there', left', more + more')
  {
    AccountsThen(waiters, left, more, added, left', more');
    SoundThen(more, there, more', there');
    ForcedThen(base, waiters, there, left, extra, added, there');
  }

  // The same with nothing in between, f0, f1 and f2 being the log so far at each point.
  lemma ProgressOn(
    base: set<string>, waiters: seq<Entry>, f0: seq<Firing>, there: set<string>, left: seq<Entry>, f1: seq<Firing>,
    there': set<string>, left': seq<Entry>, f2: seq<Firing>)
    requires f0 <= f1 <= f2
    requires Progress(base, waiters, there, left, f1[|f0|..])
    requires Progress(there, left, there', left', f2[|f1|..])
    ensures Progress(base, waiters, there', left', f2[|f0|..])
  {
    assert there + {} == there && base + {} == base && left + [] == left && waiters + [] == waiters;
    ProgressThen(base, waiters, there, left, f1[|f0|..], {}, [], there', left', f2[|f1|..]);
    assert f2[|f0|..] == f1[|f0|..] + f2[|f1|..];
  }

  lemma SoundThen(more: seq<Firing>, there: set<string>, more': seq<Firing>, there': set<string>)
    requires Sound(more, there) && Sound(more', there') && there <= there'
    ensures Sound(more + more', there')
  {
    forall f | f in more + more'
      ensures SoundOne(f, there')
    {
      assert f in more ==> SoundOne(f, there);
    }
  }

  // Calling one ready waiter's callback.
  lemma FiringProgress(
    base: set<string>, waiters: seq<Entry>, entry: Entry, rest: seq<Entry>,
    there: set<string>, left: seq<Entry>, more: seq<Firing>)
    requires Within(entry.needs, base) && multiset(waiters) == multiset(rest) + multiset{entry}
    requires Progress(base + Sets.SetOf(entry.offers), rest, there, left, more)
    ensures Progress(base, waiters, there, left, [Firing(entry, base)] + more)
  {
    var first := Firing(entry, base);
    assert Accounts(waiters, left, [first] + more) by {
      assert Entries([first] + more) == [entry] + Entries(more);
    }
    assert Sound([first] + more, there) by {
      assert forall n :: n in entry.offers ==> n in Sets.SetOf(entry.offers);
      assert SoundOne(first, there);
      SoundThen([first], there, more, there);
    }
    forall bound | base <= bound && Closed(bound, multiset(waiters))
      ensures there <= bound
    {
      assert entry in multiset(waiters) && Within(entry.needs, bound);
      FewerRules(bound, multiset(waiters), multiset(rest));
    }
  }

  lemma QuietRest(entry: Entry, waiters: seq<Entry>, rest: seq<Entry>, there: set<string>)
    requires QuietBut(entry, waiters, there) && multiset(waiters) == multiset(rest) + multiset{entry}
    ensures Quiet(rest, there)
  {
    assert multiset(waiters) - multiset{entry} == multiset(rest);
    assert forall e :: e in rest ==> e in multiset(rest);
  }

  lemma QuietAll(entry: Entry, waiters: seq<Entry>, there: set<string>)
    requires QuietBut(entry, waiters, there) && (entry in waiters ==> !Within(entry.needs, there))
    ensures Quiet(waiters, there)
  {
    forall e | e in waiters
      ensures Blocked(e, there)
    {
      assert e in multiset(waiters);
      assert e == entry || e in multiset(waiters) - multiset{entry};
    }
  }

  lemma QuietSnoc(entries: seq<Entry>, i: nat, there: set<string>)
    requires i < |entries| && Quiet(entries[..i], there) && Blocked(entries[i], there)
    ensures Quiet(entries[..i + 1], there)
  {
    assert entries[..i + 1] == entries[..i] + [entries[i]];
  }

  lemma QuietAdded(entry: Entry, waiters: seq<Entry>, there: set<string>)
    requires Quiet(waiters, there)
    ensures QuietBut(entry, waiters + [entry], there)
  {
    assert multiset(waiters + [entry]) - multiset{entry} == multiset(waiters);
  }

  lemma OfferedMore(base: set<string>, offers: seq<string>, i: nat)
    requires i < |offers|
    ensures base + Sets.SetOf(offers[..i]) + {offers[i]} == base + Sets.SetOf(offers[..i + 1])
  {
    assert offers[..i + 1] == offers[..i] + [offers[i]];
  }

  class Core {
    var components: set<string>
    var waiters: seq<Entry>
    var fired: seq<Firing>

    constructor ()
      ensures components == {} && waiters == [] && fired == []
    {
      components, waiters, fired := {}, [], [];
    }

    // register
    method Register(name: string)
      modifies this
      decreases |waiters|, 4
      ensures |waiters| <= old(|waiters|) && old(fired) <= fired
      ensures Progress(old(components) + {name}, old(waiters), components, waiters, fired[|old(fired)|..])
      ensures Quiet(waiters, components)
    {
      components := components + {name};
      TryWaiters();
    }

    // _try_waiters
    method TryWaiters()
      modifies this
      decreases |waiters|, 3
      ensures |waiters| <= old(|waiters|) && old(fired) <= fired
      ensures Progress(old(components), old(waiters), components, waiters, fired[|old(fired)|..])
      ensures Quiet(waiters, components)
    {
      NoProgress(components, waiters);
      var changed := true;
      while changed
        invariant |waiters| <= old(|waiters|) && old(fired) <= fired
        invariant Progress(old(components), old(waiters), components, waiters, fired[|old(fired)|..])
        invariant !changed ==> Quiet(waiters, components)
        decreases |waiters|, changed
      {
        ghost var c, w, f := components, waiters, fired;
        changed := OnePass();
        ProgressOn(old(components), old(waiters), old(fired), c, w, f, components, waiters, fired);
      }
    }

    // One round of the loop over a copy of the waiters; says whether any of them fired.
    method OnePass() returns (changed: bool)
      modifies this
      decreases |waiters|, 2
      ensures old(fired) <= fired
      ensures Progress(old(components), old(waiters), components, waiters, fired[|old(fired)|..])
      ensures if changed then |waiters| < |old(waiters)| else waiters == old(waiters) && Quiet(waiters, components)
    {
      NoProgress(components, waiters);
      changed := false;
      var entries := waiters;
      for i := 0 to |entries|
        invariant old(fired) <= fired
        invariant Progress(old(components), old(waiters), components, waiters, fired[|old(fired)|..])
        invariant changed ==> |waiters| < |old(waiters)|
        invariant !changed ==> waiters == old(waiters) && components == old(components)
        invariant !changed ==> Quiet(entries[..i], components)
      {
        ghost var c, w, f := components, waiters, fired;
        var ready := TryWaiter(entries[i]);
        ProgressOn(old(components), old(waiters), old(fired), c, w, f, components, waiters, fired);
        if ready {
          changed := true;
        }
        if !changed {
          QuietSnoc(entries, i, components);
        }
      }
      assert entries[..|entries|] == entries;
    }

    // _try_waiter
    method TryWaiter(entry: Entry) returns (ready: bool)
      modifies this
      decreases |waiters|, 1
      ensures old(fired) <= fired
      ensures Progress(old(components), old(waiters), components, waiters, fired[|old(fired)|..])
      ensures ready <==> entry in old(waiters) && Within(entry.needs, old(components))
      ensures ready ==> |waiters| < |old(waiters)|
      ensures !ready ==> waiters == old(waiters) && components == old(components) && fired == old(fired)
      ensures QuietBut(entry, old(waiters), old(components)) ==> Quiet(waiters, components)
    {
      NoProgress(components, waiters);
      if QuietBut(entry, waiters, components) && (entry in waiters ==> !Within(entry.needs, components)) {
        QuietAll(entry, waiters, components);
      }
      if entry !in waiters {
        return false;
      }
      var present := AllPresent(entry.needs);
      if !present {
        return false;
      }
      Fire(entry);
      ready := true;
    }

    method Fire(entry: Entry)
      requires entry in waiters && Within(entry.needs, components)
      modifies this
      decreases |waiters|, 0
      ensures old(fired) <= fired && |waiters| < |old(waiters)|
      ensures Progress(old(components), old(waiters), components, waiters, fired[|old(fired)|..])
      ensures QuietBut(entry, old(waiters), old(components)) ==> Quiet(waiters, components)
    {
      Remove(entry);
      ghost var rest := waiters;
      if QuietBut(entry, old(waiters), components) {
        QuietRest(entry, old(waiters), rest, components);
      }
      RunCallback(entry);
      FiringProgress(old(components), old(waiters), entry, rest, components, waiters, fired[|old(fired)| + 1..]);
      assert fired[|old(fired)|..] == [Firing(entry, old(components))] + fired[|old(fired)| + 1..];
    }

    // The loop over a waiter's components.
    method AllPresent(needs: seq<string>) returns (present: bool)
      ensures present <==> Within(needs, components)
    {
      for i := 0 to |needs|
        invariant forall k :: 0 <= k < i ==> needs[k] in components
      {
        if needs[i] !in components {
          return false;
        }
      }
      present := true;
    }

    // list.remove
    method Remove(entry: Entry)
      requires entry in waiters
      modifies this`waiters
      ensures multiset(old(waiters)) == multiset(waiters) + multiset{entry}
      ensures |waiters| == |old(waiters)| - 1
    {
      var i := 0;
      while waiters[i] != entry
        invariant i < |waiters| && waiters == old(waiters) && entry in waiters[i..]
        decreases |waiters| - i
      {
        i := i + 1;
      }
      TakeOut(waiters, i);
      waiters := waiters[..i] + waiters[i + 1..];
    }

    // The callback: it registers its names one after the other.
    method RunCallback(entry: Entry)
      modifies this
      decreases |waiters|, 5
      ensures old(fired) + [Firing(entry, old(components))] <= fired && |waiters| <= |old(waiters)|
      ensures Progress(old(components) + Sets.SetOf(entry.offers), old(waiters),
                       components, waiters, fired[|old(fired)| + 1..])
      ensures Quiet(old(waiters), old(components)) ==> Quiet(waiters, components)
    {
      ghost var base, start := components, |fired| + 1;
      fired := fired + [Firing(entry, components)];
      NoProgress(components, waiters);
      assert base + Sets.SetOf([]) == base;
      for i := 0 to |entry.offers|
        invariant old(fired) + [Firing(entry, old(components))] <= fired && |waiters| <= |old(waiters)|
        invariant Progress(base + Sets.SetOf(entry.offers[..i]), old(waiters), components, waiters, fired[start..])
        invariant Quiet(old(waiters), old(components)) ==> Quiet(waiters, components)
      {
        ghost var c, w, f := components, waiters, fired;
        Register(entry.offers[i]);
        assert w + [] == w && old(waiters) + [] == old(waiters);
        ProgressThen(base + Sets.SetOf(entry.offers[..i]), old(waiters), c, w, f[start..],
                     {entry.offers[i]}, [], components, waiters, fired[|f|..]);
        assert fired[start..] == f[start..] + fired[|f|..];
        OfferedMore(base, entry.offers, i);
      }
      assert entry.offers[..|entry.offers|] == entry.offers;
    }

    // call_when_ready
    method CallWhenReady(entry: Entry)
      modifies this
      ensures old(fired) <= fired
      ensures Progress(old(components), old(waiters) + [entry], components, waiters, fired[|old(fired)|..])
      ensures Quiet(old(waiters), old(components)) ==> Quiet(waiters, components)
    {
      waiters := waiters + [entry];
      if Quiet(old(waiters), components) {
        QuietAdded(entry, old(waiters), components);
      }
      var ready := TryWaiter(entry);
    }

    method Make(call: Call)
      requires Quiet(waiters, components)
      modifies this
      ensures old(fired) <= fired && Quiet(waiters, components)
      ensures Progress(old(components) + NameIn(call), old(waiters) + EntryIn(call),
                       components, waiters, fired[|old(fired)|..])
    {
      match call {
        case Register(name) =>
          assert waiters + [] == waiters;
          Register(name);
        case WhenReady(entry) =>
          assert components + {} == components;
          CallWhenReady(entry);
      }
    }
  }
  // ---- Whole runs ------------------------------------------------------------------------

  // The calls made from outside any callback.
  datatype Call = Register(name: string) | WhenReady(entry: Entry)

  function NameIn(call: Call): set<string> {
    if call.Register? then {call.name} else {}
  }

  function EntryIn(call: Call): seq<Entry> {
    if call.WhenReady? then [call.entry] else []
  }

  function Names(calls: seq<Call>): set<string> {
    if calls == [] then {} else Names(calls[..|calls| - 1]) + NameIn(calls[|calls| - 1])
  }

  function EntriesOf(calls: seq<Call>): seq<Entry> {
    if calls == [] then [] else EntriesOf(calls[..|calls| - 1]) + EntryIn(calls[|calls| - 1])
  }

  lemma QuietIsClosed(all: seq<Entry>, there: set<string>, waiters: seq<Entry>, fired: seq<Firing>)
    requires Accounts(all, waiters, fired) && Sound(fired, there) && Quiet(waiters, there)
    ensures Closed(there, multiset(all))
  {
    forall e | e in multiset(all) && Within(e.needs, there)
      ensures Within(e.offers, there)
    {
      assert e in waiters ==> Blocked(e, there);
      if e !in multiset(waiters) {
        assert e in multiset(Entries(fired));
        var k :| 0 <= k < |fired| && Entries(fired)[k] == e;
        assert SoundOne(fired[k], there);
      }
    }
  }

  // After any calls: each waiter was fired once or still waits, none that could fire is left,
  // and what is registered is the closure of the names registered from outside.
  method MakeCalls(calls: seq<Call>) returns (components: set<string>, waiters: seq<Entry>, fired: seq<Firing>)
    ensures components == Closure(Names(calls), EntriesOf(calls))
    ensures Accounts(EntriesOf(calls), waiters, fired)
    ensures Sound(fired, components) && Quiet(waiters, components)
  {
    var core := new Core();
    NoProgress({}, []);
    for k := 0 to |calls|
      invariant Progress(Names(calls[..k]), EntriesOf(calls[..k]), core.components, core.waiters, core.fired)
      invariant Quiet(core.waiters, core.components)
    {
      ghost var c, w, f := core.components, core.waiters, core.fired;
      assert calls[..k + 1][..k] == calls[..k];
      core.Make(calls[k]);
      ProgressThen(Names(calls[..k]), EntriesOf(calls[..k]), c, w, f,
                   NameIn(calls[k]), EntryIn(calls[k]), core.components, core.waiters, core.fired[|f|..]);
      assert core.fired == f + core.fired[|f|..];
    }
    assert calls[..|calls|] == calls;
    components, waiters, fired := core.components, core.waiters, core.fired;
    QuietIsClosed(EntriesOf(calls), components, waiters, fired);
    ClosureIsLeast(Names(calls), EntriesOf(calls));
    LeastIsUnique(components, Closure(Names(calls), EntriesOf(calls)), Names(calls), multiset(EntriesOf(calls)));
  }

  // The same calls in any order leave the same components registered.
  lemma CallOrderIrrelevant(calls: seq<Call>, other: seq<Call>)
    requires multiset(calls) == multiset(other)
    ensures Closure(Names(calls), EntriesOf(calls)) == Closure(Names(other), EntriesOf(other))
  {
    SameNames(calls, other);
    SameEntries(calls, other);
    OrderIrrelevant(Names(calls), EntriesOf(calls), EntriesOf(other));
  }

  lemma {:induction false} NamesAre(calls: seq<Call>, n: string)
    ensures n in Names(calls) <==> multiset(calls)[Call.Register(n)] > 0
  {
    if calls != [] {
      NamesAre(calls[..|calls| - 1], n);
      assert calls == calls[..|calls| - 1] + [calls[|calls| - 1]];
    }
  }

  lemma SameNames(calls: seq<Call>, other: seq<Call>)
    requires multiset(calls) == multiset(other)
    ensures Names(calls) == Names(other)
  {
    forall n: string
      ensures n in Names(calls) <==> n in Names(other)
    {
      NamesAre(calls, n);
      NamesAre(other, n);
    }
  }

  lemma CountBoth<T>(a: seq<T>, b: seq<T>, x: T)
    ensures multiset(a + b)[x] == multiset(a)[x] + multiset(b)[x]
  {
  }

  lemma CountOne(call: Call, e: Entry)
    ensures multiset(EntryIn(call))[e] == multiset([call])[WhenReady(e)]
  {
  }

  lemma {:induction false} CountEntries(calls: seq<Call>, e: Entry)
    ensures multiset(EntriesOf(calls))[e] == multiset(calls)[WhenReady(e)]
  {
    if calls != [] {
      var before, last := calls[..|calls| - 1], calls[|calls| - 1];
      CountEntries(before, e);
      assert calls == before + [last];
      CountBoth(before, [last], WhenReady(e));
      CountBoth(EntriesOf(before), EntryIn(last), e);
      CountOne(last, e);
    }
  }

  lemma SameEntries(calls: seq<Call>, other: seq<Call>)
    requires multiset(calls) == multiset(other)
    ensures multiset(EntriesOf(calls)) == multiset(EntriesOf(other))
  {
    forall e: Entry
      ensures multiset(EntriesOf(calls))[e] == multiset(EntriesOf(other))[e]
    {
      CountEntries(calls, e);
      CountEntries(other, e);
    }
  }
}
