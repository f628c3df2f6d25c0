/** The dashboard's background change detector: every tick it counts the
    customers (the `users` table) and the orders, compares each count with the
    one remembered from the previous tick, and announces growth to the connected
    dashboards. The counts come from the store and are inputs here; the
    announcements are returned as a sequence of events instead of being
    broadcast. */
module ChangeDetection {

  /** One notification: a customer count or an order count grew by `diff`. */
  datatype Event = NewClients(diff: nat) | NewOrders(diff: nat)

  /** The outcome of one `SELECT COUNT(*)` query: the count, or an exception. */
  datatype CountQuery = Count(n: nat) | QueryFailed

  /** The two query outcomes of one tick: customers first, then orders. */
  datatype Sample = Sample(users: CountQuery, orders: CountQuery)

  /** The remembered counts, `lastUserCount` and `lastOrderCount`. */
  datatype Baseline = Baseline(users: nat, orders: nat)

  /** Both module-level variables start at 0 when the process starts. */
  const Initial := Baseline(0, 0)

  /** The two counters, each of which the poller watches on its own. */
  datatype Counter = Clients | Orders

  function Of(b: Baseline, c: Counter): nat
  {
    match c
    case Clients => b.users
    case Orders => b.orders
  }

  function QueryOf(s: Sample, c: Counter): CountQuery
  {
    match c
    case Clients => s.users
    case Orders => s.orders
  }

  /** Both queries returned; a failure of either one aborts the tick. */
  predicate Succeeded(s: Sample)
  {
    s.users.Count? && s.orders.Count?
  }

  /** JavaScript truthiness of a remembered count: 0 is falsy, so a baseline of 0
      is indistinguishable from "no baseline yet". */
  predicate Truthy(n: nat)
  {
    n != 0
  }

  /** The events of a tick whose two queries returned `users` and `orders`:
      at most one per counter, each for a strictly positive growth, the
      customer event first. */
  function TickEvents(last: Baseline, users: nat, orders: nat): (r: seq<Event>)
    ensures |r| <= 2
    ensures forall i :: 0 <= i < |r| ==> r[i].diff > 0
    ensures forall i, j :: 0 <= i < j < |r| ==> r[i].NewClients? && r[j].NewOrders?
  {
    (if Truthy(last.users) && users > last.users then [NewClients(users - last.users)] else [])
    + (if Truthy(last.orders) && orders > last.orders then [NewOrders(orders - last.orders)] else [])
  }

  /** One tick on values: the new baseline and the events. A failed query
      skips the comparison and the assignments alike. */
  function Step(last: Baseline, s: Sample): (r: (Baseline, seq<Event>))
    ensures !Succeeded(s) ==> r == (last, [])
    ensures Succeeded(s) ==> r.0 == Baseline(s.users.n, s.orders.n)
    ensures r.1 != [] ==> Succeeded(s) && (last.users != 0 || last.orders != 0)
    ensures |r.1| <= 2
  {
    if Succeeded(s) then
      (Baseline(s.users.n, s.orders.n), TickEvents(last, s.users.n, s.orders.n))
    else
      (last, [])
  }

  /** Successive ticks from baseline `last`: the final baseline and all events
      in the order they were announced. */
  function Run(last: Baseline, samples: seq<Sample>): (r: (Baseline, seq<Event>))
    ensures |r.1| <= 2 * |samples|
    decreases |samples|
  {
    if samples == [] then (last, [])
    else
      var (next, events) := Step(last, samples[0]);
      var (final, later) := Run(next, samples[1..]);
      (final, events + later)
  }

  /** The diffs that `events` announce for counter `c`, in order. */
  function Reported(events: seq<Event>, c: Counter): seq<nat>
    decreases |events|
  {
    if events == [] then []
    else
      var e := events[0];
      var mine := match c
        case Clients => e.NewClients?
        case Orders => e.NewOrders?;
      (if mine then [e.diff] else []) + Reported(events[1..], c)
  }

  function Sum(s: seq<nat>): nat
    decreases |s|
  {
    if s == [] then 0 else s[0] + Sum(s[1..])
  }

  lemma {:induction false} ReportedAppend(a: seq<Event>, b: seq<Event>, c: Counter)
    ensures Reported(a + b, c) == Reported(a, c) + Reported(b, c)
    decreases |a|
  {
    if a == [] {
      assert a + b == b;
    } else {
      assert (a + b)[1..] == a[1..] + b;
      ReportedAppend(a[1..], b, c);
    }
  }

  lemma {:induction false} SumAppend(a: seq<nat>, b: seq<nat>)
    ensures Sum(a + b) == Sum(a) + Sum(b)
    decreases |a|
  {
    if a == [] {
      assert a + b == b;
    } else {
      assert (a + b)[1..] == a[1..] + b;
      SumAppend(a[1..], b);
    }
  }

  /** Per counter, a tick announces `count - previous` exactly when both
      queries succeeded, the previous count is non-zero and the new count is
      larger; otherwise it announces nothing for that counter. The other
      counter's numbers play no part. */
  lemma StepReported(last: Baseline, s: Sample, c: Counter)
    ensures Reported(Step(last, s).1, c)
      == if Succeeded(s) && Of(last, c) != 0 && QueryOf(s, c).n > Of(last, c)
         then [QueryOf(s, c).n - Of(last, c)] else []
  {
    var events := Step(last, s).1;
    if Succeeded(s) {
      var u := if Truthy(last.users) && s.users.n > last.users then [NewClients(s.users.n - last.users)] else [];
      var o := if Truthy(last.orders) && s.orders.n > last.orders then [NewOrders(s.orders.n - last.orders)] else [];
      assert events == u + o;
      ReportedAppend(u, o, c);
      assert Reported(u, c) == if c == Clients && u != [] then [u[0].diff] else [] by {
        if u != [] { assert u[1..] == []; }
      }
      assert Reported(o, c) == if c == Orders && o != [] then [o[0].diff] else [] by {
        if o != [] { assert o[1..] == []; }
      }
    }
  }

  /** While a counter's baseline is 0, the first tick included, a tick never
      announces that counter, whatever it samples. */
  lemma ZeroBaselineSilent(last: Baseline, s: Sample, c: Counter)
    requires Of(last, c) == 0
    ensures Reported(Step(last, s).1, c) == []
  {
    StepReported(last, s, c);
  }

  /** The first tick after start-up announces nothing at all. */
  lemma StartupTickSilent(s: Sample)
    ensures Step(Initial, s) == (if Succeeded(s) then Baseline(s.users.n, s.orders.n) else Initial, [])
  {
  }

  /** A positive baseline and a larger count give exactly one event for that
      counter, carrying the growth, whatever the other counter does. */
  lemma GrowthAnnounced(last: Baseline, s: Sample, c: Counter)
    requires Succeeded(s)
    requires Of(last, c) > 0 && QueryOf(s, c).n > Of(last, c)
    ensures Reported(Step(last, s).1, c) == [QueryOf(s, c).n - Of(last, c)]
  {
    StepReported(last, s, c);
  }

  /** An equal or smaller count announces nothing for that counter, and the
      baseline still takes the new, possibly smaller, value. */
  lemma NoGrowthAbsorbed(last: Baseline, s: Sample, c: Counter)
    requires Succeeded(s)
    requires QueryOf(s, c).n <= Of(last, c)
    ensures Reported(Step(last, s).1, c) == []
    ensures Of(Step(last, s).0, c) == QueryOf(s, c).n
  {
    StepReported(last, s, c);
  }

  /** After a successful tick the baseline is the sample, so the same counts
      again change nothing and announce nothing. */
  lemma RepeatTickSilent(last: Baseline, users: nat, orders: nat)
    ensures Step(last, Sample(Count(users), Count(orders))).0 == Baseline(users, orders)
    ensures var next := Step(last, Sample(Count(users), Count(orders))).0;
      Step(next, Sample(Count(users), Count(orders))) == (next, [])
  {
  }

  /** A tick in which either query fails announces nothing and keeps the baseline. */
  lemma FailedTickChangesNothing(last: Baseline, s: Sample)
    requires !Succeeded(s)
    ensures Step(last, s) == (last, [])
  {
  }

  /** Two worked cases: 10 customers and 4 orders, then 13 and 4, announces
      three new customers only; then 8 and 4 announces nothing and remembers 8. */
  lemma WorkedTicks()
    ensures Step(Baseline(10, 4), Sample(Count(13), Count(4))) == (Baseline(13, 4), [NewClients(3)])
    ensures Step(Baseline(10, 4), Sample(Count(8), Count(4))) == (Baseline(8, 4), [])
  {
    assert Succeeded(Sample(Count(13), Count(4)));
    assert Truthy(10);
    assert TickEvents(Baseline(10, 4), 13, 4) == [NewClients(3)] + [];
    assert [NewClients(3)] + [] == [NewClients(3)];
  }

  /** Since a drop is absorbed, customers deleted and then registered again
      are announced a second time, unless the deletions emptied the table:
      a remembered 0 then hides the regrowth. */
  lemma DropThenRegrow(users: nat, dropped: nat, orders: nat)
    requires dropped < users
    ensures Run(Baseline(users, orders), [Sample(Count(dropped), Count(orders)), Sample(Count(users), Count(orders))])
      == (Baseline(users, orders), if dropped == 0 then [] else [NewClients(users - dropped)])
  {
    var s1, s2 := Sample(Count(dropped), Count(orders)), Sample(Count(users), Count(orders));
    var samples := [s1, s2];
    assert samples[1..] == [s2];
    assert samples[1..][1..] == [];
    assert TickEvents(Baseline(users, orders), dropped, orders) == [] + [];
    var regrown := if dropped == 0 then [] else [NewClients(users - dropped)];
    assert TickEvents(Baseline(dropped, orders), users, orders) == regrown + [];
    assert regrown + [] == regrown;
    assert Step(Baseline(users, orders), s1) == (Baseline(dropped, orders), []);
    assert Step(Baseline(dropped, orders), s2) == (Baseline(users, orders), regrown);
    assert Run(Baseline(users, orders), []) == (Baseline(users, orders), []);
    assert Run(Baseline(dropped, orders), [s2]) == (Baseline(users, orders), regrown + []);
    assert [] + (regrown + []) == regrown;
  }

  /** Ticks that all fail leave the baseline alone and announce nothing. */
  lemma {:induction false} RunAllFailed(last: Baseline, samples: seq<Sample>)
    requires forall i :: 0 <= i < |samples| ==> !Succeeded(samples[i])
    ensures Run(last, samples) == (last, [])
    decreases |samples|
  {
    if samples != [] {
      RunAllFailed(last, samples[1..]);
    }
  }

  /** Counter `c` never drops below its baseline across the successful ticks. */
  predicate NeverDrops(base: nat, samples: seq<Sample>, c: Counter)
    decreases |samples|
  {
    if samples == [] then true
    else if Succeeded(samples[0]) then
      base <= QueryOf(samples[0], c).n && NeverDrops(QueryOf(samples[0], c).n, samples[1..], c)
    else NeverDrops(base, samples[1..], c)
  }

  /** Once a counter has a non-zero baseline and only grows, the diffs announced
      for it over any run of ticks, failed ones included, add up to exactly its
      total growth: nothing is lost and nothing is announced twice. */
  lemma {:induction false} RunReportsGrowth(last: Baseline, samples: seq<Sample>, c: Counter)
    requires Of(last, c) > 0
    requires NeverDrops(Of(last, c), samples, c)
    ensures Of(last, c) <= Of(Run(last, samples).0, c)
    ensures Sum(Reported(Run(last, samples).1, c)) == Of(Run(last, samples).0, c) - Of(last, c)
    decreases |samples|
  {
    if samples != [] {
      var (next, events) := Step(last, samples[0]);
      var (final, later) := Run(next, samples[1..]);
      StepReported(last, samples[0], c);
      RunReportsGrowth(next, samples[1..], c);
      ReportedAppend(events, later, c);
      SumAppend(Reported(events, c), Reported(later, c));
    }
  }

  /** The poller's module-level state and its tick. */
  class Poller {
    var lastUserCount: nat
    var lastOrderCount: nat

    function Current(): Baseline
      reads this
    {
      Baseline(lastUserCount, lastOrderCount)
    }

    constructor ()
      ensures Current() == Initial
    {
      lastUserCount := 0;
      lastOrderCount := 0;
    }

    /** One tick: the customer query, then the order query; an exception from
        either ends the tick before any announcement or assignment. */
    method PollDatabase(userQuery: CountQuery, orderQuery: CountQuery) returns (events: seq<Event>)
      modifies this
      ensures (Current(), events) == Step(old(Current()), Sample(userQuery, orderQuery))
    {
      events := [];
      if userQuery.QueryFailed? {
        return;
      }
      if orderQuery.QueryFailed? {
        return;
      }
      var userCount, orderCount := userQuery.n, orderQuery.n;
      ghost var last := Current();
      if Truthy(lastUserCount) && userCount > lastUserCount {
        events := events + [NewClients(userCount - lastUserCount)];
      }
      if Truthy(lastOrderCount) && orderCount > lastOrderCount {
        events := events + [NewOrders(orderCount - lastOrderCount)];
      }
      assert events == TickEvents(last, userCount, orderCount);
      lastUserCount := userCount;
      lastOrderCount := orderCount;
    }
  }
}
