/** What exchanges cost under a plan, read off the exchanges themselves: their clock readings,
    tokens and receipts. */
module Exchanges {
  import opened Machine
  import opened Arithmetic
  import opened Sequences
  import opened QuotaLedger
  import opened Settlement
  import opened QuotaTracker

  datatype Exchange = Exchange(receipt: Option<string>, at: U64, usage: Option<Usage>)

  /** How an exchange is settled under a plan. */
  function Charge(plan: Plan, x: Exchange): Settled {
    Settled(x.receipt, x.at, Amount(plan, x.usage), x.usage.None?)
  }

  function Charges(plan: Plan, xs: seq<Exchange>): seq<Settled> {
    if xs == [] then [] else Charges(plan, xs[..|xs| - 1]) + [Charge(plan, xs[|xs| - 1])]
  }

  /** What an exchange costs, without any cap: one request, or the tokens reported for it. */
  function Cost(unit: PlanUnit, usage: Option<Usage>): nat {
    match unit
    case Requests => 1
    case Tokens => if usage.Some? then usage.value.inputTokens + usage.value.outputTokens else 0
  }

  /** Everything the exchanges of bucket `b` cost. */
  function SpentIn(unit: PlanUnit, len: U64, xs: seq<Exchange>, b: int): nat
    requires len >= 1
  {
    if xs == [] then 0
    else
      var last := xs[|xs| - 1];
      SpentIn(unit, len, xs[..|xs| - 1], b) + (if last.at / len == b then Cost(unit, last.usage) else 0)
  }

  /** The exchanges that reported no usage. */
  function Unmetered(xs: seq<Exchange>): nat {
    if xs == [] then 0 else Unmetered(xs[..|xs| - 1]) + (if xs[|xs| - 1].usage.None? then 1 else 0)
  }

  /** The clock readings of the exchanges, each as one event. */
  function Clocks(xs: seq<Exchange>): seq<Event> {
    seq(|xs|, i requires 0 <= i < |xs| => Event(xs[i].at, 1))
  }

  /** What the exchanges have used of a window at a clock reading: the bucket read in full, the one
      before in proportion to what the sliding window covers of it, or both stored buckets when the
      clock is behind the newest exchange. */
  function Used(unit: PlanUnit, len: U64, xs: seq<Exchange>, now: U64): int
    requires len >= 1
  {
    var newest := NewestBucket(len, Clocks(xs));
    if now / len >= newest
    then SlidingUsage(len, SpentIn(unit, len, xs, now / len), SpentIn(unit, len, xs, now / len - 1), now)
    else Min(Capped(SpentIn(unit, len, xs, newest)) + Capped(SpentIn(unit, len, xs, newest - 1)), U64_MAX)
  }

  // ----- The settled amounts add up to the costs -----

  lemma EventsSnoc(run: seq<Settled>, last: Settled)
    ensures Events(run + [last]) == Events(run) + [Event(last.at, last.amount)]
  {
  }

  lemma TotalSnoc(len: U64, log: seq<Event>, e: Event, b: int)
    requires len >= 1
    ensures BucketTotal(len, log + [e], b) == BucketTotal(len, log, b) + (if e.at / len == b then e.amount else 0)
  {
    assert (log + [e])[..|log|] == log;
  }

  lemma NewestSnoc(len: U64, log: seq<Event>, e: Event)
    requires len >= 1
    ensures 0 <= e.at / len && NewestBucket(len, log + [e]) == Max(NewestBucket(len, log), e.at / len)
  {
    assert (log + [e])[..|log|] == log;
    QuotientFits(e.at, len);
  }

  /** A token plan charges an exchange its input and output tokens, a request plan one request. */
  lemma AmountIsCost(plan: Plan, usage: Option<Usage>)
    ensures Amount(plan, usage) == Capped(Cost(plan.unit, usage))
  {
  }

  /** Capping every charge and then their sum is capping the sum of the costs. */
  lemma {:induction false} TotalIsSpent(plan: Plan, len: U64, xs: seq<Exchange>, b: int)
    requires len >= 1
    ensures Capped(BucketTotal(len, Events(Charges(plan, xs)), b)) == Capped(SpentIn(plan.unit, len, xs, b))
  {
    if xs != [] {
      var front, last := xs[..|xs| - 1], xs[|xs| - 1];
      TotalIsSpent(plan, len, front, b);
      EventsSnoc(Charges(plan, front), Charge(plan, last));
      TotalSnoc(len, Events(Charges(plan, front)), Event(last.at, Amount(plan, last.usage)), b);
      AmountIsCost(plan, last.usage);
    }
  }

  lemma {:induction false} NewestIsLastClock(plan: Plan, len: U64, xs: seq<Exchange>)
    requires len >= 1
    ensures NewestBucket(len, Events(Charges(plan, xs))) == NewestBucket(len, Clocks(xs))
  {
    if xs != [] {
      var front, last := xs[..|xs| - 1], xs[|xs| - 1];
      NewestIsLastClock(plan, len, front);
      EventsSnoc(Charges(plan, front), Charge(plan, last));
      NewestSnoc(len, Events(Charges(plan, front)), Event(last.at, Amount(plan, last.usage)));
      NewestSnoc(len, Clocks(front), Event(last.at, 1));
      assert Clocks(xs) == Clocks(front) + [Event(last.at, 1)];
    }
  }

  /** What the windows of a plan count is what the exchanges cost. */
  lemma UsedIsLogged(plan: Plan, len: U64, xs: seq<Exchange>, now: U64)
    requires len >= 1
    ensures LoggedUsage(len, Events(Charges(plan, xs)), now) == Used(plan.unit, len, xs, now)
  {
    var newest: int := NewestBucket(len, Clocks(xs));
    NewestIsLastClock(plan, len, xs);
    TotalIsSpent(plan, len, xs, now / len);
    TotalIsSpent(plan, len, xs, now / len - 1);
    TotalIsSpent(plan, len, xs, newest);
    TotalIsSpent(plan, len, xs, newest - 1);
  }

  lemma {:induction false} ChargesAreClocked(plan: Plan, xs: seq<Exchange>)
    ensures Ones(Events(Charges(plan, xs))) == Clocks(xs) == Events(Charges(plan.(unit := Requests), xs))
    ensures MissingCount(Charges(plan, xs)) == Unmetered(xs)
  {
    if xs != [] {
      var front, last := xs[..|xs| - 1], xs[|xs| - 1];
      ChargesAreClocked(plan, front);
      EventsSnoc(Charges(plan, front), Charge(plan, last));
      EventsSnoc(Charges(plan.(unit := Requests), front), Charge(plan.(unit := Requests), last));
      assert Clocks(xs) == Clocks(front) + [Event(last.at, 1)];
      assert Ones(Events(Charges(plan, xs))) == Ones(Events(Charges(plan, front))) + [Event(last.at, 1)];
      var all := Charges(plan, xs);
      assert all[..|all| - 1] == Charges(plan, front);
    } else {
      assert Ones(Events(Charges(plan, xs))) == [] == Clocks(xs);
      assert Events(Charges(plan.(unit := Requests), xs)) == [];
    }
  }

  /** The rate window counts each exchange once, whatever it cost. */
  lemma RequestsAreLogged(plan: Plan, len: U64, xs: seq<Exchange>, now: U64)
    requires len >= 1
    ensures LoggedUsage(len, Ones(Events(Charges(plan, xs))), now) == Used(Requests, len, xs, now)
  {
    ChargesAreClocked(plan, xs);
    UsedIsLogged(plan.(unit := Requests), len, xs, now);
  }

  // ----- The exchanges that count -----

  /** The first exchange of each receipt, and every exchange without one. */
  function FirstExchanges(xs: seq<Exchange>): seq<Exchange> {
    if xs == [] then []
    else
      var earlier, last := FirstExchanges(xs[..|xs| - 1]), xs[|xs| - 1];
      if last.receipt.Some? && exists x :: x in earlier && x.receipt == last.receipt then earlier else earlier + [last]
  }

  lemma ChargesSnoc(plan: Plan, xs: seq<Exchange>, last: Exchange)
    ensures Charges(plan, xs + [last]) == Charges(plan, xs) + [Charge(plan, last)]
  {
    assert (xs + [last])[..|xs|] == xs;
  }

  lemma {:induction false} ReceiptsOfCharges(plan: Plan, xs: seq<Exchange>, id: string)
    ensures id in Receipts(Charges(plan, xs)) <==> exists x :: x in xs && x.receipt == Some(id)
  {
    if xs != [] {
      var front, last := xs[..|xs| - 1], xs[|xs| - 1];
      ReceiptsOfCharges(plan, front, id);
      ReceiptsSnoc(Charges(plan, front), Charge(plan, last));
      assert forall x :: x in xs <==> x in front || x == last;
    }
  }

  /** The settlements counted are those of the first exchanges. */
  lemma {:induction false} FirstChargesArrive(plan: Plan, xs: seq<Exchange>)
    ensures FirstArrivals(Charges(plan, xs)) == Charges(plan, FirstExchanges(xs))
  {
    if xs != [] {
      var front, last := xs[..|xs| - 1], xs[|xs| - 1];
      FirstChargesArrive(plan, front);
      var all := Charges(plan, xs);
      assert all[..|all| - 1] == Charges(plan, front);
      ChargesSnoc(plan, FirstExchanges(front), last);
      if last.receipt.Some? {
        ReceiptsOfCharges(plan, FirstExchanges(front), last.receipt.value);
      }
    }
  }

  lemma {:induction false} ChargesWithout(plan: Plan, xs: seq<Exchange>, i: nat)
    requires i < |xs|
    ensures |Charges(plan, xs)| == |xs|
    ensures Charges(plan, xs)[i] == Charge(plan, xs[i])
    ensures Charges(plan, Without(xs, i)) == Without(Charges(plan, xs), i)
  {
    var n := |xs| - 1;
    if n > 0 {
      ChargesWithout(plan, xs[..n], if i < n then i else 0);
    }
    if i == n {
      assert Without(xs, i) == xs[..n];
    } else {
      assert Without(xs, i) == Without(xs[..n], i) + [xs[n]];
      ChargesSnoc(plan, Without(xs[..n], i), xs[n]);
    }
  }

  lemma {:induction false} ChargesOfPermutation(plan: Plan, a: seq<Exchange>, b: seq<Exchange>)
    requires multiset(a) == multiset(b)
    ensures multiset(Charges(plan, a)) == multiset(Charges(plan, b))
    decreases |a|
  {
    SameMultisetMembers(a, b);
    if a != [] {
      var i := LastElsewhere(a, b);
      ChargesOfPermutation(plan, a[..|a| - 1], Without(b, i));
      ChargesWithout(plan, b, i);
      MultisetWithout(Charges(plan, b), i);
    }
  }

  /** The saved account counts exactly these exchanges, and how many reported no usage. */
  ghost predicate CountsExchanges(saved: Saved, plan: Plan, xs: seq<Exchange>) {
    && saved.ledger == LedgerAll(FreshLedger(plan), Events(Charges(plan, xs)))
    && saved.unknownUsage == Capped(Unmetered(xs))
  }

  /** If repeats come soon enough, an account settling these exchanges counts the first exchange of
      each receipt, in any order. */
  lemma SettledExchangesCount(plan: Plan, baseline: bool, xs: seq<Exchange>, once: seq<Exchange>)
    requires RepeatsComeSoon(Charges(plan, xs)) && multiset(once) == multiset(FirstExchanges(xs))
    ensures CountsExchanges(RecordRun(FreshSaved(plan).(planChangedBaseline := baseline), Charges(plan, xs)), plan, once)
  {
    FirstChargesArrive(plan, xs);
    ChargesOfPermutation(plan, once, FirstExchanges(xs));
    BaselineIgnored(FreshSaved(plan), baseline, Charges(plan, xs));
    CountsEachOnce(plan.windows, plan.rateLimitPerMin, Charges(plan, xs), Charges(plan, once));
    ChargesAreClocked(plan, once);
  }

  /** The mark of a changed plan changes nothing about how settlements are counted. */
  lemma {:induction false} BaselineIgnored(s: Saved, baseline: bool, run: seq<Settled>)
    requires s.ledger.Valid()
    ensures RecordRun(s.(planChangedBaseline := baseline), run) == RecordRun(s, run).(planChangedBaseline := baseline)
  {
    if run != [] {
      BaselineIgnored(s, baseline, run[..|run| - 1]);
    }
  }

  // ----- What an account with these exchanges stores -----

  /** The window has this length and limit and holds the costs of its newest bucket and of the bucket
      before it, each capped. */
  predicate WindowStores(w: Window, spec: WindowSpec, unit: PlanUnit, xs: seq<Exchange>) {
    var len, newest: int := Max(spec.lenMs, 1), NewestBucket(Max(spec.lenMs, 1), Clocks(xs));
    w == Window(len, spec.limit, newest,
                Capped(SpentIn(unit, len, xs, newest)), Capped(SpentIn(unit, len, xs, newest - 1)))
  }

  lemma OneWindowStores(plan: Plan, spec: WindowSpec, xs: seq<Exchange>)
    ensures WindowStores(RecordAll(NewWindow(spec.lenMs, spec.limit), Events(Charges(plan, xs))), spec, plan.unit, xs)
  {
    var len := Max(spec.lenMs, 1);
    var newest: int := NewestBucket(len, Clocks(xs));
    WindowRefinesLog(spec.lenMs, spec.limit, Events(Charges(plan, xs)));
    NewestIsLastClock(plan, len, xs);
    TotalIsSpent(plan, len, xs, newest);
    TotalIsSpent(plan, len, xs, newest - 1);
  }

  /** Each window of the plan's ledger, and its rate window, holds what the exchanges cost in it. */
  lemma PlanStores(plan: Plan, xs: seq<Exchange>)
    ensures var l := LedgerAll(FreshLedger(plan), Events(Charges(plan, xs)));
      && |l.windows| == |plan.windows|
      && (forall i :: 0 <= i < |plan.windows| ==> WindowStores(l.windows[i], plan.windows[i], plan.unit, xs))
      && (l.rate.Some? <==> plan.rateLimitPerMin.Some?)
      && (l.rate.Some? ==> WindowStores(l.rate.value, WindowSpec(60_000, plan.rateLimitPerMin.value), Requests, xs))
  {
    var log := Events(Charges(plan, xs));
    LedgerIsItsWindows(FreshLedger(plan), log);
    forall i | 0 <= i < |plan.windows|
      ensures WindowStores(RecordAll(FreshLedger(plan).windows[i], log), plan.windows[i], plan.unit, xs)
    {
      OneWindowStores(plan, plan.windows[i], xs);
    }
    if plan.rateLimitPerMin.Some? {
      ChargesAreClocked(plan, xs);
      OneWindowStores(plan.(unit := Requests), WindowSpec(60_000, plan.rateLimitPerMin.value), xs);
    }
  }

  // ----- What an account with these exchanges shows -----

  /** Less than a thousandth of the window's limit is left. */
  predicate SpentWindow(spec: WindowSpec, unit: PlanUnit, xs: seq<Exchange>, now: U64) {
    spec.limit == 0 || (spec.limit - Used(unit, Max(spec.lenMs, 1), xs, now)) * 1000 < spec.limit
  }

  /** The windows of the plan, each showing what the exchanges cost in it. */
  ghost predicate ShowsAll(shown: seq<WindowSnapshot>, plan: Plan, xs: seq<Exchange>, now: U64) {
    && |shown| == |plan.windows|
    && forall i :: 0 <= i < |shown| ==>
         Shows(shown[i], plan.windows[i], Used(plan.unit, Max(plan.windows[i].lenMs, 1), xs, now), now)
  }

  lemma PlanShows(plan: Plan, xs: seq<Exchange>, now: U64)
    ensures ShowsAll(LedgerAll(FreshLedger(plan), Events(Charges(plan, xs))).WindowSnapshots(now), plan, xs, now)
  {
    var shown := LedgerAll(FreshLedger(plan), Events(Charges(plan, xs))).WindowSnapshots(now);
    LedgerIsItsWindows(FreshLedger(plan), Events(Charges(plan, xs)));
    forall i | 0 <= i < |shown|
      ensures Shows(shown[i], plan.windows[i], Used(plan.unit, Max(plan.windows[i].lenMs, 1), xs, now), now)
    {
      PlanWindowShows(plan.windows, plan.rateLimitPerMin, Events(Charges(plan, xs)), i, now);
      UsedIsLogged(plan, Max(plan.windows[i].lenMs, 1), xs, now);
    }
  }

  lemma ShownIsSpent(w: WindowSnapshot, spec: WindowSpec, unit: PlanUnit, xs: seq<Exchange>, now: U64)
    requires Shows(w, spec, Used(unit, Max(spec.lenMs, 1), xs, now), now)
    ensures w.remainingPermille == 0 <==> SpentWindow(spec, unit, xs, now)
  {
    ShownSpent(w, spec, Used(unit, Max(spec.lenMs, 1), xs, now), now);
  }

  lemma ShownSpent(w: WindowSnapshot, spec: WindowSpec, used: int, now: U64)
    requires Shows(w, spec, used, now)
    ensures w.remainingPermille == 0 <==> spec.limit == 0 || (spec.limit - used) * 1000 < spec.limit
  {
    if spec.limit > 0 {
      NoShareLeft(w.remainingPermille, spec.limit - w.used, spec.limit);
    }
  }

  lemma NoShareLeft(share: nat, left: int, limit: nat)
    requires FloorShare(share, left, limit)
    ensures share == 0 <==> left * 1000 < limit
  {
    if share > 0 {
      ProductMonotone(1, share, limit);
    }
  }

  /** The share of a rate limit that the exchanges of the last minute leave. */
  predicate RateShare(headroom: int, rateLimit: Option<U64>, xs: seq<Exchange>, now: U64) {
    match rateLimit
    case None => headroom == 1000
    case Some(limit) =>
      if limit == 0 then headroom == 0
      else FloorShare(headroom, limit - Min(Used(Requests, 60_000, xs, now), limit), limit)
  }

  lemma PlanRate(plan: Plan, xs: seq<Exchange>, now: U64)
    ensures RateShare(LedgerAll(FreshLedger(plan), Events(Charges(plan, xs))).RateHeadroomPermille(now),
                      plan.rateLimitPerMin, xs, now)
  {
    var log := Events(Charges(plan, xs));
    LedgerIsItsWindows(FreshLedger(plan), log);
    if plan.rateLimitPerMin.Some? && plan.rateLimitPerMin.value > 0 {
      HeadroomCountsRequests(plan.windows, plan.rateLimitPerMin.value, log, now);
      RequestsAreLogged(plan, RATE_WINDOW_MS, xs, now);
    }
  }
}
