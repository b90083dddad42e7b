/** What gateways answer, traced back to everything that happened: the exchanges all of them
    committed, and each gateway's own leases, refusals and provider reports. */
module Answers {
  import opened Machine
  import opened QuotaLedger
  import QuotaLease
  import opened Settlement
  import opened QuotaTracker
  import opened Exchanges
  import opened Gateways

  // ----- An answer and the row behind it -----

  /** What a gateway answers about an account is read from these saved counters: its windows unless a
      provider's reading is fresh, its rate headroom less the load in flight, and its unknown usage. */
  ghost predicate AnswersSaved(s: State, name: string, plan: Plan, saved: Saved, now: U64)
    requires s.Inv() && saved.ledger.Valid()
  {
    var q, a, reported := s.Route(name, now), s.Show(name, now), s.FreshAuthoritative(name, now);
    && a.windows == (if reported.Some? then reported.value else saved.ledger.WindowSnapshots(now))
    && (q.exhausted <==> s.IsCooling(name, now) || s.failed || exists w :: w in a.windows && w.remainingPermille == 0)
    && QuotaLease.LeftByLoad(q.rateHeadroomPermille, saved.ledger.RateHeadroomPermille(now), s.leases.Inflight(now, name),
                  plan.rateLimitPerMin)
    && (q.ratePressured <==> q.rateHeadroomPermille <= 100)
    && a.unknownUsageRequests == saved.unknownUsage
    && a.source == (if reported.Some? then Authoritative else if plan.windows == [] then NoSource else Estimated)
    && (name in s.accounts ==> a.history == if s.failed then Unavailable else s.accounts[name].history)
    && a.upstream == name
    && (if s.IsCooling(name, now) then now + a.coolingMsRemaining == s.cooling[name] else a.coolingMsRemaining == 0)
    && a.inflight == s.leases.Inflight(now, name)
    && Agree(q, a)
  }

  lemma AnswersWhatItReads(s: State, name: string, plan: Plan, saved: Saved, now: U64)
    requires s.Inv() && Plans(s.accounts, name, plan) && saved.ledger.Valid()
    requires |saved.ledger.windows| == |plan.windows|
    requires s.CurrentSaved(name) == saved && !s.ReadFails(name)
    ensures AnswersSaved(s, name, plan, saved, now)
  {
    var a := s.Show(name, now);
    RouterAndViewerAgree(s, name, now);
    QuotaLease.LoadLeaves(saved.ledger.RateHeadroomPermille(now), s.leases.Inflight(now, name), plan.rateLimitPerMin);
    BindingIsSoonest(a.windows);
  }

  /** Whichever gateway is asked, and whatever it last knew itself, it answers from the shared row. */
  lemma AnswersReadTheRow(c: Cluster, g: nat, name: string, plan: Plan, saved: Saved, now: U64)
    requires c.Inv() && g < |c.gateways| && Plans(c.gateways[g].accounts, name, plan)
    requires RowIs(c.store, name, plan, saved) && saved.ledger.Valid()
    ensures AnswersSaved(c.Seen(g), name, plan, saved, now)
  {
    var s := c.Seen(g);
    assert s.accounts[name].Fits();
    LoadsUnderCache(c.store, name, plan, saved, s.accounts[name].saved.ledger);
    AnswersWhatItReads(s, name, plan, saved, now);
  }

  /** The counters after one settlement that is not a repeat: one event more, of one request under a
      request plan, of the input and output tokens under a token plan, or of nothing if they were not
      reported; and the receipt is the last one remembered. */
  ghost predicate ChargedOnce(before: Saved, after: Saved, plan: Plan, x: Exchange)
    requires before.ledger.Valid()
  {
    && (plan.unit.Requests? ==> after.ledger == before.ledger.Record(x.at, 1))
    && (plan.unit.Tokens? && x.usage.Some? ==>
          after.ledger == before.ledger.Record(x.at, Min(x.usage.value.inputTokens + x.usage.value.outputTokens, U64_MAX)))
    && (plan.unit.Tokens? && x.usage.None? ==> after.ledger == before.ledger.Record(x.at, 0))
    && after.unknownUsage == Min(before.unknownUsage + (if x.usage.None? then 1 else 0), U64_MAX)
    && (x.receipt.Some? ==> after.recent != [] && after.recent[|after.recent| - 1] == x.receipt.value)
  }

  lemma RecordCharges(saved: Saved, plan: Plan, x: Exchange)
    requires saved.ledger.Valid() && !saved.Repeats(Charge(plan, x))
    ensures ChargedOnce(saved, saved.Record(Charge(plan, x)), plan, x)
  {
  }

  /** An exchange that a gateway settles, and that is no repeat, is charged once in the shared row. */
  lemma SettlementCharges(c: Cluster, g: nat, a: Action, name: string, plan: Plan, saved: Saved) returns (after: Saved)
    requires c.Inv() && c.Possible(Act(g, a)) && Settles(a, name).Some? && Stores(a)
    requires Plans(c.gateways[g].accounts, name, plan)
    requires RowIs(c.store, name, plan, saved) && saved.ledger.Valid()
    requires Settles(a, name).value.receipt.Some? ==> Settles(a, name).value.receipt.value !in saved.recent
    ensures RowIs(c.After(Act(g, a)).store, name, plan, after)
    ensures c.After(Act(g, a)).gateways[g].accounts[name].saved == after
    ensures ChargedOnce(saved, after, plan, Settles(a, name).value)
  {
    var x := Settles(a, name).value;
    after := saved.Record(Charge(plan, x));
    OneMove(c, Act(g, a), name, plan, saved);
    RecordCharges(saved, plan, x);
    SettledIsCached(c.Seen(g), a, name, saved);
  }

  lemma SettledIsCached(s: State, a: Action, name: string, saved: Saved)
    requires s.Inv() && s.store.Some? && name in s.accounts && Settles(a, name).Some? && Stores(a)
    requires RowIs(s.store.value, name, s.accounts[name].plan, saved) && saved.ledger.Valid()
    ensures name in Step(s, a).accounts
    ensures Step(s, a).accounts[name].saved == saved.Record(Charge(s.accounts[name].plan, Settles(a, name).value))
  {
    match a
    case Settle(_, receipt, at, usage, _, bytes, _) => StoredIsCached(s, name, Some(receipt), at, usage, bytes, saved);
    case Count(_, at, usage, bytes, _) => StoredIsCached(s, name, None, at, usage, bytes, saved);
  }

  /** What was stored is also what the gateway caches. */
  lemma StoredIsCached(s: State, name: string, receipt: Option<string>, at: U64, usage: Option<Usage>, bytes: nat,
                       saved: Saved)
    requires s.Inv() && s.store.Some? && name in s.accounts && bytes <= 131_072
    requires RowIs(s.store.value, name, s.accounts[name].plan, saved) && saved.ledger.Valid()
    ensures var t := s.RecordConsumption(name, receipt, at, usage, bytes, true);
      name in t.accounts
      && t.accounts[name].saved == saved.Record(Charge(s.accounts[name].plan, Exchange(receipt, at, usage)))
  {
    assert s.accounts[name].Fits();
    LoadsUnderCache(s.store.value, name, s.accounts[name].plan, saved, s.accounts[name].saved.ledger);
  }

  /** An account without a plan is never spent on its own: it answers with the provider's fresh reading if
      there is one, with its whole headroom less the load in flight, and with no history. */
  lemma UnplannedAnswers(s: State, name: string, now: U64)
    requires s.Inv() && name !in s.accounts
    ensures var q, a, reported := s.Route(name, now), s.Show(name, now), s.FreshAuthoritative(name, now);
      && a.windows == (if reported.Some? then reported.value else [])
      && a.source == (if reported.Some? then Authoritative else NoSource)
      && (q.exhausted <==> s.IsCooling(name, now) || exists w :: w in a.windows && w.remainingPermille == 0)
      && q.rateHeadroomPermille == Max(1000 - 100 * s.leases.Inflight(now, name), 0)
      && (q.ratePressured <==> q.rateHeadroomPermille <= 100)
      && a.unknownUsageRequests == 0 && a.history == New
      && Agree(q, a)
  {
    RouterAndViewerAgree(s, name, now);
    QuotaLease.LoadLeaves(1000, s.leases.Inflight(now, name), None);
    BindingIsSoonest(s.Show(name, now).windows);
  }

  // ----- An answer and the exchanges behind it -----

  /** What a gateway answers about an account whose exchanges are `xs`. */
  ghost predicate AnswersFor(s: State, name: string, plan: Plan, xs: seq<Exchange>, now: U64)
    requires s.Inv()
  {
    var q, a, reported := s.Route(name, now), s.Show(name, now), s.FreshAuthoritative(name, now);
    && (reported.None? ==> ShowsAll(a.windows, plan, xs, now))
    && (reported.Some? ==> a.windows == reported.value)
    && (q.exhausted <==>
          || s.IsCooling(name, now) || s.failed
          || (match reported
              case Some(windows) => exists w :: w in windows && w.remainingPermille == 0
              case None => exists i :: 0 <= i < |plan.windows| && SpentWindow(plan.windows[i], plan.unit, xs, now)))
    && (exists idle: nat ::
          && RateShare(idle, plan.rateLimitPerMin, xs, now)
          && QuotaLease.LeftByLoad(q.rateHeadroomPermille, idle, s.leases.Inflight(now, name), plan.rateLimitPerMin))
    && (q.ratePressured <==> q.rateHeadroomPermille <= 100)
    && a.unknownUsageRequests == Capped(Unmetered(xs))
    && a.inflight == s.leases.Inflight(now, name)
    && Agree(q, a)
  }

  lemma SomeWindowSpent(shown: seq<WindowSnapshot>, plan: Plan, xs: seq<Exchange>, now: U64)
    requires ShowsAll(shown, plan, xs, now)
    ensures (exists w :: w in shown && w.remainingPermille == 0) <==>
      exists i :: 0 <= i < |plan.windows| && SpentWindow(plan.windows[i], plan.unit, xs, now)
  {
    forall i | 0 <= i < |shown|
      ensures shown[i].remainingPermille == 0 <==> SpentWindow(plan.windows[i], plan.unit, xs, now)
    {
      ShownIsSpent(shown[i], plan.windows[i], plan.unit, xs, now);
    }
    if exists w :: w in shown && w.remainingPermille == 0 {
      var w :| w in shown && w.remainingPermille == 0;
      var i :| 0 <= i < |shown| && shown[i] == w;
      assert SpentWindow(plan.windows[i], plan.unit, xs, now);
    }
    if i :| 0 <= i < |plan.windows| && SpentWindow(plan.windows[i], plan.unit, xs, now) {
      assert shown[i] in shown;
    }
  }

  lemma SavedAnswersFor(s: State, name: string, plan: Plan, saved: Saved, xs: seq<Exchange>, now: U64)
    requires s.Inv() && saved.ledger.Valid()
    requires AnswersSaved(s, name, plan, saved, now) && CountsExchanges(saved, plan, xs)
    ensures AnswersFor(s, name, plan, xs, now)
  {
    PlanShows(plan, xs, now);
    PlanRate(plan, xs, now);
    SomeWindowSpent(saved.ledger.WindowSnapshots(now), plan, xs, now);
  }

  /** After any run of any gateways from a fresh row, with repeats committing while they are remembered:
      every gateway that plans the account answers for the first exchange of each receipt, whichever
      gateway settled it and in any order. */
  lemma EveryGatewayAnswersForAll(c: Cluster, run: seq<Move>, name: string, plan: Plan, baseline: bool,
                                  once: seq<Exchange>, g: nat, now: U64)
    requires c.Inv() && c.AllPossible(run)
    requires RowIs(c.store, name, plan, FreshSaved(plan).(planChangedBaseline := baseline))
    requires RepeatsComeSoon(Charges(plan, c.Committed(run, name, plan)))
    requires multiset(once) == multiset(FirstExchanges(c.Committed(run, name, plan)))
    requires g < |c.AfterAll(run).gateways| && Plans(c.AfterAll(run).gateways[g].accounts, name, plan)
    ensures AnswersFor(c.AfterAll(run).Seen(g), name, plan, once, now)
  {
    ExactlyOnceAcrossGateways(c, run, name, plan, baseline, once);
    var saved :| RowIs(c.AfterAll(run).store, name, plan, saved) && CountsExchanges(saved, plan, once)
                 && StoresOnce(saved, plan, once);
    AnswersReadTheRow(c.AfterAll(run), g, name, plan, saved, now);
    SavedAnswersFor(c.AfterAll(run).Seen(g), name, plan, saved, once, now);
  }

  // ----- What is each gateway's own -----

  /** The actions of one gateway in a run. */
  function Own(run: seq<Move>, g: nat): seq<Action> {
    if run == [] then []
    else
      var last := run[|run| - 1];
      Own(run[..|run| - 1], g) + (if last.Act? && last.gateway == g then [last.action] else [])
  }

  function LeaseOp(a: Action): seq<QuotaLease.Op> {
    match a
    case Dispatch(u, now, lifetimeMs) => [QuotaLease.Grant(now, u, lifetimeMs)]
    case Finish(lease) => [QuotaLease.Release(lease)]
    case _ => []
  }

  /** The leases granted and released by the actions. */
  function LeaseOps(actions: seq<Action>): seq<QuotaLease.Op> {
    if actions == [] then [] else LeaseOps(actions[..|actions| - 1]) + LeaseOp(actions[|actions| - 1])
  }

  /** The action is a refusal that still cools the account: for as long as it asked for, at most an hour. */
  predicate Cools(a: Action, name: string, now: U64) {
    a.Refusal? && a.upstream == name && now < Min(a.now + Min(a.cooldownMs, 3_600_000), U64_MAX)
  }

  /** The last thing the provider reported about the account, and when; an empty report takes it back. */
  function LastReport(actions: seq<Action>, name: string): Option<Reading> {
    if actions == [] then None
    else
      match actions[|actions| - 1]
      case Report(u, now, windows) =>
        if u != name then LastReport(actions[..|actions| - 1], name)
        else if windows == [] then None
        else Some(Reading(windows, now))
      case _ => LastReport(actions[..|actions| - 1], name)
  }

  /** These leases, cooldowns and readings are the history of these actions. */
  ghost predicate History(leases: QuotaLease.Leases, cooling: map<string, U64>, readings: map<string, Reading>,
                          own: seq<Action>)
  {
    && leases == QuotaLease.Run(120_000, LeaseOps(own))
    && (forall name, now :: CoolsUntil(cooling, name, now) <==> exists a :: a in own && Cools(a, name, now))
    && (forall name :: ReadingOf(readings, name) == LastReport(own, name))
  }

  function ReadingOf(readings: map<string, Reading>, name: string): Option<Reading> {
    if name in readings then Some(readings[name]) else None
  }

  /** What the gateway knows of its own is the history of these actions. */
  ghost predicate IsHistory(s: State, own: seq<Action>) {
    History(s.leases, s.cooling, s.authoritative, own)
  }

  lemma CoolsSnoc(own: seq<Action>, a: Action, name: string, now: U64)
    ensures (exists b :: b in own + [a] && Cools(b, name, now)) <==>
      (exists b :: b in own && Cools(b, name, now)) || Cools(a, name, now)
  {
    assert a in own + [a];
    assert forall b :: b in own + [a] <==> b in own || b == a;
  }

  lemma LeaseStep(s: State, a: Action, own: seq<Action>)
    requires s.Inv() && s.leases == QuotaLease.Run(120_000, LeaseOps(own))
    ensures Step(s, a).leases == QuotaLease.Run(120_000, LeaseOps(own + [a]))
  {
    assert (own + [a])[..|own|] == own;
    if LeaseOp(a) == [] {
      assert LeaseOps(own + [a]) == LeaseOps(own);
    } else {
      QuotaLease.OneMore(120_000, LeaseOps(own), LeaseOp(a)[0]);
    }
    OwnOnly(s, a);
  }

  /** Settling, reading and counting leave what is the gateway's own alone. */
  lemma OwnOnly(s: State, a: Action)
    requires s.Inv()
    ensures !a.Dispatch? && !a.Finish? ==> Step(s, a).leases == s.leases
    ensures !a.Refusal? ==> Step(s, a).cooling == s.cooling
    ensures !a.Report? ==> Step(s, a).authoritative == s.authoritative
  {
    match a
    case Settle(u, receipt, at, usage, completed, bytes, commits) =>
      if (completed || usage.Some?) && |receipt| <= MAX_RECEIPT_BYTES {
        RecordingIsShared(s, u, Some(receipt), at, usage, bytes, commits);
      }
    case Count(u, at, usage, bytes, commits) => RecordingIsShared(s, u, None, at, usage, bytes, commits);
    case _ =>
  }

  lemma RecordingIsShared(s: State, u: string, receipt: Option<string>, at: U64, usage: Option<Usage>, bytes: nat,
                          commits: bool)
    requires s.Inv()
    ensures var t := s.RecordConsumption(u, receipt, at, usage, bytes, commits);
      t.leases == s.leases && t.cooling == s.cooling && t.authoritative == s.authoritative
  {
  }

  lemma HistoryStep(s: State, a: Action, own: seq<Action>)
    requires s.Inv() && IsHistory(s, own) && !a.Elsewhere?
    ensures IsHistory(Step(s, a), own + [a])
  {
    LeaseStep(s, a, own);
    forall name, now
      ensures CoolsUntil(Step(s, a).cooling, name, now) <==> exists b :: b in own + [a] && Cools(b, name, now)
    {
      CoolsSnoc(own, a, name, now);
      CoolingStep(s, a, name, now);
    }
    forall name ensures ReadingOf(Step(s, a).authoritative, name) == LastReport(own + [a], name) {
      ReportStep(s, a, own, name);
    }
  }

  lemma CoolingStep(s: State, a: Action, name: string, now: U64)
    requires s.Inv()
    ensures CoolsUntil(Step(s, a).cooling, name, now) <==> CoolsUntil(s.cooling, name, now) || Cools(a, name, now)
  {
    OwnOnly(s, a);
    if a.Refusal? {
      CoolingLasts(s, a.upstream, a.now, a.cooldownMs, now);
    }
  }

  lemma ReportStep(s: State, a: Action, own: seq<Action>, name: string)
    requires s.Inv() && ReadingOf(s.authoritative, name) == LastReport(own, name)
    ensures ReadingOf(Step(s, a).authoritative, name) == LastReport(own + [a], name)
  {
    assert (own + [a])[..|own|] == own;
    OwnOnly(s, a);
  }

  lemma NothingYet(s: State)
    requires s.leases == QuotaLease.NewLeases(QuotaLease.DEFAULT_LEASE_MS)
    requires s.cooling == map[] && s.authoritative == map[]
    ensures IsHistory(s, [])
  {
  }

  /** Over every run from a store no gateway has opened yet: what a gateway knows of its own is exactly
      its history. The load it counts is that of its own leases, it cools an account exactly while one of
      its refusals says so, and the reading it may show is the last one reported to it. */
  lemma {:induction false} EveryGatewayKeepsItsHistory(c: Cluster, run: seq<Move>, g: nat)
    requires c.Inv() && c.gateways == [] && c.AllPossible(run)
    ensures g < |c.AfterAll(run).gateways| ==> IsHistory(c.AfterAll(run).gateways[g], Own(run, g))
    ensures g >= |c.AfterAll(run).gateways| ==> Own(run, g) == []
    decreases |run|
  {
    if run != [] {
      var front, m := run[..|run| - 1], run[|run| - 1];
      EveryGatewayKeepsItsHistory(c, front, g);
      HistoryAfterMove(c.AfterAll(front), m, g, Own(front, g));
    }
  }

  lemma HistoryAfterMove(c: Cluster, m: Move, g: nat, own: seq<Action>)
    requires c.Inv() && c.Possible(m)
    requires g < |c.gateways| ==> IsHistory(c.gateways[g], own)
    requires g >= |c.gateways| ==> own == []
    ensures var now := own + (if m.Act? && m.gateway == g then [m.action] else []);
      && (g < |c.After(m).gateways| ==> IsHistory(c.After(m).gateways[g], now))
      && (g >= |c.After(m).gateways| ==> now == [])
  {
    assert own + [] == own;
    if m.Act? {
      if m.gateway == g {
        HistoryStep(c.Seen(g), m.action, own);
      }
    } else if Join(c, m.plans, m.order).Some? {
      StarterIsNew(c, m, g);
    }
  }

  lemma StarterIsNew(c: Cluster, m: Move, g: nat)
    requires c.Inv() && c.Possible(m) && m.Start?
    ensures var d := c.After(m);
      && (g < |c.gateways| ==> d.gateways[g] == c.gateways[g])
      && (|c.gateways| <= g < |d.gateways| ==> IsHistory(d.gateways[g], []))
  {
    var d := c.After(m);
    if |c.gateways| < |d.gateways| {
      assert g < |c.gateways| ==> d.gateways[..|c.gateways|][g] == c.gateways[g];
      NothingYet(d.gateways[|c.gateways|]);
    }
  }

  // ----- A gateway without a store -----

  /** The exchanges of the account that the actions settle. */
  function SettledBy(actions: seq<Action>, name: string): seq<Exchange> {
    if actions == [] then []
    else
      SettledBy(actions[..|actions| - 1], name)
      + match Settles(actions[|actions| - 1], name) case None => [] case Some(x) => [x]
  }

  lemma SoloStep(s: State, a: Action, name: string)
    requires s.Inv() && s.store.None? && name in s.accounts
    ensures s.accounts[name].saved.ledger.Valid() && Step(s, a).store.None? && name in Step(s, a).accounts
    ensures Step(s, a).accounts[name].saved
         == Recording(s.accounts[name].saved, s.accounts[name].plan, Settles(a, name))
  {
    assert s.accounts[name].Fits();
    match a
    case Settle(_, _, _, _, _, _, _) => SoloSettling(s, a, name);
    case Count(u, at, usage, bytes, commits) => SoloRecording(s, u, None, at, usage, bytes, commits, name);
    case _ => OtherStepsKeepAccounts(s, a);
  }

  lemma SoloSettling(s: State, a: Action, name: string)
    requires s.Inv() && s.store.None? && name in s.accounts && a.Settle? && s.accounts[name].saved.ledger.Valid()
    ensures Step(s, a).store.None? && name in Step(s, a).accounts
    ensures Step(s, a).accounts[name].saved
         == Recording(s.accounts[name].saved, s.accounts[name].plan, Settles(a, name))
  {
    if (a.completed || a.usage.Some?) && |a.receipt| <= 512 {
      SoloRecording(s, a.upstream, Some(a.receipt), a.at, a.usage, a.bytes, a.commits, name);
    }
  }

  lemma SoloRecording(s: State, u: string, receipt: Option<string>, at: U64, usage: Option<Usage>, bytes: nat,
                      commits: bool, name: string)
    requires s.Inv() && s.store.None? && name in s.accounts
    ensures s.accounts[name].saved.ledger.Valid()
    ensures var t := s.RecordConsumption(u, receipt, at, usage, bytes, commits);
      t.store.None? && name in t.accounts
      && t.accounts[name].saved
         == (if u == name then s.accounts[name].saved.Record(Charge(s.accounts[name].plan, Exchange(receipt, at, usage)))
             else s.accounts[name].saved)
  {
    assert s.accounts[name].Fits();
  }

  lemma {:induction false} SoloRun(plans: map<string, Plan>, actions: seq<Action>, name: string)
    requires name in plans
    ensures var s := RunFrom(NewTracker(plans, None), actions);
      && s.store.None? && Plans(s.accounts, name, plans[name])
      && s.accounts[name].saved == RecordRun(FreshSaved(plans[name]), Charges(plans[name], SettledBy(actions, name)))
  {
    if actions != [] {
      var front, a := actions[..|actions| - 1], actions[|actions| - 1];
      SoloRun(plans, front, name);
      SoloStep(RunFrom(NewTracker(plans, None), front), a, name);
      RecordOneMore(FreshSaved(plans[name]), plans[name], SettledBy(front, name), Settles(a, name));
    }
  }

  /** A gateway that keeps no store answers for the exchanges it settled itself. */
  lemma SoloGatewayAnswers(plans: map<string, Plan>, actions: seq<Action>, name: string, once: seq<Exchange>, now: U64)
    requires name in plans
    requires RepeatsComeSoon(Charges(plans[name], SettledBy(actions, name)))
    requires multiset(once) == multiset(FirstExchanges(SettledBy(actions, name)))
    ensures AnswersFor(RunFrom(NewTracker(plans, None), actions), name, plans[name], once, now)
  {
    var s, plan := RunFrom(NewTracker(plans, None), actions), plans[name];
    SoloRun(plans, actions, name);
    assert s.accounts[name].Fits();
    SettledExchangesCount(plan, false, SettledBy(actions, name), once);
    AnswersWhatItReads(s, name, plan, s.accounts[name].saved, now);
    SavedAnswersFor(s, name, plan, s.accounts[name].saved, once, now);
  }
}
