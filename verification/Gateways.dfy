/** Several gateways on one store: everything all of them do, in any interleaving, with gateways
    that start, fail and restart while others run. */
module Gateways {
  import opened Machine
  import opened QuotaLedger
  import opened Settlement
  import opened QuotaTracker
  import opened Exchanges

  // ----- Rows of the shared store -----

  /** The counters are those of the plan's windows and of its rate limit, with at most 256 receipts of at
      most 512 bytes. */
  ghost predicate UsableFor(saved: Saved, plan: Plan) {
    && |saved.ledger.windows| == |plan.windows|
    && (forall i :: 0 <= i < |plan.windows| ==> WindowFits(saved.ledger.windows[i], plan.windows[i]))
    && (saved.ledger.rate.Some? <==> plan.rateLimitPerMin.Some?)
    && (plan.rateLimitPerMin.Some? ==> WindowFits(saved.ledger.rate.value, WindowSpec(60_000, plan.rateLimitPerMin.value)))
    && |saved.recent| <= 256 && (forall id :: id in saved.recent ==> |id| <= 512)
  }

  predicate WindowFits(w: Window, spec: WindowSpec) {
    w.lenMs == Max(spec.lenMs, 1) && w.limit == spec.limit
  }

  lemma UsableIsValid(saved: Saved, plan: Plan)
    ensures UsableFor(saved, plan) <==> saved.Validates(FreshLedger(plan))
  {
    var l := FreshLedger(plan);
    if |saved.ledger.windows| == |plan.windows| {
      forall i | 0 <= i < |plan.windows|
        ensures WindowFits(saved.ledger.windows[i], plan.windows[i]) <==>
          SameDimensions(saved.ledger.windows[i], l.windows[i])
      {
      }
    }
  }

  /** The store holds `saved` in the account's row: it can be reached, the row's text is at most 128 KiB, and
      what it says is usable for the plan. */
  ghost predicate RowIs(store: Store, name: string, plan: Plan, saved: Saved) {
    && store.reachable
    && (name, plan) in store.rows
    && store.rows[(name, plan)].Text?
    && store.rows[(name, plan)].saved == saved
    && store.rows[(name, plan)].bytes <= 131_072
    && UsableFor(saved, plan)
  }

  /** A row is read, whatever the gateway has cached of it, exactly when it is usable; and then as it is. */
  lemma LoadsExactly(store: Store, name: string, plan: Plan, cached: Ledger)
    requires cached.CompatibleWith(FreshLedger(plan))
    ensures forall saved :: store.Load(name, plan, cached) == Some(saved) <==> RowIs(store, name, plan, saved)
    ensures forall saved :: RowIs(store, name, plan, saved) ==> saved.ledger.Valid()
  {
    forall saved: Saved
      ensures saved.Validates(cached) <==> UsableFor(saved, plan)
      ensures UsableFor(saved, plan) ==> saved.ledger.Valid()
    {
      SameDimensionsValidate(saved, cached, FreshLedger(plan));
      UsableIsValid(saved, plan);
    }
  }

  lemma SameDimensionsValidate(saved: Saved, a: Ledger, b: Ledger)
    requires a.CompatibleWith(b)
    ensures saved.Validates(a) <==> saved.Validates(b)
    ensures saved.Validates(b) && b.Valid() ==> saved.ledger.Valid()
  {
  }

  lemma LoadsUnderCache(store: Store, name: string, plan: Plan, saved: Saved, cached: Ledger)
    requires RowIs(store, name, plan, saved) && cached.CompatibleWith(FreshLedger(plan))
    ensures store.Load(name, plan, cached) == Some(saved) && saved.ledger.Valid()
  {
    LoadsExactly(store, name, plan, cached);
  }

  lemma RecordValidates(saved: Saved, plan: Plan, x: Settled)
    requires UsableFor(saved, plan) && saved.ledger.Valid()
    requires x.receipt.Some? ==> |x.receipt.value| <= MAX_RECEIPT_BYTES
    ensures UsableFor(saved.Record(x), plan)
  {
    UsableIsValid(saved, plan);
    RecordKeepsDimensions(saved, x);
    CompatibleIsTransitive(saved.Record(x).ledger, saved.ledger, FreshLedger(plan));
    UsableIsValid(saved.Record(x), plan);
  }

  lemma RecordOtherRow(store: Store, name: string, plan: Plan, saved: Saved, u: string, other: Plan, cached: Ledger,
                       x: Settled, bytes: nat, commits: bool)
    requires RowIs(store, name, plan, saved) && cached.Valid() && (u, other) != (name, plan)
    ensures var r := store.Record(u, other, cached, x, bytes, commits);
      r.Some? ==> RowIs(r.value.0, name, plan, saved)
  {
  }

  lemma RecordThisRow(store: Store, name: string, plan: Plan, saved: Saved, cached: Ledger, x: Settled,
                      bytes: nat, commits: bool)
    requires RowIs(store, name, plan, saved) && cached.CompatibleWith(FreshLedger(plan))
    requires x.receipt.Some? ==> |x.receipt.value| <= MAX_RECEIPT_BYTES
    requires saved.ledger.Valid() && cached.Valid()
    ensures var r := store.Record(name, plan, cached, x, bytes, commits);
      && (r.Some? <==> commits && bytes <= MAX_ACCOUNT_STATE_BYTES)
      && (r.Some? ==> RowIs(r.value.0, name, plan, saved.Record(x)))
  {
    LoadsUnderCache(store, name, plan, saved, cached);
    RecordValidates(saved, plan, x);
  }

  // ----- A gateway starting on the store -----

  /** Every row that was there is there unchanged. */
  ghost predicate KeepsRows(s: Store, t: Store) {
    && t.reachable == s.reachable && t.marked == s.marked && t.markable == s.markable
    && forall key :: key in s.rows ==> key in t.rows && t.rows[key] == s.rows[key]
  }

  /** Preparing is refused exactly when the store is gone, the account's row is unusable or there is no room
      for one more. It never overwrites a row, and leaves one the gateway can settle into; what it tells
      the viewer about history is what the store already knew. */
  lemma PrepareKeepsRows(s: Store, name: string, account: Tracked, bytes: nat)
    requires account.Fits()
    ensures s.Prepare(name, account, bytes).None? <==>
      || !s.reachable
      || ((name, account.plan) in s.rows && !(exists saved :: RowIs(s, name, account.plan, saved)))
      || ((name, account.plan) !in s.rows && |s.rows| >= 4096)
    ensures match s.Prepare(name, account, bytes)
            case None => true
            case Some((t, ready)) =>
              && KeepsRows(s, t) && (name, account.plan) in t.rows
              && ready.Fits() && ready.plan == account.plan
              && ((name, account.plan) in s.rows ==> t == s && RowIs(s, name, account.plan, ready.saved))
              && ((name, account.plan) !in s.rows ==>
                    t.rows[(name, account.plan)]
                    == Text(account.saved.(planChangedBaseline :=
                                             account.saved.planChangedBaseline || s.Knows(name)), bytes))
              && ready.history ==
                   (if (name, account.plan) !in s.rows && !s.Knows(name) then account.history
                    else if ready.saved.planChangedBaseline then PlanChanged else Recovered)
              && ((name, account.plan) !in s.rows ==>
                    ready.saved == account.saved.(planChangedBaseline :=
                                                    account.saved.planChangedBaseline || s.Knows(name)))
  {
    if s.reachable && (name, account.plan) in s.rows {
      var loaded := s.Load(name, account.plan, account.saved.ledger);
      if loaded.Some? {
        CompatibleIsTransitive(loaded.value.ledger, account.saved.ledger, FreshLedger(account.plan));
        assert s.Knows(name) by { assert (name, account.plan) in s.rows; }
      }
      LoadsExactly(s, name, account.plan, account.saved.ledger);
    }
  }

  ghost predicate Opened(store: Store, accounts: map<string, Tracked>, order: seq<Opening>,
                         t: Store, ready: map<string, Tracked>)
    requires Planned(accounts, order)
  {
    && KeepsRows(store, t) && ready.Keys == accounts.Keys
    && (forall a :: a in accounts ==> ready[a].Fits() && ready[a].plan == accounts[a].plan)
    && (forall o :: o in order ==> (o.name, accounts[o.name].plan) in t.rows)
  }

  lemma OpenNext(store: Store, accounts: map<string, Tracked>, front: seq<Opening>, o: Opening,
                 s: Store, ready: map<string, Tracked>)
    requires Planned(accounts, front + [o]) && Planned(accounts, front)
    requires Opened(store, accounts, front, s, ready) && o.name in ready
    ensures match s.Prepare(o.name, ready[o.name], o.bytes)
            case None => true
            case Some((t, account)) => Opened(store, accounts, front + [o], t, ready[o.name := account])
  {
    PrepareKeepsRows(s, o.name, ready[o.name], o.bytes);
    if s.Prepare(o.name, ready[o.name], o.bytes).Some? {
      var (t, account) := s.Prepare(o.name, ready[o.name], o.bytes).value;
      OneMoreOpened(store, accounts, front, o, s, ready, t, account);
    }
  }

  lemma OneMoreOpened(store: Store, accounts: map<string, Tracked>, front: seq<Opening>, o: Opening,
                      s: Store, ready: map<string, Tracked>, t: Store, account: Tracked)
    requires Planned(accounts, front + [o]) && Planned(accounts, front)
    requires Opened(store, accounts, front, s, ready) && o.name in ready
    requires KeepsRows(s, t) && account.Fits() && account.plan == ready[o.name].plan
    requires (o.name, account.plan) in t.rows
    ensures Opened(store, accounts, front + [o], t, ready[o.name := account])
  {
    forall p | p in front + [o] ensures (p.name, accounts[p.name].plan) in t.rows {
      assert p in front || p == o;
    }
  }

  /** A gateway that starts leaves every row alone and finds or creates one for each of its
      planned accounts, under the account's plan. */
  lemma {:induction false} OpenKeepsRows(store: Store, accounts: map<string, Tracked>, order: seq<Opening>)
    requires Planned(accounts, order) && forall a :: a in accounts ==> accounts[a].Fits()
    ensures match OpenAll(store, accounts, order)
            case None => true
            case Some((t, ready)) => Opened(store, accounts, order, t, ready)
  {
    if order != [] {
      var front, o := order[..|order| - 1], order[|order| - 1];
      assert order == front + [o] && o in order;
      OpenKeepsRows(store, accounts, front);
      if OpenAll(store, accounts, front).Some? {
        var (s, ready) := OpenAll(store, accounts, front).value;
        OpenNext(store, accounts, front, o, s, ready);
      }
    }
  }

  const MAX_PLAN_WINDOWS: nat := 64
  const MAX_NAME_BYTES: nat := 1024

  predicate WithinLimits(plans: map<string, Plan>) {
    |plans| <= MAX_QUOTA_ACCOUNTS
    && forall name :: name in plans ==> |name| <= MAX_NAME_BYTES && |plans[name].windows| <= MAX_PLAN_WINDOWS
  }

  // ----- Several gateways -----

  /** What happens next: a gateway acts, or another one starts with plans of its own, opening its
      accounts in some order. */
  datatype Move =
    | Act(gateway: nat, action: Action)
    | Start(plans: map<string, Plan>, order: seq<Opening>)

  /** The order lists the planned accounts. A gateway without plans opens no store. */
  ghost predicate Lists(plans: map<string, Plan>, order: seq<Opening>) {
    && plans != map[]
    && (forall o :: o in order ==> o.name in plans)
    && (forall name :: name in plans ==> exists o :: o in order && o.name == name)
  }

  /** Same planned accounts with the same plans, and no failure forgotten. */
  predicate SamePlans(s: State, t: State) {
    && t.accounts.Keys == s.accounts.Keys
    && (forall a :: a in s.accounts ==> t.accounts[a].plan == s.accounts[a].plan)
    && (s.failed ==> t.failed)
  }

  predicate Plans(accounts: map<string, Tracked>, name: string, plan: Plan) {
    name in accounts && accounts[name].plan == plan
  }

  /** The exchange of this account that an action settles, if it settles one. */
  function Settles(a: Action, name: string): Option<Exchange> {
    match a
    case Settle(u, receipt, at, usage, completed, _, _) =>
      if u == name && (completed || usage.Some?) && |receipt| <= 512 then Some(Exchange(Some(receipt), at, usage))
      else None
    case Count(u, at, usage, _, _) => if u == name then Some(Exchange(None, at, usage)) else None
    case _ => None
  }

  /** The database takes what the action writes: the write goes through and the text is at most 128 KiB. */
  predicate Stores(a: Action)
    requires a.Settle? || a.Count?
  {
    a.commits && a.bytes <= 131_072
  }

  /** The exchange of this account and plan that an action commits, if it commits one. */
  function Commits(accounts: map<string, Tracked>, a: Action, name: string, plan: Plan): Option<Exchange> {
    if Settles(a, name).Some? && Plans(accounts, name, plan) && Stores(a) then Settles(a, name) else None
  }

  datatype Cluster = Cluster(store: Store, gateways: seq<State>) {
    ghost predicate Inv() {
      forall g :: 0 <= g < |gateways| ==> gateways[g].Inv()
    }

    /** A gateway as it sees the shared store now. */
    function Seen(g: nat): (s: State)
      requires g < |gateways| && Inv()
      ensures s.Inv()
    {
      assert gateways[g].Inv();
      gateways[g].(store := Some(store))
    }

    /** `Elsewhere` is what the other gateways do, so here no gateway takes that step. */
    ghost predicate Possible(m: Move) {
      match m
      case Act(g, action) => g < |gateways| && !action.Elsewhere?
      case Start(plans, order) => Lists(plans, order)
    }

    ghost function After(m: Move): (c: Cluster)
      requires Inv() && Possible(m)
      ensures c.Inv() && |c.gateways| >= |gateways|
      ensures forall g :: 0 <= g < |gateways| ==> SamePlans(gateways[g], c.gateways[g])
    {
      match m
      case Act(g, action) =>
        StepKeepsInvariant(Seen(g), action);
        var t := Step(Seen(g), action);
        Cluster(t.store.value, gateways[g := t])
      case Start(plans, order) =>
        match Join(this, plans, order)
        case None => this
        case Some(c) => c
    }

    ghost predicate AllPossible(run: seq<Move>)
      requires Inv()
      decreases |run|, 0
    {
      run == [] ||
      (AllPossible(run[..|run| - 1]) && AfterAll(run[..|run| - 1]).Possible(run[|run| - 1]))
    }

    ghost function AfterAll(run: seq<Move>): (c: Cluster)
      requires Inv() && AllPossible(run)
      ensures c.Inv() && |c.gateways| >= |gateways|
      ensures forall g :: 0 <= g < |gateways| ==> SamePlans(gateways[g], c.gateways[g])
      decreases |run|, 1
    {
      if run == [] then this
      else
        var mid := AfterAll(run[..|run| - 1]);
        mid.After(run[|run| - 1])
    }

    /** The exchange of this account and plan that a move commits, if it commits one. */
    function Counts(m: Move, name: string, plan: Plan): Option<Exchange> {
      if m.Act? && m.gateway < |gateways| then Commits(gateways[m.gateway].accounts, m.action, name, plan) else None
    }

    /** The exchanges of this account and plan that committed, in the order they did. */
    ghost function Committed(run: seq<Move>, name: string, plan: Plan): seq<Exchange>
      requires Inv() && AllPossible(run)
      decreases |run|
    {
      if run == [] then []
      else
        var front := run[..|run| - 1];
        Committed(front, name, plan)
          + match AfterAll(front).Counts(run[|run| - 1], name, plan) case None => [] case Some(x) => [x]
    }
  }

  /** A gateway joins the others on the store it opened, or is refused and leaves no trace. */
  function Join(c: Cluster, plans: map<string, Plan>, order: seq<Opening>): (r: Option<Cluster>)
    requires c.Inv() && forall o :: o in order ==> o.name in plans
    ensures r.Some? ==> r.value.Inv() && |r.value.gateways| == |c.gateways| + 1
    ensures r.Some? ==> r.value.gateways[..|c.gateways|] == c.gateways && !r.value.gateways[|c.gateways|].failed
    ensures r.Some? ==> KeepsRows(c.store, r.value.store)
    ensures c.store.marked ==> r.None?
  {
    var newcomer := NewTracker(plans, Some(c.store));
    if !WithinLimits(plans) then None
    else
      match Started(c.store, newcomer.accounts, order)
      case None => None
      case Some((store, ready)) =>
        OpenKeepsRows(c.store, newcomer.accounts, order);
        Some(Cluster(store, c.gateways + [newcomer.(store := Some(store), accounts := ready)]))
  }

  // ----- When a gateway can start -----

  /** The account has no row under its plan yet, or one that is usable. */
  ghost predicate RowOpens(store: Store, name: string, plan: Plan) {
    (name, plan) in store.rows ==> exists saved :: RowIs(store, name, plan, saved)
  }

  ghost predicate DistinctNames(order: seq<Opening>) {
    forall i, j :: 0 <= i < j < |order| ==> order[i].name != order[j].name
  }

  /** Opening some accounts leaves the others, and their rows, as they were. */
  ghost predicate LeavesOthers(store: Store, accounts: map<string, Tracked>, order: seq<Opening>,
                               t: Store, ready: map<string, Tracked>)
  {
    && t.reachable == store.reachable && |t.rows| <= |store.rows| + |order| && ready.Keys == accounts.Keys
    && (forall name: string :: name in accounts && !Listed(order, name) ==> ready[name] == accounts[name])
    && (forall key: (string, Plan) :: !Listed(order, key.0) ==> SameRow(store, t, key))
  }

  predicate Listed(order: seq<Opening>, name: string) {
    exists o :: o in order && o.name == name
  }

  ghost predicate SameRow(s: Store, t: Store, key: (string, Plan)) {
    (key in t.rows <==> key in s.rows) && (key in t.rows ==> t.rows[key] == s.rows[key])
  }

  lemma PrepareLeavesOthers(store: Store, accounts: map<string, Tracked>, front: seq<Opening>, o: Opening,
                            s: Store, ready: map<string, Tracked>)
    requires LeavesOthers(store, accounts, front, s, ready) && o.name in accounts && ready[o.name].Fits()
    ensures match s.Prepare(o.name, ready[o.name], o.bytes)
            case None => true
            case Some((t, account)) => LeavesOthers(store, accounts, front + [o], t, ready[o.name := account])
  {
    var r := s.Prepare(o.name, ready[o.name], o.bytes);
    if r.Some? {
      var t := r.value.0;
      OneRowMore(s, t, o.name, ready[o.name], o.bytes);
      forall name: string
        ensures Listed(front + [o], name) <==> Listed(front, name) || name == o.name
      {
        ListedMore(front, o, name);
      }
      forall key: (string, Plan) | !Listed(front + [o], key.0) ensures SameRow(store, t, key) {
        assert SameRow(store, s, key) && SameRow(s, t, key);
      }
    }
  }

  lemma ListedMore(front: seq<Opening>, o: Opening, name: string)
    ensures Listed(front + [o], name) <==> Listed(front, name) || name == o.name
  {
    assert o in front + [o];
    assert forall p :: p in front + [o] <==> p in front || p == o;
  }

  lemma OneRowMore(s: Store, t: Store, name: string, account: Tracked, bytes: nat)
    requires s.Prepare(name, account, bytes).Some? && s.Prepare(name, account, bytes).value.0 == t
    ensures t.reachable == s.reachable && |t.rows| <= |s.rows| + 1
    ensures forall key :: key != (name, account.plan) ==> SameRow(s, t, key)
  {
    if (name, account.plan) !in s.rows {
      assert t.rows.Keys == s.rows.Keys + {(name, account.plan)};
    }
  }

  lemma {:induction false} OpensExactly(store: Store, accounts: map<string, Tracked>, order: seq<Opening>)
    requires Planned(accounts, order) && DistinctNames(order)
    requires forall a :: a in accounts ==> accounts[a].Fits()
    requires store.reachable && |store.rows| + |order| <= 4096
    ensures OpenAll(store, accounts, order).Some? <==>
      forall o :: o in order ==> RowOpens(store, o.name, accounts[o.name].plan)
    ensures match OpenAll(store, accounts, order)
            case None => true
            case Some((t, ready)) => LeavesOthers(store, accounts, order, t, ready)
  {
    if order != [] {
      var front, o := order[..|order| - 1], order[|order| - 1];
      assert order == front + [o];
      assert forall p :: p in order <==> p in front || p == o;
      OpensExactly(store, accounts, front);
      OpenKeepsRows(store, accounts, front);
      if OpenAll(store, accounts, front).Some? {
        var (s, ready) := OpenAll(store, accounts, front).value;
        assert forall p :: p in front ==> p.name != o.name;
        PrepareLeavesOthers(store, accounts, front, o, s, ready);
        PrepareKeepsRows(s, o.name, ready[o.name], o.bytes);
        assert !Listed(front, o.name);
        SameRowOpens(store, s, o.name, accounts[o.name].plan);
      }
    }
  }

  lemma SameRowOpens(store: Store, s: Store, name: string, plan: Plan)
    requires s.reachable == store.reachable && SameRow(store, s, (name, plan))
    ensures RowOpens(s, name, plan) <==> RowOpens(store, name, plan)
  {
    forall saved ensures RowIs(s, name, plan, saved) <==> RowIs(store, name, plan, saved) {}
  }

  /** With a store there and room for its accounts, a gateway starts exactly when no failure marker was left,
      its plans are within the limits and every row it finds is usable. */
  lemma StartsExactly(c: Cluster, plans: map<string, Plan>, order: seq<Opening>)
    requires c.Inv() && Lists(plans, order) && DistinctNames(order)
    requires c.store.reachable && |c.store.rows| + |order| <= 4096
    ensures Join(c, plans, order).Some? <==>
      && !c.store.marked
      && |plans| <= 4096
      && (forall name :: name in plans ==> |name| <= 1024 && |plans[name].windows| <= 64)
      && (forall name :: name in plans ==> RowOpens(c.store, name, plans[name]))
  {
    StartedExactly(c.store, plans, NewTracker(plans, Some(c.store)).accounts, order);
    JoinsWhenStarted(c, plans, order);
  }

  lemma StartedExactly(store: Store, plans: map<string, Plan>, accounts: map<string, Tracked>, order: seq<Opening>)
    requires Lists(plans, order) && DistinctNames(order) && accounts.Keys == plans.Keys
    requires forall name :: name in plans ==> accounts[name].plan == plans[name] && accounts[name].Fits()
    requires store.reachable && |store.rows| + |order| <= 4096
    ensures Started(store, accounts, order).Some? <==>
      !store.marked && forall name :: name in plans ==> RowOpens(store, name, plans[name])
  {
    OpensExactly(store, accounts, order);
    RowsOfPlans(store, plans, accounts, order);
  }

  lemma JoinsWhenStarted(c: Cluster, plans: map<string, Plan>, order: seq<Opening>)
    requires c.Inv() && Lists(plans, order)
    ensures Join(c, plans, order).Some? <==>
      && (|plans| <= 4096 && forall name :: name in plans ==> |name| <= 1024 && |plans[name].windows| <= 64)
      && Started(c.store, NewTracker(plans, Some(c.store)).accounts, order).Some?
  {
  }

  lemma RowsOfPlans(store: Store, plans: map<string, Plan>, accounts: map<string, Tracked>, order: seq<Opening>)
    requires Lists(plans, order) && accounts.Keys == plans.Keys
    requires forall name :: name in plans ==> accounts[name].plan == plans[name]
    ensures (forall o :: o in order ==> RowOpens(store, o.name, accounts[o.name].plan)) <==>
      (forall name :: name in plans ==> RowOpens(store, name, plans[name]))
  {
  }

  // ----- What one move does to a row -----

  function Recording(saved: Saved, plan: Plan, x: Option<Exchange>): Saved
    requires saved.ledger.Valid()
  {
    match x case None => saved case Some(y) => saved.Record(Charge(plan, y))
  }

  lemma StoreAfterRecording(s: State, u: string, receipt: Option<string>, at: U64, usage: Option<Usage>, bytes: nat,
                            commits: bool)
    requires s.Inv() && s.store.Some? && u in s.accounts
    ensures s.accounts[u].saved.ledger.Valid()
    ensures var t := s.RecordConsumption(u, receipt, at, usage, bytes, commits);
      var r := s.store.value.Record(u, s.accounts[u].plan, s.accounts[u].saved.ledger,
                                    s.SettlementOf(u, receipt, at, usage), bytes, commits);
      && t.store.Some?
      && (if r.Some? then t.store.value == r.value.0
          else t.store.value.rows == s.store.value.rows && t.store.value.reachable == s.store.value.reachable)
  {
    assert s.accounts[u].Fits();
  }

  lemma SameRows(store: Store, t: Store, name: string, plan: Plan, saved: Saved)
    requires RowIs(store, name, plan, saved) && t.rows == store.rows && t.reachable == store.reachable
    ensures RowIs(t, name, plan, saved)
  {
  }

  lemma OneRecording(s: State, u: string, receipt: Option<string>, at: U64, usage: Option<Usage>, bytes: nat,
                     commits: bool, name: string, plan: Plan, saved: Saved)
    requires s.Inv() && s.store.Some? && RowIs(s.store.value, name, plan, saved) && saved.ledger.Valid()
    requires receipt.Some? ==> |receipt.value| <= MAX_RECEIPT_BYTES
    ensures var t := s.RecordConsumption(u, receipt, at, usage, bytes, commits);
      t.store.Some? && RowIs(t.store.value, name, plan,
        if u == name && Plans(s.accounts, name, plan) && commits && bytes <= MAX_ACCOUNT_STATE_BYTES
        then saved.Record(Charge(plan, Exchange(receipt, at, usage)))
        else saved)
  {
    if u in s.accounts {
      var account, store := s.accounts[u], s.store.value;
      var x := s.SettlementOf(u, receipt, at, usage);
      var t := s.RecordConsumption(u, receipt, at, usage, bytes, commits);
      StoreAfterRecording(s, u, receipt, at, usage, bytes, commits);
      if u == name && account.plan == plan {
        assert account.Fits();
        RecordThisRow(store, name, plan, saved, account.saved.ledger, x, bytes, commits);
      } else {
        RecordOtherRow(store, name, plan, saved, u, account.plan, account.saved.ledger, x, bytes, commits);
      }
      if store.Record(u, account.plan, account.saved.ledger, x, bytes, commits).None? {
        SameRows(store, t.store.value, name, plan, saved);
      }
    }
  }

  lemma OneSettlement(s: State, a: Action, name: string, plan: Plan, saved: Saved)
    requires s.Inv() && s.store.Some? && RowIs(s.store.value, name, plan, saved) && saved.ledger.Valid()
    requires a.Settle?
    ensures var t := Step(s, a);
      t.store.Some? && RowIs(t.store.value, name, plan, Recording(saved, plan, Commits(s.accounts, a, name, plan)))
  {
    if (a.completed || a.usage.Some?) && |a.receipt| <= MAX_RECEIPT_BYTES {
      OneRecording(s, a.upstream, Some(a.receipt), a.at, a.usage, a.bytes, a.commits, name, plan, saved);
    }
  }

  /** The steps that record nothing may leave a marker, and touch no row. */
  lemma OtherActionsKeepRows(s: State, a: Action)
    requires s.Inv() && s.store.Some? && !a.Settle? && !a.Count? && !a.Elsewhere?
    ensures var t := Step(s, a);
      t.store.Some? && t.store.value.rows == s.store.value.rows && t.store.value.reachable == s.store.value.reachable
  {
  }

  lemma OneAction(s: State, a: Action, name: string, plan: Plan, saved: Saved)
    requires s.Inv() && s.store.Some? && RowIs(s.store.value, name, plan, saved) && saved.ledger.Valid()
    requires !a.Elsewhere?
    ensures var t := Step(s, a);
      t.store.Some? && RowIs(t.store.value, name, plan, Recording(saved, plan, Commits(s.accounts, a, name, plan)))
  {
    match a
    case Settle(_, _, _, _, _, _, _) => OneSettlement(s, a, name, plan, saved);
    case Count(u, at, usage, bytes, commits) =>
      OneRecording(s, u, None, at, usage, bytes, commits, name, plan, saved);
    case _ => OtherActionsKeepRows(s, a);
  }

  lemma OneMove(c: Cluster, m: Move, name: string, plan: Plan, saved: Saved)
    requires c.Inv() && c.Possible(m) && RowIs(c.store, name, plan, saved) && saved.ledger.Valid()
    ensures RowIs(c.After(m).store, name, plan, Recording(saved, plan, c.Counts(m, name, plan)))
  {
    if m.Act? {
      OneAction(c.Seen(m.gateway), m.action, name, plan, saved);
    }
  }

  // ----- What a run stores -----

  lemma RecordOneMore(saved: Saved, plan: Plan, counted: seq<Exchange>, x: Option<Exchange>)
    requires saved.ledger.Valid()
    ensures RecordRun(saved, Charges(plan, counted + match x case None => [] case Some(y) => [y]))
         == Recording(RecordRun(saved, Charges(plan, counted)), plan, x)
  {
    match x
    case None => assert counted + [] == counted;
    case Some(y) =>
      ChargesSnoc(plan, counted, y);
      var run := Charges(plan, counted);
      assert (run + [Charge(plan, y)])[..|run|] == run;
  }

  /** Whatever the gateways do and in whatever order, with gateways starting in between, the shared
      row holds exactly the committed exchanges of its account and plan, settled in commit order; other
      accounts, other plans, failed writes and new gateways leave it untouched. */
  lemma {:induction false} StoreCountsCommitted(c: Cluster, run: seq<Move>, name: string, plan: Plan, saved: Saved)
    requires c.Inv() && c.AllPossible(run) && RowIs(c.store, name, plan, saved) && saved.ledger.Valid()
    ensures RowIs(c.AfterAll(run).store, name, plan, RecordRun(saved, Charges(plan, c.Committed(run, name, plan))))
    decreases |run|
  {
    if run != [] {
      var front, m := run[..|run| - 1], run[|run| - 1];
      StoreCountsCommitted(c, front, name, plan, saved);
      var mid, counted := c.AfterAll(front), c.Committed(front, name, plan);
      OneMove(mid, m, name, plan, RecordRun(saved, Charges(plan, counted)));
      RecordOneMore(saved, plan, counted, mid.Counts(m, name, plan));
    }
  }

  /** The stored windows are those of the plan, each holding what the exchanges of its newest bucket and
      of the one before cost, and the receipts are bounded and free of duplicates. */
  ghost predicate StoresOnce(saved: Saved, plan: Plan, once: seq<Exchange>) {
    && |saved.ledger.windows| == |plan.windows|
    && (forall i :: 0 <= i < |plan.windows| ==> WindowStores(saved.ledger.windows[i], plan.windows[i], plan.unit, once))
    && (saved.ledger.rate.Some? <==> plan.rateLimitPerMin.Some?)
    && (saved.ledger.rate.Some? ==>
          WindowStores(saved.ledger.rate.value, WindowSpec(60_000, plan.rateLimitPerMin.value), Requests, once))
    && saved.unknownUsage == Capped(Unmetered(once))
    && |saved.recent| <= MAX_SETTLEMENT_IDS && Distinct(saved.recent)
  }

  /** Exactly-once settlement across gateways and restarts: from a fresh row, if every repeat of a
      receipt commits while it is remembered, whatever clock, usage or gateway it comes with, the
      stored windows hold the requests or token sums of the first exchange of each receipt, in any order. */
  lemma ExactlyOnceAcrossGateways(c: Cluster, run: seq<Move>, name: string, plan: Plan, baseline: bool,
                                  once: seq<Exchange>)
    requires c.Inv() && c.AllPossible(run)
    requires RowIs(c.store, name, plan, FreshSaved(plan).(planChangedBaseline := baseline))
    requires RepeatsComeSoon(Charges(plan, c.Committed(run, name, plan)))
    requires multiset(once) == multiset(FirstExchanges(c.Committed(run, name, plan)))
    ensures exists saved ::
      RowIs(c.AfterAll(run).store, name, plan, saved) && CountsExchanges(saved, plan, once)
      && StoresOnce(saved, plan, once)
  {
    var start, committed := FreshSaved(plan).(planChangedBaseline := baseline), c.Committed(run, name, plan);
    StoreCountsCommitted(c, run, name, plan, start);
    SettledExchangesCount(plan, baseline, committed, once);
    BaselineIgnored(FreshSaved(plan), baseline, Charges(plan, committed));
    RunIsRecorded(plan.windows, plan.rateLimitPerMin, Charges(plan, committed));
    var saved := RecordRun(start, Charges(plan, committed));
    CountedIsStored(saved, plan, once);
    assert RowIs(c.AfterAll(run).store, name, plan, saved);
  }

  lemma CountedIsStored(saved: Saved, plan: Plan, once: seq<Exchange>)
    requires CountsExchanges(saved, plan, once)
    requires |saved.recent| <= MAX_SETTLEMENT_IDS && Distinct(saved.recent)
    ensures StoresOnce(saved, plan, once)
  {
    PlanStores(plan, once);
  }

  // ----- What a lost settlement leads to -----

  /** The action settles a planned account, or should, and the settlement is not stored: the write
      fails, the row is unusable, or the text or the receipt is too long. */
  predicate Loses(s: State, a: Action)
    requires s.Inv() && s.store.Some?
  {
    match a
    case Settle(u, receipt, at, usage, completed, bytes, commits) =>
      (completed || usage.Some?)
      && (|receipt| > MAX_RECEIPT_BYTES || Unstored(s, u, Some(receipt), at, usage, bytes, commits))
    case Count(u, at, usage, bytes, commits) => Unstored(s, u, None, at, usage, bytes, commits)
    case _ => false
  }

  predicate Unstored(s: State, u: string, receipt: Option<string>, at: U64, usage: Option<Usage>, bytes: nat,
                     commits: bool)
    requires s.Inv() && s.store.Some?
  {
    u in s.accounts
    && (assert s.accounts[u].Fits();
        s.store.value.Record(u, s.accounts[u].plan, s.accounts[u].saved.ledger,
                             s.SettlementOf(u, receipt, at, usage), bytes, commits).None?)
  }

  /** A settlement the store refused is still counted by the gateway itself. */
  lemma LossIsCounted(s: State, u: string, receipt: Option<string>, at: U64, usage: Option<Usage>, bytes: nat,
                      commits: bool)
    requires s.Inv() && s.store.Some? && Unstored(s, u, receipt, at, usage, bytes, commits)
    ensures s.accounts[u].saved.ledger.Valid()
    ensures var t := s.RecordConsumption(u, receipt, at, usage, bytes, commits);
      && t.failed && u in t.accounts
      && t.accounts[u].saved == s.accounts[u].saved.Record(Charge(s.accounts[u].plan, Exchange(receipt, at, usage)))
  {
    assert s.accounts[u].Fits();
  }

  lemma LossFails(s: State, a: Action)
    requires s.Inv() && s.store.Some? && Loses(s, a)
    ensures Step(s, a).failed
  {
  }

  lemma FailedIsExhausted(s: State, upstream: string, now: U64)
    requires s.Inv() && s.failed && upstream in s.accounts
    ensures s.Route(upstream, now).exhausted
  {
  }

  /** A settlement that could not be stored is not lost silently: whatever happens afterwards, its
      gateway reports every planned account exhausted. */
  lemma LostSettlementFailsClosed(c: Cluster, m: Move, after: seq<Move>, upstream: string, now: U64)
    requires c.Inv() && m.Act? && c.Possible(m) && Loses(c.Seen(m.gateway), m.action)
    requires c.After(m).AllPossible(after) && upstream in c.gateways[m.gateway].accounts
    ensures var s := c.After(m).AfterAll(after).gateways[m.gateway];
      s.Inv() && s.Route(upstream, now).exhausted
  {
    LossFails(c.Seen(m.gateway), m.action);
    var next := c.After(m);
    var last := next.AfterAll(after);
    assert SamePlans(c.gateways[m.gateway], next.gateways[m.gateway]);
    assert SamePlans(next.gateways[m.gateway], last.gateways[m.gateway]);
    assert last.gateways[m.gateway].Inv();
    FailedIsExhausted(last.gateways[m.gateway], upstream, now);
  }

  /** A gateway that has failed has left its marker, if markers can be written at all. */
  ghost predicate FailuresMarked(c: Cluster) {
    c.store.markable ==> forall g :: 0 <= g < |c.gateways| && c.gateways[g].failed ==> c.store.marked
  }

  ghost predicate Marks(s: State, t: State) {
    && s.store.Some? && t.store.Some? && t.store.value.markable == s.store.value.markable
    && (s.store.value.marked ==> t.store.value.marked)
    && (t.failed && !s.failed && s.store.value.markable ==> t.store.value.marked)
  }

  lemma RecordingMarks(s: State, u: string, receipt: Option<string>, at: U64, usage: Option<Usage>, bytes: nat,
                       commits: bool)
    requires s.Inv() && s.store.Some?
    ensures Marks(s, s.RecordConsumption(u, receipt, at, usage, bytes, commits))
  {
    if u in s.accounts {
      assert s.accounts[u].Fits();
      RowsOnly(s.store.value, u, s.accounts[u].plan, s.accounts[u].saved.ledger,
               s.SettlementOf(u, receipt, at, usage), bytes, commits);
    }
  }

  lemma RowsOnly(store: Store, u: string, plan: Plan, cached: Ledger, x: Settled, bytes: nat, commits: bool)
    requires cached.Valid()
    ensures var r := store.Record(u, plan, cached, x, bytes, commits);
      r.Some? ==> r.value.0.marked == store.marked && r.value.0.markable == store.markable
  {
  }

  lemma ActionMarks(s: State, a: Action)
    requires s.Inv() && s.store.Some? && !a.Elsewhere?
    ensures Marks(s, Step(s, a))
  {
    match a
    case Settle(u, receipt, at, usage, completed, bytes, commits) =>
      RecordingMarks(s, u, Some(receipt), at, usage, bytes, commits);
    case Count(u, at, usage, bytes, commits) => RecordingMarks(s, u, None, at, usage, bytes, commits);
    case _ =>
  }

  lemma MoveMarks(c: Cluster, m: Move)
    requires c.Inv() && c.Possible(m) && FailuresMarked(c)
    ensures FailuresMarked(c.After(m))
    ensures c.store.marked ==> c.After(m).store.marked
    ensures c.After(m).store.markable == c.store.markable
  {
    if m.Act? {
      ActionMarks(c.Seen(m.gateway), m.action);
    } else {
      var d := c.After(m);
      forall g | 0 <= g < |d.gateways| && d.gateways[g].failed ensures g < |c.gateways| && c.gateways[g].failed {
        assert g < |c.gateways| ==> d.gateways[..|c.gateways|][g] == c.gateways[g];
      }
    }
  }

  lemma {:induction false} RunMarks(c: Cluster, run: seq<Move>)
    requires c.Inv() && c.AllPossible(run) && FailuresMarked(c)
    ensures FailuresMarked(c.AfterAll(run))
    ensures c.store.marked ==> c.AfterAll(run).store.marked
    ensures c.AfterAll(run).store.markable == c.store.markable
    decreases |run|
  {
    if run != [] {
      var front := run[..|run| - 1];
      RunMarks(c, front);
      MoveMarks(c.AfterAll(front), run[|run| - 1]);
    }
  }

  /** A lost settlement also outlives its gateway: as long as the marker could be written, no
      gateway starts on the incomplete history, whatever happens in between. */
  lemma LostSettlementBlocksRestart(c: Cluster, m: Move, after: seq<Move>, plans: map<string, Plan>,
                                    order: seq<Opening>)
    requires c.Inv() && FailuresMarked(c) && c.store.markable
    requires m.Act? && c.Possible(m) && Loses(c.Seen(m.gateway), m.action)
    requires c.After(m).AllPossible(after) && Lists(plans, order)
    ensures Join(c.After(m).AfterAll(after), plans, order) == None
  {
    LossFails(c.Seen(m.gateway), m.action);
    MoveMarks(c, m);
    assert c.After(m).gateways[m.gateway].failed;
    RunMarks(c.After(m), after);
  }
}
