/** The gateway's live quota state: ledgers, leases, cooldowns and provider readings, over a
    store that several gateways share. */
module QuotaTracker {
  import opened Machine
  import opened QuotaLedger
  import opened QuotaLease
  import opened Settlement
  import opened Affinity

  const AUTHORITATIVE_TTL_MS: U64 := 300_000
  const MAX_QUOTA_COOLDOWN_MS: U64 := 3_600_000
  const MAX_ACCOUNT_STATE_BYTES: nat := 128 * 1024
  const DEFAULT_SESSION_CAPACITY: nat := 4096
  const MAX_QUOTA_ACCOUNTS: nat := 4096

  datatype PlanUnit = Tokens | Requests
  datatype Plan = Plan(windows: seq<WindowSpec>, rateLimitPerMin: Option<U64>, unit: PlanUnit)
  datatype Usage = Usage(inputTokens: U64, outputTokens: U64)

  datatype History = New | Recovered | PlanChanged | Unavailable
  datatype Source = Authoritative | Estimated | NoSource

  function FreshLedger(plan: Plan): (l: Ledger)
    ensures l.Valid()
  {
    NewLedger(plan.windows, plan.rateLimitPerMin)
  }

  function FreshSaved(plan: Plan): (s: Saved)
    ensures s.ledger.Valid()
  {
    NewSaved(plan.windows, plan.rateLimitPerMin)
  }

  function Amount(plan: Plan, usage: Option<Usage>): U64 {
    match plan.unit
    case Requests => 1
    case Tokens => if usage.Some? then SatAdd(usage.value.inputTokens, usage.value.outputTokens) else 0
  }

  // ----- The shared store -----

  datatype Tracked = Tracked(saved: Saved, plan: Plan, history: History) {
    /** The cached ledger has its plan's dimensions, and "unavailable" is never stored. */
    ghost predicate Fits() {
      saved.ledger.CompatibleWith(FreshLedger(plan)) && history != Unavailable
    }
  }

  /** The text of one row: a readable account of some encoded length, or anything else. */
  datatype Row = Text(saved: Saved, bytes: nat) | Corrupt

  /** The database and the failure marker beside it; `markable` says whether the marker can
      still be written. */
  datatype Store = Store(rows: map<(string, Plan), Row>, reachable: bool, marked: bool, markable: bool) {
    /** Leaves the marker that keeps later gateways from starting on incomplete history. */
    function WithMarker(): Store {
      this.(marked := marked || markable)
    }

    /** The row when it can be read, is not oversized and matches the plan's dimensions. */
    function Load(name: string, plan: Plan, expected: Ledger): (r: Option<Saved>)
      ensures r.Some? ==> r.value.ledger.CompatibleWith(expected)
      ensures r.Some? && expected.Valid() ==> r.value.ledger.Valid()
    {
      if reachable && (name, plan) in rows then
        match rows[(name, plan)]
        case Corrupt => None
        case Text(saved, bytes) =>
          if bytes <= MAX_ACCOUNT_STATE_BYTES && saved.Validates(expected) then Some(saved) else None
      else None
    }

    /** One transaction: load, record, write back. `bytes` is the encoded length of the new
        text and `commits` whether the database accepts the write. */
    function Record(name: string, plan: Plan, expected: Ledger, s: Settled, bytes: nat, commits: bool)
      : Option<(Store, Saved)>
      requires expected.Valid()
    {
      match Load(name, plan, expected)
      case None => None
      case Some(saved) =>
        if bytes > MAX_ACCOUNT_STATE_BYTES || !commits then None
        else
          var next := saved.Record(s);
          Some((this.(rows := rows[(name, plan) := Text(next, bytes)]), next))
    }

    /** The account has a row under some plan. */
    predicate Knows(name: string) {
      exists key :: key in rows && key.0 == name
    }

    /** `prepare`: what a starting gateway does for one account. An existing row is read, never
        written; a missing one is created, marked when the account had another plan. */
    function Prepare(name: string, account: Tracked, bytes: nat): Option<(Store, Tracked)> {
      if !reachable then None
      else if (name, account.plan) in rows then
        match Load(name, account.plan, account.saved.ledger)
        case None => None
        case Some(saved) =>
          Some((this, account.(saved := saved,
                               history := if saved.planChangedBaseline then PlanChanged else Recovered)))
      else
        var next :=
          if Knows(name) then account.(saved := account.saved.(planChangedBaseline := true), history := PlanChanged)
          else account;
        if |rows| >= MAX_QUOTA_ACCOUNTS then None
        else Some((this.(rows := rows[(name, account.plan) := Text(next.saved, bytes)]), next))
    }
  }

  // ----- One gateway -----

  datatype Reading = Reading(windows: seq<WindowSnapshot>, observedAt: U64)

  datatype AccountSnapshot = AccountSnapshot(
    history: History, unknownUsageRequests: U64, upstream: string, windows: seq<WindowSnapshot>,
    rateHeadroomPermille: U16, ratePressured: bool, inflight: U32, exhausted: bool,
    coolingMsRemaining: U64, source: Source)

  /** The soonest-closing window drives urgency and any spent window binds. */
  function BindingOf(windows: seq<WindowSnapshot>): (Option<ResetWindow>, bool) {
    var keys := seq(|windows|, i requires 0 <= i < |windows| => windows[i].msUntilReset);
    (if windows == [] then None
     else
       var w := windows[SoonestIndex(keys)];
       Some(ResetWindow(w.msUntilReset, w.remainingPermille)),
     exists i :: 0 <= i < |windows| && windows[i].remainingPermille == 0)
  }

  /** The part of a provider reading that has not run out `elapsed` after it was taken. */
  function StillOpen(windows: seq<WindowSnapshot>, elapsed: U64): seq<WindowSnapshot> {
    if windows == [] then []
    else
      var w := windows[0];
      (if w.msUntilReset > elapsed then [w.(msUntilReset := w.msUntilReset - elapsed)] else [])
        + StillOpen(windows[1..], elapsed)
  }

  function FreshReading(readings: map<string, Reading>, upstream: string, now: U64): Option<seq<WindowSnapshot>> {
    if upstream !in readings then None
    else
      var reading := readings[upstream];
      if now < reading.observedAt || now - reading.observedAt >= AUTHORITATIVE_TTL_MS then None
      else
        var open := StillOpen(reading.windows, now - reading.observedAt);
        if open == [] then None else Some(open)
  }

  predicate CoolsUntil(cooling: map<string, U64>, upstream: string, now: U64) {
    upstream in cooling && now < cooling[upstream]
  }

  datatype State = State(
    accounts: map<string, Tracked>, store: Option<Store>, failed: bool,
    leases: Leases, cooling: map<string, U64>, authoritative: map<string, Reading>)
  {
    ghost predicate Inv() {
      forall a :: a in accounts ==> accounts[a].Fits()
    }

    predicate ReadFails(name: string)
      requires name in accounts
    {
      store.Some? && store.value.Load(name, accounts[name].plan, accounts[name].saved.ledger).None?
    }

    function CurrentSaved(name: string): (s: Saved)
      requires name in accounts
      ensures Inv() ==> s.ledger.Valid()
    {
      var cached := accounts[name].saved;
      if store.None? then cached
      else
        match store.value.Load(name, accounts[name].plan, cached.ledger)
        case Some(saved) => saved
        case None => cached
    }

    /** Reading a planned account's row flips the failure flag when the row is unusable. */
    function FailedAfterRead(upstream: string): bool {
      failed || (upstream in accounts && ReadFails(upstream))
    }

    function FreshAuthoritative(upstream: string, now: U64): Option<seq<WindowSnapshot>> {
      FreshReading(authoritative, upstream, now)
    }

    predicate IsCooling(upstream: string, now: U64) {
      CoolsUntil(cooling, upstream, now)
    }

    /** The ledger's state, its windows replaced by a fresh provider reading. */
    function WindowedState(upstream: string, now: U64): QuotaState
      requires Inv()
    {
      var local := if upstream in accounts then CurrentSaved(upstream).ledger.QuotaAt(now) else NON_WINDOWED;
      match FreshAuthoritative(upstream, now)
      case None => local
      case Some(windows) =>
        var (reset, exhausted) := BindingOf(windows);
        local.(reset := reset, exhausted := exhausted)
    }

    /** `quota_state`: what the router ranks on. */
    function Route(upstream: string, now: U64): QuotaState
      requires Inv()
    {
      var planned := upstream in accounts;
      var rateLimit := if planned then accounts[upstream].plan.rateLimitPerMin else None;
      var windowed := WindowedState(upstream, now);
      var headroom := ApplyInflightPenalty(
        windowed.rateHeadroomPermille, leases.Inflight(now, upstream), rateLimit);
      var loaded := windowed.(
        rateHeadroomPermille := headroom,
        ratePressured := windowed.ratePressured || headroom <= RATE_PRESSURE_PERMILLE);
      if IsCooling(upstream, now) || (FailedAfterRead(upstream) && planned)
      then loaded.(exhausted := true)
      else loaded
    }

    /** The windows the viewer shows, and where they come from. */
    function ShownWindows(upstream: string, now: U64): (seq<WindowSnapshot>, Source)
      requires Inv()
    {
      match FreshAuthoritative(upstream, now)
      case Some(ws) => (ws, Authoritative)
      case None =>
        if upstream in accounts then
          var ws := CurrentSaved(upstream).ledger.WindowSnapshots(now);
          (ws, if ws == [] then NoSource else Estimated)
        else ([], NoSource)
    }

    /** The local rate headroom, less the requests in flight. */
    function LoadedHeadroom(upstream: string, now: U64): U16
      requires Inv()
    {
      var planned := upstream in accounts;
      ApplyInflightPenalty(
        if planned then CurrentSaved(upstream).ledger.RateHeadroomPermille(now) else 1000,
        leases.Inflight(now, upstream),
        if planned then accounts[upstream].plan.rateLimitPerMin else None)
    }

    function UnknownUsage(upstream: string): U64 {
      if upstream in accounts then CurrentSaved(upstream).unknownUsage else 0
    }

    function HistoryShown(upstream: string): History {
      if upstream !in accounts then New
      else if FailedAfterRead(upstream) then Unavailable
      else accounts[upstream].history
    }

    /** One entry of `snapshot`: what the viewer shows. */
    function Show(upstream: string, now: U64): AccountSnapshot
      requires Inv()
    {
      var (windows, source) := ShownWindows(upstream, now);
      var headroom := LoadedHeadroom(upstream, now);
      var history := HistoryShown(upstream);
      AccountSnapshot(
        history,
        UnknownUsage(upstream),
        upstream,
        windows,
        headroom,
        headroom <= RATE_PRESSURE_PERMILLE,
        leases.Inflight(now, upstream),
        BindingOf(windows).1 || IsCooling(upstream, now) || history == Unavailable,
        if upstream in cooling then SatSub(cooling[upstream], now) else 0,
        source)
    }

    // ----- Updates -----

    /** `persistence_error`: the first failure pauses quota routing and leaves the marker. */
    function Fail(): State {
      if failed then this
      else this.(failed := true, store := if store.Some? then Some(store.value.WithMarker()) else None)
    }

    function Read(upstream: string): State {
      if upstream in accounts && ReadFails(upstream) then Fail() else this
    }

    function ReadAll(upstreams: seq<string>): (s: State)
      ensures s.(failed := failed, store := store) == this && (failed ==> s.failed)
      ensures s.store.Some? <==> store.Some?
      ensures store.Some? ==> s.store.value.rows == store.value.rows && s.store.value.reachable == store.value.reachable
    {
      if upstreams == [] then this
      else ReadAll(upstreams[..|upstreams| - 1]).Read(upstreams[|upstreams| - 1])
    }

    /** `snapshot`: one entry per requested account, each read after the ones before it. */
    function ShowAll(upstreams: seq<string>, now: U64): seq<AccountSnapshot>
      requires Inv()
    {
      if upstreams == [] then []
      else
        var front := upstreams[..|upstreams| - 1];
        ShowAll(front, now) + [ReadAll(front).Show(upstreams[|upstreams| - 1], now)]
    }

    function NoteRateLimited(upstream: string, now: U64, cooldownMs: U64): State {
      var until := SatAdd(now, Min(cooldownMs, MAX_QUOTA_COOLDOWN_MS));
      this.(cooling := cooling[upstream := if upstream in cooling then Max(cooling[upstream], until) else until])
    }

    function NoteAuthoritative(upstream: string, now: U64, windows: seq<WindowSnapshot>): State {
      if windows == [] then this.(authoritative := authoritative - {upstream})
      else this.(authoritative := authoritative[upstream := Reading(windows, now)])
    }

    function Grant(upstream: string, now: U64, lifetimeMs: U64): State {
      this.(leases := leases.GrantFor(now, upstream, lifetimeMs).0)
    }

    function ReleaseLease(lease: LeaseId): State {
      this.(leases := leases.Release(lease))
    }

    function SettlementOf(upstream: string, receipt: Option<string>, now: U64, usage: Option<Usage>): Settled
      requires upstream in accounts
    {
      Settled(receipt, now, Amount(accounts[upstream].plan, usage), usage.None?)
    }

    function RecordConsumption(
      upstream: string, receipt: Option<string>, now: U64, usage: Option<Usage>, bytes: nat, commits: bool): State
      requires Inv()
    {
      if upstream !in accounts then this
      else
        var account := accounts[upstream];
        var s := SettlementOf(upstream, receipt, now, usage);
        var counted := this.(accounts := accounts[upstream := account.(saved := account.saved.Record(s))]);
        if store.None? then counted
        else
          match store.value.Record(upstream, account.plan, account.saved.ledger, s, bytes, commits)
          case Some((next, saved)) =>
            this.(store := Some(next), accounts := accounts[upstream := account.(saved := saved)])
          case None => counted.Fail()
    }

    function RecordSettled(
      upstream: string, receipt: string, now: U64, usage: Option<Usage>, completed: bool,
      bytes: nat, commits: bool): State
      requires Inv()
    {
      if !completed && usage.None? then this
      else if |receipt| > MAX_RECEIPT_BYTES then Fail()
      else RecordConsumption(upstream, Some(receipt), now, usage, bytes, commits)
    }
  }

  // ----- Router and viewer -----

  /** Router and viewer tell the same story about an account. */
  predicate Agree(q: QuotaState, s: AccountSnapshot) {
    && q.exhausted == s.exhausted
    && q.rateHeadroomPermille == s.rateHeadroomPermille
    && q.ratePressured == s.ratePressured
    && q.reset == BindingOf(s.windows).0
  }

  lemma LedgerBinding(l: Ledger, now: U64)
    requires l.Valid()
    ensures BindingOf(l.WindowSnapshots(now)) == (l.QuotaAt(now).reset, l.QuotaAt(now).exhausted)
  {
    var ws := l.WindowSnapshots(now);
    assert seq(|ws|, i requires 0 <= i < |ws| => ws[i].msUntilReset) == l.ResetTimes(now);
    forall i | 0 <= i < |ws|
      ensures ws[i].remainingPermille == l.windows[i].RemainingPermille(now)
    {
    }
  }

  /** In every consistent state, at every clock reading and for every account, planned or not,
      provider-reported, cooling or failed, the router and the viewer agree. */
  lemma RouterAndViewerAgree(s: State, upstream: string, now: U64)
    requires s.Inv()
    ensures Agree(s.Route(upstream, now), s.Show(upstream, now))
  {
    if upstream in s.accounts {
      LedgerBinding(s.CurrentSaved(upstream).ledger, now);
    }
  }

  /** The reset shown is that of a window closing soonest, and one spent window binds. */
  lemma BindingIsSoonest(windows: seq<WindowSnapshot>)
    ensures BindingOf(windows).0.None? <==> windows == []
    ensures windows != [] ==>
      var reset := BindingOf(windows).0.value;
      && (exists w :: w in windows && reset == ResetWindow(w.msUntilReset, w.remainingPermille))
      && (forall w :: w in windows ==> reset.msUntilReset <= w.msUntilReset)
    ensures BindingOf(windows).1 <==> exists w :: w in windows && w.remainingPermille == 0
  {
    if windows != [] {
      var keys := seq(|windows|, i requires 0 <= i < |windows| => windows[i].msUntilReset);
      var w := windows[SoonestIndex(keys)];
      assert w in windows;
      forall v | v in windows ensures w.msUntilReset <= v.msUntilReset {
        var i :| 0 <= i < |windows| && windows[i] == v;
        assert keys[i] == v.msUntilReset;
      }
    }
  }

  /** What the ledger of a planned account says on its own: some window has under a thousandth left. */
  ghost predicate LedgerSpent(l: Ledger, now: U64)
    requires l.Valid()
  {
    exists i :: 0 <= i < |l.windows| &&
      (l.windows[i].limit == 0
       || (l.windows[i].limit - l.windows[i].EffectiveUsed(now)) * 1000 < l.windows[i].limit)
  }

  /** When the router passes an account over: while it cools, once its history is lost, or when
      the provider's fresh reading shows a spent window; the local windows count only without
      such a reading. */
  lemma ExhaustedExactly(s: State, upstream: string, now: U64)
    requires s.Inv()
    ensures s.Route(upstream, now).exhausted <==>
      || s.IsCooling(upstream, now)
      || (upstream in s.accounts && s.FailedAfterRead(upstream))
      || (match s.FreshAuthoritative(upstream, now)
          case Some(windows) => exists w :: w in windows && w.remainingPermille == 0
          case None => upstream in s.accounts && LedgerSpent(s.CurrentSaved(upstream).ledger, now))
  {
    if s.FreshAuthoritative(upstream, now).Some? {
      BindingIsSoonest(s.FreshAuthoritative(upstream, now).value);
    } else if upstream in s.accounts {
      ExhaustedBindsOnTightest(s.CurrentSaved(upstream).ledger, now);
    }
  }

  /** Cooling and provider readings override what the windows say, never the local rate headroom. */
  lemma HeadroomStaysLocal(s: State, upstream: string, now: U64)
    requires s.Inv()
    ensures var bare := s.(cooling := map[], authoritative := map[]);
      && s.Route(upstream, now).rateHeadroomPermille == bare.Route(upstream, now).rateHeadroomPermille
      && s.Route(upstream, now).ratePressured == bare.Route(upstream, now).ratePressured
  {
    var bare := s.(cooling := map[], authoritative := map[]);
    assert bare.Inv();
    if upstream in s.accounts {
      assert bare.CurrentSaved(upstream) == s.CurrentSaved(upstream);
    }
  }

  lemma SnapshotLast(s: State, front: seq<string>, last: string, now: U64)
    requires s.Inv()
    ensures s.ShowAll(front + [last], now) == s.ShowAll(front, now) + [s.ReadAll(front).Show(last, now)]
  {
    assert (front + [last])[..|front|] == front;
  }

  lemma {:induction false} SnapshotLength(s: State, upstreams: seq<string>, now: U64)
    requires s.Inv()
    ensures |s.ShowAll(upstreams, now)| == |upstreams|
  {
    if upstreams != [] {
      SnapshotLength(s, upstreams[..|upstreams| - 1], now);
    }
  }

  lemma {:induction false} SnapshotEntry(s: State, upstreams: seq<string>, now: U64, k: nat)
    requires s.Inv() && k < |upstreams| == |s.ShowAll(upstreams, now)|
    ensures s.ShowAll(upstreams, now)[k] == s.ReadAll(upstreams[..k]).Show(upstreams[k], now)
    decreases |upstreams|
  {
    var front, last := upstreams[..|upstreams| - 1], upstreams[|upstreams| - 1];
    assert upstreams == front + [last];
    SnapshotLast(s, front, last, now);
    SnapshotLength(s, front, now);
    if k < |front| {
      SnapshotEntry(s, front, now, k);
      assert front[..k] == upstreams[..k];
    } else {
      assert upstreams[..k] == front;
    }
  }

  /** One snapshot of several accounts: every entry agrees with what the router would have said
      in the state the entries before it left, and reading never changes more than the failure flag. */
  lemma SnapshotAgrees(s: State, upstreams: seq<string>, now: U64, k: nat)
    requires s.Inv() && k < |upstreams|
    ensures |s.ShowAll(upstreams, now)| == |upstreams|
    ensures s.ShowAll(upstreams, now)[k].upstream == upstreams[k]
    ensures Agree(s.ReadAll(upstreams[..k]).Route(upstreams[k], now), s.ShowAll(upstreams, now)[k])
  {
    SnapshotLength(s, upstreams, now);
    SnapshotEntry(s, upstreams, now, k);
    RouterAndViewerAgree(s.ReadAll(upstreams[..k]), upstreams[k], now);
  }

  /** A provider reading is used for less than its lifetime, and each window it still shows
      closes at the instant the provider named. */
  lemma ReadingsAgeOut(s: State, upstream: string, now: U64)
    ensures s.FreshAuthoritative(upstream, now).Some? <==>
      && upstream in s.authoritative
      && s.authoritative[upstream].observedAt <= now < s.authoritative[upstream].observedAt + 300_000
      && exists w :: w in s.authoritative[upstream].windows
           && now < s.authoritative[upstream].observedAt + w.msUntilReset
    ensures s.FreshAuthoritative(upstream, now).Some? ==>
      forall w :: w in s.FreshAuthoritative(upstream, now).value ==>
        w.msUntilReset > 0
        && exists r :: r in s.authoritative[upstream].windows
             && r == w.(msUntilReset := r.msUntilReset)
             && now + w.msUntilReset == s.authoritative[upstream].observedAt + r.msUntilReset
  {
    if upstream in s.authoritative && s.authoritative[upstream].observedAt <= now {
      StillOpenMeaning(s.authoritative[upstream].windows, now - s.authoritative[upstream].observedAt);
    }
  }

  lemma {:induction false} StillOpenMeaning(windows: seq<WindowSnapshot>, elapsed: U64)
    ensures StillOpen(windows, elapsed) == [] <==> forall w :: w in windows ==> w.msUntilReset <= elapsed
    ensures forall w :: w in StillOpen(windows, elapsed) ==>
      w.msUntilReset > 0
      && exists r :: r in windows && r == w.(msUntilReset := r.msUntilReset)
           && r.msUntilReset == w.msUntilReset + elapsed
  {
    if windows != [] {
      StillOpenMeaning(windows[1..], elapsed);
      assert windows == [windows[0]] + windows[1..];
      var w0 := windows[0];
      forall w | w in StillOpen(windows, elapsed)
        ensures w.msUntilReset > 0
        ensures exists r :: r in windows && r == w.(msUntilReset := r.msUntilReset)
                  && r.msUntilReset == w.msUntilReset + elapsed
      {
        if w in StillOpen(windows[1..], elapsed) {
          var r :| r in windows[1..] && r == w.(msUntilReset := r.msUntilReset)
                   && r.msUntilReset == w.msUntilReset + elapsed;
          assert r in windows;
        } else {
          assert w == w0.(msUntilReset := w0.msUntilReset - elapsed);
          assert w0 in windows;
        }
      }
    }
  }

  lemma {:induction false} OpenStaysOpen(windows: seq<WindowSnapshot>, elapsed: U64, r: WindowSnapshot)
    requires r in windows && r.msUntilReset > elapsed
    ensures r.(msUntilReset := r.msUntilReset - elapsed) in StillOpen(windows, elapsed)
  {
    if r != windows[0] {
      OpenStaysOpen(windows[1..], elapsed, r);
    }
  }

  /** Every window of a fresh reading that is still open stays in it, closing when it was said to. */
  lemma OpenWindowsStay(s: State, upstream: string, now: U64, r: WindowSnapshot)
    requires upstream in s.authoritative && r in s.authoritative[upstream].windows
    requires var at := s.authoritative[upstream].observedAt;
      at <= now < at + 300_000 && now < at + r.msUntilReset
    ensures s.FreshAuthoritative(upstream, now).Some?
    ensures r.(msUntilReset := s.authoritative[upstream].observedAt + r.msUntilReset - now)
      in s.FreshAuthoritative(upstream, now).value
  {
    OpenStaysOpen(s.authoritative[upstream].windows, now - s.authoritative[upstream].observedAt, r);
  }

  /** A refusal cools the account for exactly the capped wait and never shortens a longer one. */
  lemma CoolingLasts(s: State, upstream: string, at: U64, cooldownMs: U64, now: U64)
    ensures s.NoteRateLimited(upstream, at, cooldownMs).IsCooling(upstream, now) <==>
      s.IsCooling(upstream, now) || now < SatAdd(at, Min(cooldownMs, 3_600_000))
    ensures forall other: string :: other != upstream ==>
      (s.NoteRateLimited(upstream, at, cooldownMs).IsCooling(other, now) <==> s.IsCooling(other, now))
  {
  }

  /** Reading a row changes nothing that a later reading of it sees. */
  lemma ReadIsQuiet(s: State, upstream: string, now: U64)
    requires s.Inv()
    ensures var t := s.Read(upstream);
      && t.Inv() && t.Read(upstream) == t
      && t.LoadedHeadroom(upstream, now) == s.LoadedHeadroom(upstream, now)
      && t.UnknownUsage(upstream) == s.UnknownUsage(upstream)
  {
    var t := s.Read(upstream);
    if upstream in s.accounts {
      assert t.CurrentSaved(upstream) == s.CurrentSaved(upstream);
      assert t.ReadFails(upstream) == s.ReadFails(upstream);
    }
  }

  /** A snapshot flags a failure exactly when one was flagged before or a row it had to read is unusable. */
  lemma {:induction false} SnapshotFlags(s: State, upstreams: seq<string>)
    ensures s.ReadAll(upstreams).failed <==>
      s.failed || exists u :: u in upstreams && u in s.accounts && s.ReadFails(u)
  {
    if upstreams != [] {
      var front, last := upstreams[..|upstreams| - 1], upstreams[|upstreams| - 1];
      SnapshotFlags(s, front);
      assert forall u :: u in upstreams <==> u in front || u == last;
      SameReads(s, s.ReadAll(front), last);
    }
  }

  lemma SameReads(s: State, t: State, u: string)
    requires t.accounts == s.accounts && (t.store.Some? <==> s.store.Some?)
    requires s.store.Some? ==>
      t.store.value.rows == s.store.value.rows && t.store.value.reachable == s.store.value.reachable
    ensures u in s.accounts ==> (t.ReadFails(u) <==> s.ReadFails(u))
  {
  }

  /** Only the first failure does anything: it raises the flag and leaves the marker if it can. */
  lemma FailsOnce(s: State)
    ensures s.Fail().failed && s.Fail().Fail() == s.Fail() && (s.failed ==> s.Fail() == s)
    ensures !s.failed && s.store.Some? ==>
      s.Fail().store == Some(s.store.value.(marked := s.store.value.marked || s.store.value.markable))
    ensures s.Fail().(failed := s.failed, store := s.store) == s
  {
  }

  /** An entry put together from what was read and the state the reads left is the one to show. */
  lemma EntryIsShown(s: State, t: State, upstream: string, now: U64, windows: seq<WindowSnapshot>, source: Source)
    requires s.Inv() && t == s.Read(upstream) && (windows, source) == s.ShownWindows(upstream, now)
    ensures var headroom := s.LoadedHeadroom(upstream, now);
      var history :=
        if upstream !in t.accounts then New else if t.failed then Unavailable else t.accounts[upstream].history;
      s.Show(upstream, now) == AccountSnapshot(
        history, s.UnknownUsage(upstream), upstream, windows, headroom, headroom <= RATE_PRESSURE_PERMILLE,
        t.leases.Inflight(now, upstream),
        BindingOf(windows).1 || t.IsCooling(upstream, now) || history == Unavailable,
        if upstream in t.cooling then SatSub(t.cooling[upstream], now) else 0,
        source)
  {
  }

  // ----- Runs of one gateway -----

  datatype Action =
    | Settle(upstream: string, receipt: string, at: U64, usage: Option<Usage>, completed: bool,
             bytes: nat, commits: bool)
    | Count(upstream: string, at: U64, usage: Option<Usage>, bytes: nat, commits: bool)
    | Refusal(upstream: string, now: U64, cooldownMs: U64)
    | Report(upstream: string, now: U64, windows: seq<WindowSnapshot>)
    | Dispatch(upstream: string, now: U64, lifetimeMs: U64)
    | Finish(lease: LeaseId)
    | Look(upstream: string)
    | Elsewhere(store: Store)  // the store as other gateways, or a broken disk, left it

  function Step(s: State, a: Action): State
    requires s.Inv()
  {
    match a
    case Settle(u, receipt, at, usage, completed, bytes, commits) =>
      s.RecordSettled(u, receipt, at, usage, completed, bytes, commits)
    case Count(u, at, usage, bytes, commits) => s.RecordConsumption(u, None, at, usage, bytes, commits)
    case Refusal(u, now, cooldownMs) => s.NoteRateLimited(u, now, cooldownMs)
    case Report(u, now, windows) => s.NoteAuthoritative(u, now, windows)
    case Dispatch(u, now, lifetimeMs) => s.Grant(u, now, lifetimeMs)
    case Finish(lease) => s.ReleaseLease(lease)
    case Look(u) => s.Read(u)
    case Elsewhere(store) => if s.store.Some? then s.(store := Some(store)) else s
  }

  lemma CompatibleIsTransitive(a: Ledger, b: Ledger, c: Ledger)
    requires a.CompatibleWith(b) && b.CompatibleWith(c)
    ensures a.CompatibleWith(c)
  {
  }

  lemma RecordKeepsDimensions(s: Saved, x: Settled)
    requires s.ledger.Valid()
    ensures s.Record(x).ledger.CompatibleWith(s.ledger)
  {
  }

  /** What one step can never do: lose an account, change its plan, or clear a failure. */
  predicate Continues(s: State, t: State) {
    && t.accounts.Keys == s.accounts.Keys
    && (forall a :: a in s.accounts ==> t.accounts[a].plan == s.accounts[a].plan)
    && (s.failed ==> t.failed)
    && (s.store.Some? <==> t.store.Some?)
  }

  lemma RecordedFits(t: Tracked, saved: Saved, x: Settled)
    requires t.Fits() && saved.ledger.CompatibleWith(t.saved.ledger)
    ensures saved.ledger.Valid()
    ensures t.(saved := saved.Record(x)).Fits()
  {
    CompatibleIsTransitive(saved.ledger, t.saved.ledger, FreshLedger(t.plan));
    RecordKeepsDimensions(saved, x);
    CompatibleIsTransitive(saved.Record(x).ledger, saved.ledger, FreshLedger(t.plan));
  }

  lemma PutAccount(s: State, upstream: string, account: Tracked, store: Option<Store>, failed: bool)
    requires s.Inv() && upstream in s.accounts
    requires account.Fits() && account.plan == s.accounts[upstream].plan
    requires (s.store.Some? <==> store.Some?) && (s.failed ==> failed)
    ensures var t := s.(accounts := s.accounts[upstream := account], store := store, failed := failed);
      t.Inv() && Continues(s, t)
  {
  }

  lemma ConsumptionKeepsInvariant(s: State, upstream: string, receipt: Option<string>, now: U64,
                                  usage: Option<Usage>, bytes: nat, commits: bool)
    requires s.Inv()
    ensures var t := s.RecordConsumption(upstream, receipt, now, usage, bytes, commits);
      t.Inv() && Continues(s, t)
  {
    if upstream in s.accounts {
      var account := s.accounts[upstream];
      var x := s.SettlementOf(upstream, receipt, now, usage);
      RecordedFits(account, account.saved, x);
      var counted := account.(saved := account.saved.Record(x));
      if s.store.None? {
        PutAccount(s, upstream, counted, s.store, s.failed);
      } else {
        match s.store.value.Record(upstream, account.plan, account.saved.ledger, x, bytes, commits)
        case Some((next, saved)) =>
          RecordedFits(account, s.store.value.Load(upstream, account.plan, account.saved.ledger).value, x);
          PutAccount(s, upstream, account.(saved := saved), Some(next), s.failed);
        case None =>
          PutAccount(s, upstream, counted, s.Fail().store, true);
      }
    }
  }

  lemma SettlingKeepsInvariant(s: State, upstream: string, receipt: string, at: U64, usage: Option<Usage>,
                               completed: bool, bytes: nat, commits: bool)
    requires s.Inv()
    ensures var t := s.RecordSettled(upstream, receipt, at, usage, completed, bytes, commits);
      t.Inv() && Continues(s, t)
  {
    if (completed || usage.Some?) && |receipt| <= MAX_RECEIPT_BYTES {
      ConsumptionKeepsInvariant(s, upstream, Some(receipt), at, usage, bytes, commits);
    }
  }

  /** The steps that record nothing leave every account alone. */
  lemma OtherStepsKeepAccounts(s: State, a: Action)
    requires s.Inv() && !a.Settle? && !a.Count?
    ensures Step(s, a).accounts == s.accounts
    ensures s.failed ==> Step(s, a).failed
    ensures s.store.Some? <==> Step(s, a).store.Some?
  {
  }

  lemma StepKeepsInvariant(s: State, a: Action)
    requires s.Inv()
    ensures Step(s, a).Inv() && Continues(s, Step(s, a))
  {
    match a
    case Settle(u, receipt, at, usage, completed, bytes, commits) =>
      SettlingKeepsInvariant(s, u, receipt, at, usage, completed, bytes, commits);
    case Count(u, at, usage, bytes, commits) =>
      ConsumptionKeepsInvariant(s, u, None, at, usage, bytes, commits);
    case _ =>
      OtherStepsKeepAccounts(s, a);
  }

  function RunFrom(s: State, actions: seq<Action>): (t: State)
    requires s.Inv()
    ensures t.Inv() && Continues(s, t)
  {
    if actions == [] then s
    else
      var earlier := RunFrom(s, actions[..|actions| - 1]);
      StepKeepsInvariant(earlier, actions[|actions| - 1]);
      Step(earlier, actions[|actions| - 1])
  }

  function NewTracker(plans: map<string, Plan>, store: Option<Store>): (s: State)
    ensures s.Inv()
  {
    State(map u | u in plans :: Tracked(FreshSaved(plans[u]), plans[u], New),
          store, false, NewLeases(DEFAULT_LEASE_MS), map[], map[])
  }

  /** Over every run of a gateway: router and viewer agree in every state, and once
      persistence has failed every planned account stays exhausted for both. */
  lemma SafeOverRuns(start: State, before: seq<Action>, after: seq<Action>, upstream: string, now: U64)
    requires start.Inv()
    ensures var s := RunFrom(start, before);
      var t := RunFrom(s, after);
      && Agree(t.Route(upstream, now), t.Show(upstream, now))
      && (s.failed && upstream in start.accounts ==>
            t.Route(upstream, now).exhausted && t.Show(upstream, now).exhausted)
  {
    var t := RunFrom(RunFrom(start, before), after);
    RouterAndViewerAgree(t, upstream, now);
  }

  // ----- A gateway starting on a store -----

  /** One account of a starting gateway, with the encoded length of a fresh row for it. */
  datatype Opening = Opening(name: string, bytes: nat)

  predicate Planned(accounts: map<string, Tracked>, order: seq<Opening>) {
    forall o :: o in order ==> o.name in accounts
  }

  /** The one transaction of `persistent`: every account prepared, or nothing stored. */
  function OpenAll(store: Store, accounts: map<string, Tracked>, order: seq<Opening>)
    : Option<(Store, map<string, Tracked>)>
    requires Planned(accounts, order)
  {
    if order == [] then Some((store, accounts))
    else
      var o := order[|order| - 1];
      match OpenAll(store, accounts, order[..|order| - 1])
      case None => None
      case Some((s, ready)) =>
        if o.name !in ready then None
        else
          match s.Prepare(o.name, ready[o.name], o.bytes)
          case None => None
          case Some((t, account)) => Some((t, ready[o.name := account]))
  }

  /** `persistent`: refused while a failure marker is there. */
  function Started(store: Store, accounts: map<string, Tracked>, order: seq<Opening>)
    : Option<(Store, map<string, Tracked>)>
    requires Planned(accounts, order)
  {
    if store.marked then None else OpenAll(store, accounts, order)
  }

  lemma OpenMore(store: Store, accounts: map<string, Tracked>, order: seq<Opening>, i: nat, s: Store,
                 ready: map<string, Tracked>)
    requires Planned(accounts, order) && i < |order| && order[i].name in ready
    requires OpenAll(store, accounts, order[..i]) == Some((s, ready))
    ensures OpenAll(store, accounts, order[..i + 1]) ==
      match s.Prepare(order[i].name, ready[order[i].name], order[i].bytes)
      case None => None
      case Some((t, account)) => Some((t, ready[order[i].name := account]))
  {
    assert order[..i + 1][..i] == order[..i];
  }

  lemma {:induction false} OpeningFails(store: Store, accounts: map<string, Tracked>, order: seq<Opening>, n: nat)
    requires Planned(accounts, order) && n <= |order|
    requires OpenAll(store, accounts, order[..n]).None?
    ensures OpenAll(store, accounts, order).None?
    decreases |order|
  {
    if n == |order| {
      assert order[..n] == order;
    } else {
      var front := order[..|order| - 1];
      assert front[..n] == order[..n];
      OpeningFails(store, accounts, front, n);
    }
  }

  // ----- The objects the gateway updates in place -----

  class QuotaStore {
    var rows: map<(string, Plan), Row>
    var reachable: bool
    var failureMarker: bool
    const markable: bool

    function State(): Store
      reads this
    {
      Store(rows, reachable, failureMarker, markable)
    }

    method Mark()
      modifies `failureMarker
      ensures State() == old(State()).WithMarker()
    {
      failureMarker := failureMarker || markable;
    }

    method Record(name: string, account: Tracked, s: Settled, bytes: nat, commits: bool) returns (r: Option<Saved>)
      requires account.saved.ledger.Valid()
      modifies this
      ensures r.Some? ==> old(State()).Record(name, account.plan, account.saved.ledger, s, bytes, commits)
                            == Some((State(), r.value))
      ensures r.None? ==> State() == old(State())
                          && State().Record(name, account.plan, account.saved.ledger, s, bytes, commits).None?
    {
      var loaded := State().Load(name, account.plan, account.saved.ledger);
      if loaded.None? || bytes > MAX_ACCOUNT_STATE_BYTES || !commits {
        return None;
      }
      var saved := loaded.value.Record(s);
      rows := rows[(name, account.plan) := Text(saved, bytes)];
      return Some(saved);
    }

    method Prepare(name: string, account: Tracked, bytes: nat) returns (r: Option<Tracked>)
      modifies this
      ensures match old(State()).Prepare(name, account, bytes)
              case None => r.None? && State() == old(State())
              case Some((store, ready)) => r == Some(ready) && State() == store
    {
      if !reachable {
        return None;
      }
      if (name, account.plan) in rows {
        var loaded := State().Load(name, account.plan, account.saved.ledger);
        if loaded.None? {
          return None;
        }
        var history := if loaded.value.planChangedBaseline then PlanChanged else Recovered;
        return Some(account.(saved := loaded.value, history := history));
      }
      var next := account;
      if State().Knows(name) {
        next := next.(saved := next.saved.(planChangedBaseline := true), history := PlanChanged);
      }
      if |rows| >= MAX_QUOTA_ACCOUNTS {
        return None;
      }
      rows := rows[(name, account.plan) := Text(next.saved, bytes)];
      return Some(next);
    }

    /** Prepares every account in one transaction: a failure leaves the rows as they were. */
    method PrepareAll(accounts: map<string, Tracked>, order: seq<Opening>) returns (r: Option<map<string, Tracked>>)
      requires Planned(accounts, order)
      modifies this
      ensures match OpenAll(old(State()), accounts, order)
              case None => r.None? && State() == old(State())
              case Some((store, ready)) => r == Some(ready) && State() == store
    {
      var uncommitted := rows;
      var ready := accounts;
      for i := 0 to |order|
        invariant reachable == old(reachable) && failureMarker == old(failureMarker)
        invariant accounts.Keys == ready.Keys
        invariant OpenAll(old(State()), accounts, order[..i]) == Some((State(), ready))
      {
        var o := order[i];
        OpenMore(old(State()), accounts, order, i, State(), ready);
        var prepared := Prepare(o.name, ready[o.name], o.bytes);
        if prepared.None? {
          OpeningFails(old(State()), accounts, order, i + 1);
          rows := uncommitted;
          return None;
        }
        ready := ready[o.name := prepared.value];
      }
      assert order[..|order|] == order;
      return Some(ready);
    }

    /** A gateway starts only when no failure marker has been left. */
    method Start(accounts: map<string, Tracked>, order: seq<Opening>) returns (r: Option<map<string, Tracked>>)
      requires Planned(accounts, order)
      modifies this
      ensures match Started(old(State()), accounts, order)
              case None => r.None? && State() == old(State())
              case Some((store, ready)) => r == Some(ready) && State() == store
    {
      if failureMarker {
        return None;
      }
      r := PrepareAll(accounts, order);
    }
  }

  class QuotaTracker {
    var accounts: map<string, Tracked>
    const store: QuotaStore?
    var persistenceFailed: bool
    var leases: Leases
    var sessions: map<string, (string, string)>
    var sessionOrder: seq<string>
    const sessionCapacity: nat
    var coolingUntilMs: map<string, U64>
    var authoritative: map<string, Reading>

    function View(): State
      reads this, store
    {
      State(accounts, if store == null then None else Some(store.State()), persistenceFailed,
            leases, coolingUntilMs, authoritative)
    }

    function Conversations(): Sessions<(string, string)>
      reads this
    {
      Sessions(sessions, sessionOrder, sessionCapacity)
    }

    constructor (plans: map<string, Plan>, shared: QuotaStore?)
      ensures store == shared
      ensures View() == NewTracker(plans, if shared == null then None else Some(shared.State()))
      ensures Conversations() == Sessions(map[], [], 4096)
    {
      accounts := map u | u in plans :: Tracked(FreshSaved(plans[u]), plans[u], New);
      store := shared;
      persistenceFailed := false;
      leases := NewLeases(DEFAULT_LEASE_MS);
      sessions, sessionOrder, sessionCapacity := map[], [], DEFAULT_SESSION_CAPACITY;
      coolingUntilMs, authoritative := map[], map[];
    }

    method PersistenceError()
      modifies `persistenceFailed, if store == null then {} else {store}
      ensures View() == old(View()).Fail()
    {
      if !persistenceFailed {
        persistenceFailed := true;
        if store != null {
          store.Mark();
        }
      }
    }

    /** Reads the account's row; an unusable row pauses quota routing. */
    method CurrentSaved(name: string) returns (saved: Saved)
      requires View().Inv() && name in accounts
      modifies `persistenceFailed, if store == null then {} else {store}
      ensures saved == old(View()).CurrentSaved(name)
      ensures View() == old(View()).Read(name)
    {
      if store != null {
        var loaded := store.State().Load(name, accounts[name].plan, accounts[name].saved.ledger);
        if loaded.Some? {
          return loaded.value;
        }
        PersistenceError();
      }
      return accounts[name].saved;
    }

    method CurrentWindows(upstream: string, now: U64) returns (state: QuotaState)
      requires View().Inv()
      modifies `persistenceFailed, if store == null then {} else {store}
      ensures state == old(View()).WindowedState(upstream, now)
      ensures View() == old(View()).Read(upstream)
    {
      state := NON_WINDOWED;
      if upstream in accounts {
        var saved := CurrentSaved(upstream);
        state := saved.ledger.QuotaAt(now);
      }
      var reading := FreshReading(authoritative, upstream, now);
      if reading.Some? {
        var (reset, exhausted) := BindingOf(reading.value);
        state := state.(reset := reset, exhausted := exhausted);
      }
    }

    method QuotaState(upstream: string, now: U64) returns (q: QuotaState)
      requires View().Inv()
      modifies `persistenceFailed, if store == null then {} else {store}
      ensures q == old(View()).Route(upstream, now)
      ensures View() == old(View()).Read(upstream)
    {
      var rateLimit := if upstream in accounts then accounts[upstream].plan.rateLimitPerMin else None;
      var state := CurrentWindows(upstream, now);
      var inflight := leases.Inflight(now, upstream);
      state := state.(rateHeadroomPermille :=
        ApplyInflightPenalty(state.rateHeadroomPermille, inflight, rateLimit));
      state := state.(ratePressured := state.ratePressured || state.rateHeadroomPermille <= RATE_PRESSURE_PERMILLE);
      if View().IsCooling(upstream, now) || (persistenceFailed && upstream in accounts) {
        state := state.(exhausted := true);
      }
      return state;
    }

    method WindowsOf(upstream: string, now: U64) returns (windows: seq<WindowSnapshot>, source: Source)
      requires View().Inv()
      modifies `persistenceFailed, if store == null then {} else {store}
      ensures (windows, source) == old(View()).ShownWindows(upstream, now)
      ensures old(View()).Read(upstream) == View().Read(upstream)
      ensures View() == old(View()) || View() == old(View()).Read(upstream)
    {
      windows, source := [], NoSource;
      var reading := FreshReading(authoritative, upstream, now);
      if reading.Some? {
        windows, source := reading.value, Authoritative;
      } else if upstream in accounts {
        var saved := CurrentSaved(upstream);
        windows := saved.ledger.WindowSnapshots(now);
        source := if windows == [] then NoSource else Estimated;
      }
    }

    method RateOf(upstream: string, now: U64) returns (headroom: U16)
      requires View().Inv()
      modifies `persistenceFailed, if store == null then {} else {store}
      ensures headroom == old(View()).LoadedHeadroom(upstream, now)
      ensures View() == old(View()).Read(upstream)
    {
      var rateLimit, ledgerHeadroom: U16 := None, 1000;
      if upstream in accounts {
        rateLimit := accounts[upstream].plan.rateLimitPerMin;
        var saved := CurrentSaved(upstream);
        ledgerHeadroom := saved.ledger.RateHeadroomPermille(now);
      }
      headroom := ApplyInflightPenalty(ledgerHeadroom, leases.Inflight(now, upstream), rateLimit);
    }

    /** The windows to show and the headroom left, by one or two reads. */
    method Measured(upstream: string, now: U64) returns (windows: seq<WindowSnapshot>, source: Source, headroom: U16)
      requires View().Inv()
      modifies `persistenceFailed, if store == null then {} else {store}
      ensures (windows, source) == old(View()).ShownWindows(upstream, now)
      ensures headroom == old(View()).LoadedHeadroom(upstream, now)
      ensures View() == old(View()).Read(upstream)
    {
      ReadIsQuiet(View(), upstream, now);
      windows, source := WindowsOf(upstream, now);
      headroom := RateOf(upstream, now);
    }

    method UnknownUsageOf(upstream: string) returns (unknown: U64)
      requires View().Inv()
      modifies `persistenceFailed, if store == null then {} else {store}
      ensures unknown == old(View()).UnknownUsage(upstream)
      ensures View() == old(View()).Read(upstream)
    {
      unknown := 0;
      if upstream in accounts {
        var saved := CurrentSaved(upstream);
        unknown := saved.unknownUsage;
      }
    }

    /** One entry: the row is read for the windows, for the headroom and, once the history has been
        judged, for the unknown usage. */
    method SnapshotOne(upstream: string, now: U64) returns (a: AccountSnapshot)
      requires View().Inv()
      modifies `persistenceFailed, if store == null then {} else {store}
      ensures a == old(View()).Show(upstream, now)
      ensures View() == old(View()).Read(upstream)
    {
      ghost var s := View();
      var windows, source, headroom := Measured(upstream, now);
      var cooling: U64 := if upstream in coolingUntilMs then SatSub(coolingUntilMs[upstream], now) else 0;
      var history :=
        if upstream !in accounts then New
        else if persistenceFailed then Unavailable
        else accounts[upstream].history;
      ReadIsQuiet(s, upstream, now);
      var unknown := UnknownUsageOf(upstream);
      var exhausted := BindingOf(windows).1 || View().IsCooling(upstream, now) || history == Unavailable;
      EntryIsShown(s, View(), upstream, now, windows, source);
      return AccountSnapshot(history, unknown, upstream, windows, headroom, headroom <= RATE_PRESSURE_PERMILLE,
                             leases.Inflight(now, upstream), exhausted, cooling, source);
    }

    /** One entry per requested account, each read after the ones before it. */
    method Snapshot(upstreams: seq<string>, now: U64) returns (entries: seq<AccountSnapshot>)
      requires View().Inv()
      modifies `persistenceFailed, if store == null then {} else {store}
      ensures entries == old(View()).ShowAll(upstreams, now)
      ensures View() == old(View()).ReadAll(upstreams)
    {
      entries := [];
      for k := 0 to |upstreams|
        invariant View() == old(View()).ReadAll(upstreams[..k])
        invariant entries == old(View()).ShowAll(upstreams[..k], now)
      {
        assert upstreams[..k + 1][..k] == upstreams[..k];
        var entry := SnapshotOne(upstreams[k], now);
        entries := entries + [entry];
      }
      assert upstreams[..|upstreams|] == upstreams;
    }

    method NoteRateLimited(upstream: string, now: U64, cooldownMs: U64)
      modifies this
      ensures View() == old(View()).NoteRateLimited(upstream, now, cooldownMs)
      ensures Conversations() == old(Conversations())
    {
      var until := SatAdd(now, Min(cooldownMs, MAX_QUOTA_COOLDOWN_MS));
      if upstream in coolingUntilMs {
        until := Max(coolingUntilMs[upstream], until);
      }
      coolingUntilMs := coolingUntilMs[upstream := until];
    }

    method NoteAuthoritative(upstream: string, now: U64, windows: seq<WindowSnapshot>)
      modifies this
      ensures View() == old(View()).NoteAuthoritative(upstream, now, windows)
      ensures Conversations() == old(Conversations())
    {
      if windows == [] {
        authoritative := authoritative - {upstream};
        return;
      }
      authoritative := authoritative[upstream := Reading(windows, now)];
    }

    method GrantFor(upstream: string, now: U64, lifetimeMs: U64) returns (lease: LeaseId)
      modifies this
      ensures View() == old(View()).Grant(upstream, now, lifetimeMs)
      ensures lease == old(leases).GrantFor(now, upstream, lifetimeMs).1
      ensures Conversations() == old(Conversations())
    {
      var granted := leases.GrantFor(now, upstream, lifetimeMs);
      leases, lease := granted.0, granted.1;
    }

    method Release(lease: LeaseId)
      modifies this
      ensures View() == old(View()).ReleaseLease(lease)
      ensures Conversations() == old(Conversations())
    {
      leases := leases.Release(lease);
    }

    method RecordConsumption(upstream: string, receipt: Option<string>, now: U64, usage: Option<Usage>,
                             bytes: nat, commits: bool)
      requires View().Inv()
      modifies this, if store == null then {} else {store}
      ensures View() == old(View()).RecordConsumption(upstream, receipt, now, usage, bytes, commits)
      ensures Conversations() == old(Conversations())
    {
      if upstream !in accounts {
        return;
      }
      var account := accounts[upstream];
      assert account.Fits();
      var s := Settled(receipt, now, Amount(account.plan, usage), usage.None?);
      if store != null {
        var result := store.Record(upstream, account, s, bytes, commits);
        if result.Some? {
          accounts := accounts[upstream := account.(saved := result.value)];
          return;
        }
        PersistenceError();
      }
      accounts := accounts[upstream := account.(saved := account.saved.Record(s))];
    }

    method RecordSettled(upstream: string, receipt: string, now: U64, usage: Option<Usage>, completed: bool,
                         bytes: nat, commits: bool)
      requires View().Inv()
      modifies this, if store == null then {} else {store}
      ensures View() == old(View()).RecordSettled(upstream, receipt, now, usage, completed, bytes, commits)
      ensures Conversations() == old(Conversations())
    {
      if completed || usage.Some? {
        if |receipt| > MAX_RECEIPT_BYTES {
          PersistenceError();
          return;
        }
        RecordConsumption(upstream, Some(receipt), now, usage, bytes, commits);
      }
    }

    method Remember(session: string, account: (string, string))
      modifies this
      ensures Conversations() == old(Conversations()).Remember(session, account)
      ensures View() == old(View())
    {
      var known := session in sessions;
      sessions := sessions[session := account];
      if !known {
        sessionOrder := sessionOrder + [session];
        while |sessionOrder| > sessionCapacity
          invariant Conversations().Evict()
                 == Sessions(old(sessions)[session := account], old(sessionOrder) + [session], sessionCapacity).Evict()
          invariant View() == old(View())
        {
          var evicted := sessionOrder[0];
          sessionOrder := sessionOrder[1..];
          sessions := sessions - {evicted};
        }
      }
    }
  }
}
