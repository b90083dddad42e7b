/** In-flight leases: the concurrency half of quota-first routing. */
module QuotaLease {
  import opened Machine
  import opened Arithmetic

  const DEFAULT_LEASE_MS: U64 := 120_000
  const DEFAULT_INFLIGHT_DOCK_PERMILLE: U32 := 100

  datatype LeaseId = LeaseId(account: string, serial: nat)

  /** Account key to (lease serial to expiry). */
  datatype Leases = Leases(leaseMs: U64, nextSerial: nat, byAccount: map<string, map<nat, U64>>) {
    function Of(account: string): map<nat, U64> {
      if account in byAccount then byAccount[account] else map[]
    }

    function GrantFor(now: U64, account: string, lifetimeMs: U64): (r: (Leases, LeaseId)) {
      var expiry := SatAdd(now, Max(lifetimeMs, leaseMs));
      (Leases(leaseMs, nextSerial + 1, byAccount[account := Retain(Of(account), now)[nextSerial := expiry]]),
       LeaseId(account, nextSerial))
    }

    function Release(lease: LeaseId): Leases {
      if lease.account !in byAccount then this
      else
        var rest := byAccount[lease.account] - {lease.serial};
        this.(byAccount := if rest == map[] then byAccount - {lease.account}
                           else byAccount[lease.account := rest])
    }

    function Tracked(now: U64, account: string): set<nat> {
      set s | s in Of(account) && Of(account)[s] > now
    }

    function Inflight(now: U64, account: string): U32 {
      Min(|Tracked(now, account)|, U32_MAX)
    }
  }

  /** `HashMap::retain`: drop the leases that have expired by `now`. */
  function Retain(leases: map<nat, U64>, now: U64): (r: map<nat, U64>)
    ensures forall s :: s in r <==> s in leases && leases[s] > now
    ensures forall s :: s in r ==> r[s] == leases[s]
  {
    map s: nat | s in leases && leases[s] > now :: leases[s]
  }

  function NewLeases(leaseMs: U64): Leases {
    Leases(Max(leaseMs, 1), 0, map[])
  }

  // ----- Runs, and the ledger of leases that forgets nothing -----

  datatype Op =
    | Grant(now: U64, account: string, lifetimeMs: U64)
    | Release(lease: LeaseId)

  function Step(l: Leases, op: Op): Leases {
    match op
    case Grant(now, account, lifetimeMs) => l.GrantFor(now, account, lifetimeMs).0
    case Release(lease) => l.Release(lease)
  }

  function Run(leaseMs: U64, ops: seq<Op>): Leases {
    if ops == [] then NewLeases(leaseMs)
    else Step(Run(leaseMs, ops[..|ops| - 1]), ops[|ops| - 1])
  }

  function Grants(ops: seq<Op>): nat {
    if ops == [] then 0
    else Grants(ops[..|ops| - 1]) + (if ops[|ops| - 1].Grant? then 1 else 0)
  }

  /** A granted, unreleased lease, and the latest clock reading at which a later request
      was granted on the same account (-1 when there was none). */
  datatype Lease = Lease(expiry: U64, overtakenAt: int)

  function Overtake(u: map<LeaseId, Lease>, account: string, now: U64): (r: map<LeaseId, Lease>)
    ensures r.Keys == u.Keys
    ensures forall id :: id in u ==>
      r[id] == (if id.account == account then Lease(u[id].expiry, Max(u[id].overtakenAt, now)) else u[id])
  {
    map id | id in u ::
      if id.account == account then Lease(u[id].expiry, Max(u[id].overtakenAt, now)) else u[id]
  }

  /** Every granted and unreleased lease of a run, expired or not. */
  function Unreleased(leaseMs: U64, ops: seq<Op>): map<LeaseId, Lease> {
    if ops == [] then map[]
    else
      var earlier := Unreleased(leaseMs, ops[..|ops| - 1]);
      match ops[|ops| - 1]
      case Release(lease) => earlier - {lease}
      case Grant(now, account, lifetimeMs) =>
        Overtake(earlier, account, now)[LeaseId(account, Grants(ops[..|ops| - 1]))
          := Lease(SatAdd(now, Max(lifetimeMs, Max(leaseMs, 1))), -1)]
  }

  /** The granted, unreleased and unexpired leases of an account. */
  function Live(leaseMs: U64, ops: seq<Op>, now: U64, account: string): set<nat> {
    var u := Unreleased(leaseMs, ops);
    set id | id in u && id.account == account && u[id].expiry > now :: id.serial
  }

  ghost predicate Matches(l: Leases, u: map<LeaseId, Lease>) {
    && (forall a :: a in l.byAccount ==> l.byAccount[a] != map[])
    && (forall id: LeaseId :: id in u ==> id.serial < l.nextSerial)
    && (forall a: string, s: nat {:trigger LeaseId(a, s)} ::
          s in l.Of(a) <==> LeaseId(a, s) in u && u[LeaseId(a, s)].overtakenAt < u[LeaseId(a, s)].expiry)
    && (forall a: string, s: nat {:trigger LeaseId(a, s)} ::
          s in l.Of(a) ==> l.Of(a)[s] == u[LeaseId(a, s)].expiry)
  }

  /** The table holds exactly the unreleased leases that no later grant on the same account
      saw expired, and never an empty account entry. */
  lemma {:induction false} RunMatches(leaseMs: U64, ops: seq<Op>)
    ensures Matches(Run(leaseMs, ops), Unreleased(leaseMs, ops))
    ensures Run(leaseMs, ops).nextSerial == Grants(ops)
    ensures Run(leaseMs, ops).leaseMs == Max(leaseMs, 1)
  {
    if ops != [] {
      var earlier := ops[..|ops| - 1];
      RunMatches(leaseMs, earlier);
      var l, u := Run(leaseMs, earlier), Unreleased(leaseMs, earlier);
      match ops[|ops| - 1]
      case Release(lease) => ReleaseMatches(l, u, lease);
      case Grant(now, account, lifetimeMs) => GrantMatches(l, u, now, account, lifetimeMs);
    }
  }

  lemma ReleaseMatches(l: Leases, u: map<LeaseId, Lease>, lease: LeaseId)
    requires Matches(l, u)
    ensures Matches(l.Release(lease), u - {lease})
  {
    var r := l.Release(lease);
    forall a: string, s: nat
      ensures s in r.Of(a) <==> s in l.Of(a) && LeaseId(a, s) != lease
      ensures s in r.Of(a) ==> r.Of(a)[s] == l.Of(a)[s]
    {
    }
    forall a | a in r.byAccount
      ensures r.byAccount[a] != map[]
    {
    }
  }

  lemma OfAfterGrant(l: Leases, now: U64, account: string, lifetimeMs: U64)
    ensures var r := l.GrantFor(now, account, lifetimeMs).0;
      && r.Of(account) == Retain(l.Of(account), now)[l.nextSerial := SatAdd(now, Max(lifetimeMs, l.leaseMs))]
      && (forall a :: a != account ==> r.Of(a) == l.Of(a))
      && r.byAccount.Keys == l.byAccount.Keys + {account}
  {
  }

  lemma GrantMatches(l: Leases, u: map<LeaseId, Lease>, now: U64, account: string, lifetimeMs: U64)
    requires Matches(l, u)
    ensures Matches(l.GrantFor(now, account, lifetimeMs).0,
                    Overtake(u, account, now)[LeaseId(account, l.nextSerial)
                      := Lease(SatAdd(now, Max(lifetimeMs, l.leaseMs)), -1)])
  {
    var r := l.GrantFor(now, account, lifetimeMs).0;
    var id0 := LeaseId(account, l.nextSerial);
    var v := Overtake(u, account, now)[id0 := Lease(SatAdd(now, Max(lifetimeMs, l.leaseMs)), -1)];
    OfAfterGrant(l, now, account, lifetimeMs);
    forall a: string, s: nat
      ensures s in r.Of(a) <==> LeaseId(a, s) in v && v[LeaseId(a, s)].overtakenAt < v[LeaseId(a, s)].expiry
      ensures s in r.Of(a) ==> r.Of(a)[s] == v[LeaseId(a, s)].expiry
    {
      assert s in l.Of(a) ==> LeaseId(a, s) in u;
    }
    forall a | a in r.byAccount
      ensures r.byAccount[a] != map[]
    {
      if a == account {
        assert l.nextSerial in r.Of(account);
      } else {
        assert r.Of(a) == l.Of(a);
      }
    }
  }

  /** The count never exceeds the leases that are really live, and is exactly their number
      when and only when no live lease was overtaken by a grant that already saw it expired. */
  lemma InflightIsLive(leaseMs: U64, ops: seq<Op>, now: U64, account: string)
    ensures Run(leaseMs, ops).Tracked(now, account) <= Live(leaseMs, ops, now, account)
    ensures Run(leaseMs, ops).Inflight(now, account) <= |Live(leaseMs, ops, now, account)|
    ensures Run(leaseMs, ops).Tracked(now, account) == Live(leaseMs, ops, now, account) <==>
      forall id :: id in Unreleased(leaseMs, ops) && id.account == account ==>
        !(now < Unreleased(leaseMs, ops)[id].expiry <= Unreleased(leaseMs, ops)[id].overtakenAt)
  {
    RunMatches(leaseMs, ops);
    var l, u := Run(leaseMs, ops), Unreleased(leaseMs, ops);
    var tracked, live := l.Tracked(now, account), Live(leaseMs, ops, now, account);
    forall s: nat
      ensures s in live <==> LeaseId(account, s) in u && u[LeaseId(account, s)].expiry > now
      ensures s in tracked <==> s in live && u[LeaseId(account, s)].overtakenAt < u[LeaseId(account, s)].expiry
    {
      if LeaseId(account, s) in u && u[LeaseId(account, s)].expiry > now {
        assert LeaseId(account, s).serial in live;
      }
    }
    assert tracked <= live;
    SubsetSize(tracked, live);
    if tracked == live {
      forall id | id in u && id.account == account
        ensures !(now < u[id].expiry <= u[id].overtakenAt)
      {
        assert id == LeaseId(account, id.serial);
      }
    } else {
      var s :| s in live && s !in tracked;
      assert LeaseId(account, s) in u;
    }
  }

  lemma {:induction false} SubsetSize(a: set<nat>, b: set<nat>)
    requires a <= b
    ensures |a| <= |b|
  {
    assert b == a + (b - a);
  }

  /** The latest clock reading at which anything was granted on the account. */
  function LastGrantClock(ops: seq<Op>, account: string): int {
    if ops == [] then -1
    else
      var earlier, last := LastGrantClock(ops[..|ops| - 1], account), ops[|ops| - 1];
      if last.Grant? && last.account == account then Max(earlier, last.now) else earlier
  }

  lemma {:induction false} OvertakenByLastGrant(leaseMs: U64, ops: seq<Op>)
    ensures forall id :: id in Unreleased(leaseMs, ops) ==>
      Unreleased(leaseMs, ops)[id].overtakenAt <= LastGrantClock(ops, id.account)
    ensures forall account :: LastGrantClock(ops, account) >= -1
  {
    if ops != [] {
      OvertakenByLastGrant(leaseMs, ops[..|ops| - 1]);
    }
  }

  /** From the account's latest grant on, the count is exact. */
  lemma InflightExactAfterLastGrant(leaseMs: U64, ops: seq<Op>, now: U64, account: string)
    requires now >= LastGrantClock(ops, account)
    ensures Run(leaseMs, ops).Inflight(now, account) == Min(|Live(leaseMs, ops, now, account)|, U32_MAX)
  {
    OvertakenByLastGrant(leaseMs, ops);
    InflightIsLive(leaseMs, ops, now, account);
  }

  lemma OneMore(leaseMs: U64, ops: seq<Op>, op: Op)
    ensures Run(leaseMs, ops + [op]) == Step(Run(leaseMs, ops), op)
    ensures Grants(ops + [op]) == Grants(ops) + (if op.Grant? then 1 else 0)
    ensures op.Grant? ==> (
      Unreleased(leaseMs, ops + [op])
        == Overtake(Unreleased(leaseMs, ops), op.account, op.now)[LeaseId(op.account, Grants(ops))
             := Lease(SatAdd(op.now, Max(op.lifetimeMs, Max(leaseMs, 1))), -1)])
  {
    var all := ops + [op];
    assert all[..|all| - 1] == ops && all[|all| - 1] == op;
  }

  /** After the clock falls back the table can have forgotten a lease that is live again. */
  lemma ClockRollbackUndercounts()
    ensures var ops := [Grant(0, "a", 0), Grant(200_000, "a", 0)];
      && Run(DEFAULT_LEASE_MS, ops).Inflight(60_000, "a") == 1
      && Live(DEFAULT_LEASE_MS, ops, 60_000, "a") == {0, 1}
  {
    var none: seq<Op> := [];
    var first, second := Grant(0, "a", 0), Grant(200_000, "a", 0);
    OneMore(DEFAULT_LEASE_MS, none, first);
    assert none + [first] == [first];
    OneMore(DEFAULT_LEASE_MS, [first], second);
    assert [first] + [second] == [first, second];
    var l1, l2 := Run(DEFAULT_LEASE_MS, [first]), Run(DEFAULT_LEASE_MS, [first, second]);
    OfAfterGrant(NewLeases(DEFAULT_LEASE_MS), 0, "a", 0);
    OfAfterGrant(l1, 200_000, "a", 0);
    assert l1.Of("a") == map[0 := 120_000];
    assert l2.Of("a") == map[1 := 320_000];
    assert l2.Tracked(60_000, "a") == {1};
    RollbackLive([first, second]);
  }

  lemma RollbackLive(ops: seq<Op>)
    requires ops == [Grant(0, "a", 0), Grant(200_000, "a", 0)]
    ensures Live(DEFAULT_LEASE_MS, ops, 60_000, "a") == {0, 1}
  {
    var none: seq<Op> := [];
    OneMore(DEFAULT_LEASE_MS, none, ops[0]);
    assert none + [ops[0]] == [ops[0]];
    OneMore(DEFAULT_LEASE_MS, [ops[0]], ops[1]);
    assert [ops[0]] + [ops[1]] == ops;
    var u := Unreleased(DEFAULT_LEASE_MS, ops);
    var live := Live(DEFAULT_LEASE_MS, ops, 60_000, "a");
    assert LeaseId("a", 0) in u && LeaseId("a", 1) in u;
    assert LeaseId("a", 0).serial in live && LeaseId("a", 1).serial in live;
    assert u.Keys == {LeaseId("a", 0), LeaseId("a", 1)};
  }

  /** Release is idempotent and touches no other lease. */
  lemma ReleaseFrame(l: Leases, lease: LeaseId)
    ensures l.Release(lease).Of(lease.account) == l.Of(lease.account) - {lease.serial}
    ensures forall account: string :: account != lease.account ==> l.Release(lease).Of(account) == l.Of(account)
    ensures l.Release(lease).Release(lease) == l.Release(lease)
  {
    if lease.account in l.byAccount {
      var rest := l.byAccount[lease.account] - {lease.serial};
      assert rest - {lease.serial} == rest;
      assert l.byAccount[lease.account := rest][lease.account := rest] == l.byAccount[lease.account := rest];
    }
  }

  /** A grant adds its own lease to the count and nothing else. */
  lemma GrantCounts(l: Leases, now: U64, account: string, lifetimeMs: U64)
    requires forall s :: s in l.Of(account) ==> s < l.nextSerial
    requires now < SatAdd(now, Max(lifetimeMs, l.leaseMs))
    ensures var (granted, lease) := l.GrantFor(now, account, lifetimeMs);
      && granted.Tracked(now, account) == l.Tracked(now, account) + {lease.serial}
      && |granted.Tracked(now, account)| == |l.Tracked(now, account)| + 1
  {
    var granted := l.GrantFor(now, account, lifetimeMs).0;
    OfAfterGrant(l, now, account, lifetimeMs);
    assert l.nextSerial !in l.Tracked(now, account);
    assert granted.Tracked(now, account) == l.Tracked(now, account) + {l.nextSerial};
  }

  /** Releasing a lease leaves the count as if it had never been granted. */
  lemma ReleaseUndoesGrant(l: Leases, now: U64, account: string, lifetimeMs: U64, later: U64)
    requires forall s :: s in l.Of(account) ==> s < l.nextSerial
    requires now <= later
    ensures var (granted, lease) := l.GrantFor(now, account, lifetimeMs);
      granted.Release(lease).Tracked(later, account) == l.Tracked(later, account)
  {
    var (granted, lease) := l.GrantFor(now, account, lifetimeMs);
    OfAfterGrant(l, now, account, lifetimeMs);
    ReleaseFrame(granted, lease);
    forall s: nat
      ensures s in granted.Release(lease).Tracked(later, account) <==> s in l.Tracked(later, account)
    {
      assert s in granted.Release(lease).Of(account) <==> s in granted.Of(account) && s != l.nextSerial;
    }
  }

  // ----- Folding load into headroom -----

  function InflightPenalty(inflight: U32, rateLimit: Option<U64>): (p: nat)
    ensures p <= 1000
  {
    if rateLimit.Some? && rateLimit.value > 0 then
      QuotientAtLeast(SatMul(inflight, 1000), rateLimit.value, 0);
      var share := SatMul(inflight, 1000) / rateLimit.value;
      if share <= U32_MAX then Min(share, 1000) else 1000
    else Min(Min(inflight * DEFAULT_INFLIGHT_DOCK_PERMILLE, U32_MAX), 1000)
  }

  function ApplyInflightPenalty(headroom: U16, inflight: U32, rateLimit: Option<U64>): (r: U16)
    ensures r <= headroom
  {
    Max(headroom - InflightPenalty(inflight, rateLimit), 0)
  }

  /** As many requests in flight as a known rate limit allows leave no headroom, and more
      load never leaves more headroom. */
  lemma LoadSaturatesHeadroom(headroom: U16, inflight: U32, more: U32, rateLimit: Option<U64>)
    requires headroom <= 1000 && inflight <= more
    ensures rateLimit.Some? && 0 < rateLimit.value <= inflight ==>
      ApplyInflightPenalty(headroom, inflight, rateLimit) == 0
    ensures ApplyInflightPenalty(headroom, more, rateLimit) <= ApplyInflightPenalty(headroom, inflight, rateLimit)
    ensures (rateLimit.None? || rateLimit.value == 0) && inflight >= 10 ==>
      ApplyInflightPenalty(headroom, inflight, rateLimit) == 0
  {
    if rateLimit.Some? && rateLimit.value > 0 {
      QuotientMonotone(inflight * 1000, more * 1000, rateLimit.value);
      if rateLimit.value <= inflight {
        ProductMonotone(rateLimit.value, inflight, 1000);
        QuotientAtLeast(inflight * 1000, rateLimit.value, 1000);
      }
    }
  }

  /** With a known rate limit the penalty is the share of it in flight, in thousandths rounded
      down, and never more than all of it. */
  lemma PenaltyIsCommittedShare(inflight: U32, limit: U64)
    requires limit > 0
    ensures var p := InflightPenalty(inflight, Some(limit));
      if inflight >= limit then p == 1000 else p * limit <= inflight * 1000 < (p + 1) * limit
  {
    var share := inflight * 1000 / limit;
    Quotient(inflight * 1000, limit);
    assert (share + 1) * limit == share * limit + limit;
    if inflight >= limit {
      QuotientAtLeast(inflight * 1000, limit, 1000);
    } else {
      QuotientAtMost(inflight * 1000, limit, 999);
    }
  }

  /** What the load leaves of the headroom: under a known limit, all but the share of the limit in
      flight in thousandths rounded down; otherwise a tenth of the whole less for each request; and
      never less than nothing. */
  predicate LeftByLoad(left: int, headroom: int, inflight: int, rateLimit: Option<U64>) {
    if rateLimit.Some? && rateLimit.value > 0 then
      if headroom * rateLimit.value <= inflight * 1000 then left == 0
      else (headroom - left) * rateLimit.value <= inflight * 1000 < (headroom - left + 1) * rateLimit.value
    else left == Max(headroom - 100 * inflight, 0)
  }

  /** Exactly what is left of the headroom under load. */
  lemma LoadLeaves(headroom: U16, inflight: U32, rateLimit: Option<U64>)
    requires headroom <= 1000
    ensures LeftByLoad(ApplyInflightPenalty(headroom, inflight, rateLimit), headroom, inflight, rateLimit)
  {
    if rateLimit.Some? && rateLimit.value > 0 {
      var limit := rateLimit.value;
      PenaltyIsCommittedShare(inflight, limit);
      var p := InflightPenalty(inflight, rateLimit);
      ProductMonotone(headroom, 1000, limit);
      if headroom * limit <= inflight * 1000 {
        QuotientAtLeast(inflight * 1000, limit, headroom);
      } else if inflight < limit && p >= headroom {
        ProductMonotone(headroom, p, limit);
      }
    }
  }

  // ----- The object the gateway updates in place -----

  class InflightLeases {
    const leaseMs: U64
    var nextSerial: nat
    var byAccount: map<string, map<nat, U64>>

    function State(): Leases
      reads this
    {
      Leases(leaseMs, nextSerial, byAccount)
    }

    constructor (lease: U64)
      ensures State() == NewLeases(lease)
    {
      leaseMs, nextSerial, byAccount := Max(lease, 1), 0, map[];
    }

    method GrantLease(now: U64, account: string) returns (lease: LeaseId)
      modifies this
      ensures (State(), lease) == old(State()).GrantFor(now, account, leaseMs)
    {
      lease := GrantFor(now, account, leaseMs);
    }

    method GrantFor(now: U64, account: string, lifetimeMs: U64) returns (lease: LeaseId)
      modifies this
      ensures (State(), lease) == old(State()).GrantFor(now, account, lifetimeMs)
    {
      var expiry := SatAdd(now, Max(lifetimeMs, leaseMs));
      var serial := nextSerial;
      nextSerial := nextSerial + 1;
      var entry: map<nat, U64> := if account in byAccount then byAccount[account] else map[];
      var leases := Retain(entry, now);
      leases := leases[serial := expiry];
      byAccount := byAccount[account := leases];
      lease := LeaseId(account, serial);
    }

    method Release(lease: LeaseId)
      modifies this
      ensures State() == old(State()).Release(lease)
    {
      if lease.account in byAccount {
        var leases := byAccount[lease.account] - {lease.serial};
        byAccount := byAccount[lease.account := leases];
        if leases == map[] {
          byAccount := byAccount - {lease.account};
          assert byAccount == old(byAccount) - {lease.account};
        }
      }
    }
  }
}
