/** The three-level admission gate under concurrency: any number of calls, each a sequence of
    atomic steps on shared counters, interleaved in any order. */
module Admission {
  import opened Machine

  datatype Key = Global | Agent(id: string) | Provider(upstream: string)

  datatype Limits = Limits(global: U32, perAgent: U32, perProvider: U32) {
    function Of(key: Key): U32 {
      match key
      case Global => global
      case Agent(_) => perAgent
      case Provider(_) => perProvider
    }
  }

  type Ref = nat      // a shared atomic counter
  type PermitId = nat
  type CallId = nat

  /** A call of `try_take` between two of its atomic steps. */
  datatype Call =
    | Loading(counter: Ref, limit: U32)
    | Swapping(counter: Ref, limit: U32, current: U32)

  datatype State = State(
    limits: Limits, counterOf: map<Key, Ref>, atomics: map<Ref, U32>,
    permits: map<PermitId, Ref>, calls: map<CallId, Call>)
  {
    /** The permits held on one counter. */
    function Holders(r: Ref): set<PermitId> {
      set p | p in permits && permits[p] == r
    }

    /** What the gate of `key` has let in; a key never used has no counter yet. */
    function Count(key: Key): U32 {
      if key in counterOf && counterOf[key] in atomics then atomics[counterOf[key]] else 0
    }

    function LivePermits(key: Key): set<PermitId> {
      if key in counterOf then Holders(counterOf[key]) else {}
    }
  }

  datatype Action =
    | Enter(call: CallId, key: Key, slot: Ref)
    | Load(call: CallId)
    | CompareExchangeWeak(call: CallId, spurious: bool, permit: PermitId)
    | DropPermit(permit: PermitId)

  datatype Outcome = Continues | Admitted(counter: Ref, permit: PermitId) | Refused(counter: Ref) | NotEnabled

  /** `AtomicU32` arithmetic. */
  function Wrap(x: int): (r: U32)
    ensures 0 <= x <= U32_MAX ==> r == x
  {
    x % (U32_MAX + 1)
  }

  /** The value just read decides between giving up and trying to swap it. */
  function Decide(s: State, call: CallId, c: Call, observed: U32): (State, Outcome) {
    if observed >= c.limit then (s.(calls := s.calls - {call}), Refused(c.counter))
    else (s.(calls := s.calls[call := Swapping(c.counter, c.limit, observed)]), Continues)
  }

  /** The swap succeeded: the counter is up by one and a permit on it is live. */
  function Taken(s: State, call: CallId, c: Call, permit: PermitId): State
    requires c.Swapping?
  {
    s.(atomics := s.atomics[c.counter := Wrap(c.current + 1)],
       permits := s.permits[permit := c.counter],
       calls := s.calls - {call})
  }

  /** `Permit::drop`. */
  function Returned(s: State, permit: PermitId): State
    requires permit in s.permits && s.permits[permit] in s.atomics
  {
    var r := s.permits[permit];
    var held: int := s.atomics[r];
    s.(atomics := s.atomics[r := Wrap(held - 1)], permits := s.permits - {permit})
  }

  function Step(s: State, a: Action): (State, Outcome) {
    match a
    case Enter(call, key, slot) =>
      if call in s.calls || (key !in s.counterOf && slot in s.atomics) then (s, NotEnabled)
      else
        var known := key in s.counterOf;
        var r := if known then s.counterOf[key] else slot;
        var t := if known then s else s.(counterOf := s.counterOf[key := r], atomics := s.atomics[r := 0]);
        if s.limits.Of(key) == 0 then (t, Refused(r))
        else (t.(calls := t.calls[call := Loading(r, s.limits.Of(key))]), Continues)
    case Load(call) =>
      if call !in s.calls || !s.calls[call].Loading? || s.calls[call].counter !in s.atomics then (s, NotEnabled)
      else Decide(s, call, s.calls[call], s.atomics[s.calls[call].counter])
    case CompareExchangeWeak(call, spurious, permit) =>
      if call !in s.calls || !s.calls[call].Swapping? || s.calls[call].counter !in s.atomics || permit in s.permits
      then (s, NotEnabled)
      else
        var c := s.calls[call];
        var observed := s.atomics[c.counter];
        if observed == c.current && !spurious then
          (Taken(s, call, c, permit), Admitted(c.counter, permit))
        else Decide(s, call, c, observed)
    case DropPermit(permit) =>
      if permit !in s.permits || s.permits[permit] !in s.atomics then (s, NotEnabled)
      else
        (Returned(s, permit), Continues)
  }

  function NewAdmission(limits: Limits, global: Ref): State {
    State(limits, map[Global := global], map[global := 0], map[], map[])
  }

  function Run(s: State, actions: seq<Action>): State {
    if actions == [] then s
    else Step(Run(s, actions[..|actions| - 1]), actions[|actions| - 1]).0
  }

  // ----- What every step keeps -----

  predicate Owns(s: State, key: Key, r: Ref) {
    key in s.counterOf && s.counterOf[key] == r
  }

  ghost predicate CountsHolders(s: State, key: Key, r: Ref) {
    r in s.atomics && s.atomics[r] == |s.Holders(r)| && s.atomics[r] <= s.limits.Of(key)
  }

  /** The call works on some key's counter with that key's limit, and what it will try to
      swap is below the limit. */
  ghost predicate CallFits(s: State, c: Call) {
    && (exists key :: Owns(s, key, c.counter) && s.limits.Of(key) == c.limit)
    && (c.Swapping? ==> c.current < c.limit)
  }

  ghost predicate Inv(s: State) {
    && (forall k, l, r :: Owns(s, k, r) && Owns(s, l, r) ==> k == l)
    && (forall k, r :: Owns(s, k, r) ==> CountsHolders(s, k, r))
    && (forall r :: r in s.atomics ==> exists k :: Owns(s, k, r))
    && (forall p :: p in s.permits ==> s.permits[p] in s.atomics)
    && (forall c :: c in s.calls ==> CallFits(s, s.calls[c]))
  }

  lemma NewIsSafe(limits: Limits, global: Ref)
    ensures Inv(NewAdmission(limits, global))
  {
    var s := NewAdmission(limits, global);
    assert s.Holders(global) == {};
    assert Owns(s, Global, global);
  }

  /** Only the calls changed, and each still fits. */
  lemma CallsKeep(s: State, calls: map<CallId, Call>)
    requires Inv(s)
    requires forall d :: d in calls ==> CallFits(s, calls[d])
    ensures Inv(s.(calls := calls))
  {
    var t := s.(calls := calls);
    forall k, r ensures Owns(t, k, r) <==> Owns(s, k, r) {}
    forall r ensures t.Holders(r) == s.Holders(r) {}
    forall k, r | Owns(t, k, r) ensures CountsHolders(t, k, r) { assert CountsHolders(s, k, r); }
    forall r | r in t.atomics ensures exists k :: Owns(t, k, r) {
      var k :| Owns(s, k, r);
      assert Owns(t, k, r);
    }
    forall d | d in calls ensures CallFits(t, calls[d]) {
      var k :| Owns(s, k, calls[d].counter) && s.limits.Of(k) == calls[d].limit;
      assert Owns(t, k, calls[d].counter);
    }
  }

  lemma DecideKeeps(s: State, call: CallId, c: Call, observed: U32)
    requires Inv(s) && call in s.calls && s.calls[call] == c
    ensures Inv(Decide(s, call, c, observed).0)
  {
    assert CallFits(s, c);
    if observed >= c.limit {
      CallsKeep(s, s.calls - {call});
    } else {
      var next := Swapping(c.counter, c.limit, observed);
      assert CallFits(s, next);
      CallsKeep(s, s.calls[call := next]);
    }
  }

  lemma AddCounterKeeps(s: State, key: Key, slot: Ref)
    requires Inv(s) && key !in s.counterOf && slot !in s.atomics
    ensures Inv(s.(counterOf := s.counterOf[key := slot], atomics := s.atomics[slot := 0]))
  {
    var t := s.(counterOf := s.counterOf[key := slot], atomics := s.atomics[slot := 0]);
    forall k, r | Owns(s, k, r) ensures r != slot { assert CountsHolders(s, k, r); }
    forall k, r ensures Owns(t, k, r) <==> Owns(s, k, r) || (k == key && r == slot) {}
    forall r ensures t.Holders(r) == s.Holders(r) {}
    assert s.Holders(slot) == {};
    forall k, r | Owns(t, k, r) ensures CountsHolders(t, k, r) {
      if k != key { assert CountsHolders(s, k, r); }
    }
    assert Owns(t, key, slot);
    forall r | r in t.atomics ensures exists k :: Owns(t, k, r) {
      if r != slot {
        var k :| Owns(s, k, r);
        assert Owns(t, k, r);
      }
    }
    forall d | d in t.calls ensures CallFits(t, t.calls[d]) {
      assert CallFits(s, s.calls[d]);
      var k :| Owns(s, k, s.calls[d].counter) && s.limits.Of(k) == s.calls[d].limit;
      assert Owns(t, k, s.calls[d].counter);
    }
  }

  lemma EnterKeeps(s: State, call: CallId, key: Key, slot: Ref)
    requires Inv(s)
    ensures Inv(Step(s, Enter(call, key, slot)).0)
  {
    if Step(s, Enter(call, key, slot)).1 != NotEnabled {
      var t := s;
      if key !in s.counterOf {
        AddCounterKeeps(s, key, slot);
        t := s.(counterOf := s.counterOf[key := slot], atomics := s.atomics[slot := 0]);
      }
      var c := Loading(t.counterOf[key], s.limits.Of(key));
      assert Owns(t, key, c.counter);
      assert CallFits(t, c);
      CallsKeep(t, t.calls[call := c]);
    }
  }

  /** Setting one counter and its holders together keeps every other counter's books. */
  lemma AdjustKeeps(s: State, key: Key, r: Ref, t: State, delta: int)
    requires Inv(s) && Owns(s, key, r) && r in s.atomics
    requires t.limits == s.limits && t.counterOf == s.counterOf
    requires forall d :: d in t.calls ==> d in s.calls && t.calls[d] == s.calls[d]
    requires 0 <= s.atomics[r] + delta <= s.limits.Of(key)
    requires t.atomics == s.atomics[r := s.atomics[r] + delta]
    requires |t.Holders(r)| == |s.Holders(r)| + delta
    requires forall q :: q != r ==> t.Holders(q) == s.Holders(q)
    requires forall p :: p in t.permits ==> t.permits[p] in t.atomics
    ensures Inv(t)
  {
    forall k, q ensures Owns(t, k, q) <==> Owns(s, k, q) {}
    forall k, q | Owns(t, k, q) ensures CountsHolders(t, k, q) { assert CountsHolders(s, k, q); }
    forall q | q in t.atomics ensures exists k :: Owns(t, k, q) {
      var k :| Owns(s, k, q);
      assert Owns(t, k, q);
    }
    forall d | d in t.calls ensures CallFits(t, t.calls[d]) {
      assert CallFits(s, s.calls[d]);
      var k :| Owns(s, k, s.calls[d].counter) && s.limits.Of(k) == s.calls[d].limit;
      assert Owns(t, k, s.calls[d].counter);
    }
  }

  lemma SwapKeeps(s: State, call: CallId, permit: PermitId)
    requires Inv(s)
    requires call in s.calls && s.calls[call].Swapping? && permit !in s.permits
    requires s.calls[call].counter in s.atomics && s.atomics[s.calls[call].counter] == s.calls[call].current
    ensures Inv(Taken(s, call, s.calls[call], permit))
  {
    var c := s.calls[call];
    var t := Taken(s, call, c, permit);
    assert CallFits(s, c);
    var key :| Owns(s, key, c.counter) && s.limits.Of(key) == c.limit;
    assert CountsHolders(s, key, c.counter);
    TakenHolders(s, call, c, permit);
    AdjustKeeps(s, key, c.counter, t, 1);
  }

  lemma TakenHolders(s: State, call: CallId, c: Call, permit: PermitId)
    requires c.Swapping? && permit !in s.permits
    ensures var t := Taken(s, call, c, permit);
      && t.Holders(c.counter) == s.Holders(c.counter) + {permit}
      && (forall r :: r != c.counter ==> t.Holders(r) == s.Holders(r))
  {
    var t := Taken(s, call, c, permit);
    assert t.Holders(c.counter) == s.Holders(c.counter) + {permit};
    forall r | r != c.counter ensures t.Holders(r) == s.Holders(r) {}
  }

  lemma DropKeeps(s: State, permit: PermitId)
    requires Inv(s) && permit in s.permits
    ensures Inv(Returned(s, permit))
  {
    var t, r := Returned(s, permit), s.permits[permit];
    var key :| Owns(s, key, r);
    assert CountsHolders(s, key, r);
    assert permit in s.Holders(r);
    assert t.Holders(r) == s.Holders(r) - {permit};
    forall q | q != r ensures t.Holders(q) == s.Holders(q) {}
    AdjustKeeps(s, key, r, t, -1);
  }

  lemma StepKeeps(s: State, a: Action)
    requires Inv(s)
    ensures Inv(Step(s, a).0) && Step(s, a).0.limits == s.limits
  {
    match a
    case Enter(call, key, slot) => EnterKeeps(s, call, key, slot);
    case Load(call) =>
      if Step(s, a).1 != NotEnabled { DecideKeeps(s, call, s.calls[call], s.atomics[s.calls[call].counter]); }
    case CompareExchangeWeak(call, spurious, permit) =>
      if Step(s, a).1 != NotEnabled {
        var c := s.calls[call];
        if s.atomics[c.counter] == c.current && !spurious { SwapKeeps(s, call, permit); }
        else { DecideKeeps(s, call, c, s.atomics[c.counter]); }
      }
    case DropPermit(permit) =>
      if permit in s.permits { DropKeeps(s, permit); }
  }

  // ----- Safety over all interleavings -----

  lemma {:induction false} RunKeeps(s: State, actions: seq<Action>)
    requires Inv(s)
    ensures Inv(Run(s, actions)) && Run(s, actions).limits == s.limits
  {
    if actions != [] {
      var earlier, last := Run(s, actions[..|actions| - 1]), actions[|actions| - 1];
      RunKeeps(s, actions[..|actions| - 1]);
      RunStepKeeps(s, earlier, last, Step(earlier, last).0);
      assert Run(s, actions) == Step(earlier, last).0;
    }
  }

  lemma RunStepKeeps(s: State, earlier: State, a: Action, t: State)
    requires Inv(earlier) && earlier.limits == s.limits && t == Step(earlier, a).0
    ensures Inv(t) && t.limits == s.limits
  {
    StepKeeps(earlier, a);
  }

  /** However the steps of all calls and drops interleave, each counter is the number of live permits of
      its key; the gateway as a whole never holds more than `global`, no agent more than `perAgent` and
      no provider more than `perProvider`. */
  lemma AdmissionIsSafe(limits: Limits, global: Ref, actions: seq<Action>)
    ensures var s := Run(NewAdmission(limits, global), actions);
      && Inv(s) && s.limits == limits
      && s.Count(Global) == |s.LivePermits(Global)| <= limits.global
      && (forall id: string :: s.Count(Agent(id)) == |s.LivePermits(Agent(id))| <= limits.perAgent)
      && (forall id: string :: s.Count(Provider(id)) == |s.LivePermits(Provider(id))| <= limits.perProvider)
  {
    var s := Run(NewAdmission(limits, global), actions);
    NewIsSafe(limits, global);
    RunKeeps(NewAdmission(limits, global), actions);
    CountIsLive(s, Global);
    forall id: string ensures s.Count(Agent(id)) == |s.LivePermits(Agent(id))| <= limits.perAgent {
      CountIsLive(s, Agent(id));
    }
    forall id: string ensures s.Count(Provider(id)) == |s.LivePermits(Provider(id))| <= limits.perProvider {
      CountIsLive(s, Provider(id));
    }
  }

  /** The key's permits use up its level: the global limit, that of one agent or that of one provider. */
  predicate LevelFull(s: State, key: Key) {
    |s.LivePermits(key)| ==
      match key case Global => s.limits.global case Agent(_) => s.limits.perAgent case Provider(_) => s.limits.perProvider
  }

  lemma CountIsLive(s: State, key: Key)
    requires Inv(s)
    ensures s.Count(key) == |s.LivePermits(key)| <= s.limits.Of(key)
  {
    if key in s.counterOf {
      assert Owns(s, key, s.counterOf[key]);
    }
  }

  /** Every refusal saw its level full at the moment it was decided. */
  lemma RefusalsSawFull(s: State, a: Action)
    requires Inv(s) && Step(s, a).1.Refused?
    ensures exists key :: (
      && key in Step(s, a).0.counterOf
      && Step(s, a).0.counterOf[key] == Step(s, a).1.counter
      && LevelFull(Step(s, a).0, key))
  {
    StepKeeps(s, a);
    var t, r := Step(s, a).0, Step(s, a).1.counter;
    assert t.limits == s.limits;
    match a
    case Enter(_, key, _) => assert Owns(t, key, r);
    case Load(call) => RefusedCall(s, t, call, r);
    case CompareExchangeWeak(call, _, _) => RefusedCall(s, t, call, r);
    case DropPermit(_) =>
  }

  lemma RefusedCall(s: State, t: State, call: CallId, r: Ref)
    requires Inv(s) && Inv(t) && call in s.calls && s.calls[call].counter == r
    requires t == s.(calls := s.calls - {call}) && r in s.atomics && s.atomics[r] >= s.calls[call].limit
    ensures exists key :: key in t.counterOf && t.counterOf[key] == r && LevelFull(t, key)
  {
    assert CallFits(s, s.calls[call]);
    var key :| Owns(s, key, r) && s.limits.Of(key) == s.calls[call].limit;
    assert Owns(t, key, r);
  }

  /** The counter an action works on, once the action is enabled. */
  function Touches(s: State, a: Action): Option<Ref> {
    match a
    case Enter(_, key, slot) => Some(if key in s.counterOf then s.counterOf[key] else slot)
    case Load(call) => if call in s.calls then Some(s.calls[call].counter) else None
    case CompareExchangeWeak(call, _, _) => if call in s.calls then Some(s.calls[call].counter) else None
    case DropPermit(permit) => if permit in s.permits then Some(s.permits[permit]) else None
  }

  /** Whether permit `p` is held on counter `r`. */
  predicate Holds(s: State, p: PermitId, r: Ref) {
    p in s.permits && s.permits[p] == r
  }

  lemma StepFrame(s: State, a: Action, r: Ref)
    requires r in s.atomics && Touches(s, a) != Some(r)
    ensures var t := Step(s, a).0;
      && r in t.atomics && t.atomics[r] == s.atomics[r]
      && (forall p :: Holds(t, p, r) <==> Holds(s, p, r))
      && (forall k :: k in s.counterOf ==> k in t.counterOf && t.counterOf[k] == s.counterOf[k])
  {
  }

  /** Different keys never affect each other: a step leaves the count and the permits of
      every key but its own as they were, and no step at all gives a count or a permit to a
      key that has no counter yet. */
  lemma KeysAreIndependent(s: State, a: Action, other: Key)
    requires Inv(s)
    requires other in s.counterOf ==> Touches(s, a) != Some(s.counterOf[other])
    ensures Inv(Step(s, a).0)
    ensures Step(s, a).0.Count(other) == s.Count(other)
    ensures Step(s, a).0.LivePermits(other) == s.LivePermits(other)
  {
    StepKeeps(s, a);
    var t := Step(s, a).0;
    if other in s.counterOf {
      KnownKeyKeeps(s, a, other, s.counterOf[other]);
    } else if other in t.counterOf {
      assert a.Enter? && a.key == other && t.counterOf[other] == a.slot;
      assert t.Holders(a.slot) == {};
    }
  }

  lemma KnownKeyKeeps(s: State, a: Action, key: Key, r: Ref)
    requires Inv(s) && Owns(s, key, r) && Touches(s, a) != Some(r)
    ensures Step(s, a).0.Count(key) == s.Count(key)
    ensures Step(s, a).0.LivePermits(key) == s.LivePermits(key)
  {
    var t := Step(s, a).0;
    StepFrame(s, a, r);
    forall p
      ensures p in t.Holders(r) <==> p in s.Holders(r)
    {
      assert Holds(t, p, r) <==> Holds(s, p, r);
    }
  }

  /** What one call, run without interference and without a spurious failure, does to the permits. */
  ghost predicate Solo(s: State, call: CallId, key: Key, slot: Ref, permit: PermitId, room: bool) {
    var s1 := Step(s, Enter(call, key, slot)).0;
    var s2 := Step(s1, Load(call)).0;
    var (s3, last) := Step(s2, CompareExchangeWeak(call, false, permit));
    && (last.Admitted? <==> room)
    && s3.LivePermits(key) == s.LivePermits(key) + (if last.Admitted? then {permit} else {})
  }

  lemma KnownSolo(s: State, call: CallId, key: Key, slot: Ref, permit: PermitId)
    requires Inv(s) && call !in s.calls && permit !in s.permits && key in s.counterOf
    ensures Solo(s, call, key, slot, permit, |s.LivePermits(key)| < s.limits.Of(key))
  {
    assert Owns(s, key, s.counterOf[key]);
    var s1 := Step(s, Enter(call, key, slot)).0;
    var s2 := Step(s1, Load(call)).0;
    var s3 := Step(s2, CompareExchangeWeak(call, false, permit)).0;
    var r := s.counterOf[key];
    assert s2.Holders(r) == s.Holders(r);
    if |s.LivePermits(key)| < s.limits.Of(key) {
      assert s3.Holders(r) == s.Holders(r) + {permit};
    } else {
      assert s3.Holders(r) == s.Holders(r);
    }
  }

  /** A call that runs without interference and without a spurious failure is admitted exactly when the
      gateway, the agent or the provider it is for holds fewer permits than its limit, also when its
      counter has to be created first. */
  lemma SoloCallIsExact(s: State, call: CallId, key: Key, slot: Ref, permit: PermitId)
    requires Inv(s) && call !in s.calls && permit !in s.permits
    requires key in s.counterOf || slot !in s.atomics
    ensures key.Global? ==> Solo(s, call, key, slot, permit, |s.LivePermits(key)| < s.limits.global)
    ensures key.Agent? ==> Solo(s, call, key, slot, permit, |s.LivePermits(key)| < s.limits.perAgent)
    ensures key.Provider? ==> Solo(s, call, key, slot, permit, |s.LivePermits(key)| < s.limits.perProvider)
  {
    if key in s.counterOf {
      KnownSolo(s, call, key, slot, permit);
    } else {
      var t := s.(counterOf := s.counterOf[key := slot], atomics := s.atomics[slot := 0]);
      AddCounterKeeps(s, key, slot);
      KnownSolo(t, call, key, slot, permit);
      assert t.LivePermits(key) == {};
      assert Step(s, Enter(call, key, slot)) == Step(t, Enter(call, key, slot));
    }
  }

  /** The call an action is a step of. */
  predicate StepOf(a: Action, call: CallId) {
    match a
    case Enter(c, _, _) => c == call
    case Load(c) => c == call
    case CompareExchangeWeak(c, _, _) => c == call
    case DropPermit(_) => false
  }

  lemma {:induction false} DoneStaysDone(s: State, later: seq<Action>, call: CallId)
    requires call !in s.calls && forall a :: a in later ==> !(a.Enter? && a.call == call)
    ensures call !in Run(s, later).calls
  {
    if later != [] {
      var front := later[..|later| - 1];
      DoneStaysDone(s, front, call);
      assert later[|later| - 1] in later;
      NotEntered(Run(s, front), later[|later| - 1], call);
    }
  }

  lemma NotEntered(s: State, a: Action, call: CallId)
    requires call !in s.calls && !(a.Enter? && a.call == call)
    ensures call !in Step(s, a).0.calls
  {
  }

  /** A call is answered once: when it is admitted, one new permit on its counter is live, when it is
      refused, none, and until it is entered again no step of it can do anything more. */
  lemma CallsAreAnsweredOnce(s: State, a: Action, call: CallId, later: seq<Action>, b: Action)
    requires Inv(s) && StepOf(a, call) && (Step(s, a).1.Admitted? || Step(s, a).1.Refused?)
    requires forall c :: c in later ==> !(c.Enter? && c.call == call)
    requires StepOf(b, call) && !b.Enter?
    ensures var (t, answer) := Step(s, a);
      && (answer.Admitted? ==> answer.permit !in s.permits && t.permits == s.permits[answer.permit := answer.counter])
      && (answer.Refused? ==> t.permits == s.permits)
      && Step(Run(t, later), b) == (Run(t, later), NotEnabled)
  {
    DoneStaysDone(Step(s, a).0, later, call);
  }

  /** Taking a permit and dropping it, with anything in between on other counters left out,
      gives back the slot. */
  lemma DropReturnsTheSlot(s: State, call: CallId, permit: PermitId)
    requires Inv(s) && Step(s, CompareExchangeWeak(call, false, permit)).1.Admitted?
    ensures var t := Step(s, CompareExchangeWeak(call, false, permit)).0;
      var u := Step(t, DropPermit(permit)).0;
      u.atomics == s.atomics && u.permits == s.permits
  {
    var c := s.calls[call];
    var t := Taken(s, call, c, permit);
    assert CallFits(s, c);
    assert t.permits - {permit} == s.permits;
    assert Returned(t, permit).atomics == s.atomics[c.counter := c.current + 1][c.counter := c.current];
  }
}
