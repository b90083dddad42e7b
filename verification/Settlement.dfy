/** One account's saved state and its settlement: receipts are remembered for a while so
    that a repeated settlement is counted once. */
module Settlement {
  import opened Machine
  import opened Sequences
  import opened QuotaLedger

  const MAX_SETTLEMENT_IDS: nat := 256
  const MAX_RECEIPT_BYTES: nat := 512

  datatype Settled = Settled(receipt: Option<string>, at: U64, amount: U64, missingUsage: bool)

  datatype Saved =
    Saved(ledger: Ledger, recent: seq<string>, unknownUsage: U64, planChangedBaseline: bool)
  {
    /** What a stored row must satisfy before its counters are used. */
    predicate Validates(expected: Ledger) {
      && ledger.CompatibleWith(expected)
      && |recent| <= MAX_SETTLEMENT_IDS
      && (forall id :: id in recent ==> |id| <= MAX_RECEIPT_BYTES)
    }

    predicate Repeats(s: Settled) {
      s.receipt.Some? && s.receipt.value in recent
    }

    function Record(s: Settled): (r: Saved)
      requires ledger.Valid()
      ensures r.ledger.Valid()
    {
      if Repeats(s) then this
      else
        Saved(ledger.Record(s.at, s.amount),
              if s.receipt.Some? then LastIds(recent + [s.receipt.value]) else recent,
              SatAdd(unknownUsage, if s.missingUsage then 1 else 0),
              planChangedBaseline)
    }
  }

  /** The receipts still remembered. */
  function LastIds(ids: seq<string>): (r: seq<string>)
    ensures |r| == Min(|ids|, MAX_SETTLEMENT_IDS)
    ensures forall id :: id in r ==> id in ids
  {
    if |ids| <= MAX_SETTLEMENT_IDS then ids else ids[|ids| - MAX_SETTLEMENT_IDS..]
  }

  function NewSaved(specs: seq<WindowSpec>, rateLimit: Option<U64>): (s: Saved)
    ensures s.ledger.Valid()
  {
    Saved(NewLedger(specs, rateLimit), [], 0, false)
  }

  function RecordRun(s: Saved, run: seq<Settled>): (r: Saved)
    requires s.ledger.Valid()
    ensures r.ledger.Valid()
  {
    if run == [] then s else RecordRun(s, run[..|run| - 1]).Record(run[|run| - 1])
  }

  /** `SavedAccount::record` on the object itself. */
  class SavedAccount {
    var ledger: Ledger
    var recent: seq<string>
    var unknownUsage: U64
    var planChangedBaseline: bool

    function State(): Saved
      reads this
    {
      Saved(ledger, recent, unknownUsage, planChangedBaseline)
    }

    /** Remembers a receipt, forgetting the oldest beyond the limit. */
    method Keep(receipt: string)
      modifies `recent
      ensures recent == LastIds(old(recent) + [receipt])
    {
      recent := recent + [receipt];
      ghost var all := recent;
      while |recent| > MAX_SETTLEMENT_IDS
        invariant |recent| <= |all| && recent == all[|all| - |recent|..]
        invariant |recent| >= MAX_SETTLEMENT_IDS || recent == all
      {
        recent := recent[1..];
      }
    }

    method Record(receipt: Option<string>, now: U64, amount: U64, missingUsage: bool)
      requires State().ledger.Valid()
      modifies this
      ensures State() == old(State()).Record(Settled(receipt, now, amount, missingUsage))
    {
      if receipt.Some? {
        if receipt.value in recent {
          return;
        }
        Keep(receipt.value);
      }
      ledger := ledger.Record(now, amount);
      unknownUsage := SatAdd(unknownUsage, if missingUsage then 1 else 0);
    }
  }

  // ----- What a run records -----

  /** The settlements that were counted, in order. */
  function Recorded(s: Saved, run: seq<Settled>): seq<Settled>
    requires s.ledger.Valid()
  {
    if run == [] then []
    else
      var earlier, last := run[..|run| - 1], run[|run| - 1];
      Recorded(s, earlier) + (if RecordRun(s, earlier).Repeats(last) then [] else [last])
  }

  function Events(run: seq<Settled>): (log: seq<Event>)
    ensures |log| == |run|
  {
    seq(|run|, i requires 0 <= i < |run| => Event(run[i].at, run[i].amount))
  }

  /** The receipts of a run, without the settlements that carried none. */
  function Receipts(run: seq<Settled>): seq<string> {
    if run == [] then []
    else
      var last := run[|run| - 1];
      Receipts(run[..|run| - 1]) + (if last.receipt.Some? then [last.receipt.value] else [])
  }

  function MissingCount(run: seq<Settled>): nat {
    if run == [] then 0
    else MissingCount(run[..|run| - 1]) + (if run[|run| - 1].missingUsage then 1 else 0)
  }

  ghost predicate Distinct<T>(s: seq<T>) {
    forall i, j :: 0 <= i < j < |s| ==> s[i] != s[j]
  }

  lemma LastIdsCompose(a: seq<string>, id: string)
    ensures LastIds(LastIds(a) + [id]) == LastIds(a + [id])
  {
  }

  lemma DistinctSnoc(ids: seq<string>, id: string)
    requires Distinct(ids) && id !in ids
    ensures Distinct(LastIds(ids + [id]))
  {
  }

  lemma CountOneMore(l: Ledger, counted: seq<Settled>, last: Settled)
    requires l.Valid()
    ensures LedgerAll(l, Events(counted + [last])) == LedgerAll(l, Events(counted)).Record(last.at, last.amount)
    ensures MissingCount(counted + [last]) == MissingCount(counted) + (if last.missingUsage then 1 else 0)
    ensures Receipts(counted + [last])
         == Receipts(counted) + (if last.receipt.Some? then [last.receipt.value] else [])
  {
    var more := counted + [last];
    assert more[..|more| - 1] == counted;
    assert Events(more)[..|more| - 1] == Events(counted);
  }

  /** What a state reached by recording `counted` from a fresh account looks like. */
  ghost predicate Holds(s: Saved, l: Ledger, counted: seq<Settled>)
    requires l.Valid()
  {
    && s.ledger == LedgerAll(l, Events(counted))
    && s.unknownUsage == Capped(MissingCount(counted))
    && s.recent == LastIds(Receipts(counted))
    && Distinct(s.recent)
    && !s.planChangedBaseline
  }

  lemma RecordHolds(s: Saved, l: Ledger, counted: seq<Settled>, last: Settled)
    requires l.Valid() && s.ledger.Valid() && Holds(s, l, counted) && !s.Repeats(last)
    ensures Holds(s.Record(last), l, counted + [last])
  {
    CountOneMore(l, counted, last);
    if last.receipt.Some? {
      LastIdsCompose(Receipts(counted), last.receipt.value);
      DistinctSnoc(s.recent, last.receipt.value);
    }
  }

  /** A run leaves the ledger and counters of exactly the recorded settlements; the receipt
      list is the last of their receipts, free of duplicates and bounded. */
  lemma {:induction false} RunIsRecorded(specs: seq<WindowSpec>, rateLimit: Option<U64>, run: seq<Settled>)
    ensures var s := NewSaved(specs, rateLimit);
      && Holds(RecordRun(s, run), s.ledger, Recorded(s, run))
      && |RecordRun(s, run).recent| <= MAX_SETTLEMENT_IDS
  {
    var s := NewSaved(specs, rateLimit);
    if run != [] {
      var earlier, last := run[..|run| - 1], run[|run| - 1];
      RunIsRecorded(specs, rateLimit, earlier);
      if !RecordRun(s, earlier).Repeats(last) {
        RecordHolds(RecordRun(s, earlier), s.ledger, Recorded(s, earlier), last);
      } else {
        assert Recorded(s, run) == Recorded(s, earlier);
      }
    } else {
      assert Events([]) == [];
    }
  }

  // ----- Exactly once -----

  /** Each settlement whose receipt was not seen before, in order of arrival. */
  function FirstArrivals(run: seq<Settled>): seq<Settled> {
    if run == [] then []
    else
      var earlier, last := FirstArrivals(run[..|run| - 1]), run[|run| - 1];
      if last.receipt.Some? && last.receipt.value in Receipts(earlier) then earlier else earlier + [last]
  }

  /** Every repeat of a receipt comes while it is among the last 256 receipts first seen. */
  ghost predicate RepeatsComeSoon(run: seq<Settled>) {
    forall j :: 0 <= j < |run| ==> RepeatIsSoon(run, j)
  }

  ghost predicate RepeatIsSoon(run: seq<Settled>, j: nat)
    requires j < |run|
  {
    var seen := Receipts(FirstArrivals(run[..j]));
    run[j].receipt.Some? && run[j].receipt.value in seen ==> run[j].receipt.value in LastIds(seen)
  }

  lemma ReceiptsSnoc(run: seq<Settled>, last: Settled)
    ensures Receipts(run + [last]) == Receipts(run) + (if last.receipt.Some? then [last.receipt.value] else [])
  {
    assert (run + [last])[..|run|] == run;
  }

  lemma RepeatsComeSoonSnoc(run: seq<Settled>)
    requires run != []
    ensures RepeatsComeSoon(run) <==> RepeatsComeSoon(run[..|run| - 1]) && RepeatIsSoon(run, |run| - 1)
  {
    var earlier := run[..|run| - 1];
    forall j | 0 <= j < |earlier|
      ensures RepeatIsSoon(run, j) <==> RepeatIsSoon(earlier, j)
    {
      assert earlier[..j] == run[..j];
    }
    if RepeatsComeSoon(run) {
      forall j | 0 <= j < |earlier| ensures RepeatIsSoon(earlier, j) { assert RepeatIsSoon(run, j); }
    }
    if RepeatsComeSoon(earlier) && RepeatIsSoon(run, |run| - 1) {
      forall j | 0 <= j < |run| ensures RepeatIsSoon(run, j) { if j < |earlier| { assert RepeatIsSoon(earlier, j); } }
    }
  }

  /** The counted settlements so far, against the first arrivals so far. */
  ghost predicate Covers(counted: seq<Settled>, arrivals: seq<Settled>, soon: bool) {
    && |arrivals| <= |counted|
    && (forall id :: id in Receipts(counted) ==> id in Receipts(arrivals))
    && (if soon then counted == arrivals else |arrivals| < |counted|)
  }

  lemma CoversStep(counted: seq<Settled>, arrivals: seq<Settled>, soon: bool, last: Settled)
    requires Covers(counted, arrivals, soon)
    ensures var seen := Receipts(arrivals);
      var repeat := last.receipt.Some? && last.receipt.value in seen;
      var skipped := last.receipt.Some? && last.receipt.value in LastIds(Receipts(counted));
      Covers(counted + (if skipped then [] else [last]),
             if repeat then arrivals else arrivals + [last],
             soon && (repeat ==> last.receipt.value in LastIds(seen)))
  {
    ReceiptsSnoc(counted, last);
    ReceiptsSnoc(arrivals, last);
    assert counted + [] == counted;
  }

  /** Only receipts that arrived are remembered, so a first arrival is always counted. */
  lemma {:induction false} RecordedCoversArrivals(specs: seq<WindowSpec>, rateLimit: Option<U64>, run: seq<Settled>)
    ensures Covers(Recorded(NewSaved(specs, rateLimit), run), FirstArrivals(run), RepeatsComeSoon(run))
  {
    if run != [] {
      var s := NewSaved(specs, rateLimit);
      var earlier, last := run[..|run| - 1], run[|run| - 1];
      RecordedCoversArrivals(specs, rateLimit, earlier);
      RunIsRecorded(specs, rateLimit, earlier);
      RepeatsComeSoonSnoc(run);
      CoversStep(Recorded(s, earlier), FirstArrivals(earlier), RepeatsComeSoon(earlier), last);
    }
  }

  /** Every receipt is counted exactly once if and only if every repeat arrives while its
      receipt is still remembered. */
  lemma ExactlyOnce(specs: seq<WindowSpec>, rateLimit: Option<U64>, run: seq<Settled>)
    ensures Recorded(NewSaved(specs, rateLimit), run) == FirstArrivals(run) <==> RepeatsComeSoon(run)
  {
    RecordedCoversArrivals(specs, rateLimit, run);
  }

  lemma {:induction false} ReceiptsInOrder(run: seq<Settled>)
    requires forall x :: x in run ==> x.receipt.Some?
    ensures |Receipts(run)| == |run|
    ensures forall i :: 0 <= i < |run| ==> Receipts(run)[i] == run[i].receipt.value
  {
    if run != [] {
      assert run == run[..|run| - 1] + [run[|run| - 1]];
      ReceiptsInOrder(run[..|run| - 1]);
    }
  }

  lemma {:induction false} FreshReceiptsAllArrive(run: seq<Settled>)
    requires forall x :: x in run ==> x.receipt.Some?
    requires Distinct(Receipts(run))
    ensures FirstArrivals(run) == run && RepeatsComeSoon(run)
  {
    if run != [] {
      var earlier, last := run[..|run| - 1], run[|run| - 1];
      assert run == earlier + [last];
      ReceiptsInOrder(run);
      ReceiptsInOrder(earlier);
      FreshReceiptsAllArrive(earlier);
      RepeatsComeSoonSnoc(run);
      assert Receipts(run)[|earlier|] == last.receipt.value;
    }
  }

  /** The bound is real: once 256 newer receipts have been seen, a repeat is counted again. */
  lemma ForgottenReceiptCountsTwice(specs: seq<WindowSpec>, rateLimit: Option<U64>, run: seq<Settled>)
    requires |run| > 256
    requires forall x :: x in run ==> x.receipt.Some?
    requires Distinct(Receipts(run))
    ensures Recorded(NewSaved(specs, rateLimit), run + [run[0]]) == run + [run[0]]
  {
    var s := NewSaved(specs, rateLimit);
    FreshReceiptsAllArrive(run);
    ExactlyOnce(specs, rateLimit, run);
    RunIsRecorded(specs, rateLimit, run);
    ReceiptsInOrder(run);
    FirstIsForgotten(Receipts(run));
    assert !RecordRun(s, run).Repeats(run[0]);
    RecordedSnoc(s, run, run[0]);
  }

  lemma FirstIsForgotten(ids: seq<string>)
    requires |ids| > MAX_SETTLEMENT_IDS && Distinct(ids)
    ensures ids[0] !in LastIds(ids)
  {
    assert forall i :: 0 <= i < |LastIds(ids)| ==> LastIds(ids)[i] == ids[|ids| - MAX_SETTLEMENT_IDS + i];
  }

  lemma RecordedSnoc(s: Saved, run: seq<Settled>, last: Settled)
    requires s.ledger.Valid() && !RecordRun(s, run).Repeats(last)
    ensures Recorded(s, run + [last]) == Recorded(s, run) + [last]
  {
    assert (run + [last])[..|run|] == run;
  }

  // ----- Order independence -----

  lemma {:induction false} MissingOfPermutation(a: seq<Settled>, b: seq<Settled>)
    requires multiset(a) == multiset(b)
    ensures MissingCount(a) == MissingCount(b)
    decreases |a|
  {
    SameMultisetMembers(a, b);
    if a != [] {
      var i := LastElsewhere(a, b);
      MissingOfPermutation(a[..|a| - 1], Without(b, i));
      MissingWithout(b, i);
    }
  }

  lemma {:induction false} MissingWithout(run: seq<Settled>, i: nat)
    requires i < |run|
    ensures MissingCount(run) == MissingCount(Without(run, i)) + (if run[i].missingUsage then 1 else 0)
  {
    var n := |run| - 1;
    if i == n {
      assert Without(run, i) == run[..n];
    } else {
      MissingWithout(run[..n], i);
      var rest := Without(run, i);
      assert rest[..|rest| - 1] == Without(run[..n], i);
      assert rest[|rest| - 1] == run[n];
    }
  }

  lemma {:induction false} EventsOfPermutation(a: seq<Settled>, b: seq<Settled>)
    requires multiset(a) == multiset(b)
    ensures multiset(Events(a)) == multiset(Events(b))
    decreases |a|
  {
    SameMultisetMembers(a, b);
    if a != [] {
      var i := LastElsewhere(a, b);
      EventsOfPermutation(a[..|a| - 1], Without(b, i));
      assert Events(Without(b, i)) == Without(Events(b), i);
      MultisetWithout(Events(b), i);
      assert Events(a) == Events(a[..|a| - 1]) + [Events(b)[i]];
    } else {
      assert Events(a) == Events(b);
    }
  }

  /** If every repeat comes soon enough, whatever clock, amount or usage it comes with, the account
      ends as if the first settlement of each receipt, and each settlement without one, had been
      recorded once, in any order whatever. */
  lemma CountsEachOnce(specs: seq<WindowSpec>, rateLimit: Option<U64>, run: seq<Settled>, once: seq<Settled>)
    requires RepeatsComeSoon(run) && multiset(once) == multiset(FirstArrivals(run))
    ensures var s := NewSaved(specs, rateLimit);
      && RecordRun(s, run).ledger == LedgerAll(s.ledger, Events(once))
      && RecordRun(s, run).unknownUsage == Capped(MissingCount(once))
  {
    var arrivals := FirstArrivals(run);
    RunIsRecorded(specs, rateLimit, run);
    ExactlyOnce(specs, rateLimit, run);
    EventsOfPermutation(arrivals, once);
    LedgerOrderIrrelevant(specs, rateLimit, Events(arrivals), Events(once));
    MissingOfPermutation(arrivals, once);
  }

  // ----- Which settlements arrive first -----

  lemma {:induction false} ReceiptsOf(run: seq<Settled>)
    ensures forall id :: id in Receipts(run) <==> exists x :: x in run && x.receipt == Some(id)
  {
    if run != [] {
      var earlier, last := run[..|run| - 1], run[|run| - 1];
      ReceiptsOf(earlier);
      assert run == earlier + [last];
      forall id
        ensures id in Receipts(run) <==> exists x :: x in run && x.receipt == Some(id)
      {
        if id in Receipts(earlier) {
          var x :| x in earlier && x.receipt == Some(id);
          assert x in run;
        } else if last.receipt == Some(id) {
          assert last in run;
        }
      }
    }
  }

  /** The first arrivals name every receipt of the run, each exactly once. */
  lemma {:induction false} ArrivalsNameEachOnce(run: seq<Settled>)
    ensures forall id :: id in Receipts(FirstArrivals(run)) <==> id in Receipts(run)
    ensures Distinct(Receipts(FirstArrivals(run)))
  {
    if run != [] {
      var earlier, last := run[..|run| - 1], run[|run| - 1];
      ArrivalsNameEachOnce(earlier);
      ReceiptsSnoc(FirstArrivals(earlier), last);
    }
  }

  /** A settlement arrives first exactly when it carries no receipt or none before it carried its
      receipt. */
  lemma {:induction false} ArrivesFirst(earlier: seq<Settled>, last: Settled)
    ensures FirstArrivals(earlier + [last])
      == FirstArrivals(earlier) + if last.receipt.Some? && last.receipt.value in Receipts(earlier) then [] else [last]
  {
    assert (earlier + [last])[..|earlier|] == earlier;
    ArrivalsNameEachOnce(earlier);
  }

  /** Every settlement carries a receipt, and a receipt always names the same settlement. */
  ghost predicate Consistent(run: seq<Settled>) {
    && (forall x :: x in run ==> x.receipt.Some?)
    && (forall x, y :: x in run && y in run && x.receipt == y.receipt ==> x == y)
  }

  lemma {:induction false} ArrivalsAreTheSet(run: seq<Settled>)
    requires Consistent(run)
    ensures forall x :: x in FirstArrivals(run) <==> x in run
    ensures Distinct(FirstArrivals(run))
  {
    if run != [] {
      var earlier, last := run[..|run| - 1], run[|run| - 1];
      assert run == earlier + [last];
      ArrivalsAreTheSet(earlier);
      ReceiptsOf(FirstArrivals(earlier));
      if last.receipt.value in Receipts(FirstArrivals(earlier)) {
        var x :| x in FirstArrivals(earlier) && x.receipt == last.receipt;
        assert x in earlier && x == last;
      } else {
        assert last !in FirstArrivals(earlier);
      }
    }
  }

  lemma DistinctSameElements<T>(a: seq<T>, b: seq<T>)
    requires Distinct(a) && Distinct(b)
    requires forall x :: x in a <==> x in b
    ensures multiset(a) == multiset(b)
  {
    forall x
      ensures multiset(a)[x] == multiset(b)[x]
    {
      DistinctCount(a, x);
      DistinctCount(b, x);
    }
  }

  lemma {:induction false} DistinctCount<T>(s: seq<T>, x: T)
    requires Distinct(s)
    ensures multiset(s)[x] == if x in s then 1 else 0
  {
    if s != [] {
      DistinctCount(s[1..], x);
      assert s == [s[0]] + s[1..];
    }
  }

  /** When a repeat is always a copy of the first, the settlements to count are simply those of the
      run, each once. */
  lemma CopiesCountOnce(run: seq<Settled>, once: seq<Settled>)
    requires Consistent(run) && Distinct(once) && forall x :: x in once <==> x in run
    ensures multiset(once) == multiset(FirstArrivals(run))
  {
    ArrivalsAreTheSet(run);
    DistinctSameElements(FirstArrivals(run), once);
  }
}
