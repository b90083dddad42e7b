/** Self-counted quota: a two-bucket sliding window with implicit reset, and the
    account ledger built from such windows. */
module QuotaLedger {
  import opened Machine
  import opened Arithmetic
  import opened Sequences

  const RATE_WINDOW_MS: U64 := 60_000
  const RATE_PRESSURE_PERMILLE: U16 := 100

  // ----- One window -----

  /** The stored counter: `curr` counts bucket `index`, `prev` the bucket before it. */
  datatype Window = Window(lenMs: U64, limit: U64, index: U64, curr: U64, prev: U64) {
    predicate Valid() {
      lenMs >= 1
    }

    function IndexAt(now: U64): (i: U64)
      requires Valid()
      ensures i * lenMs <= now < (i + 1) * lenMs
    {
      QuotientFits(now, lenMs);
      now / lenMs
    }

    function Advance(now: U64): Window
      requires Valid()
    {
      var idx := IndexAt(now);
      if idx <= index then this
      else this.(prev := if idx == index + 1 then curr else 0, curr := 0, index := idx)
    }

    function Record(now: U64, amount: U64): (w: Window)
      requires Valid()
      ensures w.Valid() && w.lenMs == lenMs && w.limit == limit
    {
      var w := Advance(now);
      var idx := IndexAt(now);
      if idx == w.index then w.(curr := SatAdd(w.curr, amount))
      else if idx + 1 == w.index then w.(prev := SatAdd(w.prev, amount))
      else w
    }

    /** The part of `amount` still counted when `weight` of the window's length is left. */
    function Decayed(amount: U64, weight: U64): (r: U64)
      requires Valid() && weight <= lenMs
      ensures r <= amount
    {
      ScaleDown(amount, weight, lenMs);
      amount * weight / lenMs
    }

    function EffectiveUsed(now: U64): U64
      requires Valid()
    {
      var idx := IndexAt(now);
      if idx < index then SatAdd(curr, prev)
      else
        var (c, p) :=
          if idx == index then (curr, prev)
          else if idx == index + 1 then (0, curr)
          else (0, 0);
        var bucketStart := SatMul(idx, lenMs);
        var elapsed := Min(SatSub(now, bucketStart), lenMs);
        SatAdd(c, Decayed(p, lenMs - elapsed))
    }

    function RemainingPermille(now: U64): (r: U16)
      requires Valid()
      ensures r <= 1000
    {
      if limit == 0 then 0
      else Permille(limit - Min(EffectiveUsed(now), limit), limit)
    }

    function MsUntilReset(now: U64): (r: U64)
      requires Valid()
    {
      var next := SatMul(SatAdd(IndexAt(now), 1), lenMs);
      assert next >= now by { NextBoundary(IndexAt(now), lenMs, now); }
      next - now
    }

    function Snapshot(now: U64): WindowSnapshot
      requires Valid()
    {
      WindowSnapshot(lenMs, limit, Min(EffectiveUsed(now), limit), RemainingPermille(now), MsUntilReset(now))
    }
  }

  datatype WindowSnapshot =
    WindowSnapshot(lenMs: U64, limit: U64, used: U64, remainingPermille: U16, msUntilReset: U64)

  function NewWindow(lenMs: U64, limit: U64): Window {
    Window(Max(lenMs, 1), limit, 0, 0, 0)
  }

  lemma QuotientFits(now: U64, len: U64)
    requires len >= 1
    ensures 0 <= now / len <= now
    ensures now / len * len <= now < (now / len + 1) * len
  {
    Quotient(now, len);
    QuotientAtLeast(now, len, 0);
    assert (now / len + 1) * len == now / len * len + len;
    ProductMonotone(1, len, now / len);
  }

  lemma ScaleDown(amount: nat, weight: nat, len: nat)
    requires 1 <= len && weight <= len
    ensures 0 <= amount * weight / len <= amount
  {
    ProductMonotone(weight, len, amount);
    assert (amount + 1) * len == amount * len + len;
    QuotientAtMost(amount * weight, len, amount);
    QuotientAtLeast(amount * weight, len, 0);
  }

  lemma NextBoundary(i: U64, len: U64, now: U64)
    requires now < (i + 1) * len
    ensures SatMul(SatAdd(i, 1), len) >= now
  {
    if i < U64_MAX {
      assert SatAdd(i, 1) == i + 1;
    } else if len >= 1 {
      assert U64_MAX * len >= U64_MAX;
    }
  }

  /** `part` out of `whole` in permille, rounded down. */
  function Permille(part: U64, whole: U64): (r: U16)
    requires 1 <= whole && part <= whole
    ensures r <= 1000
  {
    PermilleRange(part, whole);
    part * 1000 / whole
  }

  lemma PermilleRange(part: U64, whole: U64)
    requires 1 <= whole && part <= whole
    ensures 0 <= part * 1000 / whole <= 1000
  {
    QuotientAtLeast(part * 1000, whole, 0);
    QuotientAtMost(part * 1000, whole, 1000);
  }

  lemma PermilleExtremes(part: U64, whole: U64)
    requires 1 <= whole && part <= whole
    ensures Permille(part, whole) == 0 <==> part * 1000 < whole
    ensures Permille(part, whole) == 1000 <==> part == whole
  {
    PermilleRange(part, whole);
    if part * 1000 < whole {
      QuotientAtMost(part * 1000, whole, 0);
    } else {
      QuotientAtLeast(part * 1000, whole, 1);
    }
    if part < whole {
      QuotientAtMost(part * 1000, whole, 999);
    } else {
      QuotientAtLeast(part * 1000, whole, 1000);
    }
  }

  // ----- The window refines an event log -----

  /** One record: `amount` spent at clock reading `at`. */
  datatype Event = Event(at: U64, amount: U64)

  function RecordAll(w: Window, log: seq<Event>): (r: Window)
    requires w.Valid()
    ensures r.Valid() && r.lenMs == w.lenMs && r.limit == w.limit
  {
    if log == [] then w
    else
      var last := log[|log| - 1];
      RecordAll(w, log[..|log| - 1]).Record(last.at, last.amount)
  }

  /** The newest bucket any event fell in; bucket 0 for an empty log. */
  function NewestBucket(lenMs: U64, log: seq<Event>): (b: U64)
    requires lenMs >= 1
  {
    if log == [] then 0
    else
      var last := log[|log| - 1];
      QuotientFits(last.at, lenMs);
      Max(NewestBucket(lenMs, log[..|log| - 1]), last.at / lenMs)
  }

  /** Everything spent in bucket `b`, without any cap. */
  function BucketTotal(lenMs: U64, log: seq<Event>, b: int): nat
    requires lenMs >= 1
  {
    if log == [] then 0
    else
      var last := log[|log| - 1];
      BucketTotal(lenMs, log[..|log| - 1], b) + (if last.at / lenMs == b then last.amount else 0)
  }

  function Capped(n: nat): U64 {
    Min(n, U64_MAX)
  }

  lemma {:induction false} NothingAfterNewest(lenMs: U64, log: seq<Event>, b: int)
    requires lenMs >= 1 && (b > NewestBucket(lenMs, log) || b < 0)
    ensures BucketTotal(lenMs, log, b) == 0
  {
    if log != [] {
      var last := log[|log| - 1];
      QuotientFits(last.at, lenMs);
      NothingAfterNewest(lenMs, log[..|log| - 1], b);
    }
  }

  /** Records at any times, also decreasing ones: the stored state is exactly the newest
      bucket, its capped total and the capped total of the bucket before it. */
  lemma {:induction false} WindowRefinesLog(lenMs: U64, limit: U64, log: seq<Event>)
    ensures var len := Max(lenMs, 1);
      var newest := NewestBucket(len, log);
      RecordAll(NewWindow(lenMs, limit), log)
        == Window(len, limit, newest,
                  Capped(BucketTotal(len, log, newest)), Capped(BucketTotal(len, log, newest - 1)))
  {
    if log != [] {
      var len := Max(lenMs, 1);
      var earlier, last := log[..|log| - 1], log[|log| - 1];
      WindowRefinesLog(lenMs, limit, earlier);
      QuotientFits(last.at, len);
      var before, idx := NewestBucket(len, earlier), last.at / len;
      if idx > before {
        NothingAfterNewest(len, earlier, idx);
        if idx > before + 1 {
          NothingAfterNewest(len, earlier, idx - 1);
        }
      }
    }
  }

  // ----- Order independence -----

  lemma {:induction false} NewestIsBound(lenMs: U64, log: seq<Event>)
    requires lenMs >= 1
    ensures forall e :: e in log ==> e.at / lenMs <= NewestBucket(lenMs, log)
    ensures NewestBucket(lenMs, log) == 0 || exists e :: e in log && e.at / lenMs == NewestBucket(lenMs, log)
  {
    if log != [] {
      NewestIsBound(lenMs, log[..|log| - 1]);
      assert log == log[..|log| - 1] + [log[|log| - 1]];
    }
  }

  lemma NewestOfPermutation(lenMs: U64, a: seq<Event>, b: seq<Event>)
    requires lenMs >= 1 && multiset(a) == multiset(b)
    ensures NewestBucket(lenMs, a) == NewestBucket(lenMs, b)
  {
    NewestIsBound(lenMs, a);
    NewestIsBound(lenMs, b);
    SameMultisetMembers(a, b);
    QuotientsNonnegative(lenMs);
  }

  lemma QuotientsNonnegative(lenMs: U64)
    requires lenMs >= 1
    ensures forall x: U64 :: x / lenMs >= 0
  {
    forall x: U64
      ensures x / lenMs >= 0
    {
      QuotientFits(x, lenMs);
    }
  }

  function Share(lenMs: U64, e: Event, b: int): nat
    requires lenMs >= 1
  {
    if e.at / lenMs == b then e.amount else 0
  }

  lemma {:induction false} TotalWithout(lenMs: U64, log: seq<Event>, b: int, i: nat)
    requires lenMs >= 1 && i < |log|
    ensures BucketTotal(lenMs, log, b) == BucketTotal(lenMs, Without(log, i), b) + Share(lenMs, log[i], b)
  {
    var n := |log| - 1;
    if i == n {
      assert Without(log, i) == log[..n];
    } else {
      TotalWithout(lenMs, log[..n], b, i);
      var rest := Without(log, i);
      assert rest[..|rest| - 1] == Without(log[..n], i);
      assert rest[|rest| - 1] == log[n];
    }
  }

  lemma {:induction false} TotalOfPermutation(lenMs: U64, a: seq<Event>, b: seq<Event>, bucket: int)
    requires lenMs >= 1 && multiset(a) == multiset(b)
    ensures BucketTotal(lenMs, a, bucket) == BucketTotal(lenMs, b, bucket)
    decreases |a|
  {
    SameMultisetMembers(a, b);
    if a != [] {
      var i := LastElsewhere(a, b);
      TotalOfPermutation(lenMs, a[..|a| - 1], Without(b, i), bucket);
      TotalWithout(lenMs, b, bucket, i);
    }
  }

  /** The order in which records arrive does not change the stored state. */
  lemma RecordOrderIrrelevant(lenMs: U64, limit: U64, a: seq<Event>, b: seq<Event>)
    requires multiset(a) == multiset(b)
    ensures RecordAll(NewWindow(lenMs, limit), a) == RecordAll(NewWindow(lenMs, limit), b)
  {
    var len := Max(lenMs, 1);
    WindowRefinesLog(lenMs, limit, a);
    WindowRefinesLog(lenMs, limit, b);
    NewestOfPermutation(len, a, b);
    var newest: int := NewestBucket(len, a);
    TotalOfPermutation(len, a, b, newest);
    TotalOfPermutation(len, a, b, newest - 1);
  }

  // ----- Reading at any clock -----

  /** The weight `EffectiveUsed` gives to the older bucket. */
  lemma WeightAt(w: Window, now: U64)
    requires w.Valid()
    ensures var idx := w.IndexAt(now);
      w.lenMs - Min(SatSub(now, SatMul(idx, w.lenMs)), w.lenMs) == (idx + 1) * w.lenMs - now
  {
    var idx := w.IndexAt(now);
    assert idx * w.lenMs <= now;
    assert (idx + 1) * w.lenMs == idx * w.lenMs + w.lenMs;
  }

  lemma IndexMonotone(w: Window, t: U64, u: U64)
    requires w.Valid() && t <= u
    ensures w.IndexAt(t) <= w.IndexAt(u)
  {
    QuotientMonotone(t, u, w.lenMs);
  }

  lemma DecayMonotone(w: Window, amount: U64, small: U64, large: U64)
    requires w.Valid() && small <= large <= w.lenMs
    ensures w.Decayed(amount, small) <= w.Decayed(amount, large)
  {
    ProductMonotone(small, large, amount);
    QuotientMonotone(amount * small, amount * large, w.lenMs);
  }

  /** With nothing new recorded, usage only falls as the clock rises: also across both
      bucket boundaries and from readings before the stored bucket. */
  lemma UsageDecays(w: Window, t: U64, u: U64)
    requires w.Valid() && t <= u
    ensures w.EffectiveUsed(u) <= w.EffectiveUsed(t) <= SatAdd(w.curr, w.prev)
  {
    IndexMonotone(w, t, u);
    WeightAt(w, t);
    WeightAt(w, u);
    var i, j := w.IndexAt(t), w.IndexAt(u);
    var x, y := (i + 1) * w.lenMs - t, (j + 1) * w.lenMs - u;
    assert 0 <= x <= w.lenMs && 0 <= y <= w.lenMs by {
      assert (i + 1) * w.lenMs == i * w.lenMs + w.lenMs;
      assert (j + 1) * w.lenMs == j * w.lenMs + w.lenMs;
    }
    if i == j {
      DecayMonotone(w, w.prev, y, x);
      DecayMonotone(w, w.curr, y, x);
    }
  }

  lemma PermilleMonotone(less: U64, more: U64, whole: U64)
    requires 1 <= whole && less <= more <= whole
    ensures Permille(less, whole) <= Permille(more, whole)
  {
    QuotientMonotone(less * 1000, more * 1000, whole);
  }

  /** With nothing new recorded, headroom only grows as the clock rises. */
  lemma HeadroomRecovers(w: Window, t: U64, u: U64)
    requires w.Valid() && t <= u
    ensures w.RemainingPermille(t) <= w.RemainingPermille(u)
  {
    UsageDecays(w, t, u);
    if w.limit > 0 {
      PermilleMonotone(w.limit - Min(w.EffectiveUsed(t), w.limit), w.limit - Min(w.EffectiveUsed(u), w.limit), w.limit);
    }
  }

  /** A window reads empty exactly when less than a thousandth of it is left; so a spent
      window always does, and one with a thousandth left never does. */
  lemma EmptyMeansUnderOneThousandth(w: Window, now: U64)
    requires w.Valid()
    ensures w.RemainingPermille(now) == 0 <==>
      w.limit == 0 || (w.limit - w.EffectiveUsed(now)) * 1000 < w.limit
    ensures w.EffectiveUsed(now) >= w.limit ==> w.RemainingPermille(now) == 0
  {
    if w.limit > 0 {
      PermilleExtremes(w.limit - Min(w.EffectiveUsed(now), w.limit), w.limit);
    }
  }

  /** `h` is `left` out of `limit` in thousandths, rounded down. */
  predicate FloorShare(h: int, left: int, limit: int) {
    h * limit <= left * 1000 < (h + 1) * limit
  }

  /** The share shown is what is left in thousandths of the limit, rounded down. */
  lemma RemainingIsFloor(w: Window, now: U64)
    requires w.Valid() && w.limit > 0
    ensures FloorShare(w.RemainingPermille(now), w.limit - Min(w.EffectiveUsed(now), w.limit), w.limit)
  {
    var left := w.limit - Min(w.EffectiveUsed(now), w.limit);
    Quotient(left * 1000, w.limit);
    assert (left * 1000 / w.limit + 1) * w.limit == left * 1000 / w.limit * w.limit + w.limit;
  }

  /** The milliseconds of bucket `b` that the window ending at `now` still covers. */
  function Overlap(len: U64, b: int, now: U64): int {
    Max(Min((b + 1) * len, now) - Max(b * len, now - len), 0)
  }

  lemma OverlapOfPrevious(len: U64, idx: U64, now: U64)
    requires idx * len <= now < (idx + 1) * len
    ensures Overlap(len, idx - 1, now) == (idx + 1) * len - now
  {
    assert (idx - 1) * len == idx * len - len && (idx + 1) * len == idx * len + len;
  }

  /** Usage of a sliding window: the bucket being read in full, and the bucket before it in
      proportion to how much of it the window ending now still covers. */
  function SlidingUsage(len: U64, current: nat, previous: nat, now: U64): int
    requires len >= 1
  {
    Min(Capped(current) + Capped(previous) * Overlap(len, now / len - 1, now) / len, U64_MAX)
  }

  /** Usage at any clock: behind the newest record, a clock that fell back sees both stored buckets. */
  function LoggedUsage(len: U64, log: seq<Event>, now: U64): int
    requires len >= 1
  {
    var newest := NewestBucket(len, log);
    if now / len >= newest
    then SlidingUsage(len, BucketTotal(len, log, now / len), BucketTotal(len, log, now / len - 1), now)
    else Min(Capped(BucketTotal(len, log, newest)) + Capped(BucketTotal(len, log, newest - 1)), U64_MAX)
  }

  lemma UsageIsSlidingOverlap(lenMs: U64, limit: U64, log: seq<Event>, now: U64)
    ensures RecordAll(NewWindow(lenMs, limit), log).EffectiveUsed(now) == LoggedUsage(Max(lenMs, 1), log, now)
  {
    WindowRefinesLog(lenMs, limit, log);
    var w := RecordAll(NewWindow(lenMs, limit), log);
    if w.IndexAt(now) >= w.index {
      UsageFromNewestOn(w, log, now);
    }
  }

  lemma UsageFromNewestOn(w: Window, log: seq<Event>, now: U64)
    requires w.Valid() && w.index == NewestBucket(w.lenMs, log) <= w.IndexAt(now)
    requires w.curr == Capped(BucketTotal(w.lenMs, log, w.index))
    requires w.prev == Capped(BucketTotal(w.lenMs, log, w.index - 1))
    ensures w.EffectiveUsed(now) == SlidingUsage(
      w.lenMs, BucketTotal(w.lenMs, log, now / w.lenMs), BucketTotal(w.lenMs, log, now / w.lenMs - 1), now)
  {
    var idx := w.IndexAt(now);
    WeightAt(w, now);
    OverlapOfPrevious(w.lenMs, idx, now);
    if w.index < idx {
      NothingAfterNewest(w.lenMs, log, idx);
      if w.index + 1 < idx {
        NothingAfterNewest(w.lenMs, log, idx - 1);
      }
    }
  }

  /** What was spent in the bucket being read is counted in full, and a clock that fell back
      behind the newest record hides nothing of the two stored buckets. */
  lemma SpentInThisBucketCounts(lenMs: U64, limit: U64, log: seq<Event>, now: U64)
    ensures var w := RecordAll(NewWindow(lenMs, limit), log);
      && (w.index <= w.IndexAt(now) + 1 ==>
            w.EffectiveUsed(now) >= Capped(BucketTotal(w.lenMs, log, w.IndexAt(now))))
      && (w.IndexAt(now) < w.index ==>
            w.EffectiveUsed(now) == Capped(BucketTotal(w.lenMs, log, w.index) + BucketTotal(w.lenMs, log, w.index - 1)))
  {
    WindowRefinesLog(lenMs, limit, log);
    var w := RecordAll(NewWindow(lenMs, limit), log);
    if w.index < w.IndexAt(now) {
      NothingAfterNewest(w.lenMs, log, w.IndexAt(now));
    }
  }

  /** The reset is at the next boundary: always ahead and at most one window away, except
      at the very end of the clock. */
  lemma ResetIsNextBoundary(w: Window, now: U64)
    requires w.Valid()
    ensures w.MsUntilReset(now) <= w.lenMs
    ensures w.MsUntilReset(now) == 0 <==> now == U64_MAX
    ensures now + w.lenMs <= U64_MAX ==>
      1 <= w.MsUntilReset(now) && (now + w.MsUntilReset(now)) % w.lenMs == 0
  {
    var idx := w.IndexAt(now);
    assert (idx + 1) * w.lenMs == idx * w.lenMs + w.lenMs;
    NextBoundary(idx, w.lenMs, now);
    if now + w.lenMs <= U64_MAX {
      assert idx <= now by { QuotientFits(now, w.lenMs); }
      assert now + w.MsUntilReset(now) == (idx + 1) * w.lenMs;
      MultipleHasNoRemainder(idx + 1, w.lenMs);
    }
  }

  // ----- The account ledger -----

  datatype ResetWindow = ResetWindow(msUntilReset: U64, remainingPermille: U16)

  /** What the router ranks an account on. */
  datatype QuotaState =
    QuotaState(reset: Option<ResetWindow>, rateHeadroomPermille: U16, ratePressured: bool, exhausted: bool)

  const NON_WINDOWED: QuotaState := QuotaState(None, 1000, false, false)

  /** `Iterator::min_by_key`: the first position holding the least key. */
  function SoonestIndex(keys: seq<U64>): (i: nat)
    requires keys != []
    ensures i < |keys|
    ensures forall j :: 0 <= j < |keys| ==> keys[i] <= keys[j]
    ensures forall j :: 0 <= j < i ==> keys[i] < keys[j]
  {
    if |keys| == 1 then 0
    else
      var best := SoonestIndex(keys[..|keys| - 1]);
      if keys[|keys| - 1] < keys[best] then |keys| - 1 else best
  }

  /** The reset windows of a plan and its optional per-minute rate window. */
  datatype Ledger = Ledger(windows: seq<Window>, rate: Option<Window>) {
    predicate Valid() {
      (forall i :: 0 <= i < |windows| ==> windows[i].Valid()) && (rate.Some? ==> rate.value.Valid())
    }

    function Record(now: U64, amount: U64): (l: Ledger)
      requires Valid()
      ensures l.Valid() && |l.windows| == |windows|
    {
      Ledger(seq(|windows|, i requires 0 <= i < |windows| => windows[i].Record(now, amount)),
             if rate.Some? then Some(rate.value.Record(now, 1)) else None)
    }

    function ResetTimes(now: U64): (keys: seq<U64>)
      requires Valid()
      ensures |keys| == |windows|
    {
      seq(|windows|, i requires 0 <= i < |windows| => windows[i].MsUntilReset(now))
    }

    function RateHeadroomPermille(now: U64): (r: U16)
      requires Valid()
      ensures r <= 1000
    {
      if rate.Some? then rate.value.RemainingPermille(now) else 1000
    }

    function QuotaAt(now: U64): QuotaState
      requires Valid()
    {
      var reset :=
        if windows == [] then None
        else
          var w := windows[SoonestIndex(ResetTimes(now))];
          Some(ResetWindow(w.MsUntilReset(now), w.RemainingPermille(now)));
      var exhausted := exists i :: 0 <= i < |windows| && windows[i].RemainingPermille(now) == 0;
      var headroom := RateHeadroomPermille(now);
      QuotaState(reset, headroom, headroom <= RATE_PRESSURE_PERMILLE, exhausted)
    }

    function WindowSnapshots(now: U64): (ws: seq<WindowSnapshot>)
      requires Valid()
      ensures |ws| == |windows|
    {
      seq(|windows|, i requires 0 <= i < |windows| => windows[i].Snapshot(now))
    }

    /** Same dimensions: what a stored ledger must share with the current plan. */
    predicate CompatibleWith(expected: Ledger) {
      && |windows| == |expected.windows|
      && (forall i :: 0 <= i < |windows| ==> SameDimensions(windows[i], expected.windows[i]))
      && (rate.Some? <==> expected.rate.Some?)
      && (rate.Some? ==> SameDimensions(rate.value, expected.rate.value))
    }
  }

  predicate SameDimensions(a: Window, b: Window) {
    a.lenMs == b.lenMs && a.limit == b.limit
  }

  datatype WindowSpec = WindowSpec(lenMs: U64, limit: U64)

  function NewLedger(specs: seq<WindowSpec>, rateLimit: Option<U64>): (l: Ledger)
    ensures l.Valid()
  {
    Ledger(seq(|specs|, i requires 0 <= i < |specs| => NewWindow(specs[i].lenMs, specs[i].limit)),
           if rateLimit.Some? then Some(NewWindow(RATE_WINDOW_MS, rateLimit.value)) else None)
  }

  function LedgerAll(l: Ledger, log: seq<Event>): (r: Ledger)
    requires l.Valid()
    ensures r.Valid()
  {
    if log == [] then l
    else LedgerAll(l, log[..|log| - 1]).Record(log[|log| - 1].at, log[|log| - 1].amount)
  }

  /** Each exchange counts once against the rate window. */
  function Ones(log: seq<Event>): (r: seq<Event>)
    ensures |r| == |log|
  {
    seq(|log|, i requires 0 <= i < |log| => Event(log[i].at, 1))
  }

  /** Every window of the ledger counts the same log on its own. */
  lemma {:induction false} LedgerIsItsWindows(l: Ledger, log: seq<Event>)
    requires l.Valid()
    ensures |LedgerAll(l, log).windows| == |l.windows|
    ensures forall i :: 0 <= i < |l.windows| ==> LedgerAll(l, log).windows[i] == RecordAll(l.windows[i], log)
    ensures LedgerAll(l, log).rate ==
      if l.rate.Some? then Some(RecordAll(l.rate.value, Ones(log))) else None
    ensures LedgerAll(l, log).CompatibleWith(l)
  {
    if log != [] {
      LedgerIsItsWindows(l, log[..|log| - 1]);
      assert Ones(log)[..|log| - 1] == Ones(log[..|log| - 1]);
    } else {
      assert Ones(log) == [];
    }
  }

  lemma {:induction false} OnesMultiset(a: seq<Event>, b: seq<Event>)
    requires multiset(a) == multiset(b)
    ensures multiset(Ones(a)) == multiset(Ones(b))
    decreases |a|
  {
    SameMultisetMembers(a, b);
    if a != [] {
      var i := LastElsewhere(a, b);
      OnesMultiset(a[..|a| - 1], Without(b, i));
      assert Ones(Without(b, i)) == Without(Ones(b), i);
      MultisetWithout(Ones(b), i);
      assert Ones(a) == Ones(a[..|a| - 1]) + [Ones(b)[i]];
    } else {
      assert Ones(a) == Ones(b);
    }
  }

  /** The order in which exchanges settle does not change an account's ledger. */
  lemma LedgerOrderIrrelevant(specs: seq<WindowSpec>, rateLimit: Option<U64>, a: seq<Event>, b: seq<Event>)
    requires multiset(a) == multiset(b)
    ensures LedgerAll(NewLedger(specs, rateLimit), a) == LedgerAll(NewLedger(specs, rateLimit), b)
  {
    var l := NewLedger(specs, rateLimit);
    LedgerIsItsWindows(l, a);
    LedgerIsItsWindows(l, b);
    forall i | 0 <= i < |specs|
      ensures RecordAll(l.windows[i], a) == RecordAll(l.windows[i], b)
    {
      RecordOrderIrrelevant(specs[i].lenMs, specs[i].limit, a, b);
    }
    if rateLimit.Some? {
      OnesMultiset(a, b);
      RecordOrderIrrelevant(RATE_WINDOW_MS, rateLimit.value, Ones(a), Ones(b));
    }
  }

  /** An account is exhausted exactly when some window has under a thousandth left. */
  lemma ExhaustedBindsOnTightest(l: Ledger, now: U64)
    requires l.Valid()
    ensures l.QuotaAt(now).exhausted <==>
      exists i :: 0 <= i < |l.windows| &&
        (l.windows[i].limit == 0
         || (l.windows[i].limit - l.windows[i].EffectiveUsed(now)) * 1000 < l.windows[i].limit)
  {
    forall i | 0 <= i < |l.windows|
      ensures l.windows[i].RemainingPermille(now) == 0 <==>
        (l.windows[i].limit == 0
         || (l.windows[i].limit - l.windows[i].EffectiveUsed(now)) * 1000 < l.windows[i].limit)
    {
      EmptyMeansUnderOneThousandth(l.windows[i], now);
    }
  }

  /** The reset is the next bucket boundary. */
  predicate ClosesAtBoundary(len: U64, now: U64, msUntilReset: U64)
    requires len >= 1
  {
    msUntilReset <= len && (now + len <= U64_MAX ==> 1 <= msUntilReset && (now + msUntilReset) % len == 0)
  }

  /** What a window of the plan shows once `used` has been spent in it. */
  predicate Shows(w: WindowSnapshot, spec: WindowSpec, used: int, now: U64) {
    && w.lenMs == Max(spec.lenMs, 1) && w.limit == spec.limit && w.used == Min(used, spec.limit)
    && (if spec.limit == 0 then w.remainingPermille == 0
        else FloorShare(w.remainingPermille, spec.limit - w.used, spec.limit))
    && ClosesAtBoundary(w.lenMs, now, w.msUntilReset)
  }

  /** Each window of a plan, shown at any clock after any log: its own length and limit, what the
      log spent in it, the share that is left and the next boundary. */
  lemma PlanWindowShows(specs: seq<WindowSpec>, rateLimit: Option<U64>, log: seq<Event>, i: nat, now: U64)
    requires i < |specs|
    ensures var shown := LedgerAll(NewLedger(specs, rateLimit), log).WindowSnapshots(now);
      |shown| == |specs| && Shows(shown[i], specs[i], LoggedUsage(Max(specs[i].lenMs, 1), log, now), now)
  {
    var spec := specs[i];
    var w := RecordAll(NewWindow(spec.lenMs, spec.limit), log);
    LedgerIsItsWindows(NewLedger(specs, rateLimit), log);
    UsageIsSlidingOverlap(spec.lenMs, spec.limit, log, now);
    ResetIsNextBoundary(w, now);
    if spec.limit > 0 {
      RemainingIsFloor(w, now);
    }
  }

  /** Rate headroom is the share of the per-minute limit not yet used by the exchanges the rate
      window counts: those of the last minute, or of the newest two minutes when the clock fell back. */
  lemma HeadroomCountsRequests(specs: seq<WindowSpec>, limit: U64, log: seq<Event>, now: U64)
    requires limit > 0
    ensures FloorShare(LedgerAll(NewLedger(specs, Some(limit)), log).QuotaAt(now).rateHeadroomPermille,
                       limit - Min(LoggedUsage(RATE_WINDOW_MS, Ones(log), now), limit), limit)
  {
    var l := LedgerAll(NewLedger(specs, Some(limit)), log);
    var w := RecordAll(NewWindow(RATE_WINDOW_MS, limit), Ones(log));
    LedgerIsItsWindows(NewLedger(specs, Some(limit)), log);
    assert l.rate == Some(w);
    RateDrivesHeadroom(l, w, now);
    UsageIsSlidingOverlap(RATE_WINDOW_MS, limit, Ones(log), now);
    RemainingIsFloor(w, now);
  }

  lemma RateDrivesHeadroom(l: Ledger, w: Window, now: U64)
    requires l.Valid() && l.rate == Some(w)
    ensures w.Valid() && l.QuotaAt(now).rateHeadroomPermille == w.RemainingPermille(now)
  {
  }

  // ----- The objects the gateway updates in place -----

  class SlidingWindow {
    const lenMs: U64
    const limit: U64
    var index: U64
    var curr: U64
    var prev: U64

    function State(): Window
      reads this
    {
      Window(lenMs, limit, index, curr, prev)
    }

    constructor (len: U64, allowance: U64)
      ensures State() == NewWindow(len, allowance) && State().Valid()
    {
      lenMs, limit := Max(len, 1), allowance;
      index, curr, prev := 0, 0, 0;
    }

    method Advance(now: U64)
      requires State().Valid()
      modifies this
      ensures State() == old(State()).Advance(now)
    {
      var idx := State().IndexAt(now);
      if idx <= index {
        return;
      }
      prev := if idx == index + 1 then curr else 0;
      curr := 0;
      index := idx;
    }

    method Record(now: U64, amount: U64)
      requires State().Valid()
      modifies this
      ensures State() == old(State()).Record(now, amount)
    {
      Advance(now);
      var idx := State().IndexAt(now);
      if idx == index {
        curr := SatAdd(curr, amount);
      } else if idx + 1 == index {
        prev := SatAdd(prev, amount);
      }
    }
  }

  class AccountLedger {
    var windows: seq<Window>
    var rate: Option<Window>

    function State(): Ledger
      reads this
    {
      Ledger(windows, rate)
    }

    constructor (specs: seq<WindowSpec>, rateLimit: Option<U64>)
      ensures State() == NewLedger(specs, rateLimit)
    {
      windows, rate := NewLedger(specs, rateLimit).windows, NewLedger(specs, rateLimit).rate;
    }

    method Record(now: U64, amount: U64)
      requires State().Valid()
      modifies this
      ensures State() == old(State()).Record(now, amount)
    {
      for i := 0 to |windows|
        invariant rate == old(rate) && |windows| == |old(windows)|
        invariant forall j :: 0 <= j < i ==> windows[j] == old(windows)[j].Record(now, amount)
        invariant forall j :: i <= j < |windows| ==> windows[j] == old(windows)[j]
      {
        windows := windows[i := windows[i].Record(now, amount)];
      }
      if rate.Some? {
        rate := Some(rate.value.Record(now, 1));
      }
    }
  }
}
