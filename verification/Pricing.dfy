/** What one exchange costs: token classes against a model's rates. */
module Pricing {
  import opened Arithmetic
  import opened Machine

  const MILLION: int := 1_000_000

  /** Micro-units of currency per million tokens; an absent rate falls back to another one. */
  datatype ModelPrice = ModelPrice(
    input: U64, output: U64, cacheRead: U64, cacheWrite: U64,
    cacheWrite5m: Option<U64>, cacheWrite1h: Option<U64>, reasoning: Option<U64>)

  /** Token counts as a provider reported them: nothing makes the details subsets of the totals. */
  datatype Usage = Usage(
    input: U64, output: U64, cacheRead: U64, cacheWrite: U64,
    cacheWrite5m: U64, cacheWrite1h: U64, reasoning: U64)

  function Or(rate: Option<U64>, fallback: U64): U64 {
    match rate
    case Some(r) => r
    case None => fallback
  }

  // ----- `cost_micros` on its 128-bit intermediate values -----

  function AddU128(a: int, b: int): int {
    Min(a + b, U128_MAX)
  }

  function MulU128(a: int, b: int): int {
    Min(a * b, U128_MAX)
  }

  function Per(tokens: U64, rate: U64): int {
    MulU128(tokens, rate) / MILLION
  }

  function FreshInput(u: Usage): U64 {
    SatSub(SatSub(u.input, u.cacheRead), u.cacheWrite)
  }

  function FreshOutput(u: Usage): U64 {
    SatSub(u.output, u.reasoning)
  }

  function ShortCache(u: Usage): U64 {
    Min(u.cacheWrite5m, u.cacheWrite)
  }

  function LongCache(u: Usage): U64 {
    Min(u.cacheWrite1h, u.cacheWrite - ShortCache(u))
  }

  function OtherCache(u: Usage): U64 {
    u.cacheWrite - ShortCache(u) - LongCache(u)
  }

  function CacheCost(p: ModelPrice, u: Usage): int {
    AddU128(
      AddU128(ShortCache(u) * Or(p.cacheWrite5m, p.cacheWrite), LongCache(u) * Or(p.cacheWrite1h, p.cacheWrite)),
      OtherCache(u) * p.cacheWrite)
    / MILLION
  }

  function Total(p: ModelPrice, u: Usage): int {
    AddU128(
      AddU128(
        AddU128(
          AddU128(Per(FreshInput(u), p.input), Per(FreshOutput(u), p.output)),
          Per(u.cacheRead, p.cacheRead)),
        CacheCost(p, u)),
      Per(u.reasoning, Or(p.reasoning, p.output)))
  }

  /** `ModelPrice::cost_micros`. */
  function CostMicros(p: ModelPrice, u: Usage): int {
    if Total(p, u) <= I64_MAX then Total(p, u) else I64_MAX
  }

  /** `ModelPrice::uniform_cache_write_rate`. */
  function UniformCacheWriteRate(p: ModelPrice): Option<U64> {
    if (p.cacheWrite5m.None? || p.cacheWrite5m.value == p.cacheWrite)
      && (p.cacheWrite1h.None? || p.cacheWrite1h.value == p.cacheWrite)
    then Some(p.cacheWrite) else None
  }

  // ----- What it computes, without a width and without rounding -----

  function WrittenWeight(p: ModelPrice, short: int, long: int, other: int): int {
    short * Or(p.cacheWrite5m, p.cacheWrite) + long * Or(p.cacheWrite1h, p.cacheWrite) + other * p.cacheWrite
  }

  /** Micro-units times a million for the cache-write tokens. */
  function CacheWeight(p: ModelPrice, u: Usage): int {
    WrittenWeight(p, ShortCache(u), LongCache(u), OtherCache(u))
  }

  /** Each token weighted by its rate: input that was neither read from nor written to the cache,
      output that was not reasoning, and the three remaining classes. */
  function Weight(p: ModelPrice, u: Usage): int {
    Max(u.input - u.cacheRead - u.cacheWrite, 0) * p.input
    + Max(u.output - u.reasoning, 0) * p.output
    + u.cacheRead * p.cacheRead
    + CacheWeight(p, u)
    + u.reasoning * Or(p.reasoning, p.output)
  }

  /** Whatever the details say, every written token is billed in exactly one class: five-minute
      tokens first, then one-hour tokens, and the rest at the plain rate. */
  lemma CacheClassesPartition(u: Usage)
    ensures ShortCache(u) + LongCache(u) + OtherCache(u) == u.cacheWrite
    ensures ShortCache(u) <= u.cacheWrite5m && LongCache(u) <= u.cacheWrite1h
    ensures ShortCache(u) < u.cacheWrite5m ==> LongCache(u) == OtherCache(u) == 0
    ensures LongCache(u) < u.cacheWrite1h ==> OtherCache(u) == 0
    ensures u.cacheWrite5m + u.cacheWrite1h <= u.cacheWrite ==>
      (ShortCache(u) == u.cacheWrite5m && LongCache(u) == u.cacheWrite1h)
  {
  }

  /** A square of the widest count, in millionths. */
  const TERM_MAX: int := U64_MAX * U64_MAX / MILLION

  lemma PerIsExact(tokens: U64, rate: U64)
    ensures 0 <= Per(tokens, rate) <= TERM_MAX
    ensures Per(tokens, rate) * MILLION <= tokens * rate < (Per(tokens, rate) + 1) * MILLION
  {
    ProductMonotone(tokens, U64_MAX, rate);
    ProductMonotone(rate, U64_MAX, U64_MAX);
    ProductMonotone(0, tokens, rate);
    Quotient(tokens * rate, MILLION);
    QuotientMonotone(tokens * rate, U64_MAX * U64_MAX, MILLION);
  }

  lemma CacheCostIsExact(p: ModelPrice, u: Usage)
    ensures 0 <= CacheCost(p, u) <= TERM_MAX
    ensures CacheCost(p, u) * MILLION <= CacheWeight(p, u) < (CacheCost(p, u) + 1) * MILLION
  {
    WeightFits(ShortCache(u), LongCache(u), OtherCache(u),
               Or(p.cacheWrite5m, p.cacheWrite), Or(p.cacheWrite1h, p.cacheWrite), p.cacheWrite);
    Quotient(CacheWeight(p, u), MILLION);
    QuotientMonotone(CacheWeight(p, u), U64_MAX * U64_MAX, MILLION);
  }

  /** Rates within 64 bits weigh tokens within 64 bits to at most 128. */
  lemma WeightFits(a: nat, b: nat, c: nat, x: U64, y: U64, z: U64)
    requires a + b + c <= U64_MAX
    ensures 0 <= a * x && 0 <= b * y && 0 <= c * z && a * x + b * y + c * z <= U64_MAX * U64_MAX
  {
    ProductMonotone(x, U64_MAX, a);
    ProductMonotone(y, U64_MAX, b);
    ProductMonotone(z, U64_MAX, c);
    ProductMonotone(a + b + c, U64_MAX, U64_MAX);
    assert a * U64_MAX + b * U64_MAX + c * U64_MAX == (a + b + c) * U64_MAX;
  }

  /** No 128-bit step ever saturates: the total is the plain sum of its five rounded terms. */
  lemma NothingSaturates(p: ModelPrice, u: Usage)
    ensures Total(p, u) == Per(FreshInput(u), p.input) + Per(FreshOutput(u), p.output)
      + Per(u.cacheRead, p.cacheRead) + CacheCost(p, u) + Per(u.reasoning, Or(p.reasoning, p.output))
  {
    PerIsExact(FreshInput(u), p.input);
    PerIsExact(FreshOutput(u), p.output);
    PerIsExact(u.cacheRead, p.cacheRead);
    CacheCostIsExact(p, u);
    PerIsExact(u.reasoning, Or(p.reasoning, p.output));
  }

  /** The charge never exceeds the exact weighted sum, and unless it is capped it is less than
      five micro-units below it: one rounding for each of the five terms. */
  lemma CostWithinFive(p: ModelPrice, u: Usage)
    ensures 0 <= CostMicros(p, u) <= I64_MAX
    ensures CostMicros(p, u) * 1_000_000 <= Weight(p, u)
    ensures CostMicros(p, u) < I64_MAX ==> Weight(p, u) < (CostMicros(p, u) + 5) * 1_000_000
  {
    NothingSaturates(p, u);
    PerIsExact(FreshInput(u), p.input);
    PerIsExact(FreshOutput(u), p.output);
    PerIsExact(u.cacheRead, p.cacheRead);
    CacheCostIsExact(p, u);
    PerIsExact(u.reasoning, Or(p.reasoning, p.output));
  }

  /** The bound of five is the best possible: five terms can each lose almost a micro-unit. */
  lemma FiveIsTight()
    ensures exists p, u :: CostMicros(p, u) == 0 && Weight(p, u) == 5 * 999_999
  {
    var p := ModelPrice(1, 1, 1, 1, None, None, Some(1));
    var n: U64 := MILLION - 1;
    var u := Usage(3 * n, 2 * n, n, n, 0, 0, n);
    assert CostMicros(p, u) == 0;
    assert Weight(p, u) == 5 * n;
  }

  // ----- When the cache split does not matter -----

  /** Rates that one cache-price field can express: the split by lifetime never changes the
      weight of the written tokens. */
  ghost predicate SplitIgnored(p: ModelPrice) {
    forall u :: CacheWeight(p, u) == u.cacheWrite * p.cacheWrite
  }

  lemma UniformWeight(p: ModelPrice, u: Usage)
    requires UniformCacheWriteRate(p).Some?
    ensures CacheWeight(p, u) == u.cacheWrite * p.cacheWrite
  {
    CacheClassesPartition(u);
    var a: int, b: int, c: int, rate: int := ShortCache(u), LongCache(u), OtherCache(u), p.cacheWrite;
    assert CacheWeight(p, u) == a * rate + b * rate + c * rate;
    assert a * rate + b * rate + c * rate == (a + b + c) * rate;
  }

  const ONE_SHORT := Usage(0, 0, 0, 1, 1, 0, 0)
  const ONE_LONG := Usage(0, 0, 0, 1, 0, 1, 0)

  /** One token of each lifetime reveals both optional rates. */
  lemma OneTokenEach(p: ModelPrice)
    ensures CacheWeight(p, ONE_SHORT) == Or(p.cacheWrite5m, p.cacheWrite)
    ensures CacheWeight(p, ONE_LONG) == Or(p.cacheWrite1h, p.cacheWrite)
  {
    assert CacheWeight(p, ONE_SHORT) == WrittenWeight(p, 1, 0, 0);
    assert CacheWeight(p, ONE_LONG) == WrittenWeight(p, 0, 1, 0);
  }

  /** A single rate is answered exactly when no lifetime split can change what writing costs. */
  lemma UniformMeansSplitIgnored(p: ModelPrice)
    ensures UniformCacheWriteRate(p).Some? <==> SplitIgnored(p)
    ensures UniformCacheWriteRate(p).Some? ==> UniformCacheWriteRate(p).value == p.cacheWrite
  {
    if UniformCacheWriteRate(p).Some? {
      forall u ensures CacheWeight(p, u) == u.cacheWrite * p.cacheWrite {
        UniformWeight(p, u);
      }
    }
    OneTokenEach(p);
    if SplitIgnored(p) {
      assert CacheWeight(p, ONE_SHORT) == p.cacheWrite && CacheWeight(p, ONE_LONG) == p.cacheWrite;
    }
  }

  /** Optional rates equal to the plain one leave every recorded cost as it was without them. */
  lemma EqualRatesKeepTheCost(p: ModelPrice, u: Usage, short: U64, long: U64)
    requires UniformCacheWriteRate(p).Some?
    ensures CostMicros(p, u)
      == CostMicros(p.(cacheWrite5m := None, cacheWrite1h := None), u.(cacheWrite5m := short, cacheWrite1h := long))
  {
    var q, v := p.(cacheWrite5m := None, cacheWrite1h := None), u.(cacheWrite5m := short, cacheWrite1h := long);
    UniformWeight(p, u);
    UniformWeight(q, v);
    assert CacheWeight(p, u) == CacheWeight(q, v);
    CacheCostIsExact(p, u);
    CacheCostIsExact(q, v);
    assert CacheCost(p, u) == CacheCost(q, v);
  }

  // ----- Tokens billed, and rates compared -----

  /** The billed tokens are the reported ones, and more only when the details exceed their total. */
  lemma BilledTokens(u: Usage)
    ensures FreshInput(u) + u.cacheRead + ShortCache(u) + LongCache(u) + OtherCache(u)
      == Max(u.input, u.cacheRead + u.cacheWrite)
    ensures FreshOutput(u) + u.reasoning == Max(u.output, u.reasoning)
  {
    CacheClassesPartition(u);
  }

  /** No class has a lower rate in `q`, fallbacks included. */
  predicate NoCheaper(p: ModelPrice, q: ModelPrice) {
    && p.input <= q.input && p.output <= q.output && p.cacheRead <= q.cacheRead && p.cacheWrite <= q.cacheWrite
    && Or(p.cacheWrite5m, p.cacheWrite) <= Or(q.cacheWrite5m, q.cacheWrite)
    && Or(p.cacheWrite1h, p.cacheWrite) <= Or(q.cacheWrite1h, q.cacheWrite)
    && Or(p.reasoning, p.output) <= Or(q.reasoning, q.output)
  }

  lemma PerMonotone(tokens: U64, low: U64, high: U64)
    requires low <= high
    ensures Per(tokens, low) <= Per(tokens, high)
  {
    ProductMonotone(low, high, tokens);
    PerIsExact(tokens, low);
    PerIsExact(tokens, high);
  }

  /** Raising rates never lowers a cost, roundings and cap included. */
  lemma CostMonotone(p: ModelPrice, q: ModelPrice, u: Usage)
    requires NoCheaper(p, q)
    ensures CostMicros(p, u) <= CostMicros(q, u)
  {
    PerMonotone(FreshInput(u), p.input, q.input);
    PerMonotone(FreshOutput(u), p.output, q.output);
    PerMonotone(u.cacheRead, p.cacheRead, q.cacheRead);
    PerMonotone(u.reasoning, Or(p.reasoning, p.output), Or(q.reasoning, q.output));
    ProductMonotone(Or(p.cacheWrite5m, p.cacheWrite), Or(q.cacheWrite5m, q.cacheWrite), ShortCache(u));
    ProductMonotone(Or(p.cacheWrite1h, p.cacheWrite), Or(q.cacheWrite1h, q.cacheWrite), LongCache(u));
    ProductMonotone(p.cacheWrite, q.cacheWrite, OtherCache(u));
    assert CacheWeight(p, u) <= CacheWeight(q, u);
    CacheCostIsExact(p, u);
    CacheCostIsExact(q, u);
    NothingSaturates(p, u);
    NothingSaturates(q, u);
  }
}
