/** Bodies captured for a trace: each cut at a character boundary, all of them spending one budget. */
module TraceBody {
  import opened Machine
  import opened Utf8

  const MAX_BODY_BYTES: int := 256 * 1024
  const MAX_HTTP_TRACE_BODY_BYTES: int := 1024 * 1024

  // ----- Lossy decoding: `String::from_utf8_lossy` -----

  /** U+FFFD. */
  const REPLACEMENT: Bytes := [0xEF, 0xBF, 0xBD]

  /** The width of the maximal ill-formed subpart at the front. */
  function BadWidth(s: Bytes): (n: nat)
    requires s != [] && LeadWidth(s) == 0
    ensures 1 <= n <= |s| && n <= 3
  {
    if |s| >= 2 && SecondOfThree(s[0], s[1]) then 2
    else if |s| >= 2 && SecondOfFour(s[0], s[1]) then (if |s| >= 3 && Continuation(s[2]) then 3 else 2)
    else 1
  }

  function Lossy(s: Bytes): Bytes {
    if s == [] then []
    else if LeadWidth(s) > 0 then s[..LeadWidth(s)] + Lossy(s[LeadWidth(s)..])
    else REPLACEMENT + Lossy(s[BadWidth(s)..])
  }

  lemma LossyStep(s: Bytes, n: nat, rest: Bytes)
    requires 0 < n == LeadWidth(s) && rest == s[n..]
    ensures Lossy(s) == s[..n] + Lossy(rest)
  {
  }

  lemma OneCharacter(s: Bytes, n: nat)
    requires n == LeadWidth(s) > 0
    ensures Valid(s[..n])
  {
    var c := s[..n];
    assert LeadWidth(c) == n;
    assert c[n..] == [];
  }

  lemma ReplacementIsValid()
    ensures Valid(REPLACEMENT)
  {
    assert LeadWidth(REPLACEMENT) == 3;
    assert REPLACEMENT[3..] == [];
  }

  lemma SameAfter(s: Bytes, n: nat, rest: Bytes, decoded: Bytes)
    requires n <= |s| && rest == s[n..]
    ensures s[..n] + decoded == s <==> decoded == rest
  {
    assert s == s[..n] + rest;
    assert (s[..n] + decoded)[n..] == decoded;
  }

  /** Lossy decoding always yields text, and text decodes to itself. */
  lemma {:induction false} LossyIsText(s: Bytes)
    ensures Valid(Lossy(s))
    ensures Lossy(s) == s <==> Valid(s)
  {
    if s != [] {
      var n := LeadWidth(s);
      if n > 0 {
        var rest := s[n..];
        LossyIsText(rest);
        LossyStep(s, n, rest);
        OneCharacter(s, n);
        ValidJoin(s[..n], Lossy(rest));
        ValidTail(s, n, rest);
        SameAfter(s, n, rest, Lossy(rest));
      } else {
        LossyIsText(s[BadWidth(s)..]);
        ReplacementIsValid();
        ValidJoin(REPLACEMENT, Lossy(s[BadWidth(s)..]));
      }
    }
  }

  // ----- Character boundaries -----

  /** `str::is_char_boundary`. */
  predicate IsBoundary(s: Bytes, i: nat) {
    i == 0 || i == |s| || (i < |s| && !Continuation(s[i]))
  }

  /** The largest boundary that is not beyond `limit`. */
  function Floor(s: Bytes, limit: nat): (n: nat)
    requires limit <= |s|
    ensures n <= limit
  {
    if IsBoundary(s, limit) then limit else Floor(s, limit - 1)
  }

  lemma {:induction false} FloorIsLargest(s: Bytes, limit: nat)
    requires limit <= |s|
    ensures IsBoundary(s, Floor(s, limit))
    ensures forall i :: Floor(s, limit) < i <= limit ==> !IsBoundary(s, i)
  {
    if !IsBoundary(s, limit) {
      FloorIsLargest(s, limit - 1);
    }
  }

  lemma BoundaryCutsText(s: Bytes, i: nat)
    requires Valid(s) && i <= |s| && IsBoundary(s, i)
    ensures Valid(s[..i]) && Valid(s[i..])
  {
    assert s[..i] + s[i..] == s;
    ValidCut(s[..i], s[i..]);
  }

  /** Past a boundary of a text, the next character ends within four bytes. */
  lemma NextBoundary(s: Bytes, i: nat)
    requires Valid(s) && i < |s| && IsBoundary(s, i)
    ensures var n := LeadWidth(s[i..]); 1 <= n && i + n <= |s| && IsBoundary(s, i + n)
  {
    BoundaryCutsText(s, i);
    var n := LeadWidth(s[i..]);
    if i + n < |s| {
      var rest := s[i..][n..];
      assert Valid(rest) && rest[0] == s[i + n];
    }
  }

  /** Cutting a text at a boundary gives up at most three of the bytes allowed. */
  lemma FloorWithinThree(s: Bytes, limit: nat)
    requires Valid(s) && limit <= |s|
    ensures limit - Floor(s, limit) <= 3
    ensures Floor(s, limit) < limit ==> limit - Floor(s, limit) < LeadWidth(s[Floor(s, limit)..])
    ensures Valid(s[..Floor(s, limit)])
  {
    var f := Floor(s, limit);
    FloorIsLargest(s, limit);
    BoundaryCutsText(s, f);
    if f < limit {
      NextBoundary(s, f);
    }
  }

  // ----- One body -----

  datatype Body = Body(text: Bytes, truncated: bool)

  const EMPTY: Body := Body([], false)

  /** Appends as much of `text` as `allowed` bytes hold without splitting a character. */
  function Extend(body: Body, allowed: nat, text: Bytes): Body {
    var n := Floor(text, Min(allowed, |text|));
    Body(body.text + text[..n], body.truncated || n < |text|)
  }

  /** Room left under the limit of a single body. */
  function Room(body: Body): nat {
    Max(MAX_BODY_BYTES - |body.text|, 0)
  }

  /** The loop shared by both kinds of body: back from `limit` to a character boundary. */
  method SeekBoundary(text: Bytes, limit: nat) returns (boundary: nat)
    requires limit <= |text|
    ensures boundary == Floor(text, limit)
  {
    boundary := limit;
    while boundary > 0 && !(boundary == |text| || !Continuation(text[boundary]))
      invariant boundary <= limit
      invariant Floor(text, limit) == Floor(text, boundary)
    {
      boundary := boundary - 1;
    }
  }

  /** `BoundedBody`: one body with a limit of its own and no shared budget. */
  class BoundedBody {
    var text: Bytes
    var truncated: bool

    constructor ()
      ensures Value() == EMPTY
    {
      text := [];
      truncated := false;
    }

    function Value(): Body
      reads this
    {
      Body(text, truncated)
    }

    method Push(value: Bytes)
      modifies this
      ensures Value() == Pushed(old(Value()), value)
    {
      if truncated || value == [] {
        return;
      }
      var remaining := if |text| < MAX_BODY_BYTES then MAX_BODY_BYTES - |text| else 0;
      if |value| <= remaining {
        text := text + value;
        assert value[..|value|] == value;
        return;
      }
      var boundary := SeekBoundary(value, if remaining < |value| then remaining else |value|);
      text := text + value[..boundary];
      truncated := true;
    }
  }

  function Pushed(body: Body, value: Bytes): Body {
    if body.truncated || value == [] then body else Extend(body, Room(body), value)
  }

  function PushAll(values: seq<Bytes>): Body {
    if values == [] then EMPTY else Pushed(PushAll(values[..|values| - 1]), values[|values| - 1])
  }

  function Concat(pieces: seq<Bytes>): Bytes {
    if pieces == [] then [] else Concat(pieces[..|pieces| - 1]) + pieces[|pieces| - 1]
  }

  // ----- What extending a body keeps -----

  lemma ExtendKeepsText(body: Body, allowed: nat, text: Bytes)
    requires Valid(body.text) && Valid(text)
    ensures Valid(Extend(body, allowed, text).text)
  {
    var n := Floor(text, Min(allowed, |text|));
    FloorWithinThree(text, Min(allowed, |text|));
    ValidJoin(body.text, text[..n]);
  }

  /** Nothing is cut while it fits, and a cut leaves fewer than four of the allowed bytes. */
  lemma ExtendFills(body: Body, allowed: nat, text: Bytes)
    requires Valid(text) && !body.truncated
    ensures |text| <= allowed <==> !Extend(body, allowed, text).truncated
    ensures |text| <= allowed ==> Extend(body, allowed, text).text == body.text + text
    ensures |text| > allowed ==> allowed - 3 <= |Extend(body, allowed, text).text| - |body.text| <= allowed
  {
    FloorWithinThree(text, Min(allowed, |text|));
    assert text[..|text|] == text;
  }

  /** A bounded body of any run of pushes: text of at most the limit, equal to everything pushed
      until it is truncated and afterwards a prefix of it that wastes at most three bytes. It is
      truncated exactly when everything pushed exceeds the limit. */
  lemma {:induction false} BoundedBodyHolds(values: seq<Bytes>)
    requires forall v :: v in values ==> Valid(v)
    ensures var body := PushAll(values);
      && Valid(body.text) && |body.text| <= MAX_BODY_BYTES
      && (body.truncated <==> |Concat(values)| > MAX_BODY_BYTES)
      && (if body.truncated then body.text <= Concat(values) && |body.text| >= MAX_BODY_BYTES - 3
          else body.text == Concat(values))
  {
    if values != [] {
      var front, last := values[..|values| - 1], values[|values| - 1];
      BoundedBodyHolds(front);
      var before := PushAll(front);
      assert last in values;
      assert Concat(front) <= Concat(values);
      if !before.truncated && last != [] {
        ExtendKeepsText(before, Room(before), last);
        ExtendFills(before, Room(before), last);
        assert last[..Floor(last, Min(Room(before), |last|))] <= last;
      }
    }
  }

  // ----- The capped writer behind a captured request body -----

  class CappedJsonWriter {
    var bytes: Bytes
    const limit: nat
    var truncated: bool

    constructor (limit: nat)
      ensures bytes == [] && !truncated && this.limit == limit
    {
      bytes := [];
      truncated := false;
      this.limit := limit;
    }

    /** One fragment of the serializer; it stops at the first that is refused. */
    method Write(value: Bytes) returns (ok: bool)
      requires |bytes| <= limit
      modifies this
      ensures bytes == old(bytes) + value[..Min(|value|, limit - |old(bytes)|)]
      ensures ok == (|old(bytes)| + |value| <= limit)
      ensures truncated == (old(truncated) || !ok)
    {
      var remaining := limit - |bytes|;
      if |value| <= remaining {
        bytes := bytes + value;
        assert value[..|value|] == value;
        return true;
      }
      bytes := bytes + value[..remaining];
      truncated := true;
      return false;
    }

    /** However the serializer splits its output, the writer holds its first `limit` bytes, and
        says so exactly when there was more. */
    method WriteAll(fragments: seq<Bytes>)
      requires bytes == [] && !truncated
      modifies this
      ensures bytes == Capped(Concat(fragments), limit)
      ensures truncated == (|Concat(fragments)| > limit)
    {
      for i := 0 to |fragments|
        invariant bytes == Concat(fragments[..i]) && |bytes| <= limit && !truncated
      {
        assert fragments[..i + 1][..i] == fragments[..i];
        ghost var before := bytes;
        var ok := Write(fragments[i]);
        if !ok {
          assert bytes == Concat(fragments[..i + 1])[..limit];
          ConcatGrows(fragments, i + 1);
          return;
        }
      }
      assert fragments[..|fragments|] == fragments;
      assert bytes[..|bytes|] == bytes;
    }
  }

  function Capped(json: Bytes, limit: nat): Bytes {
    json[..Min(limit, |json|)]
  }

  lemma {:induction false} ConcatGrows(pieces: seq<Bytes>, n: nat)
    requires n <= |pieces|
    ensures Concat(pieces[..n]) <= Concat(pieces)
    decreases |pieces|
  {
    if n == |pieces| {
      assert pieces[..n] == pieces;
    } else {
      var front := pieces[..|pieces| - 1];
      ConcatGrows(front, n);
      assert front[..n] == pieces[..n];
    }
  }

  // ----- The capture and its budget -----

  datatype Reply = Reply(status: U16, body: Body)

  datatype Exchange = Exchange(ordinal: U32, request: Body, response: Option<Reply>)

  /** `HttpTraceCapture`, with the bodies of its snapshot. */
  datatype Trace = Trace(
    agentRequest: Option<Body>, exchanges: seq<Exchange>, agentResponse: Option<Reply>, remaining: nat)

  const NEW_TRACE: Trace := Trace(None, [], None, MAX_HTTP_TRACE_BODY_BYTES)

  /** `append_body` for a body, with what it leaves of the budget. */
  function Appended(body: Body, remaining: nat, value: Bytes): (Body, nat) {
    if body.truncated || value == [] then (body, remaining)
    else
      var after := Extend(body, Min(Room(body), remaining), Lossy(value));
      (after, remaining - (|after.text| - |body.text|))
  }

  datatype Op =
    | AgentRequest(body: Bytes)
    | UpstreamRequest(json: Option<Bytes>)
    | UpstreamHead(status: U16)
    | UpstreamBody(value: Bytes)
    | AgentHead(status: U16)
    | AgentBody(value: Bytes)

  /** The exchange a response belongs to: the latest, once its head has been captured. */
  predicate UpstreamOpen(t: Trace) {
    t.exchanges != [] && t.exchanges[|t.exchanges| - 1].response.Some?
  }

  function LatestReply(t: Trace): Reply
    requires UpstreamOpen(t)
  {
    t.exchanges[|t.exchanges| - 1].response.value
  }

  function WithReply(t: Trace, reply: Reply): Trace
    requires t.exchanges != []
  {
    var last := |t.exchanges| - 1;
    t.(exchanges := t.exchanges[last := t.exchanges[last].(response := Some(reply))])
  }

  function Step(t: Trace, op: Op): Trace {
    match op
    case AgentRequest(bytes) =>
      var (body, remaining) := Appended(EMPTY, t.remaining, bytes);
      t.(agentRequest := Some(body), remaining := remaining)
    case UpstreamRequest(json) =>
      var limit := Min(MAX_BODY_BYTES, t.remaining);
      var written := if json.Some? then json.value else [];
      var (body, remaining) := Appended(EMPTY, t.remaining, Capped(written, limit));
      var request := Body(body.text, body.truncated || |written| > limit);
      t.(exchanges := t.exchanges + [Exchange(Min(|t.exchanges| + 1, U32_MAX), request, None)],
         remaining := remaining)
    case UpstreamHead(status) =>
      if t.exchanges == [] then t else WithReply(t, Reply(status, EMPTY))
    case UpstreamBody(value) =>
      if !UpstreamOpen(t) then t
      else
        var (body, remaining) := Appended(LatestReply(t).body, t.remaining, value);
        WithReply(t, LatestReply(t).(body := body)).(remaining := remaining)
    case AgentHead(status) => t.(agentResponse := Some(Reply(status, EMPTY)))
    case AgentBody(value) =>
      if t.agentResponse.None? then t
      else
        var (body, remaining) := Appended(t.agentResponse.value.body, t.remaining, value);
        t.(agentResponse := Some(t.agentResponse.value.(body := body)), remaining := remaining)
  }

  function Run(t: Trace, ops: seq<Op>): Trace {
    if ops == [] then t else Step(Run(t, ops[..|ops| - 1]), ops[|ops| - 1])
  }

  /** The capture as a mutable object: every method writes through to bodies and the budget. */
  class HttpTraceCapture {
    var agentRequest: Option<Body>
    var exchanges: seq<Exchange>
    var agentResponse: Option<Reply>
    var remaining: nat

    constructor ()
      ensures State() == NEW_TRACE
    {
      agentRequest, exchanges, agentResponse := None, [], None;
      remaining := MAX_HTTP_TRACE_BODY_BYTES;
    }

    function State(): Trace
      reads this
    {
      Trace(agentRequest, exchanges, agentResponse, remaining)
    }

    /** `append_body`: the caller stores the body back where it came from. */
    method AppendBody(body: Body, value: Bytes) returns (after: Body)
      modifies this`remaining
      ensures (after, remaining) == Appended(body, old(remaining), value)
    {
      if body.truncated || value == [] {
        return body;
      }
      var text := Lossy(value);
      var room := if |body.text| < MAX_BODY_BYTES then MAX_BODY_BYTES - |body.text| else 0;
      var allowed := if room < remaining then room else remaining;
      var boundary := SeekBoundary(text, if allowed < |text| then allowed else |text|);
      after := Body(body.text + text[..boundary], boundary < |text|);
      remaining := Max(remaining - boundary, 0);
    }

    method CaptureAgentRequest(bytes: Bytes)
      modifies this
      ensures State() == Step(old(State()), AgentRequest(bytes))
    {
      var body := AppendBody(EMPTY, bytes);
      agentRequest := Some(body);
    }

    method CaptureUpstreamRequest(fragments: Option<seq<Bytes>>)
      modifies this
      ensures State() == Step(old(State()),
        UpstreamRequest(if fragments.Some? then Some(Concat(fragments.value)) else None))
    {
      var limit := if remaining < MAX_BODY_BYTES then remaining else MAX_BODY_BYTES;
      var writer := new CappedJsonWriter(limit);
      if fragments.Some? {
        writer.WriteAll(fragments.value);
      }
      var body := AppendBody(EMPTY, writer.bytes);
      var request := Body(body.text, writer.truncated || body.truncated);
      var ordinal: U32 := if |exchanges| + 1 <= U32_MAX then |exchanges| + 1 else U32_MAX;
      exchanges := exchanges + [Exchange(ordinal, request, None)];
    }

    method CaptureUpstreamResponseHead(status: U16)
      modifies this
      ensures State() == Step(old(State()), UpstreamHead(status))
    {
      if exchanges != [] {
        var last := |exchanges| - 1;
        exchanges := exchanges[last := exchanges[last].(response := Some(Reply(status, EMPTY)))];
      }
    }

    method AppendUpstreamResponseBody(value: Bytes)
      modifies this
      ensures State() == Step(old(State()), UpstreamBody(value))
    {
      if exchanges != [] && exchanges[|exchanges| - 1].response.Some? {
        var last := |exchanges| - 1;
        var reply := exchanges[last].response.value;
        var body := AppendBody(reply.body, value);
        exchanges := exchanges[last := exchanges[last].(response := Some(reply.(body := body)))];
      }
    }

    method CaptureAgentResponseHead(status: U16)
      modifies this
      ensures State() == Step(old(State()), AgentHead(status))
    {
      agentResponse := Some(Reply(status, EMPTY));
    }

    method AppendAgentResponseBody(value: Bytes)
      modifies this
      ensures State() == Step(old(State()), AgentBody(value))
    {
      if agentResponse.Some? {
        var reply := agentResponse.value;
        var body := AppendBody(reply.body, value);
        agentResponse := Some(reply.(body := body));
      }
    }
  }

  // ----- One budget for all bodies -----

  function ReplyBytes(reply: Option<Reply>): nat {
    if reply.Some? then |reply.value.body.text| else 0
  }

  function ExchangeBytes(exchanges: seq<Exchange>): nat {
    if exchanges == [] then 0
    else
      var last := exchanges[|exchanges| - 1];
      ExchangeBytes(exchanges[..|exchanges| - 1]) + |last.request.text| + ReplyBytes(last.response)
  }

  function BodyBytes(t: Trace): nat {
    (if t.agentRequest.Some? then |t.agentRequest.value.text| else 0)
    + ExchangeBytes(t.exchanges) + ReplyBytes(t.agentResponse)
  }

  /** The bytes of a body the step throws away: a second request or head replaces the first. */
  function Replaced(t: Trace, op: Op): nat {
    match op
    case AgentRequest(_) => if t.agentRequest.Some? then |t.agentRequest.value.text| else 0
    case UpstreamHead(_) => if UpstreamOpen(t) then |LatestReply(t).body.text| else 0
    case AgentHead(_) => ReplyBytes(t.agentResponse)
    case _ => 0
  }

  lemma WithReplyBytes(t: Trace, reply: Reply)
    requires t.exchanges != []
    ensures ExchangeBytes(WithReply(t, reply).exchanges) + ReplyBytes(t.exchanges[|t.exchanges| - 1].response)
      == ExchangeBytes(t.exchanges) + |reply.body.text|
  {
    var last := |t.exchanges| - 1;
    var exchanges := WithReply(t, reply).exchanges;
    assert exchanges[..last] == t.exchanges[..last];
  }

  lemma RequestBytes(t: Trace, request: Body)
    ensures forall ordinal ::
      ExchangeBytes(t.exchanges + [Exchange(ordinal, request, None)]) == ExchangeBytes(t.exchanges) + |request.text|
  {
    forall ordinal
      ensures ExchangeBytes(t.exchanges + [Exchange(ordinal, request, None)])
        == ExchangeBytes(t.exchanges) + |request.text|
    {
      assert (t.exchanges + [Exchange(ordinal, request, None)])[..|t.exchanges|] == t.exchanges;
    }
  }

  /** Appending takes from the budget what the body gains. */
  lemma AppendedConserves(body: Body, remaining: nat, value: Bytes)
    ensures |Appended(body, remaining, value).0.text| + Appended(body, remaining, value).1 == |body.text| + remaining
  {
  }

  lemma UpstreamBodyConserves(t: Trace, value: Bytes)
    requires UpstreamOpen(t)
    ensures BodyBytes(Step(t, UpstreamBody(value))) + Step(t, UpstreamBody(value)).remaining
      == BodyBytes(t) + t.remaining
  {
    var reply := LatestReply(t);
    AppendedConserves(reply.body, t.remaining, value);
    WithReplyBytes(t, reply.(body := Appended(reply.body, t.remaining, value).0));
  }

  /** Every step conserves the budget: what bodies hold, what is left of it and what was replaced. */
  lemma StepConserves(t: Trace, op: Op)
    ensures BodyBytes(Step(t, op)) + Step(t, op).remaining + Replaced(t, op) == BodyBytes(t) + t.remaining
  {
    match op {
      case AgentRequest(bytes) => AppendedConserves(EMPTY, t.remaining, bytes);
      case UpstreamRequest(_) =>
        var after := Step(t, op);
        RequestBytes(t, after.exchanges[|t.exchanges|].request);
      case UpstreamHead(status) =>
        if t.exchanges != [] {
          WithReplyBytes(t, Reply(status, EMPTY));
        }
      case UpstreamBody(value) =>
        if UpstreamOpen(t) {
          UpstreamBodyConserves(t, value);
        }
      case AgentHead(_) =>
      case AgentBody(value) =>
        if t.agentResponse.Some? {
          AppendedConserves(t.agentResponse.value.body, t.remaining, value);
        }
    }
  }

  /** A body is text within its limit, and if it is truncated then it, or the budget, is full but
      for less than one character. */
  predicate Sound(body: Body, remaining: nat) {
    && Valid(body.text) && |body.text| <= 262_144
    && (body.truncated ==> |body.text| >= 262_144 - 3 || remaining <= 3)
  }

  predicate SoundReply(reply: Option<Reply>, remaining: nat) {
    reply.Some? ==> Sound(reply.value.body, remaining)
  }

  predicate SoundExchange(e: Exchange, remaining: nat) {
    Sound(e.request, remaining) && SoundReply(e.response, remaining)
  }

  predicate SoundExchanges(exchanges: seq<Exchange>, remaining: nat) {
    && (forall i :: 0 <= i < |exchanges| ==> SoundExchange(exchanges[i], remaining))
    && (forall i :: 0 <= i < |exchanges| ==> exchanges[i].ordinal == Min(i + 1, U32_MAX))
  }

  predicate SoundBodies(t: Trace, remaining: nat) {
    && (t.agentRequest.Some? ==> Sound(t.agentRequest.value, remaining))
    && SoundExchanges(t.exchanges, remaining)
    && SoundReply(t.agentResponse, remaining)
  }

  /** What every reachable capture satisfies. */
  predicate Inv(t: Trace) {
    BodyBytes(t) + t.remaining <= 1_048_576 && SoundBodies(t, t.remaining)
  }

  /** Spending budget elsewhere leaves a body sound. */
  lemma SoundWithLess(t: Trace, remaining: nat, less: nat)
    requires SoundBodies(t, remaining) && less <= remaining
    ensures SoundBodies(t, less)
  {
    forall i | 0 <= i < |t.exchanges| ensures SoundExchange(t.exchanges[i], less) {
      assert SoundExchange(t.exchanges[i], remaining);
    }
  }

  lemma AppendedIsSound(body: Body, remaining: nat, value: Bytes)
    requires Sound(body, remaining)
    ensures Sound(Appended(body, remaining, value).0, Appended(body, remaining, value).1)
    ensures Appended(body, remaining, value).1 <= remaining
  {
    if !body.truncated && value != [] {
      LossyIsText(value);
      ExtendKeepsText(body, Min(Room(body), remaining), Lossy(value));
      ExtendFills(body, Min(Room(body), remaining), Lossy(value));
    }
  }

  lemma {:induction false} LossyIsNoShorter(s: Bytes)
    ensures |Lossy(s)| >= |s|
  {
    if s != [] {
      LossyIsNoShorter(s[if LeadWidth(s) > 0 then LeadWidth(s) else BadWidth(s)..]);
    }
  }

  /** A request body whose serialization was cut fills the body or the budget, like any truncated one. */
  lemma CappedIsSound(remaining: nat, written: Bytes)
    ensures var limit := Min(MAX_BODY_BYTES, remaining);
      var (body, left) := Appended(EMPTY, remaining, Capped(written, limit));
      Sound(Body(body.text, body.truncated || |written| > limit), left) && left <= remaining
  {
    var limit := Min(MAX_BODY_BYTES, remaining);
    var capped := Capped(written, limit);
    AppendedIsSound(EMPTY, remaining, capped);
    if |written| > limit && capped != [] {
      LossyIsText(capped);
      LossyIsNoShorter(capped);
      ExtendFills(EMPTY, limit, Lossy(capped));
    }
  }

  lemma RequestKeepsSound(t: Trace, json: Option<Bytes>)
    requires SoundBodies(t, t.remaining)
    ensures var after := Step(t, UpstreamRequest(json)); SoundBodies(after, after.remaining)
  {
    CappedIsSound(t.remaining, if json.Some? then json.value else []);
    SoundWithLess(t, t.remaining, Step(t, UpstreamRequest(json)).remaining);
  }

  lemma ReplyKeepsSound(t: Trace, reply: Reply, less: nat)
    requires t.exchanges != [] && less <= t.remaining && Sound(reply.body, less)
    requires SoundBodies(t, t.remaining)
    ensures SoundBodies(WithReply(t, reply), less)
  {
    SoundWithLess(t, t.remaining, less);
  }

  lemma UpstreamBodyKeepsSound(t: Trace, value: Bytes)
    requires SoundBodies(t, t.remaining) && UpstreamOpen(t)
    ensures var after := Step(t, UpstreamBody(value)); SoundBodies(after, after.remaining)
  {
    var reply := LatestReply(t);
    assert SoundExchange(t.exchanges[|t.exchanges| - 1], t.remaining);
    var (body, remaining) := Appended(reply.body, t.remaining, value);
    AppendedIsSound(reply.body, t.remaining, value);
    ReplyKeepsSound(t, reply.(body := body), remaining);
  }

  lemma AgentStepsKeepSound(t: Trace, op: Op)
    requires SoundBodies(t, t.remaining) && (op.AgentRequest? || op.AgentHead? || op.AgentBody?)
    ensures SoundBodies(Step(t, op), Step(t, op).remaining)
  {
    match op {
      case AgentRequest(bytes) => AppendedIsSound(EMPTY, t.remaining, bytes);
      case AgentBody(value) =>
        if t.agentResponse.Some? {
          AppendedIsSound(t.agentResponse.value.body, t.remaining, value);
        }
      case _ =>
    }
    SoundWithLess(t, t.remaining, Step(t, op).remaining);
  }

  lemma StepKeepsInvariant(t: Trace, op: Op)
    requires Inv(t)
    ensures Inv(Step(t, op))
  {
    StepConserves(t, op);
    match op {
      case UpstreamRequest(json) => RequestKeepsSound(t, json);
      case UpstreamHead(status) =>
        if t.exchanges != [] {
          ReplyKeepsSound(t, Reply(status, EMPTY), t.remaining);
        }
      case UpstreamBody(value) =>
        if UpstreamOpen(t) {
          UpstreamBodyKeepsSound(t, value);
        }
      case _ => AgentStepsKeepSound(t, op);
    }
  }

  /** All bytes thrown away over a run. */
  function ReplacedBy(ops: seq<Op>): nat {
    if ops == [] then 0
    else ReplacedBy(ops[..|ops| - 1]) + Replaced(Run(NEW_TRACE, ops[..|ops| - 1]), ops[|ops| - 1])
  }

  /** Over any run of captures: bodies, remaining budget and what was thrown away make up one mebibyte, and
      every body is text of at most 256 KiB that is truncated only for want of room. */
  lemma {:induction false} BudgetOverRuns(ops: seq<Op>)
    ensures Inv(Run(NEW_TRACE, ops))
    ensures BodyBytes(Run(NEW_TRACE, ops)) + Run(NEW_TRACE, ops).remaining + ReplacedBy(ops) == 1_048_576
  {
    if ops != [] {
      BudgetOverRuns(ops[..|ops| - 1]);
      StepKeepsInvariant(Run(NEW_TRACE, ops[..|ops| - 1]), ops[|ops| - 1]);
      StepConserves(Run(NEW_TRACE, ops[..|ops| - 1]), ops[|ops| - 1]);
    }
  }

  // ----- What a captured body says about the bytes that went by -----

  function LossyConcat(pieces: seq<Bytes>): Bytes {
    if pieces == [] then [] else LossyConcat(pieces[..|pieces| - 1]) + Lossy(pieces[|pieces| - 1])
  }

  /** The pieces, each decoded by itself: all of them, or a prefix once the body is truncated. */
  predicate Tells(body: Body, pieces: seq<Bytes>) {
    body.text <= LossyConcat(pieces) && (!body.truncated ==> body.text == LossyConcat(pieces))
  }

  lemma AppendedTells(body: Body, remaining: nat, pieces: seq<Bytes>, value: Bytes)
    requires Tells(body, pieces)
    ensures Tells(Appended(body, remaining, value).0, pieces + [value])
    ensures body.truncated ==> Appended(body, remaining, value) == (body, remaining)
  {
    var all := pieces + [value];
    assert all[..|pieces|] == pieces;
    if !body.truncated && value != [] {
      var text := Lossy(value);
      var n := Floor(text, Min(Min(Room(body), remaining), |text|));
      assert text[..n] <= text;
      assert n == |text| ==> text[..n] == text;
    }
  }

  /** The pieces streamed to the agent since the latest response head. */
  function AgentPieces(ops: seq<Op>): seq<Bytes> {
    if ops == [] then []
    else
      var front := AgentPieces(ops[..|ops| - 1]);
      match ops[|ops| - 1]
      case AgentHead(_) => []
      case AgentBody(value) => front + [value]
      case _ => front
  }

  /** The pieces read from the upstream since its latest response head. */
  function UpstreamPieces(ops: seq<Op>): seq<Bytes> {
    if ops == [] then []
    else
      var front := UpstreamPieces(ops[..|ops| - 1]);
      match ops[|ops| - 1]
      case UpstreamHead(_) => []
      case UpstreamBody(value) => front + [value]
      case _ => front
  }

  /** Over any run, both open responses tell what was streamed since their heads. */
  lemma {:induction false} ResponsesTell(ops: seq<Op>)
    ensures var t := Run(NEW_TRACE, ops);
      && (t.agentResponse.Some? ==> Tells(t.agentResponse.value.body, AgentPieces(ops)))
      && (UpstreamOpen(t) ==> Tells(LatestReply(t).body, UpstreamPieces(ops)))
  {
    if ops != [] {
      var front, op := ops[..|ops| - 1], ops[|ops| - 1];
      ResponsesTell(front);
      AgentStepTells(Run(NEW_TRACE, front), front, op, ops);
      UpstreamStepTells(Run(NEW_TRACE, front), front, op, ops);
    }
  }

  lemma AgentStepTells(t: Trace, front: seq<Op>, op: Op, ops: seq<Op>)
    requires ops != [] && ops[..|ops| - 1] == front && ops[|ops| - 1] == op
    requires t.agentResponse.Some? ==> Tells(t.agentResponse.value.body, AgentPieces(front))
    ensures Step(t, op).agentResponse.Some? ==> Tells(Step(t, op).agentResponse.value.body, AgentPieces(ops))
  {
    if op.AgentBody? && t.agentResponse.Some? {
      AppendedTells(t.agentResponse.value.body, t.remaining, AgentPieces(front), op.value);
    }
  }

  lemma UpstreamStepTells(t: Trace, front: seq<Op>, op: Op, ops: seq<Op>)
    requires ops != [] && ops[..|ops| - 1] == front && ops[|ops| - 1] == op
    requires UpstreamOpen(t) ==> Tells(LatestReply(t).body, UpstreamPieces(front))
    ensures UpstreamOpen(Step(t, op)) ==> Tells(LatestReply(Step(t, op)).body, UpstreamPieces(ops))
  {
    if op.UpstreamBody? && UpstreamOpen(t) {
      AppendedTells(LatestReply(t).body, t.remaining, UpstreamPieces(front), op.value);
    }
  }

  /** The JSON of every request sent upstream, in order; empty when there was none. */
  function Requests(ops: seq<Op>): seq<Bytes> {
    if ops == [] then []
    else
      var front := Requests(ops[..|ops| - 1]);
      match ops[|ops| - 1]
      case UpstreamRequest(json) => front + [if json.Some? then json.value else []]
      case _ => front
  }

  /** The agent's last request. */
  function LastRequest(ops: seq<Op>): Option<Bytes> {
    if ops == [] then None
    else if ops[|ops| - 1].AgentRequest? then Some(ops[|ops| - 1].body)
    else LastRequest(ops[..|ops| - 1])
  }

  /** The status of the upstream's answer to the latest request. */
  function UpstreamStatus(ops: seq<Op>): Option<U16> {
    if ops == [] then None
    else
      match ops[|ops| - 1]
      case UpstreamRequest(_) => None
      case UpstreamHead(status) => if Requests(ops) == [] then None else Some(status)
      case _ => UpstreamStatus(ops[..|ops| - 1])
  }

  /** The status last sent to the agent. */
  function AgentStatus(ops: seq<Op>): Option<U16> {
    if ops == [] then None
    else if ops[|ops| - 1].AgentHead? then Some(ops[|ops| - 1].status)
    else AgentStatus(ops[..|ops| - 1])
  }

  function StatusOf(reply: Option<Reply>): Option<U16> {
    if reply.Some? then Some(reply.value.status) else None
  }

  /** The request's body is the JSON, or once truncated a cut of it, perhaps with one U+FFFD for the
      character the cut split. */
  ghost predicate TellsRequest(body: Body, json: Bytes) {
    && (!body.truncated ==> body.text == json)
    && exists n: nat :: n <= |json| && (body.text == json[..n] || body.text == json[..n] + REPLACEMENT)
  }

  /** The agent's last request is shown, as text or the part of it there was room for. */
  predicate ShowsAgent(request: Option<Body>, sent: Option<Bytes>) {
    && (request.Some? <==> sent.Some?)
    && (request.Some? ==> Tells(request.value, [sent.value]))
  }

  /** There is one exchange for each upstream request, with that request's JSON. */
  ghost predicate ShowsRequests(exchanges: seq<Exchange>, sent: seq<Bytes>) {
    && |exchanges| == |sent|
    && forall i :: 0 <= i < |exchanges| && Valid(sent[i]) ==> TellsRequest(exchanges[i].request, sent[i])
  }

  /** The open exchange and the agent's response carry the statuses that were answered. */
  predicate ShowsStatuses(t: Trace, ops: seq<Op>) {
    && (t.exchanges != [] ==> StatusOf(t.exchanges[|t.exchanges| - 1].response) == UpstreamStatus(ops))
    && StatusOf(t.agentResponse) == AgentStatus(ops)
  }

  /** What a whole capture shows of the traffic. */
  ghost predicate Shows(t: Trace, ops: seq<Op>) {
    && ShowsAgent(t.agentRequest, LastRequest(ops))
    && ShowsRequests(t.exchanges, Requests(ops))
    && ShowsStatuses(t, ops)
  }

  lemma CapturedRequestTells(json: Bytes, remaining: nat)
    requires Valid(json)
    ensures var limit := Min(MAX_BODY_BYTES, remaining);
      var body := Appended(EMPTY, remaining, Capped(json, limit)).0;
      TellsRequest(Body(body.text, body.truncated || |json| > limit), json)
  {
    var allowed := Min(MAX_BODY_BYTES, remaining);
    var limit := Min(allowed, |json|);
    CapturedRequestBody(json, remaining);
    assert Floor(json, limit) <= |json|;
    if |json| <= allowed {
      assert json[..|json|] == json;
      FloorWithinThree(json, limit);
      assert Floor(json, |json|) == |json|;
    }
  }

  /** Over any run the capture shows the traffic. */
  lemma {:induction false} CaptureShowsTheTraffic(ops: seq<Op>)
    ensures Shows(Run(NEW_TRACE, ops), ops)
  {
    if ops != [] {
      var front, op := ops[..|ops| - 1], ops[|ops| - 1];
      CaptureShowsTheTraffic(front);
      var t := Run(NEW_TRACE, front);
      StepShowsAgent(t, front, op, ops);
      StepShowsRequests(t, front, op, ops);
      StepShowsStatuses(t, front, op, ops);
    }
  }

  lemma StepShowsAgent(t: Trace, front: seq<Op>, op: Op, ops: seq<Op>)
    requires ops != [] && ops[..|ops| - 1] == front && ops[|ops| - 1] == op
    requires ShowsAgent(t.agentRequest, LastRequest(front))
    ensures ShowsAgent(Step(t, op).agentRequest, LastRequest(ops))
  {
    if op.AgentRequest? {
      AppendedTells(EMPTY, t.remaining, [], op.body);
      assert [] + [op.body] == [op.body];
    }
  }

  lemma StepShowsRequests(t: Trace, front: seq<Op>, op: Op, ops: seq<Op>)
    requires ops != [] && ops[..|ops| - 1] == front && ops[|ops| - 1] == op
    requires ShowsRequests(t.exchanges, Requests(front))
    ensures ShowsRequests(Step(t, op).exchanges, Requests(ops))
  {
    if op.UpstreamRequest? {
      var written := if op.json.Some? then op.json.value else [];
      if Valid(written) {
        CapturedRequestTells(written, t.remaining);
      }
    } else {
      OtherStepsKeepRequests(t, op);
    }
  }

  lemma OtherStepsKeepRequests(t: Trace, op: Op)
    requires !op.UpstreamRequest?
    ensures |Step(t, op).exchanges| == |t.exchanges|
    ensures forall i :: 0 <= i < |t.exchanges| ==> Step(t, op).exchanges[i].request == t.exchanges[i].request
  {
  }

  lemma StepShowsStatuses(t: Trace, front: seq<Op>, op: Op, ops: seq<Op>)
    requires ops != [] && ops[..|ops| - 1] == front && ops[|ops| - 1] == op
    requires ShowsStatuses(t, front) && |t.exchanges| == |Requests(front)|
    ensures ShowsStatuses(Step(t, op), ops)
  {
    assert op.UpstreamHead? ==> Requests(ops) == Requests(front);
  }

  /** Captured requests and finished exchanges are never touched again. */
  lemma {:induction false} EarlierExchangesStay(t: Trace, ops: seq<Op>)
    ensures |t.exchanges| <= |Run(t, ops).exchanges|
    ensures forall i :: 0 <= i < |t.exchanges| ==> Run(t, ops).exchanges[i].request == t.exchanges[i].request
    ensures forall i :: 0 <= i < |t.exchanges| - 1 ==> Run(t, ops).exchanges[i] == t.exchanges[i]
  {
    if ops != [] {
      EarlierExchangesStay(t, ops[..|ops| - 1]);
    }
  }

  lemma {:induction false} LossyConcatIsNoShorter(pieces: seq<Bytes>)
    ensures |LossyConcat(pieces)| >= |Concat(pieces)|
  {
    if pieces != [] {
      LossyConcatIsNoShorter(pieces[..|pieces| - 1]);
      LossyIsNoShorter(pieces[|pieces| - 1]);
    }
  }

  /** Decoding piece by piece reproduces the stream exactly when no piece splits a character or
      carries an ill-formed one. */
  lemma {:induction false} FaithfulIffPiecesAreText(pieces: seq<Bytes>)
    ensures LossyConcat(pieces) == Concat(pieces) <==> forall p :: p in pieces ==> Valid(p)
  {
    if pieces != [] {
      var front, last := pieces[..|pieces| - 1], pieces[|pieces| - 1];
      FaithfulIffPiecesAreText(front);
      LossyIsText(last);
      LossyConcatIsNoShorter(front);
      LossyIsNoShorter(last);
      assert pieces == front + [last];
      assert forall p :: p in pieces <==> p in front || p == last;
      if LossyConcat(pieces) == Concat(pieces) {
        assert LossyConcat(front) == LossyConcat(pieces)[..|LossyConcat(front)|];
        assert Concat(front) == Concat(pieces)[..|Concat(front)|];
        assert Lossy(last) == LossyConcat(pieces)[|LossyConcat(front)|..];
        assert last == Concat(pieces)[|Concat(front)|..];
      }
    }
  }

  /** A stream of text can be garbled: both halves of one split character become U+FFFD. */
  lemma SplitCharacterIsReplaced()
    ensures Valid(Concat([[0xC3], [0xA9]]))
    ensures LossyConcat([[0xC3], [0xA9]]) == REPLACEMENT + REPLACEMENT
  {
    var pieces: seq<Bytes> := [[0xC3], [0xA9]];
    assert pieces[..1] == [[0xC3]] && pieces[..1][..0] == [];
    assert Concat(pieces[..1]) == [0xC3];
    assert Concat(pieces) == [0xC3, 0xA9];
    var e: Bytes := [0xC3, 0xA9];
    assert LeadWidth(e) == 2 && e[2..] == [];
    assert Lossy(pieces[0]) == REPLACEMENT + Lossy([]) by { assert pieces[0][1..] == []; }
    assert Lossy(pieces[1]) == REPLACEMENT + Lossy([]) by { assert pieces[1][1..] == []; }
  }

  // ----- The captured request body, exactly -----

  lemma {:induction false} LossyJoin(a: Bytes, b: Bytes)
    requires Valid(a)
    ensures Lossy(a + b) == a + Lossy(b)
  {
    if a == [] {
      assert a + b == b;
    } else {
      var n := LeadWidth(a);
      var rest := a[n..];
      ValidTail(a, n, rest);
      WidthIsLocal(a, b);
      LossyJoin(rest, b);
      JoinedTail(a, b, n, rest);
      LossyStep(a + b, n, rest + b);
      Reassemble(a, b, n, rest, Lossy(b));
    }
  }

  lemma Reassemble(a: Bytes, b: Bytes, n: nat, rest: Bytes, decoded: Bytes)
    requires n <= |a| && rest == a[n..]
    ensures (a + b)[..n] + (rest + decoded) == a + decoded
  {
  }

  /** A character cut short decodes to a single U+FFFD. */
  lemma CutCharacter(c: Bytes, k: nat)
    requires 0 < k < LeadWidth(c)
    ensures Lossy(c[..k]) == REPLACEMENT
  {
    var cut := c[..k];
    assert LeadWidth(cut) == 0;
    assert BadWidth(cut) == k;
    assert cut[k..] == [];
  }

  lemma CutParts(json: Bytes, n: nat, limit: nat)
    requires n <= limit <= |json|
    ensures json[..limit] == json[..n] + json[n..][..limit - n]
  {
    assert json[n..][..limit - n] == json[n..limit];
  }

  lemma CutDecodes(whole: Bytes, rest: Bytes, k: nat)
    requires Valid(whole) && k <= |rest| && (k == 0 || k < LeadWidth(rest))
    ensures Lossy(whole + rest[..k]) == whole + if k > 0 then REPLACEMENT else []
  {
    LossyJoin(whole, rest[..k]);
    if k > 0 {
      CutCharacter(rest, k);
    }
  }

  /** The first `limit` bytes of a text, decoded: whole characters, then U+FFFD for a split one. */
  lemma LossyOfCut(json: Bytes, limit: nat)
    requires Valid(json) && limit <= |json|
    ensures var n := Floor(json, limit);
      n <= |json| && Lossy(json[..limit]) == json[..n] + if n < limit then REPLACEMENT else []
  {
    FloorWithinThree(json, limit);
    CutInCharacter(json, Floor(json, limit), limit);
  }

  lemma CutInCharacter(json: Bytes, n: nat, limit: nat)
    requires n <= limit <= |json| && Valid(json[..n])
    requires n == limit || limit - n < LeadWidth(json[n..])
    ensures Lossy(json[..limit]) == json[..n] + if n < limit then REPLACEMENT else []
  {
    CutParts(json, n, limit);
    CutDecodes(json[..n], json[n..], limit - n);
  }

  lemma FloorInReplacement(a: Bytes, limit: nat)
    requires |a| < limit < |a| + 3
    ensures Floor(a + REPLACEMENT, limit) == |a|
  {
    var s := a + REPLACEMENT;
    assert s[|a|] == 0xEF && s[|a| + 1] == 0xBF && s[|a| + 2] == 0xBD;
    assert !IsBoundary(s, |a| + 1) && !IsBoundary(s, |a| + 2) && IsBoundary(s, |a|);
    assert Floor(s, |a| + 1) == Floor(s, |a|) == |a|;
  }

  /** Of such a decoded cut, an empty body takes the whole characters, and the U+FFFD if it fits. */
  lemma FirstAppend(whole: Bytes, split: bool, text: Bytes, allowed: nat, limit: nat)
    requires text == whole + if split then REPLACEMENT else []
    requires |whole| <= limit <= allowed
    requires split ==> |whole| < limit <= |whole| + 3
    requires split && limit < |whole| + 3 ==> limit == allowed
    ensures Extend(EMPTY, allowed, text).text == whole + if split && limit == |whole| + 3 then REPLACEMENT else []
  {
    if |text| <= allowed {
      assert text[..|text|] == text;
    } else {
      FloorInReplacement(whole, limit);
      assert text[..|whole|] == whole;
    }
  }

  /** The captured body of an upstream request is the longest cut of the JSON that fits, with one
      exception: when the cut falls after three bytes of a four-byte character, U+FFFD fits too. */
  lemma CapturedRequestBody(json: Bytes, remaining: nat)
    requires Valid(json)
    ensures var limit := Min(Min(MAX_BODY_BYTES, remaining), |json|);
      var n := Floor(json, limit);
      n <= |json|
      && Appended(EMPTY, remaining, Capped(json, Min(MAX_BODY_BYTES, remaining))).0.text
         == json[..n] + if limit - n == 3 then REPLACEMENT else []
  {
    var allowed := Min(MAX_BODY_BYTES, remaining);
    var limit := Min(allowed, |json|);
    var n := Floor(json, limit);
    FloorWithinThree(json, limit);
    LossyOfCut(json, limit);
    if limit > 0 {
      if n < limit {
        FloorIsLargest(json, limit);
      }
      FirstAppend(json[..n], n < limit, Lossy(json[..limit]), allowed, limit);
    }
  }
}
