/**
 * The two request handlers of internal/handler/relay.go as sequential code on the server's objects. The upstream
 * response, the decoded payment header, the settler, the clock and the database's faults are arguments.
 */
module Relay {
  import opened Basics
  import opened Text
  import opened Prices
  import opened PriceTable
  import opened Charges
  import opened PriceManager
  import opened Payments
  import opened X402
  import C = Cache
  import P = Protocol

  // ----- usage extraction -----

  /** The usage object of an upstream response; absent numbers are zero. */
  datatype UpstreamUsage = UpstreamUsage(
    promptTokens: int, completionTokens: int, inputTokens: int, outputTokens: int,
    cacheReadTokens: int, promptDetailsCached: int, inputDetailsCached: int)

  function FirstNonZero(a: int, b: int, c: int): int {
    if a != 0 then a else if b != 0 then b else c
  }

  /** Token counts come from whichever shape reports any; cached tokens from the first place that reports some. */
  function UsageOf(env: UpstreamUsage): Usage {
    var openAI := env.promptTokens != 0 || env.completionTokens != 0;
    Usage(if openAI then env.promptTokens else env.inputTokens,
          if openAI then env.completionTokens else env.outputTokens,
          FirstNonZero(env.promptDetailsCached, env.inputDetailsCached, env.cacheReadTokens))
  }

  /**
   * The field-by-field patching of handleInitial. The OpenAI totals win if either is set; a cached count comes from the
   * first of the three places that has one, whichever shape gave the totals.
   */
  method ExtractUsage(env: UpstreamUsage) returns (u: Usage)
    ensures u == UsageOf(env)
    ensures env.promptTokens != 0 || env.completionTokens != 0 ==>
              u.prompt == env.promptTokens && u.completion == env.completionTokens
    ensures env.promptTokens == 0 && env.completionTokens == 0 ==>
              u.prompt == env.inputTokens && u.completion == env.outputTokens
    ensures env.promptDetailsCached != 0 ==> u.cached == env.promptDetailsCached
    ensures env.promptDetailsCached == 0 && env.inputDetailsCached != 0 ==> u.cached == env.inputDetailsCached
    ensures env.promptDetailsCached == 0 && env.inputDetailsCached == 0 ==> u.cached == env.cacheReadTokens
  {
    u := Usage(env.promptTokens, env.completionTokens, env.promptDetailsCached);
    if u.prompt == 0 && u.completion == 0 {
      u := u.(prompt := env.inputTokens);
      u := u.(completion := env.outputTokens);
    }
    if u.cached == 0 {
      u := u.(cached := env.inputDetailsCached);
    }
    if u.cached == 0 {
      u := u.(cached := env.cacheReadTokens);
    }
  }

  /** The same counts reported in the OpenAI, the Responses or the Anthropic shape give the same usage. */
  lemma ShapesAgree(prompt: int, completion: int, cached: int)
    ensures var u := Usage(prompt, completion, cached);
            && UsageOf(UpstreamUsage(prompt, completion, 0, 0, 0, cached, 0)) == u
            && UsageOf(UpstreamUsage(0, 0, prompt, completion, 0, 0, cached)) == u
            && UsageOf(UpstreamUsage(0, 0, prompt, completion, cached, 0, 0)) == u
  {
  }

  // ----- the relay -----

  datatype UpstreamResponse = UpstreamResponse(
    status: int, contentType: string, body: string, model: string, usage: UpstreamUsage)

  datatype PaymentPayload = PaymentPayload(version: int, scheme: string, network: string, payload: string)

  datatype Response =
    | Upstream(status: int, contentType: string, body: string)
    | InternalError
    | BadGateway
    | BadRequest
    | Gone
    | Challenge(version: int, id: string, costHeader: string, quote: Requirements)
    | Served(status: int, contentType: string, body: string, headers: PaidHeaders)

  /** The settlement record of the X-PAYMENT-RESPONSE header. */
  datatype SettlementRecord = SettlementRecord(success: bool, transaction: string, network: string, payer: string)

  /** The headers of a paid response. */
  datatype PaidHeaders = PaidHeaders(
    settlement: SettlementRecord, cost: string, tx: string, usageInput: string, usageCached: string,
    usageOutput: string,
    priceInput: string, priceCached: string, priceOutput: string)

  /** A settler's BuildRequirements: resource, description, request id, cost and timeout to a quote. */
  type Quoter = (string, string, string, int, int) -> Requirements

  /** A settler as the relay sees it: payload, amount and request id to a receipt, or an error. */
  type Settler = (string, int, string) -> Option<P.Receipt>

  function Description(model: string, u: Usage): string {
    model + ": " + DecimalInt(u.prompt) + " prompt + " + DecimalInt(u.completion) + " completion tokens"
  }

  /** The settlement, token split and prices shown to a client, under the table in force at delivery. */
  function HeadersFor(e: C.Entry, r: P.Receipt, network: string, p: CompiledPrice): PaidHeaders {
    PaidHeaders(
      SettlementRecord(true, r.tx, network, r.payer), SixDecimals(e.cost), r.tx,
      DecimalInt(Max(e.usage.prompt - e.usage.cached, 0)), DecimalInt(e.usage.cached), DecimalInt(e.usage.completion),
      SixDecimals(p.input), SixDecimals(p.cachedInput), SixDecimals(p.output))
  }

  /** The description starts with the model and the prompt count and ends with the completion count. */
  lemma DescriptionReads(model: string, u: Usage)
    ensures var d, end := Description(model, u), DecimalInt(u.completion) + " completion tokens";
            && model + ": " + DecimalInt(u.prompt) + " prompt + " <= d
            && |end| <= |d| && d[|d| - |end|..] == end
            && |d| == |model| + 2 + |DecimalInt(u.prompt)| + 10 + |end|
  {
    var d, start := Description(model, u), model + ": " + DecimalInt(u.prompt) + " prompt + ";
    assert d == start + (DecimalInt(u.completion) + " completion tokens");
  }

  /** What the headers of a paid response say of the settlement and the charge. */
  lemma HeadersNameSettlement(e: C.Entry, r: P.Receipt, network: string, p: CompiledPrice)
    ensures var headers := HeadersFor(e, r, network, p);
            && headers.settlement.success && headers.settlement.transaction == headers.tx == r.tx
            && headers.settlement.network == network && headers.settlement.payer == r.payer
            && (0 <= e.cost < TWO_63 ==> ParseUSDToMicros(headers.cost) == Success(e.cost))
  {
    ParsePrinted(e.cost);
    hide ParseUSDToMicros, SixDecimals;
  }

  class RelayHandler {
    const cache: C.Cache
    const db: PaymentDb
    const prices: Manager
    const network: string
    const payTo: string
    const sigTimeout: int
    const quote: Quoter
    const hash: string -> string

    constructor (cache: C.Cache, db: PaymentDb, prices: Manager, network: string, payTo: string, sigTimeout: int,
                 quote: Quoter, hash: string -> string)
      ensures this.cache == cache && this.db == db && this.prices == prices
      ensures this.network == network && this.payTo == payTo && this.sigTimeout == sigTimeout
      ensures this.quote == quote && this.hash == hash
    {
      this.cache, this.db, this.prices := cache, db, prices;
      this.network, this.payTo, this.sigTimeout := network, payTo, sigTimeout;
      this.quote, this.hash := quote, hash;
    }

    function Config(prior: seq<Payment>): P.Config
      reads cache
    {
      P.Config(hash, cache.ttl, network, payTo, prior)
    }

    /**
     * handleInitial, for an upstream address that is valid or not. Only an answered success with a token usage is
     * priced and staged; what is staged is the response, its usage, and the charge for it at the current table and
     * markup. Staging is the protocol's Stage step, in any state `s` that shows this cache.
     */
    method HandleInitial(path: string, body: string, requestModel: string, validURL: bool,
                         answer: Option<UpstreamResponse>, markup: Markup, nanos: int, now: int, ghost s: P.State)
      returns (response: Response)
      requires prices.Valid() && Agrees(s, cache.store, db.rows, now)
      modifies cache
      ensures !response.Challenge? ==> cache.store == old(cache.store)
      ensures !validURL ==> response == InternalError
      ensures validURL && answer.None? ==> response == BadGateway
      ensures validURL && answer.Some? ==>
                var upstream := answer.value;
                var u := UsageOf(upstream.usage);
                var model := if upstream.model == "" then requestModel else upstream.model;
                var id := C.RequestID(hash, C.StampedBody(body, nanos));
                var cost := Charge(PriceOf(prices.table, model), u, Multiplier(markup));
                var contentType := if upstream.contentType == "" then "application/json" else upstream.contentType;
                if !(200 <= upstream.status < 300) then
                  response == Upstream(upstream.status, contentType, upstream.body)
                else if u.prompt == 0 && u.completion == 0 then
                  response == BadGateway
                else
                  var e := C.Entry(upstream.body, upstream.status, contentType, cost, u, model, now);
                  && response == Challenge(X402_VERSION, id, SixDecimals(cost),
                                           quote(path, Description(model, u), id, cost, sigTimeout))
                  && cache.store == old(cache.store)[id := e]
                  && cache.store == P.ApplyStage(Config([]), s, body, nanos, e).cache
    {
      hide PriceOf, Charge, Multiplier;
      if !validURL {
        return InternalError;
      }
      if answer.None? {
        return BadGateway;
      }
      var upstream := answer.value;
      var contentType := upstream.contentType;
      if contentType == "" {
        contentType := "application/json";
      }
      if upstream.status < 200 || upstream.status >= 300 {
        return Upstream(upstream.status, contentType, upstream.body);
      }
      var u := ExtractUsage(upstream.usage);
      if u.prompt == 0 && u.completion == 0 {
        return BadGateway;
      }
      var model := upstream.model;
      if model == "" {
        model := requestModel;
      }
      var cost := prices.Cost(model, u, markup);
      var id := C.RequestID(hash, C.StampedBody(body, nanos));
      cache.Store(id, C.Entry(upstream.body, upstream.status, contentType, cost, u, model, now), now);
      return Challenge(X402_VERSION, id, SixDecimals(cost), quote(path, Description(model, u), id, cost, sigTimeout));
    }

    /**
     * handlePayment, uninterrupted. The settler is asked for exactly the staged cost under the request id; a
     * failure at any point before it succeeds changes neither cache nor ledger; a failed Record does not stop
     * the delivery. Every call is a run of the protocol: `steps` leads from any state that shows the cache and ledger
     * before to one that shows them after, and the response is the one the protocol delivers.
     */
    method HandlePayment(id: string, payment: Option<PaymentPayload>, settle: Settler, recordFails: bool, now: int,
                         ghost c: P.Config, ghost s: P.State, ghost h: nat)
      returns (response: Response, ghost steps: seq<P.Step>)
      requires prices.Valid()
      requires c == Config(c.prior) && Agrees(s, cache.store, db.rows, now) && h !in s.handlers
      modifies cache, db
      ensures P.ApplyAll(c, s, steps).Some? && Agrees(P.ApplyAll(c, s, steps).value, cache.store, db.rows, now)
      ensures var found := C.Lookup(old(cache.store), cache.ttl, id, now);
              var untouched := cache.store == old(cache.store) && db.rows == old(db.rows);
              if id == "" then response == BadRequest && untouched && steps == []
              else if found.None? then response == Gone && untouched && steps == [P.Begin(h, id)]
              else if payment.None? || payment.value.scheme != SCHEME_EXACT || payment.value.version != X402_VERSION
                      || payment.value.network != network then
                response == BadRequest && untouched && steps == [P.Begin(h, id), P.Refuse(h)]
              else
                var e := found.value;
                match settle(payment.value.payload, e.cost, id)
                case None => response == BadGateway && untouched && steps == [P.Begin(h, id), P.Refuse(h)]
                case Some(receipt) =>
                  var row := Payment(
                    from := receipt.payer, to := payTo, amount := Int64(e.cost), txHash := receipt.tx, model := e.model,
                    promptTokens := e.usage.prompt, completionTokens := e.usage.completion, requestID := id,
                    network := network);
                  var booked := !recordFails && !Conflicts(old(db.rows), row);
                  && steps == PaymentSteps(h, id, receipt, recordFails)
                  && cache.store == old(cache.store) - {id}
                  && db.rows == (if booked then old(db.rows) + [row] else old(db.rows))
                  && (booked ==>
                        && AmountOf(db.rows, receipt.payer) == AmountOf(old(db.rows), receipt.payer) + Int64(e.cost)
                        && CountOf(db.rows, receipt.payer) == CountOf(old(db.rows), receipt.payer) + 1)
                  && response == Served(e.status, e.contentType, e.body,
                                        HeadersFor(e, receipt, network, PriceOf(prices.table, e.model)))
                  && P.EDelivered(h, id, receipt, response.status, response.contentType, response.body)
                     in P.ApplyAll(c, s, steps).value.log
    {
      hide PriceOf, SixDecimals, Conflicts, Admits, C.Lookup, P.ApplyAll;
      steps := [];
      if id == "" {
        P.ApplyNone(c, s);
        return BadRequest, [];
      }
      RefusalsChangeNothing(c, s, h, id);
      var cached := cache.Get(id, now);
      if cached.None? {
        return Gone, [P.Begin(h, id)];
      }
      steps := [P.Begin(h, id), P.Refuse(h)];
      if payment.None? || payment.value.scheme != SCHEME_EXACT {
        return BadRequest, steps;
      }
      if payment.value.version != X402_VERSION {
        return BadRequest, steps;
      }
      if payment.value.network != network {
        return BadRequest, steps;
      }
      var e := cached.value;
      var settlement := settle(payment.value.payload, e.cost, id);
      if settlement.None? {
        return BadGateway, steps;
      }
      var receipt := settlement.value;
      steps := PaymentSteps(h, id, receipt, recordFails);
      PaymentIsFiveSteps(c, s, h, id, receipt, recordFails);
      DeliveredLast(c, s, h, e, id, receipt, recordFails);
      var row := Payment(receipt.payer, payTo, Int64(e.cost), receipt.tx, e.model, e.usage.prompt, e.usage.completion,
                         id, network);
      AppendedSums(db.rows, row, receipt.payer);
      var recorded := db.Record(row, recordFails);
      cache.Delete(id);
      var uncachedInput := e.usage.prompt - e.usage.cached;
      if uncachedInput < 0 {
        uncachedInput := 0;
      }
      var inputPerM, cachedPerM, outputPerM := prices.PricesFor(e.model);
      response := Served(e.status, e.contentType, e.body,
                         PaidHeaders(SettlementRecord(true, receipt.tx, network, receipt.payer),
                                     SixDecimals(e.cost), receipt.tx,
                                     DecimalInt(uncachedInput), DecimalInt(e.usage.cached),
                                     DecimalInt(e.usage.completion),
                                     inputPerM, cachedPerM, outputPerM));
    }
  }

  // ----- the handlers and the protocol -----

  /** A protocol state shows this cache and this ledger at this time. */
  ghost predicate Agrees(s: P.State, cache: C.Entries, ledger: seq<Payment>, now: int) {
    s.cache == cache && s.ledger == ledger && s.now == now
  }

  /** The five protocol steps one handler takes, in a row. */
  function PaymentSteps(h: nat, id: string, receipt: P.Receipt, recordFails: bool): seq<P.Step> {
    [P.Begin(h, id), P.Settle(h, receipt), P.Record(h, recordFails), P.Release(h), P.Deliver(h)]
  }

  /** The state after an uninterrupted paid handler. */
  function AfterPayment(c: P.Config, s: P.State, h: nat, e: C.Entry, id: string, receipt: P.Receipt,
                        recordFails: bool): P.State
  {
    var claim := P.Claim(id, e, s.now);
    var row := P.RowFor(c, claim, receipt);
    var booking := P.BookingOf(c, s, row, recordFails);
    s.(cache := s.cache - {id},
       ledger := if booking.Booked? then s.ledger + [row] else s.ledger,
       handlers := s.handlers[h := P.Done(claim, receipt, booking)],
       log := s.log + P.Script(c, h, P.Done(claim, receipt, booking)))
  }

  /** The five steps of an uninterrupted paid handler, taken together, lead to AfterPayment. */
  lemma PaymentIsFiveSteps(c: P.Config, s: P.State, h: nat, id: string, receipt: P.Receipt, recordFails: bool)
    requires h !in s.handlers && C.Lookup(s.cache, c.ttl, id, s.now).Some?
    ensures P.ApplyAll(c, s, PaymentSteps(h, id, receipt, recordFails))
            == Some(AfterPayment(c, s, h, C.Lookup(s.cache, c.ttl, id, s.now).value, id, receipt, recordFails))
  {
    hide P.BookingOf, P.RowFor, C.Lookup;
    var steps := PaymentSteps(h, id, receipt, recordFails);
    var s1 := P.Apply(c, s, steps[0]);
    var s2 := P.Apply(c, s1, steps[1]);
    var s3 := P.Apply(c, s2, steps[2]);
    var s4 := P.Apply(c, s3, steps[3]);
    LastSteps(c, s, s2, h, C.Lookup(s.cache, c.ttl, id, s.now).value, id, receipt, recordFails);
    P.ApplyStep(c, s, steps);
    P.ApplyStep(c, s1, steps[1..]);
    hide P.Apply, AfterPayment;
    P.ApplyStep(c, s2, steps[1..][1..]);
    P.ApplyStep(c, s3, steps[1..][1..][1..]);
    P.ApplyStep(c, s4, steps[1..][1..][1..][1..]);
  }

  /** Once the handler has paid, recording, deleting and delivering lead to AfterPayment. */
  lemma LastSteps(c: P.Config, s: P.State, paid: P.State, h: nat, e: C.Entry, id: string, receipt: P.Receipt,
                  recordFails: bool)
    requires h !in s.handlers
    requires var claim := P.Claim(id, e, s.now);
             paid == s.(handlers := s.handlers[h := P.Paid(claim, receipt)],
                        log := s.log + [P.EGot(h, claim), P.ESettled(h, id, e.cost, receipt)])
    ensures var recorded := P.Apply(c, paid, P.Record(h, recordFails));
            && P.Enabled(recorded, P.Release(h))
            && P.Enabled(P.Apply(c, recorded, P.Release(h)), P.Deliver(h))
            && P.Apply(c, P.Apply(c, recorded, P.Release(h)), P.Deliver(h))
               == AfterPayment(c, s, h, e, id, receipt, recordFails)
  {
    hide P.BookingOf, P.RowFor;
    var claim := P.Claim(id, e, s.now);
    var row := P.RowFor(c, claim, receipt);
    var booking := P.BookingOf(c, s, row, recordFails);
    BookingUnmoved(c, s, paid, row, recordFails);
    var s5 := P.Apply(c, P.Apply(c, P.Apply(c, paid, P.Record(h, recordFails)), P.Release(h)), P.Deliver(h));
    assert s5.log == s.log + P.Script(c, h, P.Done(claim, receipt, booking));
    assert s5.handlers == s.handlers[h := P.Done(claim, receipt, booking)];
  }

  lemma DeliveredLast(c: P.Config, s: P.State, h: nat, e: C.Entry, id: string, receipt: P.Receipt, recordFails: bool)
    ensures P.EDelivered(h, id, receipt, e.status, e.contentType, e.body)
            in AfterPayment(c, s, h, e, id, receipt, recordFails).log
  {
    hide P.BookingOf, P.RowFor;
    var log := AfterPayment(c, s, h, e, id, receipt, recordFails).log;
    assert log[|log| - 1] == P.EDelivered(h, id, receipt, e.status, e.contentType, e.body);
  }

  lemma BookingUnmoved(c: P.Config, s: P.State, s': P.State, row: Payment, fails: bool)
    requires s'.ledger == s.ledger
    ensures P.BookingOf(c, s', row, fails) == P.BookingOf(c, s, row, fails)
  {
  }

  /** A handler that finds nothing takes one step, and one that is refused later takes two; neither changes anything. */
  lemma RefusalsChangeNothing(c: P.Config, s: P.State, h: nat, id: string)
    requires h !in s.handlers
    ensures var found := C.Lookup(s.cache, c.ttl, id, s.now);
            var steps := if found.Some? then [P.Begin(h, id), P.Refuse(h)] else [P.Begin(h, id)];
            P.ApplyAll(c, s, steps).Some? && Agrees(P.ApplyAll(c, s, steps).value, s.cache, s.ledger, s.now)
  {
    hide C.Lookup;
    var s1 := P.Apply(c, s, P.Begin(h, id));
    var found := C.Lookup(s.cache, c.ttl, id, s.now);
    var steps := if found.Some? then [P.Begin(h, id), P.Refuse(h)] else [P.Begin(h, id)];
    P.ApplyStep(c, s, steps);
    if found.Some? {
      assert steps[1..] == [P.Refuse(h)];
      P.ApplyStep(c, s1, [P.Refuse(h)]);
      assert [P.Refuse(h)][1..] == [];
    } else {
      assert steps[1..] == [];
    }
  }

  /**
   * A request paid for in time is served: after a response is staged, and whatever sweeps and time up to the time to
   * live pass, the five steps of a new handler deliver exactly that response under its id.
   */
  lemma PaidInTimeIsDelivered(c: P.Config, s: P.State, request: string, nanos: int, response: C.Entry,
                              waits: seq<P.Step>, h: nat, receipt: P.Receipt, recordFails: bool)
    requires P.Waiting(waits) && P.Elapsed(waits) <= c.ttl && (request, nanos) !in s.stamps && h !in s.handlers
    ensures var id := C.RequestID(c.hash, C.StampedBody(request, nanos));
            var steps := [P.Stage(request, nanos, response)] + waits + PaymentSteps(h, id, receipt, recordFails);
            var result := P.ApplyAll(c, s, steps);
            && result.Some? && id !in result.value.cache
            && P.EDelivered(h, id, receipt, response.status, response.contentType, response.body) in result.value.log
  {
    var id := C.RequestID(c.hash, C.StampedBody(request, nanos));
    var stage := P.Stage(request, nanos, response);
    P.StagedIsCached(c, s, request, nanos, response, waits);
    var before := P.ApplyAll(c, s, [stage] + waits).value;
    var e := response.(createdAt := s.now);
    hide C.StampedBody, C.RequestID, P.Waiting, P.Elapsed, P.ApplyAll, C.Lookup;
    P.ApplyInTurn(c, s, [stage] + waits, PaymentSteps(h, id, receipt, recordFails));
    PaymentIsFiveSteps(c, before, h, id, receipt, recordFails);
    DeliveredLast(c, before, h, e, id, receipt, recordFails);
  }

  // ----- a client can check the charge -----

  /** The documented formula over the header values: two ceilings, and at least 1 for any tokens. */
  function ClientCharge(input: int, cached: int, output: int, p: CompiledPrice, m: Rat): int {
    var exact := input * p.input + cached * p.cachedInput + output * p.output;
    var t := CeilDiv(CeilDiv(exact, MILLION) * m.num, m.den);
    if t == 0 && (input + cached > 0 || output > 0) then 1 else t
  }

  /** What a client computes from the headers alone and the advertised multiplier. */
  function Recomputed(h: PaidHeaders, m: Rat): Option<int> {
    match (ParseInt10(h.usageInput), ParseInt10(h.usageCached), ParseInt10(h.usageOutput),
           ParseUSDToMicros(h.priceInput), ParseUSDToMicros(h.priceCached), ParseUSDToMicros(h.priceOutput))
    case (Some(input), Some(cached), Some(output), Success(pi), Success(pc), Success(po)) =>
      Some(ClientCharge(input, cached, output, CompiledPrice(pi, po, pc), m))
    case _ => None
  }

  predicate PrintablePrice(p: CompiledPrice) {
    0 <= p.input < TWO_63 && 0 <= p.cachedInput < TWO_63 && 0 <= p.output < TWO_63
  }

  /**
   * The headers can be read back exactly when no price is negative; a price that wrapped prints a text that does not
   * parse. Non-negative int64 prices lose nothing.
   */
  lemma HeadersReadBack(e: C.Entry, r: P.Receipt, network: string, p: CompiledPrice, m: Rat)
    ensures Recomputed(HeadersFor(e, r, network, p), m).Some? <==> NonNegativePrice(p)
    ensures PrintablePrice(p) ==>
              Recomputed(HeadersFor(e, r, network, p), m)
              == Some(ClientCharge(Max(e.usage.prompt - e.usage.cached, 0), e.usage.cached, e.usage.completion, p, m))
  {
    ParsePrintedInt(Max(e.usage.prompt - e.usage.cached, 0));
    ParsePrintedInt(e.usage.cached);
    ParsePrintedInt(e.usage.completion);
    ParsePrinted(p.input);
    ParsePrinted(p.cachedInput);
    ParsePrinted(p.output);
    hide ParseInt10, DecimalInt, ParseUSDToMicros, SixDecimals, ClientCharge, Int64;
  }

  /** No negative completion count, and no more cached tokens than prompt tokens, a negative prompt counting as none. */
  predicate Recomputable(u: Usage) {
    0 <= u.cached <= Max(u.prompt, 0) && u.completion >= 0
  }

  /**
   * If the usage is recomputable and the price table still resolves the model as it did when the response was staged,
   * a client recomputes exactly the staged cost from the usage and price headers.
   */
  lemma HeadersExplainCost(e: C.Entry, r: P.Receipt, network: string, p: CompiledPrice, m: Rat)
    requires Recomputable(e.usage) && PrintablePrice(p) && m.num > 0
    requires e.cost == Charge(p, e.usage, m)
    ensures Recomputed(HeadersFor(e, r, network, p), m) == Some(e.cost)
  {
    ClientAgrees(p, e.usage, m);
    hide Recomputed, HeadersFor, ClientCharge, Charge, NonNegativePrice;
    HeadersReadBack(e, r, network, p, m);
  }

  lemma ClientAgrees(p: CompiledPrice, u: Usage, m: Rat)
    requires Recomputable(u) && NonNegativePrice(p) && m.num > 0
    ensures ClientCharge(Max(u.prompt - u.cached, 0), u.cached, u.completion, p, m) == Charge(p, u, m)
  {
    ExactNonNegative(p, u);
    CeilDivNonNegative(Exact(p, u), MILLION);
    MarkedUpCeiling(CeilDiv(Exact(p, u), MILLION), m);
    assert Max(u.prompt - u.cached, 0) == BilledPrompt(u) - BilledCached(u);
    hide CeilDiv, MarkedUp, NonNegativePrice;
  }

  /** What the client recomputes is what was charged, at these prices and this multiplier. */
  ghost predicate Explained(e: C.Entry, r: P.Receipt, network: string, p: CompiledPrice, m: Rat) {
    Recomputed(HeadersFor(e, r, network, p), m) == Some(Charge(p, e.usage, m))
  }

  /**
   * The headers explain the charge at all prices and multipliers exactly for the recomputable usages: the charge clamps
   * the reported counts, the headers do not.
   */
  lemma HeadersExplainExactly(e: C.Entry, r: P.Receipt, network: string)
    ensures (forall p, m: Rat :: PrintablePrice(p) && m.num > 0 ==> Explained(e, r, network, p, m))
            <==> Recomputable(e.usage)
  {
    hide Explained;
    if Recomputable(e.usage) {
      forall p, m: Rat | PrintablePrice(p) && m.num > 0
        ensures Explained(e, r, network, p, m)
      {
        ExplainedWhenRecomputable(e, r, network, p, m);
      }
    } else {
      var p := TellingPrice(e.usage);
      NotExplained(e, r, network);
      assert PrintablePrice(p) && Fraction(1, 1).num > 0;
    }
  }

  predicate Int64Price(p: CompiledPrice) {
    -TWO_63 <= p.input < TWO_63 && -TWO_63 <= p.cachedInput < TWO_63 && -TWO_63 <= p.output < TWO_63
  }

  /**
   * And for a recomputable usage at any compiled price, the headers explain the charge at all multipliers exactly when
   * the price did not wrap to a negative one.
   */
  lemma HeadersExplainPricesExactly(e: C.Entry, r: P.Receipt, network: string, p: CompiledPrice)
    requires Int64Price(p) && Recomputable(e.usage)
    ensures (forall m: Rat :: m.num > 0 ==> Explained(e, r, network, p, m)) <==> NonNegativePrice(p)
  {
    hide Recomputable;
    if NonNegativePrice(p) {
      forall m: Rat | m.num > 0
        ensures Explained(e, r, network, p, m)
      {
        ExplainedWhenRecomputable(e, r, network, p, m);
      }
    } else {
      NegativeNotExplained(e, r, network, p, Fraction(1, 1));
    }
  }

  /** At a negative price no usage is ever explained. */
  lemma NegativeNotExplained(e: C.Entry, r: P.Receipt, network: string, p: CompiledPrice, m: Rat)
    requires !NonNegativePrice(p)
    ensures !Explained(e, r, network, p, m)
  {
    hide Recomputed, HeadersFor, Charge;
    HeadersReadBack(e, r, network, p, m);
  }

  lemma ExplainedWhenRecomputable(e: C.Entry, r: P.Receipt, network: string, p: CompiledPrice, m: Rat)
    requires Recomputable(e.usage) && PrintablePrice(p) && m.num > 0
    ensures Explained(e, r, network, p, m)
  {
    ClientAgrees(p, e.usage, m);
    hide Recomputed, HeadersFor, ClientCharge, Charge, NonNegativePrice;
    HeadersReadBack(e, r, network, p, m);
  }

  /** A price under which a usage that is not recomputable is charged differently from what a client computes. */
  function TellingPrice(u: Usage): CompiledPrice {
    if u.completion < 0 then CompiledPrice(0, MILLION, 0) else CompiledPrice(0, 0, 2 * MILLION)
  }

  lemma NotExplained(e: C.Entry, r: P.Receipt, network: string)
    requires !Recomputable(e.usage)
    ensures !Explained(e, r, network, TellingPrice(e.usage), Fraction(1, 1))
  {
    var p, one := TellingPrice(e.usage), Fraction(1, 1);
    ChargesDiffer(e.usage);
    hide Recomputed, HeadersFor, ClientCharge, Charge;
    HeadersReadBack(e, r, network, p, one);
  }

  lemma ChargesDiffer(u: Usage)
    requires !Recomputable(u)
    ensures var p, one := TellingPrice(u), Fraction(1, 1);
            ClientCharge(Max(u.prompt - u.cached, 0), u.cached, u.completion, p, one) != Charge(p, u, one)
  {
    var p, one := TellingPrice(u), Fraction(1, 1);
    var charged := if u.completion < 0 then 0 else 2 * BilledCached(u);
    var shown := if u.completion < 0 then u.completion else 2 * u.cached;
    assert Exact(p, u) == charged * MILLION;
    CeilDivUnique(charged * MILLION, MILLION, charged);
    CeilDivUnique(shown * MILLION, MILLION, shown);
    CeilDivUnique(shown, 1, shown);
    MarkedUpByOne(charged, one);
    hide CeilDiv, MarkedUp;
  }
}
