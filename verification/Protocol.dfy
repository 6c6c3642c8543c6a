/**
 * The two-phase payment protocol of internal/handler/relay.go as a transition system. Any number of
 * payment handlers take their steps (Get, Settle, Record, Delete, deliver) interleaved with each other, with
 * initial requests, with the sweeper and with the clock. Every step appends to a log the properties speak of.
 */
module Protocol {
  import opened Basics
  import opened Cache
  import opened Payments

  /** `prior` is what the payments table held when the process started. */
  datatype Config = Config(hash: string -> string, ttl: int, network: string, payTo: string, prior: seq<Payment>)

  /** What a handler read from the cache, and when. */
  datatype Claim = Claim(id: string, entry: Entry, at: int)

  datatype Receipt = Receipt(tx: string, payer: string)

  /** How Record ended; a conflict and a database fault are both only logged. */
  datatype Booking = Booked | Conflict | Fault

  datatype Phase =
    | Refused(got: Option<Claim>)
    | Holding(claim: Claim)
    | Paid(claim: Claim, receipt: Receipt)
    | Logged(claim: Claim, receipt: Receipt, booking: Booking)
    | Released(claim: Claim, receipt: Receipt, booking: Booking)
    | Done(claim: Claim, receipt: Receipt, booking: Booking)

  datatype Event =
    | EStaged(id: string, entry: Entry)
    | EGot(h: nat, claim: Claim)
    | ERefused(h: nat)
    | ESettled(h: nat, id: string, cost: int, receipt: Receipt)
    | ERecord(h: nat, row: Payment, booking: Booking)
    | EDeleted(h: nat, id: string)
    | EDelivered(h: nat, id: string, receipt: Receipt, status: int, contentType: string, body: string)

  datatype State = State(
    now: int, stamps: set<(string, int)>, cache: Entries, ledger: seq<Payment>, handlers: map<nat, Phase>,
    log: seq<Event>)

  datatype Step =
    | Tick(elapsed: nat)
    | Stage(request: string, nanos: int, response: Entry)
    | Sweep
    | Begin(h: nat, id: string)
    | Refuse(h: nat)
    | Settle(h: nat, receipt: Receipt)
    | Record(h: nat, fails: bool)
    | Release(h: nat)
    | Deliver(h: nat)

  function Init(c: Config): State {
    State(0, {}, map[], c.prior, map[], [])
  }

  function IdOf(c: Config, stamp: (string, int)): string {
    RequestID(c.hash, StampedBody(stamp.0, stamp.1))
  }

  /** The row handlePayment records. */
  function RowFor(c: Config, claim: Claim, receipt: Receipt): Payment {
    Payment(receipt.payer, c.payTo, Int64(claim.entry.cost), receipt.tx, claim.entry.model,
            claim.entry.usage.prompt, claim.entry.usage.completion, claim.id, c.network)
  }

  /** The response a paying client gets: what was staged, byte for byte. */
  function DeliveryOf(h: nat, claim: Claim, receipt: Receipt): Event {
    EDelivered(h, claim.id, receipt, claim.entry.status, claim.entry.contentType, claim.entry.body)
  }

  // ----- the steps -----

  /** Equal bodies are read at distinct nanoseconds; a handler id is used once. */
  predicate Enabled(s: State, step: Step) {
    match step
    case Tick(_) => true
    case Stage(request, nanos, _) => (request, nanos) !in s.stamps
    case Sweep => true
    case Begin(h, _) => h !in s.handlers
    case Refuse(h) => h in s.handlers && s.handlers[h].Holding?
    case Settle(h, _) => h in s.handlers && s.handlers[h].Holding?
    case Record(h, _) => h in s.handlers && s.handlers[h].Paid?
    case Release(h) => h in s.handlers && s.handlers[h].Logged?
    case Deliver(h) => h in s.handlers && s.handlers[h].Released?
  }

  function Moved(s: State, h: nat, phase: Phase, e: Event): State {
    s.(handlers := s.handlers[h := phase], log := s.log + [e])
  }

  function ApplyStage(c: Config, s: State, request: string, nanos: int, response: Entry): State {
    var id := IdOf(c, (request, nanos));
    s.(stamps := s.stamps + {(request, nanos)},
       cache := Stored(s.cache, id, response, s.now),
       log := s.log + [EStaged(id, response.(createdAt := s.now))])
  }

  function ApplyBegin(c: Config, s: State, h: nat, id: string): State {
    match Lookup(s.cache, c.ttl, id, s.now)
    case None => Moved(s, h, Refused(None), ERefused(h))
    case Some(e) => Moved(s, h, Holding(Claim(id, e, s.now)), EGot(h, Claim(id, e, s.now)))
  }

  function BookingOf(c: Config, s: State, row: Payment, fails: bool): Booking {
    if fails then Fault else if Conflicts(s.ledger, row) then Conflict else Booked
  }

  function ApplyRecord(c: Config, s: State, h: nat, fails: bool): State
    requires Enabled(s, Record(h, fails))
  {
    var p := s.handlers[h];
    var row := RowFor(c, p.claim, p.receipt);
    var booking := BookingOf(c, s, row, fails);
    Moved(s, h, Logged(p.claim, p.receipt, booking), ERecord(h, row, booking))
      .(ledger := if booking.Booked? then s.ledger + [row] else s.ledger)
  }

  function Apply(c: Config, s: State, step: Step): State
    requires Enabled(s, step)
  {
    match step
    case Tick(elapsed) => s.(now := s.now + elapsed)
    case Stage(request, nanos, response) => ApplyStage(c, s, request, nanos, response)
    case Sweep => s.(cache := Swept(s.cache, c.ttl, s.now))
    case Begin(h, id) => ApplyBegin(c, s, h, id)
    case Refuse(h) => Moved(s, h, Refused(Some(s.handlers[h].claim)), ERefused(h))
    case Settle(h, receipt) =>
      var claim := s.handlers[h].claim;
      Moved(s, h, Paid(claim, receipt), ESettled(h, claim.id, claim.entry.cost, receipt))
    case Record(h, fails) => ApplyRecord(c, s, h, fails)
    case Release(h) =>
      var p := s.handlers[h];
      Moved(s, h, Released(p.claim, p.receipt, p.booking), EDeleted(h, p.claim.id)).(cache := s.cache - {p.claim.id})
    case Deliver(h) =>
      var p := s.handlers[h];
      Moved(s, h, Done(p.claim, p.receipt, p.booking), DeliveryOf(h, p.claim, p.receipt))
  }

  /** The state after a whole run, if each of its steps was enabled. */
  function Exec(c: Config, steps: seq<Step>): Option<State> {
    if steps == [] then Some(Init(c))
    else
      match Exec(c, steps[..|steps| - 1])
      case None => None
      case Some(s) => if Enabled(s, steps[|steps| - 1]) then Some(Apply(c, s, steps[|steps| - 1])) else None
  }

  /** The state after some steps from a given state, if each of them is enabled. */
  function ApplyAll(c: Config, s: State, steps: seq<Step>): Option<State>
    decreases steps
  {
    if steps == [] then Some(s)
    else if !Enabled(s, steps[0]) then None
    else ApplyAll(c, Apply(c, s, steps[0]), steps[1..])
  }

  lemma ApplyNone(c: Config, s: State)
    ensures ApplyAll(c, s, []) == Some(s)
  {
  }

  lemma ApplyStep(c: Config, s: State, steps: seq<Step>)
    requires steps != [] && Enabled(s, steps[0])
    ensures ApplyAll(c, s, steps) == ApplyAll(c, Apply(c, s, steps[0]), steps[1..])
  {
  }

  lemma {:induction false} ApplyInTurn(c: Config, s: State, first: seq<Step>, rest: seq<Step>)
    ensures ApplyAll(c, s, first + rest) ==
            match ApplyAll(c, s, first)
            case None => None
            case Some(s') => ApplyAll(c, s', rest)
    decreases first
  {
    hide Enabled, Apply;
    if first == [] {
      assert first + rest == rest;
    } else {
      assert (first + rest)[1..] == first[1..] + rest;
      if Enabled(s, first[0]) {
        ApplyInTurn(c, Apply(c, s, first[0]), first[1..], rest);
      }
    }
  }

  // ----- the log -----

  function HandlerOf(e: Event): Option<nat> {
    if e.EStaged? then None else Some(e.h)
  }

  /** The events of one handler, in order. */
  function EventsBy(log: seq<Event>, h: nat): seq<Event> {
    if log == [] then []
    else EventsBy(log[..|log| - 1], h) + if HandlerOf(log[|log| - 1]) == Some(h) then [log[|log| - 1]] else []
  }

  /** The rows written so far, in order. */
  function RowsOf(log: seq<Event>): seq<Payment> {
    if log == [] then []
    else
      var last := log[|log| - 1];
      RowsOf(log[..|log| - 1]) + if last.ERecord? && last.booking.Booked? then [last.row] else []
  }

  /** What a handler in a given phase has done. */
  function Script(c: Config, h: nat, p: Phase): seq<Event> {
    match p
    case Refused(None) => [ERefused(h)]
    case Refused(Some(claim)) => [EGot(h, claim), ERefused(h)]
    case Holding(claim) => [EGot(h, claim)]
    case Paid(claim, r) => [EGot(h, claim), ESettled(h, claim.id, claim.entry.cost, r)]
    case Logged(claim, r, b) =>
      [EGot(h, claim), ESettled(h, claim.id, claim.entry.cost, r), ERecord(h, RowFor(c, claim, r), b)]
    case Released(claim, r, b) =>
      [EGot(h, claim), ESettled(h, claim.id, claim.entry.cost, r), ERecord(h, RowFor(c, claim, r), b),
       EDeleted(h, claim.id)]
    case Done(claim, r, b) =>
      [EGot(h, claim), ESettled(h, claim.id, claim.entry.cost, r), ERecord(h, RowFor(c, claim, r), b),
       EDeleted(h, claim.id), DeliveryOf(h, claim, r)]
  }

  predicate DeletedIn(log: seq<Event>, id: string) {
    exists i :: 0 <= i < |log| && log[i].EDeleted? && log[i].id == id
  }

  predicate StagedIn(log: seq<Event>, id: string) {
    exists i :: 0 <= i < |log| && log[i].EStaged? && log[i].id == id
  }

  /** What the log before an event must show for the event to happen, whatever the hash. */
  ghost predicate Justified(c: Config, past: seq<Event>, e: Event) {
    match e
    case EStaged(_, _) => true
    case EGot(_, claim) => EStaged(claim.id, claim.entry) in past && !Expired(claim.entry, c.ttl, claim.at)
    case ERecord(_, row, booking) => booking.Fault? || (booking.Conflict? <==> Conflicts(c.prior + RowsOf(past), row))
    case ERefused(_) => true
    case ESettled(_, _, _, _) => true
    case EDeleted(_, _) => true
    case EDelivered(_, _, _, _, _, _) => true
  }

  ghost predicate LogJustified(c: Config, log: seq<Event>) {
    forall j :: 0 <= j < |log| ==> Justified(c, log[..j], log[j])
  }

  /** What it shows besides when ids do not clash: an id is staged once, and not read after a Delete. */
  ghost predicate Fresh(past: seq<Event>, e: Event) {
    (e.EStaged? ==> !StagedIn(past, e.id)) && (e.EGot? ==> !DeletedIn(past, e.claim.id))
  }

  ghost predicate LogFresh(log: seq<Event>) {
    forall j :: 0 <= j < |log| ==> Fresh(log[..j], log[j])
  }

  // ----- the invariant -----

  ghost predicate CacheStaged(s: State) {
    forall id :: id in s.cache ==> EStaged(id, s.cache[id]) in s.log
  }

  ghost predicate HandlersScripted(c: Config, s: State) {
    forall h: nat :: EventsBy(s.log, h) == if h in s.handlers then Script(c, h, s.handlers[h]) else []
  }

  /** What every run keeps, whatever the hash. */
  ghost predicate Inv(c: Config, s: State) {
    && LogJustified(c, s.log)
    && CacheStaged(s)
    && HandlersScripted(c, s)
    && s.ledger == c.prior + RowsOf(s.log)
    && (UniqueRows(c.prior) ==> UniqueRows(s.ledger))
  }

  ghost predicate StagesStamped(c: Config, s: State) {
    forall i :: 0 <= i < |s.log| && s.log[i].EStaged? ==>
      exists stamp :: stamp in s.stamps && s.log[i].id == IdOf(c, stamp)
  }

  ghost predicate CacheFresh(s: State) {
    forall id :: id in s.cache ==> !DeletedIn(s.log, id)
  }

  /** What every run keeps besides in which no two ids clash. */
  ghost predicate IdsFresh(c: Config, s: State) {
    LogFresh(s.log) && StagesStamped(c, s) && CacheFresh(s)
  }

  /** No two bodies and times used so far share an id. */
  ghost predicate NoClash(c: Config, stamps: set<(string, int)>) {
    forall a, b :: a in stamps && b in stamps && IdOf(c, a) == IdOf(c, b) ==> a == b
  }

  /** Ids clash exactly when the hash collides on two of the texts that were hashed. */
  lemma NoClashExactly(c: Config, stamps: set<(string, int)>)
    ensures NoClash(c, stamps) <==>
            forall a, b :: a in stamps && b in stamps ==>
              (c.hash(StampedBody(a.0, a.1)) == c.hash(StampedBody(b.0, b.1)) ==>
                 StampedBody(a.0, a.1) == StampedBody(b.0, b.1))
  {
    forall a, b | a in stamps && b in stamps
      ensures IdOf(c, a) == IdOf(c, b) <==> c.hash(StampedBody(a.0, a.1)) == c.hash(StampedBody(b.0, b.1))
      ensures StampedBody(a.0, a.1) == StampedBody(b.0, b.1) <==> a == b
    {
      StampInjective(a.0, a.1, b.0, b.1);
      assert IdOf(c, a)[4..] == c.hash(StampedBody(a.0, a.1)) && IdOf(c, b)[4..] == c.hash(StampedBody(b.0, b.1));
    }
    hide StampedBody, IdOf;
  }

  // Appending one event to the log.

  lemma GrowJustified(c: Config, log: seq<Event>, e: Event)
    requires LogJustified(c, log) && Justified(c, log, e)
    ensures LogJustified(c, log + [e])
  {
    hide Justified;
    var log' := log + [e];
    forall j | 0 <= j < |log'|
      ensures Justified(c, log'[..j], log'[j])
    {
      assert log'[..j] == if j < |log| then log[..j] else log;
    }
  }

  lemma GrowRows(log: seq<Event>, e: Event)
    ensures RowsOf(log + [e]) == RowsOf(log) + if e.ERecord? && e.booking.Booked? then [e.row] else []
  {
    assert (log + [e])[..|log|] == log;
  }

  lemma GrowEvents(log: seq<Event>, e: Event, h: nat)
    ensures EventsBy(log + [e], h) == EventsBy(log, h) + if HandlerOf(e) == Some(h) then [e] else []
  {
    assert (log + [e])[..|log|] == log;
  }

  lemma GrowDeleted(log: seq<Event>, e: Event, id: string)
    ensures DeletedIn(log + [e], id) <==> DeletedIn(log, id) || (e.EDeleted? && e.id == id)
  {
    var log' := log + [e];
    assert forall i :: 0 <= i < |log| ==> log'[i] == log[i];
    assert log'[|log|] == e;
    if DeletedIn(log, id) {
      var i :| 0 <= i < |log| && log[i].EDeleted? && log[i].id == id;
      assert log'[i] == log[i];
    }
  }

  /** A handler's move keeps every handler on its script. */
  lemma MoveKeepsScripts(c: Config, s: State, h: nat, phase: Phase, e: Event)
    requires HandlersScripted(c, s) && HandlerOf(e) == Some(h)
    requires Script(c, h, phase) == (if h in s.handlers then Script(c, h, s.handlers[h]) else []) + [e]
    ensures HandlersScripted(c, Moved(s, h, phase, e))
  {
    hide Script;
    var s' := Moved(s, h, phase, e);
    forall other: nat
      ensures EventsBy(s'.log, other) == if other in s'.handlers then Script(c, other, s'.handlers[other]) else []
    {
      GrowEvents(s.log, e, other);
    }
  }

  lemma GrowKeepsCache(s: State, s': State, e: Event)
    requires CacheStaged(s) && s'.log == s.log + [e]
    requires forall id :: id in s'.cache ==>
               (id in s.cache && s'.cache[id] == s.cache[id]) || e == EStaged(id, s'.cache[id])
    ensures CacheStaged(s')
  {
    forall id | id in s'.cache
      ensures EStaged(id, s'.cache[id]) in s'.log
    {
      assert s'.log[|s.log|] == e;
      if id in s.cache && s'.cache[id] == s.cache[id] {
        assert EStaged(id, s.cache[id]) in s.log;
      }
    }
  }

  /** Everything about a grown log except what the step itself must show. */
  lemma GrowKeepsInv(c: Config, s: State, s': State, e: Event)
    requires Inv(c, s) && s'.log == s.log + [e]
    requires Justified(c, s.log, e)
    requires CacheStaged(s') && HandlersScripted(c, s')
    requires s'.ledger == s.ledger + if e.ERecord? && e.booking.Booked? then [e.row] else []
    requires e.ERecord? && e.booking.Booked? ==> !Conflicts(s.ledger, e.row)
    ensures Inv(c, s')
  {
    hide Justified, LogJustified, CacheStaged, HandlersScripted;
    GrowJustified(c, s.log, e);
    GrowRows(s.log, e);
    if e.ERecord? && e.booking.Booked? && UniqueRows(c.prior) {
      AppendKeepsUnique(s.ledger, e.row);
    }
  }

  lemma {:induction false} EventsByMember(log: seq<Event>, h: nat, e: Event)
    ensures e in EventsBy(log, h) <==> e in log && HandlerOf(e) == Some(h)
  {
    if log == [] {
    } else {
      var n := |log| - 1;
      EventsByMember(log[..n], h, e);
      assert log == log[..n] + [log[n]];
    }
  }

  /** An event of no handler keeps every handler on its script. */
  lemma GrowKeepsScripts(c: Config, s: State, s': State, e: Event)
    requires HandlersScripted(c, s) && HandlerOf(e) == None
    requires s'.log == s.log + [e] && s'.handlers == s.handlers
    ensures HandlersScripted(c, s')
  {
    hide Script, EventsBy;
    forall h: nat {
      GrowEvents(s.log, e, h);
    }
  }

  lemma StageKeepsInv(c: Config, s: State, request: string, nanos: int, response: Entry)
    requires Inv(c, s)
    ensures Inv(c, ApplyStage(c, s, request, nanos, response))
  {
    var e := EStaged(IdOf(c, (request, nanos)), response.(createdAt := s.now));
    var s' := ApplyStage(c, s, request, nanos, response);
    hide LogJustified, IdOf, Script;
    GrowKeepsCache(s, s', e);
    GrowKeepsScripts(c, s, s', e);
    hide CacheStaged, HandlersScripted, EventsBy, RowsOf, UniqueRows;
    GrowKeepsInv(c, s, s', e);
  }

  lemma BeginKeepsInv(c: Config, s: State, h: nat, id: string)
    requires Inv(c, s) && h !in s.handlers
    ensures Inv(c, ApplyBegin(c, s, h, id))
  {
    var found := Lookup(s.cache, c.ttl, id, s.now);
    var e := if found.Some? then EGot(h, Claim(id, found.value, s.now)) else ERefused(h);
    var phase := if found.Some? then Holding(Claim(id, found.value, s.now)) else Refused(None);
    assert Justified(c, s.log, e);
    assert Script(c, h, phase) == [] + [e];
    MoveKeepsInv(c, s, Moved(s, h, phase, e), h, phase, e);
  }

  lemma RecordKeepsInv(c: Config, s: State, h: nat, fails: bool)
    requires Inv(c, s) && Enabled(s, Record(h, fails))
    ensures Inv(c, ApplyRecord(c, s, h, fails))
  {
    var p := s.handlers[h];
    var row := RowFor(c, p.claim, p.receipt);
    var booking := BookingOf(c, s, row, fails);
    var e := ERecord(h, row, booking);
    assert Justified(c, s.log, e);
    MoveKeepsInv(c, s, ApplyRecord(c, s, h, fails), h, Logged(p.claim, p.receipt, booking), e);
  }

  /** A handler's move keeps the invariant if the event is justified and follows its script. */
  lemma MoveKeepsInv(c: Config, s: State, s': State, h: nat, phase: Phase, e: Event)
    requires Inv(c, s) && HandlerOf(e) == Some(h) && Justified(c, s.log, e)
    requires Script(c, h, phase) == (if h in s.handlers then Script(c, h, s.handlers[h]) else []) + [e]
    requires s'.log == s.log + [e] && s'.handlers == s.handlers[h := phase]
    requires s'.cache == if e.EDeleted? then s.cache - {e.id} else s.cache
    requires s'.ledger == s.ledger + if e.ERecord? && e.booking.Booked? then [e.row] else []
    requires e.ERecord? && e.booking.Booked? ==> !Conflicts(s.ledger, e.row)
    ensures Inv(c, s')
  {
    hide Justified, LogJustified, Script, Conflicts, UniqueRows;
    MoveKeepsScripts(c, s, h, phase, e);
    assert HandlersScripted(c, s') by {
      assert Moved(s, h, phase, e).log == s'.log && Moved(s, h, phase, e).handlers == s'.handlers;
    }
    hide HandlersScripted;
    GrowKeepsCache(s, s', e);
    hide CacheStaged;
    GrowKeepsInv(c, s, s', e);
  }

  lemma SettleKeepsInv(c: Config, s: State, h: nat, receipt: Receipt)
    requires Inv(c, s) && Enabled(s, Settle(h, receipt))
    ensures Inv(c, Apply(c, s, Settle(h, receipt)))
  {
    var claim := s.handlers[h].claim;
    var e := ESettled(h, claim.id, claim.entry.cost, receipt);
    assert Justified(c, s.log, e);
    hide Inv;
    MoveKeepsInv(c, s, Apply(c, s, Settle(h, receipt)), h, Paid(claim, receipt), e);
  }

  lemma RefuseKeepsInv(c: Config, s: State, h: nat)
    requires Inv(c, s) && Enabled(s, Refuse(h))
    ensures Inv(c, Apply(c, s, Refuse(h)))
  {
    assert Justified(c, s.log, ERefused(h));
    hide Inv;
    MoveKeepsInv(c, s, Apply(c, s, Refuse(h)), h, Refused(Some(s.handlers[h].claim)), ERefused(h));
  }

  lemma ReleaseKeepsInv(c: Config, s: State, h: nat)
    requires Inv(c, s) && Enabled(s, Release(h))
    ensures Inv(c, Apply(c, s, Release(h)))
  {
    var p := s.handlers[h];
    var e := EDeleted(h, p.claim.id);
    assert Justified(c, s.log, e);
    hide Inv;
    MoveKeepsInv(c, s, Apply(c, s, Release(h)), h, Released(p.claim, p.receipt, p.booking), e);
  }

  lemma DeliverKeepsInv(c: Config, s: State, h: nat)
    requires Inv(c, s) && Enabled(s, Deliver(h))
    ensures Inv(c, Apply(c, s, Deliver(h)))
  {
    var p := s.handlers[h];
    var e := DeliveryOf(h, p.claim, p.receipt);
    assert Justified(c, s.log, e);
    hide Inv;
    MoveKeepsInv(c, s, Apply(c, s, Deliver(h)), h, Done(p.claim, p.receipt, p.booking), e);
  }

  /** The clock and the sweeper touch neither the log nor what the cache holds under a kept id. */
  lemma BackgroundKeepsInv(c: Config, s: State, step: Step)
    requires Inv(c, s) && (step.Tick? || step.Sweep?)
    ensures Inv(c, Apply(c, s, step))
  {
    hide LogJustified;
  }

  /** Every step keeps the invariant, whatever the hash. */
  lemma StepKeepsInv(c: Config, s: State, step: Step)
    requires Inv(c, s) && Enabled(s, step)
    ensures Inv(c, Apply(c, s, step))
  {
    hide Inv;
    match step {
      case Tick(_) =>
        BackgroundKeepsInv(c, s, step);
      case Sweep =>
        BackgroundKeepsInv(c, s, step);
      case Stage(request, nanos, response) =>
        StageKeepsInv(c, s, request, nanos, response);
      case Begin(h, id) =>
        BeginKeepsInv(c, s, h, id);
      case Refuse(h) =>
        RefuseKeepsInv(c, s, h);
      case Settle(h, receipt) =>
        SettleKeepsInv(c, s, h, receipt);
      case Record(h, fails) =>
        RecordKeepsInv(c, s, h, fails);
      case Release(h) =>
        ReleaseKeepsInv(c, s, h);
      case Deliver(h) =>
        DeliverKeepsInv(c, s, h);
    }
  }

  lemma {:induction false} RunKeepsInv(c: Config, steps: seq<Step>)
    ensures Exec(c, steps).Some? ==> Inv(c, Exec(c, steps).value)
  {
    if steps == [] {
      assert c.prior + [] == c.prior;
    } else {
      var n := |steps| - 1;
      RunKeepsInv(c, steps[..n]);
      if Exec(c, steps[..n]).Some? && Enabled(Exec(c, steps[..n]).value, steps[n]) {
        StepKeepsInv(c, Exec(c, steps[..n]).value, steps[n]);
      }
    }
  }

  // ----- runs without clashing ids -----

  /** The id of a new stamp that clashes with no earlier one has never been staged. */
  lemma FreshId(c: Config, s: State, stamp: (string, int))
    requires StagesStamped(c, s) && stamp !in s.stamps && NoClash(c, s.stamps + {stamp})
    ensures !StagedIn(s.log, IdOf(c, stamp))
  {
    hide IdOf, NoClash;
    if StagedIn(s.log, IdOf(c, stamp)) {
      var i :| 0 <= i < |s.log| && s.log[i].EStaged? && s.log[i].id == IdOf(c, stamp);
      var other :| other in s.stamps && s.log[i].id == IdOf(c, other);
      SameStamp(c, s.stamps + {stamp}, stamp, other);
    }
  }

  lemma SameStamp(c: Config, stamps: set<(string, int)>, a: (string, int), b: (string, int))
    requires NoClash(c, stamps) && a in stamps && b in stamps && IdOf(c, a) == IdOf(c, b)
    ensures a == b
  {
    hide IdOf;
  }

  /** An id that was never staged was never deleted either. */
  lemma DeletedWasStaged(c: Config, s: State, id: string)
    requires LogJustified(c, s.log) && HandlersScripted(c, s) && DeletedIn(s.log, id)
    ensures StagedIn(s.log, id)
  {
    hide LogJustified, Script, EventsBy, StagedIn;
    var i :| 0 <= i < |s.log| && s.log[i].EDeleted? && s.log[i].id == id;
    var h := s.log[i].h;
    EventsByMember(s.log, h, s.log[i]);
    assert h in s.handlers;
    var claim := DeletionClaim(c, h, s.handlers[h], s.log[i]);
    EventsByMember(s.log, h, EGot(h, claim));
    GotWasStaged(c, s.log, h, claim);
  }

  lemma DeletionClaim(c: Config, h: nat, p: Phase, e: Event) returns (claim: Claim)
    requires e in Script(c, h, p) && e.EDeleted?
    ensures EGot(h, claim) in Script(c, h, p) && claim.id == e.id
  {
    var script := Script(c, h, p);
    var k :| 0 <= k < |script| && script[k] == e;
    claim := p.claim;
    assert script[0] == EGot(h, claim);
  }

  lemma GotWasStaged(c: Config, log: seq<Event>, h: nat, claim: Claim)
    requires LogJustified(c, log) && EGot(h, claim) in log
    ensures StagedIn(log, claim.id)
  {
    var j :| 0 <= j < |log| && log[j] == EGot(h, claim);
    assert Justified(c, log[..j], log[j]);
    var m :| 0 <= m < j && log[..j][m] == EStaged(claim.id, claim.entry);
    assert log[m].EStaged? && log[m].id == claim.id;
  }

  lemma GrowLogFresh(log: seq<Event>, e: Event)
    requires LogFresh(log) && Fresh(log, e)
    ensures LogFresh(log + [e])
  {
    hide Fresh;
    var log' := log + [e];
    forall j | 0 <= j < |log'|
      ensures Fresh(log'[..j], log'[j])
    {
      assert log'[..j] == if j < |log| then log[..j] else log;
    }
  }

  lemma GrowKeepsStamped(c: Config, s: State, s': State, e: Event)
    requires StagesStamped(c, s) && s'.log == s.log + [e] && s.stamps <= s'.stamps
    requires e.EStaged? ==> exists stamp :: stamp in s'.stamps && e.id == IdOf(c, stamp)
    ensures StagesStamped(c, s')
  {
    hide IdOf;
    forall i | 0 <= i < |s'.log| && s'.log[i].EStaged?
      ensures exists stamp :: stamp in s'.stamps && s'.log[i].id == IdOf(c, stamp)
    {
      if i < |s.log| {
        assert s'.log[i] == s.log[i];
        var stamp :| stamp in s.stamps && s.log[i].id == IdOf(c, stamp);
        assert stamp in s'.stamps;
      }
    }
  }

  lemma GrowKeepsFresh(c: Config, s: State, s': State, e: Event)
    requires IdsFresh(c, s) && s'.log == s.log + [e] && s.stamps <= s'.stamps && Fresh(s.log, e)
    requires e.EStaged? ==> exists stamp :: stamp in s'.stamps && e.id == IdOf(c, stamp)
    requires forall id :: id in s'.cache ==> id in s.cache || (e.EStaged? && e.id == id && !DeletedIn(s.log, id))
    requires e.EDeleted? ==> e.id !in s'.cache
    ensures IdsFresh(c, s')
  {
    hide Fresh, IdOf, DeletedIn;
    GrowKeepsStamped(c, s, s', e);
    hide StagesStamped;
    GrowLogFresh(s.log, e);
    hide LogFresh;
    forall id | id in s'.cache
      ensures !DeletedIn(s'.log, id)
    {
      GrowDeleted(s.log, e, id);
    }
  }

  lemma StageKeepsFresh(c: Config, s: State, request: string, nanos: int, response: Entry)
    requires Inv(c, s) && IdsFresh(c, s) && (request, nanos) !in s.stamps
    requires NoClash(c, s.stamps + {(request, nanos)})
    ensures IdsFresh(c, ApplyStage(c, s, request, nanos, response))
  {
    var id := IdOf(c, (request, nanos));
    FreshId(c, s, (request, nanos));
    if DeletedIn(s.log, id) {
      DeletedWasStaged(c, s, id);
    }
    var s' := ApplyStage(c, s, request, nanos, response);
    var e := EStaged(id, response.(createdAt := s.now));
    hide Inv, IdsFresh, IdOf, DeletedIn, StagedIn, NoClash;
    assert (request, nanos) in s'.stamps && e.id == IdOf(c, (request, nanos));
    GrowKeepsFresh(c, s, s', e);
  }

  lemma BeginKeepsFresh(c: Config, s: State, h: nat, id: string)
    requires IdsFresh(c, s)
    ensures IdsFresh(c, ApplyBegin(c, s, h, id))
  {
    var s' := ApplyBegin(c, s, h, id);
    var e := s'.log[|s.log|];
    assert s'.log == s.log + [e];
    assert e.EGot? ==> e.claim.id in s.cache;
    hide StagesStamped, LogFresh, DeletedIn;
    assert Fresh(s.log, e);
    GrowKeepsFresh(c, s, s', e);
  }

  /** Every step keeps ids fresh while none clash. */
  lemma StepKeepsFresh(c: Config, s: State, step: Step)
    requires Inv(c, s) && IdsFresh(c, s) && Enabled(s, step) && NoClash(c, Apply(c, s, step).stamps)
    ensures IdsFresh(c, Apply(c, s, step))
  {
    if step.Stage? {
      hide Inv, IdsFresh, NoClash;
      StageKeepsFresh(c, s, step.request, step.nanos, step.response);
    } else if step.Begin? {
      hide Inv, IdsFresh, NoClash;
      BeginKeepsFresh(c, s, step.h, step.id);
    } else if step.Tick? || step.Sweep? {
      hide LogFresh, DeletedIn, Inv, NoClash;
    } else {
      MoveKeepsFresh(c, s, step);
    }
  }

  lemma MoveKeepsFresh(c: Config, s: State, step: Step)
    requires IdsFresh(c, s) && Enabled(s, step)
    requires !step.Stage? && !step.Begin? && !step.Tick? && !step.Sweep?
    ensures IdsFresh(c, Apply(c, s, step))
  {
    hide IdsFresh, RowFor, BookingOf;
    var s' := Apply(c, s, step);
    var e := s'.log[|s.log|];
    assert s'.log == s.log + [e];
    assert Fresh(s.log, e);
    GrowKeepsFresh(c, s, s', e);
  }

  /** In a run in which no two ids clash they stay fresh. */
  lemma {:induction false} RunKeepsFresh(c: Config, steps: seq<Step>)
    requires Exec(c, steps).Some? && NoClash(c, Exec(c, steps).value.stamps)
    ensures IdsFresh(c, Exec(c, steps).value)
  {
    if steps == [] {
      assert Init(c).log == [];
    } else {
      var n := |steps| - 1;
      var s := Exec(c, steps[..n]).value;
      StampsGrow(c, s, steps[n]);
      hide IdOf;
      assert NoClash(c, s.stamps);
      RunKeepsFresh(c, steps[..n]);
      RunKeepsInv(c, steps[..n]);
      StepKeepsFresh(c, s, steps[n]);
    }
  }

  lemma StampsGrow(c: Config, s: State, step: Step)
    requires Enabled(s, step)
    ensures s.stamps <= Apply(c, s, step).stamps
  {
    hide Lookup, RowFor, BookingOf;
  }

  // ----- what is staged can be read -----

  /** Only the clock and the sweeper move. */
  predicate Waiting(steps: seq<Step>) {
    forall i :: 0 <= i < |steps| ==> steps[i].Tick? || steps[i].Sweep?
  }

  function Elapsed(steps: seq<Step>): nat {
    if steps == [] then 0 else (if steps[0].Tick? then steps[0].elapsed else 0) + Elapsed(steps[1..])
  }

  /** While only time passes and sweepers run, an entry stays until it is older than the time to live. */
  lemma {:induction false} WaitingKeeps(c: Config, s: State, waits: seq<Step>, id: string)
    requires Waiting(waits)
    ensures ApplyAll(c, s, waits).Some?
    ensures var s' := ApplyAll(c, s, waits).value;
            && s'.now == s.now + Elapsed(waits)
            && s'.handlers == s.handlers
            && (id in s'.cache ==> id in s.cache && s'.cache[id] == s.cache[id])
            && (id in s.cache && s'.now - s.cache[id].createdAt <= c.ttl ==> id in s'.cache)
    decreases waits
  {
    if waits == [] {
    } else {
      assert waits[0].Tick? || waits[0].Sweep?;
      WaitingKeeps(c, Apply(c, s, waits[0]), waits[1..], id);
    }
  }

  /** After a response is staged, and whatever time and sweeps pass, a Get finds it for as long as the time to live. */
  lemma StagedIsCached(c: Config, s: State, request: string, nanos: int, response: Entry, waits: seq<Step>)
    requires Waiting(waits) && (request, nanos) !in s.stamps
    ensures var id := RequestID(c.hash, StampedBody(request, nanos));
            var result := ApplyAll(c, s, [Stage(request, nanos, response)] + waits);
            && result.Some? && result.value.now == s.now + Elapsed(waits) && result.value.handlers == s.handlers
            && Lookup(result.value.cache, c.ttl, id, result.value.now) ==
               if Elapsed(waits) <= c.ttl then Some(response.(createdAt := s.now)) else None
  {
    var id, stage := IdOf(c, (request, nanos)), Stage(request, nanos, response);
    var s1 := Apply(c, s, stage);
    ApplyStep(c, s, [stage]);
    assert [stage][1..] == [];
    WaitingKeeps(c, s1, waits, id);
    StoredIsFound(s.cache, c.ttl, id, response, s.now, id, s.now + Elapsed(waits));
    ApplyInTurn(c, s, [stage], waits);
  }

  /**
   * After a response is staged, and whatever time and sweeps pass, a new handler asking for its id holds exactly what
   * was staged if no more than the time to live has passed, and is refused if more has.
   */
  lemma StagedIsHeld(c: Config, s: State, request: string, nanos: int, response: Entry, waits: seq<Step>, h: nat)
    requires Waiting(waits) && (request, nanos) !in s.stamps && h !in s.handlers
    ensures var id := RequestID(c.hash, StampedBody(request, nanos));
            var result := ApplyAll(c, s, [Stage(request, nanos, response)] + waits + [Begin(h, id)]);
            && result.Some? && h in result.value.handlers
            && result.value.handlers[h] ==
               if Elapsed(waits) <= c.ttl
               then Holding(Claim(id, response.(createdAt := s.now), s.now + Elapsed(waits)))
               else Refused(None)
  {
    var id, stage := IdOf(c, (request, nanos)), Stage(request, nanos, response);
    StagedIsCached(c, s, request, nanos, response, waits);
    var before := ApplyAll(c, s, [stage] + waits).value;
    hide Waiting, Elapsed, Lookup;
    ApplyInTurn(c, s, [stage] + waits, [Begin(h, id)]);
    ApplyStep(c, before, [Begin(h, id)]);
    assert [Begin(h, id)][1..] == [];
  }
}
