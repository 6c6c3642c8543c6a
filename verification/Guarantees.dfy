/** What the payment protocol guarantees in every run, and what it does not. */
module Guarantees {
  import opened Basics
  import opened Cache
  import opened Payments
  import opened Protocol

  /** `s` ends some run, with any hash and from any ledger. */
  ghost predicate Reachable(c: Config, s: State) {
    exists steps :: Exec(c, steps) == Some(s)
  }

  lemma ReachableInv(c: Config, s: State)
    requires Reachable(c, s)
    ensures Inv(c, s)
  {
    var steps :| Exec(c, steps) == Some(s);
    RunKeepsInv(c, steps);
  }

  lemma ReachableFresh(c: Config, s: State)
    requires Reachable(c, s) && NoClash(c, s.stamps)
    ensures IdsFresh(c, s)
  {
    var steps :| Exec(c, steps) == Some(s);
    RunKeepsFresh(c, steps);
  }

  // ----- positions in the log -----

  lemma {:induction false} EventsPrefix(log: seq<Event>, n: nat, h: nat)
    requires n <= |log|
    ensures EventsBy(log[..n], h) <= EventsBy(log, h)
  {
    if n < |log| {
      EventsPrefix(log[..|log| - 1], n, h);
      assert log[..|log| - 1][..n] == log[..n];
    } else {
      assert log[..n] == log;
    }
  }

  /** A handler's events up to and including one of them begin its script. */
  lemma HistoryOf(c: Config, s: State, j: nat, h: nat)
    requires HandlersScripted(c, s) && j < |s.log| && HandlerOf(s.log[j]) == Some(h)
    ensures h in s.handlers && EventsBy(s.log[..j], h) + [s.log[j]] <= Script(c, h, s.handlers[h])
  {
    ScriptOf(c, s, h);
    hide Script, EventsBy, HandlersScripted;
    EventsPrefix(s.log, j + 1, h);
    assert s.log[..j + 1] == s.log[..j] + [s.log[j]];
    GrowEvents(s.log[..j], s.log[j], h);
    assert |EventsBy(s.log, h)| > 0;
  }

  lemma ScriptOf(c: Config, s: State, h: nat)
    requires HandlersScripted(c, s)
    ensures EventsBy(s.log, h) == if h in s.handlers then Script(c, h, s.handlers[h]) else []
  {
    hide Script, EventsBy;
  }

  /** A read event found in the past of position j was justified. */
  lemma GotJustified(c: Config, s: State, j: nat, h: nat, claim: Claim)
    requires Inv(c, s) && j <= |s.log| && EGot(h, claim) in s.log[..j]
    ensures EStaged(claim.id, claim.entry) in s.log[..j] && !Expired(claim.entry, c.ttl, claim.at)
  {
    hide HandlersScripted, CacheStaged;
    var i :| 0 <= i < j && s.log[..j][i] == EGot(h, claim);
    assert Justified(c, s.log[..i], s.log[i]);
    var k :| 0 <= k < i && s.log[..i][k] == EStaged(claim.id, claim.entry);
    assert s.log[..j][k] == EStaged(claim.id, claim.entry);
  }

  // ----- deliveries -----

  /** Everything handler `h` did before it delivered. */
  function PaidHistory(c: Config, h: nat, claim: Claim, receipt: Receipt, booking: Booking): seq<Event> {
    [EGot(h, claim), ESettled(h, claim.id, claim.entry.cost, receipt), ERecord(h, RowFor(c, claim, receipt), booking),
     EDeleted(h, claim.id)]
  }

  ghost predicate FairDelivery(c: Config, past: seq<Event>, e: Event, claim: Claim, booking: Booking)
    requires e.EDelivered?
  {
    && e.id == claim.id
    && e.status == claim.entry.status && e.contentType == claim.entry.contentType && e.body == claim.entry.body
    && EventsBy(past, e.h) == PaidHistory(c, e.h, claim, e.receipt, booking)
    && EStaged(claim.id, claim.entry) in past
    && !Expired(claim.entry, c.ttl, claim.at)
  }

  /**
   * In every run, each delivery returns exactly what was staged under its id; the handler had read that entry
   * unexpired, and a settlement of exactly its cost, under that id and with the delivered receipt, succeeded
   * before in the same handler.
   */
  lemma DeliveriesArePaid(c: Config, s: State, j: nat)
    requires Reachable(c, s) && j < |s.log| && s.log[j].EDelivered?
    ensures exists claim, booking :: FairDelivery(c, s.log[..j], s.log[j], claim, booking)
  {
    ReachableInv(c, s);
    var e := s.log[j];
    var past := s.log[..j];
    HistoryOf(c, s, j, e.h);
    var p := s.handlers[e.h];
    DeliveredPlace(c, e.h, p, EventsBy(past, e.h), e);
    hide Inv, Script, EventsBy, Reachable;
    EventsByMember(past, e.h, EGot(e.h, p.claim));
    GotJustified(c, s, j, e.h, p.claim);
    assert FairDelivery(c, past, e, p.claim, p.booking);
  }

  // Where an event can stand in a script.

  lemma DeliveredPlace(c: Config, h: nat, p: Phase, before: seq<Event>, e: Event)
    requires before + [e] <= Script(c, h, p) && e.EDelivered?
    ensures p.Done? && e == DeliveryOf(h, p.claim, p.receipt)
    ensures before == PaidHistory(c, h, p.claim, p.receipt, p.booking)
    ensures before[0] == EGot(h, p.claim) && EGot(h, p.claim) in before
  {
    var script := Script(c, h, p);
    assert script[|before|] == e;
    assert before == script[..|before|];
    assert EGot(h, p.claim) == script[0];
    assert |before| == 4 ==> before == [script[0], script[1], script[2], script[3]];
  }

  lemma RecordPlace(c: Config, h: nat, p: Phase, before: seq<Event>, e: Event)
    requires before + [e] <= Script(c, h, p) && e.ERecord?
    ensures (p.Logged? || p.Released? || p.Done?) && e.row == RowFor(c, p.claim, p.receipt)
    ensures before == [EGot(h, p.claim), ESettled(h, p.claim.id, p.claim.entry.cost, p.receipt)]
    ensures EGot(h, p.claim) in before
  {
    var script := Script(c, h, p);
    assert script[|before|] == e;
    assert before == script[..|before|];
    assert |before| == 2 ==> before == [script[0], script[1]];
  }

  lemma SettledPlace(c: Config, h: nat, p: Phase, before: seq<Event>, e: Event)
    requires before + [e] <= Script(c, h, p) && e.ESettled?
    ensures !p.Holding? && !p.Refused? && before == [EGot(h, p.claim)]
    ensures p.claim.id == e.id && p.claim.entry.cost == e.cost
  {
    var script := Script(c, h, p);
    assert script[|before|] == e;
    assert before == script[..|before|];
    assert |before| == 1 ==> before == [script[0]];
  }

  lemma RefusedPlace(c: Config, h: nat, p: Phase, e: Event)
    requires ERefused(h) in Script(c, h, p) && e in Script(c, h, p)
    ensures e.EGot? || e.ERefused?
  {
    var script := Script(c, h, p);
    var i :| 0 <= i < |script| && script[i] == ERefused(h);
    var j :| 0 <= j < |script| && script[j] == e;
  }

  /** In every run a settlement is for a cost staged under its id. */
  lemma SettledCostIsStaged(c: Config, s: State, j: nat) returns (entry: Entry)
    requires Reachable(c, s) && j < |s.log| && s.log[j].ESettled?
    ensures EStaged(s.log[j].id, entry) in s.log && s.log[j].cost == entry.cost
  {
    ReachableInv(c, s);
    HandlersOnScript(c, s);
    var h, past := s.log[j].h, s.log[..j];
    HistoryOf(c, s, j, h);
    SettledPlace(c, h, s.handlers[h], EventsBy(past, h), s.log[j]);
    var claim := s.handlers[h].claim;
    hide Reachable, Inv, Script, HandlersScripted, LogJustified;
    assert EventsBy(past, h)[0] == EGot(h, claim);
    EventsByMember(past, h, EGot(h, claim));
    GotJustified(c, s, j, h, claim);
    entry := claim.entry;
    var m :| 0 <= m < j && past[m] == EStaged(claim.id, entry);
    assert s.log[m] == EStaged(claim.id, entry);
  }

  /** The settlement behind a delivery: by the same handler, under the same id, for a cost staged under it. */
  lemma DeliverySettled(c: Config, s: State, j: nat) returns (k: nat, entry: Entry)
    requires Reachable(c, s) && j < |s.log| && s.log[j].EDelivered?
    ensures k < j && s.log[k].ESettled? && s.log[k].h == s.log[j].h && s.log[k].id == s.log[j].id
    ensures EStaged(s.log[j].id, entry) in s.log && s.log[k].cost == entry.cost
  {
    DeliveriesArePaid(c, s, j);
    hide Reachable;
    var e, past := s.log[j], s.log[..j];
    var claim, booking :| FairDelivery(c, past, e, claim, booking);
    entry := claim.entry;
    var settled := ESettled(e.h, claim.id, claim.entry.cost, e.receipt);
    assert EventsBy(past, e.h)[1] == settled;
    hide EventsBy;
    EventsByMember(past, e.h, settled);
    k :| 0 <= k < j && past[k] == settled;
    var m :| 0 <= m < j && past[m] == EStaged(claim.id, claim.entry);
    assert s.log[m] == EStaged(claim.id, claim.entry);
  }

  // ----- failed attempts -----

  /** A handler that was refused has settled, recorded, deleted and delivered nothing. */
  lemma RefusedDidNothing(c: Config, s: State, h: nat)
    requires Reachable(c, s) && ERefused(h) in s.log
    ensures forall e :: e in s.log && HandlerOf(e) == Some(h) ==> e.EGot? || e.ERefused?
  {
    ReachableInv(c, s);
    EventsByMember(s.log, h, ERefused(h));
    hide Script, EventsBy, Inv;
    assert HandlersScripted(c, s) by {
      ReachableInv(c, s);
      HandlersOnScript(c, s);
    }
    forall e | e in s.log && HandlerOf(e) == Some(h)
      ensures e.EGot? || e.ERefused?
    {
      EventsByMember(s.log, h, e);
      RefusedPlace(c, h, s.handlers[h], e);
    }
  }

  lemma HandlersOnScript(c: Config, s: State)
    requires Inv(c, s)
    ensures HandlersScripted(c, s) && LogJustified(c, s.log)
  {
    hide HandlersScripted, LogJustified;
  }

  function ActorOf(step: Step): Option<nat> {
    match step
    case Tick(_) => None
    case Stage(_, _, _) => None
    case Sweep => None
    case Begin(h, _) => Some(h)
    case Refuse(h) => Some(h)
    case Settle(h, _) => Some(h)
    case Record(h, _) => Some(h)
    case Release(h) => Some(h)
    case Deliver(h) => Some(h)
  }

  /** The run with every step of one handler left out. */
  function StepsWithout(steps: seq<Step>, h: nat): seq<Step> {
    if steps == [] then []
    else
      var last := steps[|steps| - 1];
      StepsWithout(steps[..|steps| - 1], h) + if ActorOf(last) == Some(h) then [] else [last]
  }

  function LogWithout(log: seq<Event>, h: nat): seq<Event> {
    if log == [] then []
    else LogWithout(log[..|log| - 1], h) + if HandlerOf(log[|log| - 1]) == Some(h) then [] else [log[|log| - 1]]
  }

  /** The state as it would be without the handler. */
  function Without(s: State, h: nat): State {
    s.(handlers := s.handlers - {h}, log := LogWithout(s.log, h))
  }

  /** The handler has not paid (yet): it is unknown, refused, or still holding what it read. */
  predicate Unpaid(s: State, h: nat) {
    h in s.handlers ==> s.handlers[h].Refused? || s.handlers[h].Holding?
  }

  lemma LogWithoutGrows(log: seq<Event>, e: Event, h: nat)
    ensures LogWithout(log + [e], h) == LogWithout(log, h) + if HandlerOf(e) == Some(h) then [] else [e]
  {
    assert (log + [e])[..|log|] == log;
  }

  lemma OwnStepInvisible(c: Config, s: State, step: Step, h: nat)
    requires Enabled(s, step) && ActorOf(step) == Some(h) && Unpaid(Apply(c, s, step), h)
    ensures Unpaid(s, h) && Without(Apply(c, s, step), h) == Without(s, h)
  {
    hide LogWithout, BookingOf, RowFor;
    var s' := Apply(c, s, step);
    assert s'.log == s.log + [s'.log[|s.log|]];
    LogWithoutGrows(s.log, s'.log[|s.log|], h);
    assert s'.handlers - {h} == s.handlers - {h};
  }

  lemma OtherStepCommutes(c: Config, s: State, step: Step, h: nat)
    requires Enabled(s, step) && ActorOf(step) != Some(h)
    ensures Enabled(Without(s, h), step)
    ensures Apply(c, Without(s, h), step) == Without(Apply(c, s, step), h)
    ensures Unpaid(Apply(c, s, step), h) ==> Unpaid(s, h)
  {
    hide LogWithout;
    var s' := Apply(c, s, step);
    if !step.Tick? && !step.Sweep? {
      assert s'.log == s.log + [s'.log[|s.log|]];
      LogWithoutGrows(s.log, s'.log[|s.log|], h);
    }
    if ActorOf(step).Some? {
      var g := ActorOf(step).value;
      assert (s.handlers - {h})[g := s'.handlers[g]] == s'.handlers - {h};
    }
  }

  /**
   * A failed attempt leaves no trace: for every run in which a handler never gets past a successful settlement,
   * the same run without any of its steps is a run too, and ends with the same clock, cache, ledger and other
   * handlers.
   */
  lemma {:induction false} FailedAttemptInvisible(c: Config, steps: seq<Step>, h: nat)
    requires Exec(c, steps).Some? && Unpaid(Exec(c, steps).value, h)
    ensures Exec(c, StepsWithout(steps, h)) == Some(Without(Exec(c, steps).value, h))
  {
    if steps == [] {
      assert Init(c).handlers - {h} == Init(c).handlers;
    } else {
      var n := |steps| - 1;
      var step := steps[n];
      var s := Exec(c, steps[..n]).value;
      assert Exec(c, steps).value == Apply(c, s, step);
      if ActorOf(step) == Some(h) {
        OwnStepInvisible(c, s, step, h);
        FailedAttemptInvisible(c, steps[..n], h);
        assert StepsWithout(steps, h) == StepsWithout(steps[..n], h);
      } else {
        OtherStepCommutes(c, s, step, h);
        FailedAttemptInvisible(c, steps[..n], h);
        var kept := StepsWithout(steps[..n], h);
        assert StepsWithout(steps, h) == kept + [step];
        assert (kept + [step])[..|kept|] == kept;
      }
    }
  }

  // ----- the ledger -----

  lemma {:induction false} RowsAreRecorded(log: seq<Event>, i: nat) returns (j: nat)
    requires i < |RowsOf(log)|
    ensures j < |log| && log[j].ERecord? && log[j].booking.Booked? && log[j].row == RowsOf(log)[i]
  {
    var n := |log| - 1;
    if i < |RowsOf(log[..n])| {
      j := RowsAreRecorded(log[..n], i);
    } else {
      j := n;
    }
  }

  lemma {:induction false} RecordedIsRow(log: seq<Event>, j: nat)
    requires j < |log| && log[j].ERecord? && log[j].booking.Booked?
    ensures log[j].row in RowsOf(log)
  {
    if j == |log| - 1 {
    } else {
      RecordedIsRow(log[..|log| - 1], j);
    }
  }

  lemma {:induction false} RowsPrefix(log: seq<Event>, n: nat)
    requires n <= |log|
    ensures RowsOf(log[..n]) <= RowsOf(log)
  {
    if n < |log| {
      RowsPrefix(log[..|log| - 1], n);
      assert log[..|log| - 1][..n] == log[..n];
    } else {
      assert log[..n] == log;
    }
  }

  /** No id is staged twice, when none clash. */
  lemma StagedOnce(log: seq<Event>, i: nat, j: nat)
    requires LogFresh(log) && i < j < |log| && log[i].EStaged? && log[j].EStaged?
    ensures log[i].id != log[j].id
  {
    assert Fresh(log[..j], log[j]);
    assert log[..j][i] == log[i];
  }

  /** The one entry staged under an id. */
  ghost predicate StagedAs(log: seq<Event>, id: string, entry: Entry) {
    EStaged(id, entry) in log && forall other :: EStaged(id, other) in log ==> other == entry
  }

  lemma StagedAsOnly(log: seq<Event>, id: string, entry: Entry)
    requires LogFresh(log) && EStaged(id, entry) in log
    ensures StagedAs(log, id, entry)
  {
    hide LogFresh;
    forall other | EStaged(id, other) in log
      ensures other == entry
    {
      var i :| 0 <= i < |log| && log[i] == EStaged(id, entry);
      var j :| 0 <= j < |log| && log[j] == EStaged(id, other);
      if i < j {
        StagedOnce(log, i, j);
      } else if j < i {
        StagedOnce(log, j, i);
      }
    }
  }

  /** The claim behind a record event: read before, and staged. */
  lemma RecordClaim(c: Config, s: State, j: nat) returns (claim: Claim, receipt: Receipt)
    requires Inv(c, s) && j < |s.log| && s.log[j].ERecord?
    ensures s.log[j].row == RowFor(c, claim, receipt) && EStaged(claim.id, claim.entry) in s.log
    ensures EventsBy(s.log[..j], s.log[j].h) ==
            [EGot(s.log[j].h, claim), ESettled(s.log[j].h, claim.id, claim.entry.cost, receipt)]
  {
    var h := s.log[j].h;
    HandlersOnScript(c, s);
    HistoryOf(c, s, j, h);
    RecordPlace(c, h, s.handlers[h], EventsBy(s.log[..j], h), s.log[j]);
    claim, receipt := s.handlers[h].claim, s.handlers[h].receipt;
    hide Inv, Script, EventsBy;
    EventsByMember(s.log[..j], h, EGot(h, claim));
    GotJustified(c, s, j, h, claim);
    var k :| 0 <= k < j && s.log[..j][k] == EStaged(claim.id, claim.entry);
    assert s.log[k] == EStaged(claim.id, claim.entry);
  }

  /** The row carries a cost staged under its id, as an int64: the cost itself exactly on the int64 range. */
  ghost predicate CarriesStagedCost(log: seq<Event>, row: Payment, entry: Entry) {
    && EStaged(row.requestID, entry) in log
    && row.amount == Int64(entry.cost)
    && (row.amount == entry.cost <==> -TWO_63 <= entry.cost < TWO_63)
  }

  ghost predicate SoundRow(log: seq<Event>, row: Payment) {
    exists entry :: CarriesStagedCost(log, row, entry)
  }

  /** The entry is the only one staged under the row's id. */
  ghost predicate SoundOnlyRow(log: seq<Event>, row: Payment) {
    exists entry :: CarriesStagedCost(log, row, entry) && StagedAs(log, row.requestID, entry)
  }

  /**
   * In every run the ledger keeps what it started with, stays free of repeated request ids and transactions, and each
   * row added carries a cost staged under its id; in a run without clashing ids that is the one entry staged under it.
   */
  lemma LedgerIsSound(c: Config, s: State)
    requires Reachable(c, s)
    ensures c.prior <= s.ledger && (UniqueRows(c.prior) ==> UniqueRows(s.ledger))
    ensures forall i :: |c.prior| <= i < |s.ledger| ==> SoundRow(s.log, s.ledger[i])
    ensures NoClash(c, s.stamps) ==> forall i :: |c.prior| <= i < |s.ledger| ==> SoundOnlyRow(s.log, s.ledger[i])
  {
    hide SoundRow, SoundOnlyRow, NoClash, UniqueRows;
    ReachableInv(c, s);
    forall i | |c.prior| <= i < |s.ledger|
      ensures SoundRow(s.log, s.ledger[i])
      ensures NoClash(c, s.stamps) ==> SoundOnlyRow(s.log, s.ledger[i])
    {
      var j := RowsAreRecorded(s.log, i - |c.prior|);
      RowCarriesStagedCost(c, s, j, s.ledger[i]);
      if NoClash(c, s.stamps) {
        ReachableFresh(c, s);
        RowIsOnly(s.log, s.ledger[i]);
      }
    }
  }

  lemma RowCarriesStagedCost(c: Config, s: State, j: nat, row: Payment)
    requires Inv(c, s) && j < |s.log| && s.log[j].ERecord? && s.log[j].row == row
    ensures SoundRow(s.log, row)
  {
    hide Inv;
    var claim, receipt := RecordClaim(c, s, j);
    Int64Exact(claim.entry.cost);
    assert CarriesStagedCost(s.log, row, claim.entry);
  }

  lemma RowIsOnly(log: seq<Event>, row: Payment)
    requires LogFresh(log) && SoundRow(log, row)
    ensures SoundOnlyRow(log, row)
  {
    var entry :| CarriesStagedCost(log, row, entry);
    StagedAsOnly(log, row.requestID, entry);
  }

  /**
   * The row of record event `j` says what settlement `k` of the same handler and the entry staged under its id say: who
   * paid by which transaction, to whom and on which network, how much, and for which model and token counts.
   */
  ghost predicate BookedFrom(c: Config, log: seq<Event>, row: Payment, j: int, k: int, entry: Entry) {
    && 0 <= k < j < |log|
    && log[j].ERecord? && log[j].booking.Booked? && log[j].row == row
    && log[k].ESettled? && log[k].h == log[j].h && log[k].id == row.requestID && log[k].cost == entry.cost
    && EStaged(row.requestID, entry) in log
    && row.from == log[k].receipt.payer && row.txHash == log[k].receipt.tx
    && row.to == c.payTo && row.network == c.network
    && row.amount == Int64(entry.cost) && row.model == entry.model
    && row.promptTokens == entry.usage.prompt && row.completionTokens == entry.usage.completion
  }

  ghost predicate IsBooked(c: Config, log: seq<Event>, row: Payment) {
    exists j, k, entry :: BookedFrom(c, log, row, j, k, entry)
  }

  /** In every run each added row is exactly the booking of a settlement. */
  lemma RowsAreExact(c: Config, s: State)
    requires Reachable(c, s)
    ensures |c.prior| <= |s.ledger|
    ensures forall i :: |c.prior| <= i < |s.ledger| ==> IsBooked(c, s.log, s.ledger[i])
  {
    ReachableInv(c, s);
    LedgerOf(c, s);
    hide Reachable, IsBooked, Inv;
    forall i | |c.prior| <= i < |s.ledger|
      ensures IsBooked(c, s.log, s.ledger[i])
    {
      var j := RowsAreRecorded(s.log, i - |c.prior|);
      RowIsBooked(c, s, j);
    }
  }

  lemma LedgerOf(c: Config, s: State)
    requires Inv(c, s)
    ensures s.ledger == c.prior + RowsOf(s.log)
  {
  }

  lemma RowIsBooked(c: Config, s: State, j: nat)
    requires Inv(c, s) && j < |s.log| && s.log[j].ERecord? && s.log[j].booking.Booked?
    ensures IsBooked(c, s.log, s.log[j].row)
  {
    hide Inv;
    var claim, receipt := RecordClaim(c, s, j);
    var h, past := s.log[j].h, s.log[..j];
    var settled := ESettled(h, claim.id, claim.entry.cost, receipt);
    assert EventsBy(past, h)[1] == settled;
    hide EventsBy;
    EventsByMember(past, h, settled);
    var k :| 0 <= k < j && past[k] == settled;
    assert BookedFrom(c, s.log, s.log[j].row, j, k, claim.entry);
  }

  /** A row with this id, or with this transaction on the server's network. */
  ghost predicate Covered(c: Config, rows: seq<Payment>, id: string, tx: string) {
    exists i :: 0 <= i < |rows| && (rows[i].requestID == id || (rows[i].network == c.network && rows[i].txHash == tx))
  }

  lemma CoverageGrows(c: Config, rows: seq<Payment>, rows': seq<Payment>, id: string, tx: string)
    requires Covered(c, rows, id, tx) && rows <= rows'
    ensures Covered(c, rows', id, tx)
  {
    var i :| 0 <= i < |rows| && (rows[i].requestID == id || (rows[i].network == c.network && rows[i].txHash == tx));
    assert rows'[i] == rows[i];
  }

  /** When Record fails only for uniqueness, every delivered request has a row with its id or its transaction. */
  lemma DeliveriesAreBooked(c: Config, s: State, j: nat)
    requires Reachable(c, s) && j < |s.log| && s.log[j].EDelivered?
    requires forall k :: 0 <= k < |s.log| && s.log[k].ERecord? ==> !s.log[k].booking.Fault?
    ensures Covered(c, s.ledger, s.log[j].id, s.log[j].receipt.tx)
  {
    ReachableInv(c, s);
    DeliveriesArePaid(c, s, j);
    var e, past := s.log[j], s.log[..j];
    var claim, booking :| FairDelivery(c, past, e, claim, booking);
    var rec := ERecord(e.h, RowFor(c, claim, e.receipt), booking);
    assert EventsBy(past, e.h)[2] == rec;
    EventsByMember(past, e.h, rec);
    var k :| 0 <= k < j && past[k] == rec;
    assert s.log[k] == rec;
    RecordCovers(c, s, k);
  }

  lemma RecordCovers(c: Config, s: State, k: nat)
    requires Inv(c, s) && k < |s.log| && s.log[k].ERecord? && !s.log[k].booking.Fault?
    requires s.log[k].row.network == c.network
    ensures Covered(c, s.ledger, s.log[k].row.requestID, s.log[k].row.txHash)
  {
    hide HandlersScripted, CacheStaged, UniqueRows;
    var row := s.log[k].row;
    if s.log[k].booking.Booked? {
      RecordedIsRow(s.log, k);
      var i :| 0 <= i < |RowsOf(s.log)| && RowsOf(s.log)[i] == row;
      assert s.ledger[|c.prior| + i] == row;
    } else {
      assert Justified(c, s.log[..k], s.log[k]);
      var before := c.prior + RowsOf(s.log[..k]);
      RowsPrefix(s.log, k);
      assert before <= s.ledger;
      assert Conflicts(before, row);
      assert Covered(c, before, row.requestID, row.txHash);
      CoverageGrows(c, before, s.ledger, row.requestID, row.txHash);
    }
  }
}
