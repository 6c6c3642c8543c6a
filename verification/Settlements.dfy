/** How often one request can be settled and delivered. */
module Settlements {
  import opened Basics
  import opened Cache
  import opened Protocol
  import opened Guarantees

  function SettleCount(log: seq<Event>, id: string): nat {
    if log == [] then 0
    else
      var last := log[|log| - 1];
      SettleCount(log[..|log| - 1], id) + if last.ESettled? && last.id == id then 1 else 0
  }

  function DeliverCount(log: seq<Event>, id: string): nat {
    if log == [] then 0
    else
      var last := log[|log| - 1];
      DeliverCount(log[..|log| - 1], id) + if last.EDelivered? && last.id == id then 1 else 0
  }

  /** The position of the first Delete of an id. */
  function FirstDelete(log: seq<Event>, id: string): (n: nat)
    ensures n <= |log| && !DeletedIn(log[..n], id)
    ensures n < |log| ==> log[n].EDeleted? && log[n].id == id
  {
    if log == [] then 0
    else
      var n := FirstDelete(log[..|log| - 1], id);
      assert log[..|log| - 1][..n] == log[..n];
      if n < |log| - 1 then n
      else if log[n].EDeleted? && log[n].id == id then n
      else
        assert forall i :: 0 <= i < |log| ==> !(log[i].EDeleted? && log[i].id == id) by {
          assert forall i :: 0 <= i < n ==> log[..n][i] == log[i];
        }
        |log|
  }

  /** The handlers whose Get of the id succeeded before its first Delete. */
  function GotBeforeDelete(log: seq<Event>, id: string): set<nat> {
    set i | 0 <= i < FirstDelete(log, id) && log[i].EGot? && log[i].claim.id == id :: log[i].h
  }

  function Settlers(log: seq<Event>, id: string): set<nat> {
    set i | 0 <= i < |log| && log[i].ESettled? && log[i].id == id :: log[i].h
  }

  function Deliverers(log: seq<Event>, id: string): set<nat> {
    set i | 0 <= i < |log| && log[i].EDelivered? && log[i].id == id :: log[i].h
  }

  // ----- one handler settles and delivers at most once -----

  /** Before its settlement a handler has only read; before its delivery it has done everything else, once. */
  lemma SettledOnceByHandler(c: Config, s: State, j: nat)
    requires HandlersScripted(c, s) && j < |s.log| && s.log[j].ESettled?
    ensures exists claim :: EventsBy(s.log[..j], s.log[j].h) == [EGot(s.log[j].h, claim)] && claim.id == s.log[j].id
  {
    var h := s.log[j].h;
    HistoryOf(c, s, j, h);
    SettledPlace(c, h, s.handlers[h], EventsBy(s.log[..j], h), s.log[j]);
  }

  lemma DeliveredOnceByHandler(c: Config, s: State, j: nat)
    requires HandlersScripted(c, s) && j < |s.log| && s.log[j].EDelivered?
    ensures exists claim, r, b :: EventsBy(s.log[..j], s.log[j].h) == PaidHistory(c, s.log[j].h, claim, r, b)
                                  && claim.id == s.log[j].id
  {
    var h := s.log[j].h;
    HistoryOf(c, s, j, h);
    DeliveredPlace(c, h, s.handlers[h], EventsBy(s.log[..j], h), s.log[j]);
  }

  lemma NotSettledBefore(c: Config, s: State, n: nat)
    requires HandlersScripted(c, s) && n < |s.log| && s.log[n].ESettled?
    ensures s.log[n].h !in Settlers(s.log[..n], s.log[n].id)
  {
    SettledOnceByHandler(c, s, n);
    var h, id := s.log[n].h, s.log[n].id;
    if h in Settlers(s.log[..n], id) {
      var i :| 0 <= i < n && s.log[..n][i].ESettled? && s.log[..n][i].id == id && s.log[..n][i].h == h;
      EventsByMember(s.log[..n], h, s.log[i]);
    }
  }

  lemma NotDeliveredBefore(c: Config, s: State, n: nat)
    requires HandlersScripted(c, s) && n < |s.log| && s.log[n].EDelivered?
    ensures s.log[n].h !in Deliverers(s.log[..n], s.log[n].id)
  {
    DeliveredOnceByHandler(c, s, n);
    var h, id := s.log[n].h, s.log[n].id;
    if h in Deliverers(s.log[..n], id) {
      var i :| 0 <= i < n && s.log[..n][i].EDelivered? && s.log[..n][i].id == id && s.log[..n][i].h == h;
      EventsByMember(s.log[..n], h, s.log[i]);
    }
  }

  lemma SettlersGrow(log: seq<Event>, n: nat, id: string)
    requires n < |log|
    ensures Settlers(log[..n + 1], id) ==
            Settlers(log[..n], id) + if log[n].ESettled? && log[n].id == id then {log[n].h} else {}
    ensures Deliverers(log[..n + 1], id) ==
            Deliverers(log[..n], id) + if log[n].EDelivered? && log[n].id == id then {log[n].h} else {}
  {
    var front, all := log[..n], log[..n + 1];
    assert forall i :: 0 <= i < n ==> all[i] == front[i];
    assert all[n] == log[n];
  }

  lemma {:induction false} CountsByPrefix(c: Config, s: State, n: nat, id: string)
    requires HandlersScripted(c, s) && n <= |s.log|
    ensures SettleCount(s.log[..n], id) == |Settlers(s.log[..n], id)|
    ensures DeliverCount(s.log[..n], id) == |Deliverers(s.log[..n], id)|
  {
    if n > 0 {
      hide HandlersScripted, Settlers, Deliverers;
      var log := s.log[..n];
      assert log[..n - 1] == s.log[..n - 1];
      CountsByPrefix(c, s, n - 1, id);
      SettlersGrow(s.log, n - 1, id);
      if log[n - 1].ESettled? && log[n - 1].id == id {
        NotSettledBefore(c, s, n - 1);
      }
      if log[n - 1].EDelivered? && log[n - 1].id == id {
        NotDeliveredBefore(c, s, n - 1);
      }
    } else {
      assert Settlers([], id) == {} && Deliverers([], id) == {};
    }
  }

  /** In every run each handler settles and delivers an id at most once: the counts are counts of handlers. */
  lemma CountsAreHandlers(c: Config, s: State, id: string)
    requires Reachable(c, s)
    ensures SettleCount(s.log, id) == |Settlers(s.log, id)|
    ensures DeliverCount(s.log, id) == |Deliverers(s.log, id)|
  {
    ReachableInv(c, s);
    hide Reachable, Settlers, Deliverers, SettleCount, DeliverCount;
    assert s.log[..|s.log|] == s.log;
    CountsByPrefix(c, s, |s.log|, id);
  }

  // ----- the bound -----

  /** A settler read the entry before the first Delete of its id. */
  lemma SettlerGotBeforeDelete(c: Config, s: State, j: nat)
    requires Inv(c, s) && LogFresh(s.log) && j < |s.log| && s.log[j].ESettled?
    ensures s.log[j].h in GotBeforeDelete(s.log, s.log[j].id)
  {
    hide CacheStaged, LogFresh, LogJustified;
    SettledOnceByHandler(c, s, j);
    var h, id := s.log[j].h, s.log[j].id;
    var claim :| EventsBy(s.log[..j], h) == [EGot(h, claim)] && claim.id == id;
    EventsByMember(s.log[..j], h, EGot(h, claim));
    var i :| 0 <= i < j && s.log[..j][i] == EGot(h, claim);
    GotPrecedesDelete(s.log, i, claim);
    assert s.log[i].h in GotBeforeDelete(s.log, id);
  }

  /** Once an id is deleted no Get of it succeeds any more, when ids do not clash. */
  lemma GotPrecedesDelete(log: seq<Event>, i: nat, claim: Claim)
    requires LogFresh(log) && i < |log| && log[i].EGot? && log[i].claim == claim
    ensures i < FirstDelete(log, claim.id)
  {
    assert Fresh(log[..i], log[i]);
    hide LogFresh;
    DeletedNotBefore(log, claim.id, i);
  }

  lemma DeletedNotBefore(log: seq<Event>, id: string, i: nat)
    requires i < |log| && !DeletedIn(log[..i], id) && !log[i].EDeleted?
    ensures i < FirstDelete(log, id)
  {
    hide FirstDelete;
    assert forall k :: 0 <= k < i ==> log[..i][k] == log[k];
  }

  lemma SubsetCardinality(a: set<nat>, b: set<nat>)
    requires a <= b
    ensures |a| <= |b|
  {
    assert b == a + (b - a);
  }

  /**
   * In every run the deliveries of an id are at most its settlements; if no ids clash, these are at most the handlers
   * whose Get preceded the first Delete of the id.
   */
  lemma SettlementsBounded(c: Config, s: State, id: string)
    requires Reachable(c, s)
    ensures DeliverCount(s.log, id) <= SettleCount(s.log, id)
    ensures NoClash(c, s.stamps) ==> SettleCount(s.log, id) <= |GotBeforeDelete(s.log, id)|
  {
    ReachableInv(c, s);
    CountsAreHandlers(c, s, id);
    hide NoClash;
    forall h | h in Deliverers(s.log, id)
      ensures h in Settlers(s.log, id)
    {
      var j :| 0 <= j < |s.log| && s.log[j].EDelivered? && s.log[j].id == id && s.log[j].h == h;
      DelivererSettled(c, s, j);
    }
    SubsetCardinality(Deliverers(s.log, id), Settlers(s.log, id));
    if NoClash(c, s.stamps) {
      ReachableFresh(c, s);
      forall h | h in Settlers(s.log, id)
        ensures h in GotBeforeDelete(s.log, id)
      {
        var j :| 0 <= j < |s.log| && s.log[j].ESettled? && s.log[j].id == id && s.log[j].h == h;
        SettlerGotBeforeDelete(c, s, j);
      }
      SubsetCardinality(Settlers(s.log, id), GotBeforeDelete(s.log, id));
    }
  }

  lemma DelivererSettled(c: Config, s: State, j: nat)
    requires HandlersScripted(c, s) && j < |s.log| && s.log[j].EDelivered?
    ensures s.log[j].h in Settlers(s.log, s.log[j].id)
  {
    DeliveredOnceByHandler(c, s, j);
    var h := s.log[j].h;
    var claim, r, b :| EventsBy(s.log[..j], h) == PaidHistory(c, h, claim, r, b) && claim.id == s.log[j].id;
    var e := ESettled(h, claim.id, claim.entry.cost, r);
    assert EventsBy(s.log[..j], h)[1] == e;
    EventsByMember(s.log[..j], h, e);
    var i :| 0 <= i < j && s.log[..j][i] == e;
    assert s.log[i].h in Settlers(s.log, s.log[j].id);
  }

  // ----- handlers that do not overlap -----

  /** Between two successful Gets of the id by different handlers, the first handler has finished. */
  ghost predicate NoOverlap(log: seq<Event>, id: string) {
    forall i, j ::
      0 <= i < j < |log| && GotId(log[i], id) && GotId(log[j], id) && log[i].h != log[j].h ==>
        FinishedBetween(log, i, j)
  }

  predicate GotId(e: Event, id: string) {
    e.EGot? && e.claim.id == id
  }

  ghost predicate FinishedBetween(log: seq<Event>, i: nat, j: nat)
    requires i < j < |log| && log[i].EGot?
  {
    exists k :: i < k < j && (log[k].ERefused? || log[k].EDelivered?) && log[k].h == log[i].h
  }

  /** The read behind a settlement, with its position. */
  lemma ReadOf(c: Config, s: State, h: nat, id: string) returns (i: nat)
    requires HandlersScripted(c, s) && h in Settlers(s.log, id)
    ensures i < |s.log| && s.log[i].EGot? && s.log[i].h == h && s.log[i].claim.id == id
  {
    var j :| 0 <= j < |s.log| && s.log[j].ESettled? && s.log[j].id == id && s.log[j].h == h;
    SettledOnceByHandler(c, s, j);
    var claim :| EventsBy(s.log[..j], h) == [EGot(h, claim)] && claim.id == id;
    EventsByMember(s.log[..j], h, EGot(h, claim));
    i :| 0 <= i < j && s.log[..j][i] == EGot(h, claim);
  }

  /** A handler that settled an id and has finished has deleted that id. */
  lemma FinishedSettlerDeleted(c: Config, s: State, h: nat, id: string, k: nat)
    requires HandlersScripted(c, s) && h in Settlers(s.log, id)
    requires k < |s.log| && (s.log[k].ERefused? || s.log[k].EDelivered?) && s.log[k].h == h
    ensures DeletedIn(s.log[..k], id)
  {
    var j :| 0 <= j < |s.log| && s.log[j].ESettled? && s.log[j].id == id && s.log[j].h == h;
    EventsByMember(s.log, h, s.log[j]);
    EventsByMember(s.log, h, s.log[k]);
    SettledScript(c, h, s.handlers[h], s.log[j], s.log[k]);
    DeliveredOnceByHandler(c, s, k);
    var claim, r, b :| EventsBy(s.log[..k], h) == PaidHistory(c, h, claim, r, b) && claim.id == s.log[k].id;
    assert EventsBy(s.log[..k], h)[3] == EDeleted(h, id);
    EventsByMember(s.log[..k], h, EDeleted(h, id));
  }

  lemma SettledScript(c: Config, h: nat, p: Phase, settled: Event, finished: Event)
    requires settled in Script(c, h, p) && settled.ESettled?
    requires finished in Script(c, h, p) && (finished.ERefused? || finished.EDelivered?)
    ensures finished.EDelivered? && finished.id == settled.id
  {
    var script := Script(c, h, p);
    var i :| 0 <= i < |script| && script[i] == settled;
    var j :| 0 <= j < |script| && script[j] == finished;
  }

  lemma TwoSettlersOverlap(c: Config, s: State, id: string, h: nat, g: nat)
    requires Inv(c, s) && LogFresh(s.log) && NoOverlap(s.log, id) && h in Settlers(s.log, id)
    requires g in Settlers(s.log, id)
    ensures h == g
  {
    hide CacheStaged, LogFresh, LogJustified;
    if h != g {
      var i := ReadOf(c, s, h, id);
      var j := ReadOf(c, s, g, id);
      if i < j {
        EarlierSettlerBlocks(c, s, id, i, j);
      } else {
        EarlierSettlerBlocks(c, s, id, j, i);
      }
    }
  }

  lemma EarlierSettlerBlocks(c: Config, s: State, id: string, i: nat, j: nat)
    requires Inv(c, s) && LogFresh(s.log) && i < j < |s.log| && s.log[i].EGot? && s.log[j].EGot?
    requires s.log[i].claim.id == id && s.log[j].claim.id == id && s.log[i].h in Settlers(s.log, id)
    ensures !FinishedBetween(s.log, i, j)
  {
    hide CacheStaged, LogFresh, LogJustified, Settlers;
    if FinishedBetween(s.log, i, j) {
      var k :| i < k < j && (s.log[k].ERefused? || s.log[k].EDelivered?) && s.log[k].h == s.log[i].h;
      FinishedSettlerDeleted(c, s, s.log[i].h, id, k);
      GotPrecedesDelete(s.log, j, s.log[j].claim);
      FirstDeleteBefore(s.log, id, k);
    }
  }

  lemma FirstDeleteBefore(log: seq<Event>, id: string, k: nat)
    requires k <= |log| && DeletedIn(log[..k], id)
    ensures FirstDelete(log, id) < k
  {
    var m :| 0 <= m < k && log[..k][m].EDeleted? && log[..k][m].id == id;
    var n := FirstDelete(log, id);
    assert forall i :: 0 <= i < n ==> log[..n][i] == log[i];
  }

  /** Handlers of one id that do not overlap settle and deliver it at most once, whatever else runs beside them. */
  lemma NoOverlapSettlesOnce(c: Config, s: State, id: string)
    requires Reachable(c, s) && NoClash(c, s.stamps) && NoOverlap(s.log, id)
    ensures SettleCount(s.log, id) <= 1 && DeliverCount(s.log, id) <= 1
  {
    hide NoClash, NoOverlap, Settlers;
    SettlementsBounded(c, s, id);
    ReachableInv(c, s);
    ReachableFresh(c, s);
    CountsAreHandlers(c, s, id);
    hide Reachable, SettleCount, DeliverCount, Inv;
    var settlers := Settlers(s.log, id);
    if settlers != {} {
      var h :| h in settlers;
      forall g | g in settlers
        ensures g == h
      {
        TwoSettlersOverlap(c, s, id, g, h);
      }
      assert settlers == {h};
    }
  }

  // ----- handlers that overlap can settle twice -----

  /** The steps are a run, and it settles the id at least twice. */
  ghost predicate SettlesTwice(c: Config, steps: seq<Step>, id: string) {
    Exec(c, steps).Some? && SettleCount(Exec(c, steps).value.log, id) >= 2
  }

  lemma ExecThen(c: Config, steps: seq<Step>, step: Step)
    requires Exec(c, steps).Some? && Enabled(Exec(c, steps).value, step)
    ensures Exec(c, steps + [step]) == Some(Apply(c, Exec(c, steps).value, step))
  {
    assert (steps + [step])[..|steps|] == steps;
  }

  lemma SettleCountGrows(log: seq<Event>, e: Event, id: string)
    ensures SettleCount(log + [e], id) == SettleCount(log, id) + if e.ESettled? && e.id == id then 1 else 0
  {
    assert (log + [e])[..|log|] == log;
  }

  /** A handler holding an entry of the id can settle it next: one settlement more, and no other handler moves. */
  lemma HolderSettles(c: Config, steps: seq<Step>, h: nat, id: string, r: Receipt)
    requires Exec(c, steps).Some? && Holds(Exec(c, steps).value, h, id)
    ensures Exec(c, steps + [Settle(h, r)]).Some?
    ensures var s, s' := Exec(c, steps).value, Exec(c, steps + [Settle(h, r)]).value;
            && SettleCount(s'.log, id) == SettleCount(s.log, id) + 1
            && forall g :: g != h && g in s.handlers ==> g in s'.handlers && s'.handlers[g] == s.handlers[g]
  {
    var s := Exec(c, steps).value;
    ExecThen(c, steps, Settle(h, r));
    hide Exec, SettleCount;
    SettleCountGrows(s.log, ESettled(h, id, s.handlers[h].claim.entry.cost, r), id);
  }

  predicate Holds(s: State, h: nat, id: string) {
    h in s.handlers && s.handlers[h].Holding? && s.handlers[h].claim.id == id
  }

  /** From any state in which two handlers hold one id, settling by both is a run: the client pays twice. */
  lemma HoldersSettleTwice(c: Config, steps: seq<Step>, h: nat, g: nat, id: string, r: Receipt, q: Receipt)
    requires Exec(c, steps).Some? && h != g && Holds(Exec(c, steps).value, h, id) && Holds(Exec(c, steps).value, g, id)
    ensures SettlesTwice(c, steps + [Settle(h, r), Settle(g, q)], id)
  {
    HolderSettles(c, steps, h, id, r);
    hide Exec, SettleCount;
    HolderSettles(c, steps + [Settle(h, r)], g, id, q);
    assert steps + [Settle(h, r)] + [Settle(g, q)] == steps + [Settle(h, r), Settle(g, q)];
  }

  /** Whatever is staged and not yet expired can be settled twice, by two handlers not used before. */
  lemma StagedCanSettleTwice(c: Config, steps: seq<Step>, h: nat, g: nat, id: string, r: Receipt, q: Receipt)
    requires Exec(c, steps).Some? && h != g && h !in Exec(c, steps).value.handlers
    requires g !in Exec(c, steps).value.handlers
    requires var s := Exec(c, steps).value; Lookup(s.cache, c.ttl, id, s.now).Some?
    ensures SettlesTwice(c, steps + [Begin(h, id), Begin(g, id), Settle(h, r), Settle(g, q)], id)
  {
    hide Lookup, SettleCount;
    var both := steps + [Begin(h, id)] + [Begin(g, id)];
    ExecThen(c, steps, Begin(h, id));
    ExecThen(c, steps + [Begin(h, id)], Begin(g, id));
    hide Exec;
    HoldersSettleTwice(c, both, h, g, id, r, q);
    assert both + [Settle(h, r), Settle(g, q)] == steps + [Begin(h, id), Begin(g, id), Settle(h, r), Settle(g, q)];
  }

  /** Every prefix of a run's log is the log of a prefix of the run. */
  lemma {:induction false} PrefixWithLog(c: Config, steps: seq<Step>, k: nat) returns (n: nat)
    requires Exec(c, steps).Some? && k <= |Exec(c, steps).value.log|
    ensures n <= |steps| && Exec(c, steps[..n]).Some?
    ensures Exec(c, steps[..n]).value.log == Exec(c, steps).value.log[..k]
  {
    var s := Exec(c, steps).value;
    if k == |s.log| {
      n := |steps|;
      assert steps[..n] == steps && s.log[..k] == s.log;
    } else {
      var last := |steps| - 1;
      var before := Exec(c, steps[..last]).value;
      OneEventAStep(c, before, steps[last]);
      n := PrefixWithLog(c, steps[..last], k);
      assert steps[..last][..n] == steps[..n];
      assert s.log[..k] == before.log[..k];
    }
  }

  lemma OneEventAStep(c: Config, s: State, step: Step)
    requires Enabled(s, step)
    ensures s.log <= Apply(c, s, step).log && |Apply(c, s, step).log| <= |s.log| + 1
  {
    hide Lookup, BookingOf, RowFor;
  }

  /** A handler whose last event is a successful read holds what it read. */
  lemma ReaderHolds(c: Config, s: State, g: nat, claim: Claim)
    requires HandlersScripted(c, s) && s.log != [] && s.log[|s.log| - 1] == EGot(g, claim)
    ensures Holds(s, g, claim.id)
  {
    var n := |s.log| - 1;
    HistoryOf(c, s, n, g);
    var script, past := Script(c, g, s.handlers[g]), EventsBy(s.log[..n], g);
    assert s.log == s.log[..n] + [s.log[n]];
    GrowEvents(s.log[..n], s.log[n], g);
    assert script == past + [EGot(g, claim)];
    assert script[|script| - 1] == EGot(g, claim);
  }

  /** A handler that has read an id and not finished holds it or has settled it. */
  lemma OpenReaderPaysOrHolds(c: Config, s: State, h: nat, claim: Claim)
    requires HandlersScripted(c, s) && EGot(h, claim) in s.log
    requires forall k :: 0 <= k < |s.log| && (s.log[k].ERefused? || s.log[k].EDelivered?) ==> s.log[k].h != h
    ensures Holds(s, h, claim.id) || h in Settlers(s.log, claim.id)
  {
    EventsByMember(s.log, h, EGot(h, claim));
    hide EventsBy;
    var p := s.handlers[h];
    ReadClaim(c, h, p, claim);
    if p.Refused? {
      EventsByMember(s.log, h, ERefused(h));
    } else if !p.Holding? {
      var paid := ESettled(h, claim.id, claim.entry.cost, p.receipt);
      assert Script(c, h, p)[1] == paid;
      EventsByMember(s.log, h, paid);
      var i :| 0 <= i < |s.log| && s.log[i] == paid;
      assert s.log[i].h in Settlers(s.log, claim.id);
    }
  }

  lemma ReadClaim(c: Config, h: nat, p: Phase, claim: Claim)
    requires EGot(h, claim) in Script(c, h, p)
    ensures p.Refused? ==> ERefused(h) in Script(c, h, p)
    ensures !p.Refused? ==> p.claim == claim
  {
    var script := Script(c, h, p);
    var i :| 0 <= i < |script| && script[i] == EGot(h, claim);
    if p.Refused? {
      assert script[|script| - 1] == ERefused(h);
    }
  }

  /**
   * The converse of NoOverlapSettlesOnce, with any hash: whenever two handlers of an id overlap in a run, some prefix
   * of that run can go on to settle the id at least twice. Overlap is all it takes.
   */
  lemma OverlapCanSettleTwice(c: Config, steps: seq<Step>, id: string)
    requires Exec(c, steps).Some? && !NoOverlap(Exec(c, steps).value.log, id)
    ensures exists n, more :: 0 <= n <= |steps| && SettlesTwice(c, steps[..n] + more, id)
  {
    hide Exec, SettleCount, FinishedBetween, GotId, Holds, Inv;
    var log := Exec(c, steps).value.log;
    var i, j := OverlapAt(log, id);
    hide NoOverlap;
    var n := PrefixWithLog(c, steps, j + 1);
    var prefix := steps[..n];
    var s := Exec(c, prefix).value;
    RunKeepsInv(c, prefix);
    OverlapInPrefix(log, i, j);
    assert s.log[i] == log[i] && s.log[j] == log[j];
    OverlapReached(c, s, i, id);
    var h, g, r := log[i].h, log[j].h, Receipt("", "");
    if Holds(s, h, id) {
      HoldersSettleTwice(c, prefix, h, g, id, r, r);
      assert SettlesTwice(c, steps[..n] + [Settle(h, r), Settle(g, r)], id);
    } else {
      HolderSettles(c, prefix, g, id, r);
      assert SettlesTwice(c, steps[..n] + [Settle(g, r)], id);
    }
  }

  lemma OverlapAt(log: seq<Event>, id: string) returns (i: nat, j: nat)
    requires !NoOverlap(log, id)
    ensures i < j < |log| && log[i].EGot? && log[j].EGot? && GotId(log[i], id) && GotId(log[j], id)
    ensures log[i].h != log[j].h && !FinishedBetween(log, i, j)
  {
    hide FinishedBetween;
    i, j :| 0 <= i < j < |log| && GotId(log[i], id) && GotId(log[j], id) && log[i].h != log[j].h
            && !FinishedBetween(log, i, j);
  }

  lemma OverlapInPrefix(log: seq<Event>, i: nat, j: nat)
    requires i < j < |log| && log[i].EGot? && !FinishedBetween(log, i, j)
    ensures !FinishedBetween(log[..j + 1], i, j)
  {
    var front := log[..j + 1];
    assert forall k :: 0 <= k <= j ==> front[k] == log[k];
  }

  /**
   * When the second of two overlapping reads has just happened, its handler holds the id and the first does or
   * settled it.
   */
  lemma OverlapReached(c: Config, s: State, i: nat, id: string)
    requires Inv(c, s) && i < |s.log| - 1 && GotId(s.log[i], id) && GotId(s.log[|s.log| - 1], id)
    requires s.log[i].h != s.log[|s.log| - 1].h && !FinishedBetween(s.log, i, |s.log| - 1)
    ensures Holds(s, s.log[|s.log| - 1].h, id)
    ensures Holds(s, s.log[i].h, id) || SettleCount(s.log, id) >= 1
  {
    HandlersOnScript(c, s);
    hide Inv, HandlersScripted, SettleCount, Settlers, Holds, FinishedBetween, LogJustified;
    ReaderHolds(c, s, s.log[|s.log| - 1].h, s.log[|s.log| - 1].claim);
    NeverFinished(c, s, i);
    OpenReaderPaysOrHolds(c, s, s.log[i].h, s.log[i].claim);
    if s.log[i].h in Settlers(s.log, id) {
      SettlerCounts(c, s, s.log[i].h, id);
    }
  }

  lemma NeverFinished(c: Config, s: State, i: nat)
    requires HandlersScripted(c, s) && i < |s.log| - 1 && s.log[i].EGot? && s.log[|s.log| - 1].EGot?
    requires !FinishedBetween(s.log, i, |s.log| - 1)
    ensures forall k :: 0 <= k < |s.log| && (s.log[k].ERefused? || s.log[k].EDelivered?) ==> s.log[k].h != s.log[i].h
  {
    hide HandlersScripted;
    forall k | 0 <= k < |s.log| && (s.log[k].ERefused? || s.log[k].EDelivered?)
      ensures s.log[k].h != s.log[i].h
    {
      if k < i {
        FinishedReadsNoMore(c, s, k, i);
      }
    }
  }

  lemma SettlerCounts(c: Config, s: State, h: nat, id: string)
    requires HandlersScripted(c, s) && h in Settlers(s.log, id)
    ensures SettleCount(s.log, id) >= 1
  {
    hide HandlersScripted, Settlers, SettleCount;
    assert s.log[..|s.log|] == s.log;
    CountsByPrefix(c, s, |s.log|, id);
  }

  /** A read comes first in a handler's script. */
  lemma ReadIsFirst(c: Config, h: nat, p: Phase, past: seq<Event>, e: Event)
    requires past + [e] <= Script(c, h, p) && e.EGot?
    ensures past == []
  {
    assert Script(c, h, p)[|past|] == e;
  }

  /** A handler that has finished reads no more. */
  lemma FinishedReadsNoMore(c: Config, s: State, k: nat, i: nat)
    requires HandlersScripted(c, s) && k < i < |s.log| && (s.log[k].ERefused? || s.log[k].EDelivered?)
    requires s.log[i].EGot?
    ensures s.log[k].h != s.log[i].h
  {
    var h := s.log[i].h;
    HistoryOf(c, s, i, h);
    ReadIsFirst(c, h, s.handlers[h], EventsBy(s.log[..i], h), s.log[i]);
    assert s.log[..i][k] == s.log[k];
    hide EventsBy, Script;
    EventsByMember(s.log[..i], h, s.log[k]);
  }
}
