/**
 * The payment protocol of internal/handler/relay.go with the Solana settler of internal/settler/solana.go: what the
 * deliveries of a run are worth to the merchant.
 */
module SolanaBacking {
  import opened Basics
  import opened Cache
  import opened Protocol
  import opened Guarantees
  import opened X402
  import S = Solana

  /** The transaction each handler settled with; it was accepted for the very cost and id of the settlement. */
  ghost predicate SettledWith(settings: S.Settings, log: seq<Event>, paid: map<nat, S.Transaction>) {
    forall j :: 0 <= j < |log| && log[j].ESettled? ==>
      log[j].h in paid && S.Acceptable(settings, paid[log[j].h], log[j].cost, log[j].id)
  }

  function DeliveredIds(log: seq<Event>): set<string> {
    set j | 0 <= j < |log| && log[j].EDelivered? :: log[j].id
  }

  /** The delivered ids that a transaction paid for. */
  function IdsPaidWith(log: seq<Event>, paid: map<nat, S.Transaction>, tx: S.Transaction): set<string> {
    set j | 0 <= j < |log| && log[j].EDelivered? && log[j].h in paid && paid[log[j].h] == tx :: log[j].id
  }

  /** Each delivery was settled by an accepted transaction of its handler, at a cost staged under its id. */
  lemma DeliveryBacked(c: Config, s: State, settings: S.Settings, paid: map<nat, S.Transaction>, j: nat)
    returns (entry: Entry)
    requires Reachable(c, s) && SettledWith(settings, s.log, paid) && j < |s.log| && s.log[j].EDelivered?
    ensures EStaged(s.log[j].id, entry) in s.log
    ensures s.log[j].h in paid && S.Acceptable(settings, paid[s.log[j].h], entry.cost, s.log[j].id)
  {
    var k: nat;
    k, entry := DeliverySettled(c, s, j);
    hide Reachable, SettledWith, S.Acceptable;
    SettledAt(settings, s.log, paid, k);
  }

  lemma SettledAt(settings: S.Settings, log: seq<Event>, paid: map<nat, S.Transaction>, k: nat)
    requires SettledWith(settings, log, paid) && k < |log| && log[k].ESettled?
    ensures log[k].h in paid && S.Acceptable(settings, paid[log[k].h], log[k].cost, log[k].id)
  {
    hide S.Acceptable;
  }

  /**
   * In every run a transaction pays for at most as many delivered requests as it has memos, so for one if it has one.
   */
  lemma TransactionBacksFew(c: Config, s: State, settings: S.Settings, paid: map<nat, S.Transaction>, tx: S.Transaction)
    requires Reachable(c, s) && SettledWith(settings, s.log, paid)
    ensures |IdsPaidWith(s.log, paid, tx)| <= S.MemoCount(tx.instructions)
  {
    hide Reachable, SettledWith, SolanaMemo, S.MemoCount;
    forall id | id in IdsPaidWith(s.log, paid, tx)
      ensures S.MemoCreate(SolanaMemo(id)) in tx.instructions
    {
      var j :| 0 <= j < |s.log| && s.log[j].EDelivered? && s.log[j].h in paid && paid[s.log[j].h] == tx
               && s.log[j].id == id;
      var entry := DeliveryBacked(c, s, settings, paid, j);
      MemoPresent(settings, tx, entry.cost, id);
    }
    S.MemosBoundIds(tx.instructions, IdsPaidWith(s.log, paid, tx));
  }

  lemma MemoPresent(settings: S.Settings, tx: S.Transaction, cost: int, id: string)
    requires S.Acceptable(settings, tx, cost, id)
    ensures S.MemoCreate(SolanaMemo(id)) in tx.instructions
  {
    var t :| S.AcceptableBy(settings, tx, cost, id, t);
  }

  // ----- what the deliveries bring in -----

  ghost function Sum(costs: map<string, int>): int {
    if costs == map[] then 0
    else
      var id :| id in costs;
      costs[id] + Sum(costs - {id})
  }

  lemma {:induction false} SumWithout(costs: map<string, int>, id: string)
    requires id in costs
    ensures Sum(costs) == costs[id] + Sum(costs - {id})
    decreases |costs|
  {
    var first :| first in costs && Sum(costs) == costs[first] + Sum(costs - {first});
    if first == id {
    } else {
      SumWithout(costs - {first}, id);
      SumWithout(costs - {id}, first);
      assert costs - {first} - {id} == costs - {id} - {first};
    }
  }

  /** Transactions that landed, in order. */
  function Landed(ledger: S.TokenLedger, chain: seq<S.Transaction>): Option<S.TokenLedger> {
    if chain == [] then Some(ledger)
    else
      match Landed(ledger, chain[..|chain| - 1])
      case None => None
      case Some(before) => S.RunAll(before, chain[|chain| - 1].instructions, 6, chain[|chain| - 1].signers)
  }

  /** An accepted transaction for one request that takes its money from somewhere else than the merchant's account. */
  ghost predicate Proper(settings: S.Settings, tx: S.Transaction) {
    && S.MemoCount(tx.instructions) <= 1
    && exists cost, id, t :: S.AcceptableBy(settings, tx, cost, id, t) && t.source != settings.payToTokenAccount
  }

  ghost predicate Covered(settings: S.Settings, chain: seq<S.Transaction>, cost: int, id: string) {
    exists i :: 0 <= i < |chain| && S.Acceptable(settings, chain[i], cost, id)
  }

  /** A proper transaction brings in exactly what it is accepted for, for at most one of the ids. */
  lemma ProperPays(settings: S.Settings, tx: S.Transaction, ledger: S.TokenLedger, ledger': S.TokenLedger)
    requires Proper(settings, tx) && S.RunAll(ledger, tx.instructions, 6, tx.signers) == Some(ledger')
    ensures settings.payToTokenAccount in ledger && settings.payToTokenAccount in ledger'
    ensures var gain := ledger'[settings.payToTokenAccount].balance - ledger[settings.payToTokenAccount].balance;
            gain > 0 && forall cost, id :: S.Acceptable(settings, tx, cost, id) ==> cost == gain
  {
    var cost, id, t :| S.AcceptableBy(settings, tx, cost, id, t) && t.source != settings.payToTokenAccount;
    S.AcceptedPaysExactly(settings, tx, cost, id, t, ledger);
    hide SolanaMemo, S.RunAll, S.Supported;
    forall cost', id' | S.Acceptable(settings, tx, cost', id')
      ensures cost' == cost
    {
      var t' :| S.AcceptableBy(settings, tx, cost', id', t');
    }
  }

  lemma OneIdEach(settings: S.Settings, tx: S.Transaction, cost: int, id: string, cost': int, id': string)
    requires S.MemoCount(tx.instructions) <= 1
    requires S.Acceptable(settings, tx, cost, id) && S.Acceptable(settings, tx, cost', id')
    ensures id == id'
  {
    MemoPresent(settings, tx, cost, id);
    MemoPresent(settings, tx, cost', id');
    hide S.Acceptable, SolanaMemo, S.MemoCount;
    assert id != id' ==> |{id, id'}| == 2;
    S.MemosBoundIds(tx.instructions, {id, id'});
  }

  /**
   * When proper transactions land, the merchant gains at least what the requests they cover cost, each counted once.
   */
  lemma {:induction false} LandedCovers(settings: S.Settings, ledger: S.TokenLedger, chain: seq<S.Transaction>,
                                        costs: map<string, int>)
    requires Landed(ledger, chain).Some? && settings.payToTokenAccount in ledger
    requires forall i :: 0 <= i < |chain| ==> Proper(settings, chain[i])
    requires forall id :: id in costs ==> Covered(settings, chain, costs[id], id)
    ensures settings.payToTokenAccount in Landed(ledger, chain).value
    ensures Landed(ledger, chain).value[settings.payToTokenAccount].balance
            >= ledger[settings.payToTokenAccount].balance + Sum(costs)
  {
    hide S.Acceptable, Proper, S.RunAll, Sum;
    if chain == [] {
      assert forall cost, id :: !Covered(settings, chain, cost, id);
      assert costs == map[];
      EmptySum();
    } else {
      var n := |chain| - 1;
      var front, tx := chain[..n], chain[n];
      ProperPays(settings, tx, Landed(ledger, front).value, Landed(ledger, chain).value);
      if id :| id in costs && S.Acceptable(settings, tx, costs[id], id) {
        OthersCovered(settings, chain, costs, id);
        LandedCovers(settings, ledger, front, costs - {id});
        SumWithout(costs, id);
      } else {
        forall id | id in costs
          ensures Covered(settings, front, costs[id], id)
        {
          CoveredBefore(settings, chain, costs[id], id);
        }
        LandedCovers(settings, ledger, front, costs);
      }
    }
  }

  lemma EmptySum()
    ensures Sum(map[]) == 0
  {
  }

  lemma CoveredBefore(settings: S.Settings, chain: seq<S.Transaction>, cost: int, id: string)
    requires chain != [] && Covered(settings, chain, cost, id) && !S.Acceptable(settings, chain[|chain| - 1], cost, id)
    ensures Covered(settings, chain[..|chain| - 1], cost, id)
  {
    hide S.Acceptable;
    var i :| 0 <= i < |chain| && S.Acceptable(settings, chain[i], cost, id);
    assert chain[..|chain| - 1][i] == chain[i];
  }

  lemma OthersCovered(settings: S.Settings, chain: seq<S.Transaction>, costs: map<string, int>, id: string)
    requires chain != [] && Proper(settings, chain[|chain| - 1])
    requires id in costs && S.Acceptable(settings, chain[|chain| - 1], costs[id], id)
    requires forall other :: other in costs ==> Covered(settings, chain, costs[other], other)
    ensures forall other :: other in costs - {id} ==> Covered(settings, chain[..|chain| - 1], costs[other], other)
  {
    hide S.Acceptable, Covered;
    forall other | other in costs - {id}
      ensures Covered(settings, chain[..|chain| - 1], costs[other], other)
    {
      if S.Acceptable(settings, chain[|chain| - 1], costs[other], other) {
        OneIdEach(settings, chain[|chain| - 1], costs[id], id, costs[other], other);
      }
      CoveredBefore(settings, chain, costs[other], other);
    }
  }

  /** The staged cost of every delivered id. */
  ghost predicate DeliveredCosts(log: seq<Event>, costs: map<string, int>) {
    && costs.Keys == DeliveredIds(log)
    && forall id :: id in costs ==> exists entry :: StagedAs(log, id, entry) && costs[id] == entry.cost
  }

  /**
   * In every run settled over Solana in which no ids clash, with proper transactions that all landed, the merchant has
   * gained at least the staged costs of all delivered requests, whatever the handlers' interleaving.
   */
  lemma DeliveriesAreCovered(c: Config, s: State, settings: S.Settings, paid: map<nat, S.Transaction>,
                             ledger: S.TokenLedger, chain: seq<S.Transaction>, costs: map<string, int>)
    requires Reachable(c, s) && NoClash(c, s.stamps) && SettledWith(settings, s.log, paid)
    requires DeliveredCosts(s.log, costs)
    requires Landed(ledger, chain).Some? && settings.payToTokenAccount in ledger
    requires forall h :: h in paid ==> paid[h] in chain
    requires forall i :: 0 <= i < |chain| ==> Proper(settings, chain[i])
    ensures settings.payToTokenAccount in Landed(ledger, chain).value
    ensures Landed(ledger, chain).value[settings.payToTokenAccount].balance
            >= ledger[settings.payToTokenAccount].balance + Sum(costs)
  {
    ReachableFresh(c, s);
    hide Reachable, NoClash, SettledWith, Proper, S.Acceptable, Landed, StagedAs, Sum, LogFresh;
    forall id | id in costs
      ensures Covered(settings, chain, costs[id], id)
    {
      var j :| 0 <= j < |s.log| && s.log[j].EDelivered? && s.log[j].id == id;
      var entry := DeliveryBacked(c, s, settings, paid, j);
      StagedAsOnly(s.log, id, entry);
      var staged :| StagedAs(s.log, id, staged) && costs[id] == staged.cost;
      OneStaged(s.log, id, entry, staged);
      var i :| 0 <= i < |chain| && chain[i] == paid[s.log[j].h];
    }
    LandedCovers(settings, ledger, chain, costs);
  }

  lemma OneStaged(log: seq<Event>, id: string, a: Entry, b: Entry)
    requires StagedAs(log, id, a) && StagedAs(log, id, b)
    ensures a == b
  {
  }
}
