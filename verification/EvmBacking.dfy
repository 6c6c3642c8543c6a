/**
 * The payment protocol of internal/handler/relay.go with the EVM settler of internal/settler/settler.go: what the
 * settlements of a run are worth to the merchant.
 */
module EvmBacking {
  import opened Basics
  import opened Cache
  import opened Hex
  import opened Abi
  import opened Protocol
  import opened Guarantees
  import E = Evm
  import T = Eip3009

  /** What each handler settled with: it was accepted for the very cost of the settlement, and its call runs later. */
  ghost predicate SettledWith(settings: E.Settings, keccak: seq<byte> -> Word, recover: E.Recovery, log: seq<Event>,
                              made: map<nat, T.Delivery>)
  {
    forall j :: 0 <= j < |log| && log[j].ESettled? ==>
      log[j].h in made && AcceptedFor(settings, keccak, recover, made[log[j].h], log[j].cost)
  }

  ghost predicate AcceptedFor(settings: E.Settings, keccak: seq<byte> -> Word, recover: E.Recovery, d: T.Delivery,
                              cost: int)
  {
    && E.Accepted(settings, d.payload, d.cost, d.now, keccak, recover, d.call)
    && d.now <= d.t && d.cost == cost
  }

  /** The accepted calls of a run, in the order of their settlements. */
  function Submissions(log: seq<Event>, made: map<nat, T.Delivery>): seq<T.Delivery> {
    if log == [] then []
    else
      var last := log[|log| - 1];
      Submissions(log[..|log| - 1], made) + if last.ESettled? && last.h in made then [made[last.h]] else []
  }

  function SettledCost(log: seq<Event>): int {
    if log == [] then 0
    else
      var last := log[|log| - 1];
      SettledCost(log[..|log| - 1]) + if last.ESettled? then last.cost else 0
  }

  lemma {:induction false} SubmissionsAccepted(settings: E.Settings, keccak: seq<byte> -> Word, recover: E.Recovery,
                                               log: seq<Event>, made: map<nat, T.Delivery>)
    requires SettledWith(settings, keccak, recover, log, made)
    ensures forall d :: d in Submissions(log, made) ==> AcceptedFor(settings, keccak, recover, d, d.cost)
    ensures T.Delivered(Submissions(log, made)) == SettledCost(log)
  {
    hide AcceptedFor;
    if log == [] {
    } else {
      var n := |log| - 1;
      SettledBefore(settings, keccak, recover, log, made);
      SubmissionsAccepted(settings, keccak, recover, log[..n], made);
      var front := Submissions(log[..n], made);
      if log[n].ESettled? {
        SettledAt(settings, keccak, recover, log, made, n);
        var d := made[log[n].h];
        CostAccepted(settings, keccak, recover, d, log[n].cost);
        assert Submissions(log, made) == front + [d];
        hide SettledWith, Submissions;
        DeliveredOneMore(front, d);
      } else {
        assert Submissions(log, made) == front + [] == front;
      }
    }
  }

  lemma SettledBefore(settings: E.Settings, keccak: seq<byte> -> Word, recover: E.Recovery, log: seq<Event>,
                      made: map<nat, T.Delivery>)
    requires SettledWith(settings, keccak, recover, log, made) && log != []
    ensures SettledWith(settings, keccak, recover, log[..|log| - 1], made)
  {
    hide AcceptedFor;
    assert forall j :: 0 <= j < |log| - 1 ==> log[..|log| - 1][j] == log[j];
  }

  lemma DeliveredOneMore(front: seq<T.Delivery>, d: T.Delivery)
    ensures T.Delivered(front + [d]) == T.Delivered(front) + d.cost
  {
    assert (front + [d])[..|front|] == front;
  }

  lemma CostAccepted(settings: E.Settings, keccak: seq<byte> -> Word, recover: E.Recovery, d: T.Delivery, cost: int)
    requires AcceptedFor(settings, keccak, recover, d, cost)
    ensures d.cost == cost && AcceptedFor(settings, keccak, recover, d, d.cost)
  {
  }

  /**
   * A delivered request was settled with a call accepted for a cost staged under its id, and that call is submitted.
   */
  lemma DeliverySubmitted(c: Config, s: State, settings: E.Settings, keccak: seq<byte> -> Word, recover: E.Recovery,
                          made: map<nat, T.Delivery>, j: nat) returns (entry: Entry)
    requires Reachable(c, s) && SettledWith(settings, keccak, recover, s.log, made) && j < |s.log|
    requires s.log[j].EDelivered?
    ensures EStaged(s.log[j].id, entry) in s.log && s.log[j].h in made
    ensures AcceptedFor(settings, keccak, recover, made[s.log[j].h], entry.cost)
    ensures made[s.log[j].h] in Submissions(s.log, made)
  {
    var k: nat;
    k, entry := DeliverySettled(c, s, j);
    hide Reachable, SettledWith, AcceptedFor;
    SettledAt(settings, keccak, recover, s.log, made, k);
    SubmissionOf(s.log, made, k);
  }

  lemma SettledAt(settings: E.Settings, keccak: seq<byte> -> Word, recover: E.Recovery, log: seq<Event>,
                  made: map<nat, T.Delivery>, k: nat)
    requires SettledWith(settings, keccak, recover, log, made) && k < |log| && log[k].ESettled?
    ensures log[k].h in made && AcceptedFor(settings, keccak, recover, made[log[k].h], log[k].cost)
  {
    hide AcceptedFor;
  }

  lemma {:induction false} SubmissionOf(log: seq<Event>, made: map<nat, T.Delivery>, k: nat)
    requires k < |log| && log[k].ESettled? && log[k].h in made
    ensures made[log[k].h] in Submissions(log, made)
  {
    if k == |log| - 1 {
      assert Submissions(log, made)[|Submissions(log, made)| - 1] == made[log[k].h];
    } else {
      SubmissionOf(log[..|log| - 1], made, k);
    }
  }

  // ----- any order of the calls -----

  lemma {:induction false} DeliveredWithout(ds: seq<T.Delivery>, i: nat)
    requires i < |ds|
    ensures T.Delivered(ds) == T.Delivered(ds[..i] + ds[i + 1..]) + ds[i].cost
  {
    var n := |ds| - 1;
    if i == n {
      assert ds[..i] + ds[i + 1..] == ds[..n];
    } else {
      DeliveredWithout(ds[..n], i);
      var rest := ds[..i] + ds[i + 1..];
      assert rest[..|rest| - 1] == ds[..n][..i] + ds[..n][i + 1..];
      assert rest[|rest| - 1] == ds[n];
    }
  }

  /** The total does not depend on the order. */
  lemma {:induction false} DeliveredByMultiset(a: seq<T.Delivery>, b: seq<T.Delivery>)
    requires multiset(a) == multiset(b)
    ensures T.Delivered(a) == T.Delivered(b)
  {
    if a == [] {
      assert |multiset(b)| == 0;
      assert b == [];
    } else {
      var n := |a| - 1;
      TakenOut(a, n);
      assert a[..n] + a[n + 1..] == a[..n];
      assert a[n] in multiset(b);
      var i :| 0 <= i < |b| && b[i] == a[n];
      TakenOut(b, i);
      DeliveredWithout(b, i);
      hide T.Delivered;
      assert multiset(a[..n]) == multiset(a) - multiset{a[n]};
      DeliveredByMultiset(a[..n], b[..i] + b[i + 1..]);
      DeliveredWithout(a, n);
    }
  }

  lemma TakenOut(ds: seq<T.Delivery>, i: nat)
    requires i < |ds|
    ensures multiset(ds[..i] + ds[i + 1..]) == multiset(ds) - multiset{ds[i]}
  {
    assert ds == ds[..i] + [ds[i]] + ds[i + 1..];
  }

  /**
   * In every run settled over EVM, with the accepted calls run in any order, the merchant gains at most what was
   * settled, and gains exactly that if and only if each call has an unused authorization of its own that can be
   * collected when its turn comes.
   */
  lemma SettlementsAreCollectedExactly(c: Config, s: State, settings: E.Settings, keccak: seq<byte> -> Word,
                                       recover: E.Recovery, made: map<nat, T.Delivery>, token: T.Token,
                                       ds: seq<T.Delivery>)
    requires Reachable(c, s) && SettledWith(settings, keccak, recover, s.log, made) && IsHexAddress(settings.payTo)
    requires multiset(ds) == multiset(Submissions(s.log, made))
    ensures var merchant, after := HexToAddress(settings.payTo), T.AfterAll(settings, keccak, recover, token, ds);
            var gain := after.Balance(merchant) - token.Balance(merchant);
            && 0 <= gain <= SettledCost(s.log)
            && (gain == SettledCost(s.log) <==> T.AllCollected(settings, keccak, recover, token, ds, merchant))
    ensures forall j :: 0 <= j < |s.log| && s.log[j].ESettled? ==>
              exists entry :: EStaged(s.log[j].id, entry) in s.log && s.log[j].cost == entry.cost
  {
    SubmissionsAccepted(settings, keccak, recover, s.log, made);
    DeliveredByMultiset(ds, Submissions(s.log, made));
    CallsAccepted(settings, keccak, recover, ds, Submissions(s.log, made));
    hide SettledWith, Submissions, T.Delivered, T.AllAccepted, T.AllCollected, T.AfterAll, IsHexAddress, HexToAddress;
    T.GainExactly(settings, keccak, recover, token, ds);
    forall j | 0 <= j < |s.log| && s.log[j].ESettled?
      ensures exists entry :: EStaged(s.log[j].id, entry) in s.log && s.log[j].cost == entry.cost
    {
      var entry := SettledCostIsStaged(c, s, j);
    }
  }

  lemma CallsAccepted(settings: E.Settings, keccak: seq<byte> -> Word, recover: E.Recovery, ds: seq<T.Delivery>,
                      all: seq<T.Delivery>)
    requires multiset(ds) == multiset(all)
    requires forall d :: d in all ==> AcceptedFor(settings, keccak, recover, d, d.cost)
    ensures T.AllAccepted(settings, keccak, recover, ds)
  {
    hide E.Accepted;
    forall i | 0 <= i < |ds|
      ensures AcceptedFor(settings, keccak, recover, ds[i], ds[i].cost)
    {
      assert ds[i] in multiset(ds);
      assert ds[i] in multiset(all);
    }
  }
}
