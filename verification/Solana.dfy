/** The Solana settler of internal/settler/solana.go: transaction validation, and waiting for confirmation. */
module Solana {
  import opened Basics
  import opened X402

  /** A public key, as the number its 32 bytes spell. */
  type PublicKey = nat

  const ZERO_KEY: PublicKey := 0

  /** A decoded transferChecked; the library leaves numbers it could not decode unset. */
  datatype Transfer = Transfer(
    amount: Option<nat>, decimals: Option<nat>, source: PublicKey, mint: PublicKey, destination: PublicKey,
    owner: PublicKey)

  /** An instruction with its program and accounts resolved and its data decoded, as far as that goes. */
  datatype Instruction =
    | UnresolvedProgram
    | UnresolvedAccounts
    | ComputeBudget
    | MemoUndecodable
    | MemoOther
    | MemoCreate(message: string)
    | TokenUndecodable
    | TokenOther
    | TransferChecked(transfer: Transfer)
    | OtherProgram(program: PublicKey)

  datatype Transaction = Transaction(
    signatures: seq<string>, lookups: nat, signaturesVerify: bool, instructions: seq<Instruction>,
    signers: set<PublicKey>)

  datatype Settings = Settings(mint: PublicKey, payToTokenAccount: PublicKey)

  datatype Fault =
    | MissingSignature
    | LookupTables
    | BadSignature
    | BadAmount
    | AmountTooLarge
    | Unsupported(index: nat)
    | MissingMemo
    | NotOneTransfer
    | AmountMismatch
    | DecimalsMismatch
    | MintMismatch
    | DestinationMismatch
    | PayerNotSigner

  // ----- the declarative specification -----

  /** Only ComputeBudget, memo-create and transferChecked instructions are supported. */
  predicate Supported(ix: Instruction) {
    ix.ComputeBudget? || ix.MemoCreate? || ix.TransferChecked?
  }

  predicate EnvelopeOk(tx: Transaction, cost: int) {
    && tx.signatures != []
    && tx.lookups == 0
    && tx.signaturesVerify
    && 0 < cost < TWO_63
  }

  predicate PaysMerchant(s: Settings, t: Transfer, cost: int, signers: set<PublicKey>) {
    && t.amount.Some? && t.amount.value == cost
    && t.decimals == Some(6)
    && t.mint == s.mint
    && t.destination == s.payToTokenAccount
    && t.owner != ZERO_KEY
    && t.owner in signers
  }

  /** Position `i` holds the only transfer. */
  predicate OnlyTransferAt(ixs: seq<Instruction>, i: int) {
    0 <= i < |ixs| && ixs[i].TransferChecked? && forall j :: 0 <= j < |ixs| && ixs[j].TransferChecked? ==> j == i
  }

  /** The transaction pays `cost` for `reqID`, by its transfer `t`. */
  ghost predicate AcceptableBy(s: Settings, tx: Transaction, cost: int, reqID: string, t: Transfer) {
    && EnvelopeOk(tx, cost)
    && (forall i :: 0 <= i < |tx.instructions| ==> Supported(tx.instructions[i]))
    && MemoCreate(SolanaMemo(reqID)) in tx.instructions
    && (exists i :: OnlyTransferAt(tx.instructions, i) && tx.instructions[i].transfer == t)
    && PaysMerchant(s, t, cost, tx.signers)
  }

  ghost predicate Acceptable(s: Settings, tx: Transaction, cost: int, reqID: string) {
    exists t :: AcceptableBy(s, tx, cost, reqID, t)
  }

  /** The accumulators of the loop after the first `n` instructions. */
  ghost predicate Scanned(ixs: seq<Instruction>, n: nat, memo: string, memoOK: bool, count: nat, last: Option<Transfer>)
    requires n <= |ixs|
  {
    && (forall i :: 0 <= i < n ==> Supported(ixs[i]))
    && (memoOK <==> MemoCreate(memo) in ixs[..n])
    && (count == 0 <==> forall i :: 0 <= i < n ==> !ixs[i].TransferChecked?)
    && (count == 1 ==> exists i :: OnlyTransferAt(ixs[..n], i))
    && (forall i :: OnlyTransferAt(ixs[..n], i) ==> count == 1 && last == Some(ixs[i].transfer))
    && (last.Some? <==> count > 0)
  }

  lemma ScanStart(ixs: seq<Instruction>, memo: string)
    ensures Scanned(ixs, 0, memo, false, 0, None)
  {
  }

  lemma ScanOneMore(ixs: seq<Instruction>, n: nat, memo: string, memoOK: bool, count: nat, last: Option<Transfer>)
    requires n < |ixs| && Scanned(ixs, n, memo, memoOK, count, last) && Supported(ixs[n])
    ensures Scanned(ixs, n + 1, memo, memoOK || ixs[n] == MemoCreate(memo),
                    if ixs[n].TransferChecked? then count + 1 else count,
                    if ixs[n].TransferChecked? then Some(ixs[n].transfer) else last)
  {
    var front, all := ixs[..n], ixs[..n + 1];
    assert all == front + [ixs[n]];
    assert forall i :: 0 <= i < n ==> all[i] == front[i] == ixs[i];
    forall i
      ensures OnlyTransferAt(all, i) <==>
              if ixs[n].TransferChecked? then i == n && count == 0 else OnlyTransferAt(front, i)
    {
      if ixs[n].TransferChecked? && count == 0 {
        assert i == n ==> OnlyTransferAt(all, i);
      }
      if OnlyTransferAt(all, i) && ixs[n].TransferChecked? {
        assert all[n].TransferChecked?;
      }
    }
    if ixs[n].TransferChecked? {
      assert count == 0 ==> OnlyTransferAt(all, n);
    } else if count == 1 {
      var i :| OnlyTransferAt(front, i);
      assert OnlyTransferAt(all, i);
    }
  }

  /** What the finished accumulators say about the whole transaction. */
  lemma ScanComplete(s: Settings, tx: Transaction, cost: int, reqID: string, memoOK: bool, count: nat,
                     last: Option<Transfer>)
    requires EnvelopeOk(tx, cost) && Scanned(tx.instructions, |tx.instructions|, SolanaMemo(reqID), memoOK, count, last)
    ensures forall i :: 0 <= i < |tx.instructions| ==> Supported(tx.instructions[i])
    ensures memoOK <==> MemoCreate(SolanaMemo(reqID)) in tx.instructions
    ensures count == 1 ==> last.Some?
    ensures forall t :: OnlyTransfer(tx.instructions, t) <==> count == 1 && last == Some(t)
    ensures forall t :: AcceptableBy(s, tx, cost, reqID, t) <==>
              memoOK && count == 1 && last == Some(t) && PaysMerchant(s, t, cost, tx.signers)
  {
    hide SolanaMemo, PaysMerchant;
    assert tx.instructions[..|tx.instructions|] == tx.instructions;
  }

  /** The supported instructions end at `i`. */
  predicate FirstUnsupported(ixs: seq<Instruction>, i: int) {
    0 <= i < |ixs| && !Supported(ixs[i]) && forall j :: 0 <= j < i ==> Supported(ixs[j])
  }

  /** The only transfer of the transaction, if there is one. */
  ghost predicate OnlyTransfer(ixs: seq<Instruction>, t: Transfer) {
    exists i :: OnlyTransferAt(ixs, i) && ixs[i].transfer == t
  }

  /** What each fault says of the transaction, by itself. */
  ghost predicate Faulty(s: Settings, tx: Transaction, cost: int, reqID: string, e: Fault) {
    var ixs := tx.instructions;
    match e
    case MissingSignature => tx.signatures == []
    case LookupTables => tx.lookups != 0
    case BadSignature => !tx.signaturesVerify
    case BadAmount => cost <= 0 || cost >= TWO_64
    case AmountTooLarge => cost >= TWO_63
    case Unsupported(i) => FirstUnsupported(ixs, i)
    case MissingMemo => MemoCreate(SolanaMemo(reqID)) !in ixs
    case NotOneTransfer => forall t :: !OnlyTransfer(ixs, t)
    case AmountMismatch => exists t :: OnlyTransfer(ixs, t) && (t.amount.None? || t.amount.value != cost)
    case DecimalsMismatch => exists t :: OnlyTransfer(ixs, t) && t.decimals != Some(6)
    case MintMismatch => exists t :: OnlyTransfer(ixs, t) && t.mint != s.mint
    case DestinationMismatch => exists t :: OnlyTransfer(ixs, t) && t.destination != s.payToTokenAccount
    case PayerNotSigner => exists t :: OnlyTransfer(ixs, t) && (t.owner == ZERO_KEY || t.owner !in tx.signers)
  }

  /** The order in which the faults are looked for. */
  function Rank(e: Fault): nat {
    match e
    case MissingSignature => 0
    case LookupTables => 1
    case BadSignature => 2
    case BadAmount => 3
    case AmountTooLarge => 4
    case Unsupported(_) => 5
    case MissingMemo => 6
    case NotOneTransfer => 7
    case AmountMismatch => 8
    case DecimalsMismatch => 9
    case MintMismatch => 10
    case DestinationMismatch => 11
    case PayerNotSigner => 12
  }

  /** The transaction has this fault, and none that is looked for before it. */
  ghost predicate FirstFault(s: Settings, tx: Transaction, cost: int, reqID: string, e: Fault) {
    Faulty(s, tx, cost, reqID, e) && forall other :: Rank(other) < Rank(e) ==> !Faulty(s, tx, cost, reqID, other)
  }

  /** A transaction is acceptable exactly when it has no fault, and otherwise has exactly one first fault. */
  lemma AcceptableExactly(s: Settings, tx: Transaction, cost: int, reqID: string)
    ensures Acceptable(s, tx, cost, reqID) <==> forall e :: !Faulty(s, tx, cost, reqID, e)
    ensures forall e, e' :: FirstFault(s, tx, cost, reqID, e) && FirstFault(s, tx, cost, reqID, e') ==> e == e'
  {
    if Acceptable(s, tx, cost, reqID) {
      var t :| AcceptableBy(s, tx, cost, reqID, t);
      NoFault(s, tx, cost, reqID, t);
    }
    if forall e :: !Faulty(s, tx, cost, reqID, e) {
      FaultlessAcceptable(s, tx, cost, reqID);
    }
    forall e, e' | FirstFault(s, tx, cost, reqID, e) && FirstFault(s, tx, cost, reqID, e')
      ensures e == e'
    {
      SameFirstFault(s, tx, cost, reqID, e, e');
    }
  }

  lemma SameFirstFault(s: Settings, tx: Transaction, cost: int, reqID: string, e: Fault, e': Fault)
    requires FirstFault(s, tx, cost, reqID, e) && FirstFault(s, tx, cost, reqID, e')
    ensures e == e'
  {
    hide OnlyTransfer, SolanaMemo;
    assert Rank(e) == Rank(e');
  }

  lemma NoFault(s: Settings, tx: Transaction, cost: int, reqID: string, t: Transfer)
    requires AcceptableBy(s, tx, cost, reqID, t)
    ensures forall e :: !Faulty(s, tx, cost, reqID, e)
  {
    hide SolanaMemo;
    assert OnlyTransfer(tx.instructions, t);
    assert forall t' :: OnlyTransfer(tx.instructions, t') ==> t' == t;
  }

  lemma FaultlessAcceptable(s: Settings, tx: Transaction, cost: int, reqID: string)
    requires forall e :: !Faulty(s, tx, cost, reqID, e)
    ensures Acceptable(s, tx, cost, reqID)
  {
    hide OnlyTransferAt, SolanaMemo;
    assert !Faulty(s, tx, cost, reqID, MissingSignature) && !Faulty(s, tx, cost, reqID, LookupTables);
    assert !Faulty(s, tx, cost, reqID, BadSignature) && !Faulty(s, tx, cost, reqID, BadAmount);
    assert !Faulty(s, tx, cost, reqID, AmountTooLarge) && !Faulty(s, tx, cost, reqID, MissingMemo);
    assert !Faulty(s, tx, cost, reqID, NotOneTransfer) && !Faulty(s, tx, cost, reqID, AmountMismatch);
    assert !Faulty(s, tx, cost, reqID, DecimalsMismatch) && !Faulty(s, tx, cost, reqID, MintMismatch);
    assert !Faulty(s, tx, cost, reqID, DestinationMismatch) && !Faulty(s, tx, cost, reqID, PayerNotSigner);
    forall i | 0 <= i < |tx.instructions|
      ensures Supported(tx.instructions[i])
    {
      NoneUnsupported(s, tx, cost, reqID, i);
    }
    var t :| OnlyTransfer(tx.instructions, t);
    assert AcceptableBy(s, tx, cost, reqID, t);
  }

  lemma NoneUnsupported(s: Settings, tx: Transaction, cost: int, reqID: string, i: nat)
    requires forall e :: !Faulty(s, tx, cost, reqID, e)
    requires i < |tx.instructions|
    ensures Supported(tx.instructions[i])
  {
    hide OnlyTransfer, SolanaMemo;
    forall j | 0 <= j < i
      ensures Supported(tx.instructions[j])
    {
      NoneUnsupported(s, tx, cost, reqID, j);
    }
    assert !Faulty(s, tx, cost, reqID, Unsupported(i));
  }

  lemma FaultRefuses(s: Settings, tx: Transaction, cost: int, reqID: string)
    ensures forall e, t :: FirstFault(s, tx, cost, reqID, e) ==> !AcceptableBy(s, tx, cost, reqID, t)
  {
    hide AcceptableBy, FirstFault;
    forall e, t | FirstFault(s, tx, cost, reqID, e)
      ensures !AcceptableBy(s, tx, cost, reqID, t)
    {
      if AcceptableBy(s, tx, cost, reqID, t) {
        NoFault(s, tx, cost, reqID, t);
        FirstFaultIsFault(s, tx, cost, reqID, e);
      }
    }
  }

  lemma FirstFaultIsFault(s: Settings, tx: Transaction, cost: int, reqID: string, e: Fault)
    requires FirstFault(s, tx, cost, reqID, e)
    ensures Faulty(s, tx, cost, reqID, e)
  {
    hide Faulty;
  }

  /** What holds of every acceptable transaction. */
  lemma AcceptableSays(s: Settings, tx: Transaction, cost: int, reqID: string)
    ensures forall t :: AcceptableBy(s, tx, cost, reqID, t) ==>
              && tx.signatures != [] && tx.lookups == 0 && tx.signaturesVerify && 0 < cost < TWO_63
              && MemoCreate("x402:" + reqID) in tx.instructions
              && (forall ix :: ix in tx.instructions ==> ix.ComputeBudget? || ix.MemoCreate? || ix.TransferChecked?)
              && t.owner != ZERO_KEY && t.owner in tx.signers
  {
  }

  /** validateTransaction: the transfer's owner for an acceptable transaction, and its first fault for any other. */
  method ValidateTransaction(s: Settings, tx: Transaction, cost: int, reqID: string)
    returns (r: Result<PublicKey, Fault>)
    ensures r.Failure? ==> FirstFault(s, tx, cost, reqID, r.error)
    ensures r.Success? <==> Acceptable(s, tx, cost, reqID)
    ensures forall t :: AcceptableBy(s, tx, cost, reqID, t) ==> r == Success(t.owner)
    ensures r.Success? ==>
              && tx.signatures != [] && tx.lookups == 0 && tx.signaturesVerify && 0 < cost < TWO_63
              && MemoCreate("x402:" + reqID) in tx.instructions
              && (forall ix :: ix in tx.instructions ==> ix.ComputeBudget? || ix.MemoCreate? || ix.TransferChecked?)
              && r.value != ZERO_KEY && r.value in tx.signers
  {
    AcceptableSays(s, tx, cost, reqID);
    hide SolanaMemo, Scanned, AcceptableBy, OnlyTransferAt, OnlyTransfer;
    FaultRefuses(s, tx, cost, reqID);
    if |tx.signatures| == 0 {
      return Failure(MissingSignature);
    }
    if tx.lookups != 0 {
      return Failure(LookupTables);
    }
    if !tx.signaturesVerify {
      return Failure(BadSignature);
    }
    if cost <= 0 || cost >= TWO_64 {
      return Failure(BadAmount);
    }
    if cost > TWO_63 - 1 {
      return Failure(AmountTooLarge);
    }
    var expectedMemo := SolanaMemo(reqID);
    assert EnvelopeOk(tx, cost);
    hide EnvelopeOk;
    ScanStart(tx.instructions, expectedMemo);
    var transfer: Option<Transfer> := None;
    var payer: PublicKey := ZERO_KEY;
    var memoOK := false;
    var transferCount := 0;
    for i := 0 to |tx.instructions|
      invariant forall k :: 0 <= k < i ==> Supported(tx.instructions[k])
      invariant Scanned(tx.instructions, i, expectedMemo, memoOK, transferCount, transfer)
      invariant transfer.Some? ==> payer == transfer.value.owner
    {
      var ix := tx.instructions[i];
      if Supported(ix) {
        ScanOneMore(tx.instructions, i, expectedMemo, memoOK, transferCount, transfer);
      }
      match ix {
        case ComputeBudget =>
        case MemoCreate(message) =>
          if message == expectedMemo {
            memoOK := true;
          }
        case TransferChecked(t) =>
          transferCount := transferCount + 1;
          transfer := Some(t);
          payer := t.owner;
        case _ =>
          return Failure(Unsupported(i));
      }
    }
    ScanComplete(s, tx, cost, reqID, memoOK, transferCount, transfer);
    if !memoOK {
      return Failure(MissingMemo);
    }
    if transferCount != 1 || transfer.None? {
      return Failure(NotOneTransfer);
    }
    var t := transfer.value;
    if t.amount.None? || t.amount.value != cost {
      return Failure(AmountMismatch);
    }
    if t.decimals != Some(6) {
      return Failure(DecimalsMismatch);
    }
    if t.mint != s.mint {
      return Failure(MintMismatch);
    }
    if t.destination != s.payToTokenAccount {
      return Failure(DestinationMismatch);
    }
    if payer == ZERO_KEY || payer !in tx.signers {
      return Failure(PayerNotSigner);
    }
    return Success(payer);
  }

  // ----- order and ComputeBudget do not matter -----

  /** The instructions other than ComputeBudget, with their multiplicities. */
  function Essential(ixs: seq<Instruction>): multiset<Instruction> {
    multiset(ixs)[ComputeBudget := 0]
  }

  lemma {:induction false} SingleOccurrence(ixs: seq<Instruction>, x: Instruction, i: int)
    requires 0 <= i < |ixs| && ixs[i] == x
    ensures multiset(ixs)[x] == 1 <==> forall j :: 0 <= j < |ixs| && ixs[j] == x ==> j == i
  {
    assert ixs == ixs[..i] + [x] + ixs[i + 1..];
    var before, after := ixs[..i], ixs[i + 1..];
    assert multiset(ixs)[x] == multiset(before)[x] + 1 + multiset(after)[x];
    assert multiset(before)[x] > 0 <==> x in before;
    assert multiset(after)[x] > 0 <==> x in after;
    if x in before {
      var j :| 0 <= j < |before| && before[j] == x;
      assert ixs[j] == x;
    }
    if x in after {
      var j :| 0 <= j < |after| && after[j] == x;
      assert ixs[i + 1 + j] == x;
    }
    if j :| 0 <= j < |ixs| && ixs[j] == x && j != i {
      assert if j < i then before[j] == x else after[j - i - 1] == x;
    }
  }

  /** Being the only transfer is a property of the multiset of instructions. */
  lemma OnlyTransferByMultiset(ixs: seq<Instruction>, t: Transfer)
    ensures (exists i :: OnlyTransferAt(ixs, i) && ixs[i].transfer == t) <==>
            && Essential(ixs)[TransferChecked(t)] == 1
            && forall x :: x in Essential(ixs) && x.TransferChecked? ==> x == TransferChecked(t)
  {
    var x := TransferChecked(t);
    assert forall y :: y in multiset(ixs) <==> y in ixs;
    if i :| OnlyTransferAt(ixs, i) && ixs[i].transfer == t {
      SingleOccurrence(ixs, x, i);
      forall y | y in ixs && y.TransferChecked?
        ensures y == x
      {
        var j :| 0 <= j < |ixs| && ixs[j] == y;
      }
    }
    if Essential(ixs)[x] == 1 && forall y :: y in Essential(ixs) && y.TransferChecked? ==> y == x {
      assert x in multiset(ixs);
      var i :| 0 <= i < |ixs| && ixs[i] == x;
      SingleOccurrence(ixs, x, i);
      forall j | 0 <= j < |ixs| && ixs[j].TransferChecked?
        ensures j == i
      {
        assert ixs[j] in multiset(ixs);
        assert ixs[j] == x;
      }
      assert OnlyTransferAt(ixs, i);
    }
  }

  lemma EssentialMembers(ixs: seq<Instruction>)
    ensures forall x :: x in Essential(ixs) <==> x in ixs && x != ComputeBudget
  {
    assert forall x :: x in multiset(ixs) <==> x in ixs;
  }

  lemma EssentialDecides(s: Settings, tx: Transaction, tx': Transaction, cost: int, reqID: string, t: Transfer)
    requires tx' == tx.(instructions := tx'.instructions)
    requires Essential(tx.instructions) == Essential(tx'.instructions)
    requires AcceptableBy(s, tx, cost, reqID, t)
    ensures AcceptableBy(s, tx', cost, reqID, t)
  {
    hide SolanaMemo, OnlyTransferAt, Essential, PaysMerchant;
    OnlyTransferByMultiset(tx.instructions, t);
    OnlyTransferByMultiset(tx'.instructions, t);
    EssentialMembers(tx.instructions);
    EssentialMembers(tx'.instructions);
    forall i | 0 <= i < |tx'.instructions|
      ensures Supported(tx'.instructions[i])
    {
      var x := tx'.instructions[i];
      if x != ComputeBudget {
        assert x in Essential(tx.instructions);
        assert x in tx.instructions;
      }
    }
    assert MemoCreate(SolanaMemo(reqID)) in Essential(tx.instructions);
  }

  /**
   * Reordering instructions, and adding or removing ComputeBudget ones, changes neither whether a transaction is
   * accepted nor who pays.
   */
  lemma OrderAndBudgetIrrelevant(s: Settings, tx: Transaction, tx': Transaction, cost: int, reqID: string)
    requires tx' == tx.(instructions := tx'.instructions)
    requires Essential(tx.instructions) == Essential(tx'.instructions)
    ensures Acceptable(s, tx, cost, reqID) <==> Acceptable(s, tx', cost, reqID)
    ensures forall t :: AcceptableBy(s, tx, cost, reqID, t) <==> AcceptableBy(s, tx', cost, reqID, t)
  {
    hide AcceptableBy, Essential;
    forall t
      ensures AcceptableBy(s, tx, cost, reqID, t) <==> AcceptableBy(s, tx', cost, reqID, t)
    {
      if AcceptableBy(s, tx, cost, reqID, t) {
        EssentialDecides(s, tx, tx', cost, reqID, t);
      }
      if AcceptableBy(s, tx', cost, reqID, t) {
        EssentialDecides(s, tx', tx, cost, reqID, t);
      }
    }
  }

  // ----- one transaction, few requests -----

  function MemoCount(ixs: seq<Instruction>): nat {
    if ixs == [] then 0 else (if ixs[0].MemoCreate? then 1 else 0) + MemoCount(ixs[1..])
  }

  /** It counts each memo instruction once, wherever it stands. */
  lemma {:induction false} MemoCountAdds(a: seq<Instruction>, b: seq<Instruction>, ix: Instruction)
    ensures MemoCount(a + b) == MemoCount(a) + MemoCount(b)
    ensures MemoCount([ix]) == if ix.MemoCreate? then 1 else 0
  {
    assert [ix][1..] == [];
    if a == [] {
      assert a + b == b;
    } else {
      assert (a + b)[1..] == a[1..] + b;
      MemoCountAdds(a[1..], b, ix);
    }
  }

  lemma SolanaMemoInjective(a: string, b: string)
    ensures SolanaMemo(a) == SolanaMemo(b) <==> a == b
  {
    assert SolanaMemo(a)[5..] == a && SolanaMemo(b)[5..] == b;
  }

  lemma {:induction false} MemosBoundIds(ixs: seq<Instruction>, ids: set<string>)
    requires forall id :: id in ids ==> MemoCreate(SolanaMemo(id)) in ixs
    ensures |ids| <= MemoCount(ixs)
  {
    hide SolanaMemo;
    if ixs == [] {
      assert ids == {};
    } else if id :| id in ids && ixs[0] == MemoCreate(SolanaMemo(id)) {
      forall other | other in ids - {id}
        ensures MemoCreate(SolanaMemo(other)) in ixs[1..]
      {
        SolanaMemoInjective(other, id);
      }
      MemosBoundIds(ixs[1..], ids - {id});
    } else {
      MemosBoundIds(ixs[1..], ids);
    }
  }

  /** A transaction can pay for at most as many requests as it carries memos, whatever the requests cost. */
  lemma AcceptedIdsBounded(s: Settings, tx: Transaction, costs: map<string, int>)
    requires forall id :: id in costs ==> Acceptable(s, tx, costs[id], id)
    ensures |costs.Keys| <= MemoCount(tx.instructions)
  {
    forall id | id in costs.Keys
      ensures MemoCreate(SolanaMemo(id)) in tx.instructions
    {
      var t :| AcceptableBy(s, tx, costs[id], id, t);
    }
    MemosBoundIds(tx.instructions, costs.Keys);
  }

  /**
   * A transaction accepted for one request is accepted, at the same cost, exactly for the requests it has a memo of.
   */
  lemma AcceptedForEveryMemo(s: Settings, tx: Transaction, cost: int, id: string, t: Transfer, other: string)
    requires AcceptableBy(s, tx, cost, id, t)
    ensures Acceptable(s, tx, cost, other) <==> MemoCreate(SolanaMemo(other)) in tx.instructions
  {
    hide SolanaMemo, PaysMerchant, OnlyTransferAt, EnvelopeOk;
    if MemoCreate(SolanaMemo(other)) in tx.instructions {
      assert AcceptableBy(s, tx, cost, other, t);
    }
  }

  /** An accepted transaction pays for one request only exactly when it carries no other request's memo. */
  lemma OneRequestExactly(s: Settings, tx: Transaction, cost: int, id: string)
    requires Acceptable(s, tx, cost, id)
    ensures (forall other :: Acceptable(s, tx, cost, other) ==> other == id) <==>
            (forall other :: MemoCreate(SolanaMemo(other)) in tx.instructions ==> other == id)
  {
    var t :| AcceptableBy(s, tx, cost, id, t);
    forall other
      ensures Acceptable(s, tx, cost, other) <==> MemoCreate(SolanaMemo(other)) in tx.instructions
    {
      AcceptedForEveryMemo(s, tx, cost, id, t, other);
    }
    hide Acceptable, SolanaMemo;
  }

  // ----- what running an accepted transaction does -----

  /**
   * A token account: its mint, its owner, its balance, and the delegate who may spend up to an allowance, if there is
   * one.
   */
  datatype TokenAccount = TokenAccount(
    mint: PublicKey, owner: PublicKey, balance: nat, delegate: Option<PublicKey>, allowance: nat)

  type TokenLedger = map<PublicKey, TokenAccount>

  /** A delegate spends within the allowance; otherwise only the owner may spend. */
  predicate MaySpend(account: TokenAccount, authority: PublicKey, amount: nat) {
    if account.delegate == Some(authority) then amount <= account.allowance else account.owner == authority
  }

  /** The account after spending; a delegate's allowance shrinks, and ends at zero. */
  function Spend(account: TokenAccount, authority: PublicKey, amount: nat): TokenAccount
    requires amount <= account.balance && MaySpend(account, authority, amount)
  {
    var spent := account.(balance := account.balance - amount);
    if account.delegate != Some(authority) then spent
    else if amount < account.allowance then spent.(allowance := account.allowance - amount)
    else spent.(allowance := 0, delegate := None)
  }

  /** The token program's transferChecked, for a mint of `mintDecimals`; None aborts the whole transaction. */
  function RunTransfer(ledger: TokenLedger, t: Transfer, mintDecimals: nat,
                       signers: set<PublicKey>): Option<TokenLedger>
  {
    if t.amount.None? || t.decimals != Some(mintDecimals) then None
    else if t.source !in ledger || t.destination !in ledger then None
    else
      var from, to, amount := ledger[t.source], ledger[t.destination], t.amount.value;
      if from.balance < amount || from.mint != t.mint || to.mint != t.mint || t.owner !in signers
         || !MaySpend(from, t.owner, amount)
      then None
      else if t.source == t.destination then Some(ledger)
      else Some(ledger[t.source := Spend(from, t.owner, amount)][t.destination := to.(balance := to.balance + amount)])
  }

  /** ComputeBudget and memo instructions move nothing; anything else is outside this interpreter. */
  function RunAll(ledger: TokenLedger, ixs: seq<Instruction>, mintDecimals: nat,
                  signers: set<PublicKey>): Option<TokenLedger>
  {
    if ixs == [] then Some(ledger)
    else
      match ixs[0]
      case ComputeBudget => RunAll(ledger, ixs[1..], mintDecimals, signers)
      case MemoCreate(_) => RunAll(ledger, ixs[1..], mintDecimals, signers)
      case TransferChecked(t) =>
        (match RunTransfer(ledger, t, mintDecimals, signers)
         case None => None
         case Some(next) => RunAll(next, ixs[1..], mintDecimals, signers))
      case _ => None
  }

  lemma {:induction false} RunNoTransfer(ledger: TokenLedger, ixs: seq<Instruction>, mintDecimals: nat,
                                         signers: set<PublicKey>)
    requires forall i :: 0 <= i < |ixs| ==> Supported(ixs[i]) && !ixs[i].TransferChecked?
    ensures RunAll(ledger, ixs, mintDecimals, signers) == Some(ledger)
  {
    if ixs == [] {
    } else {
      RunNoTransfer(ledger, ixs[1..], mintDecimals, signers);
    }
  }

  /** With a single transfer the whole transaction does what that transfer does. */
  lemma {:induction false} RunOnlyTransfer(ledger: TokenLedger, ixs: seq<Instruction>, i: int, mintDecimals: nat,
                                           signers: set<PublicKey>)
    requires OnlyTransferAt(ixs, i) && forall j :: 0 <= j < |ixs| ==> Supported(ixs[j])
    ensures RunAll(ledger, ixs, mintDecimals, signers) == RunTransfer(ledger, ixs[i].transfer, mintDecimals, signers)
  {
    hide RunTransfer;
    if i == 0 {
      var next := RunTransfer(ledger, ixs[0].transfer, mintDecimals, signers);
      if next.Some? {
        RunNoTransfer(next.value, ixs[1..], mintDecimals, signers);
      }
    } else {
      assert forall j :: 0 <= j < |ixs| - 1 ==> ixs[1..][j] == ixs[j + 1];
      assert OnlyTransferAt(ixs[1..], i - 1);
      RunOnlyTransfer(ledger, ixs[1..], i - 1, mintDecimals, signers);
    }
  }

  ghost function Total(ledger: TokenLedger): nat {
    if ledger == map[] then 0
    else
      var key :| key in ledger;
      ledger[key].balance + Total(ledger - {key})
  }

  lemma {:induction false} TotalWithout(ledger: TokenLedger, key: PublicKey)
    requires key in ledger
    ensures Total(ledger) == ledger[key].balance + Total(ledger - {key})
    decreases |ledger|
  {
    var first :| first in ledger && Total(ledger) == ledger[first].balance + Total(ledger - {first});
    if first != key {
      TotalWithout(ledger - {first}, key);
      TotalWithout(ledger - {key}, first);
      assert ledger - {first} - {key} == ledger - {key} - {first};
    }
  }

  lemma TotalUpdated(ledger: TokenLedger, key: PublicKey, account: TokenAccount)
    requires key in ledger
    ensures Total(ledger[key := account]) == Total(ledger) - ledger[key].balance + account.balance
  {
    TotalWithout(ledger, key);
    TotalWithout(ledger[key := account], key);
    assert ledger[key := account] - {key} == ledger - {key};
  }

  /** The merchant's token account gains `cost`, `source` loses it, nothing else moves, and the total is kept. */
  ghost predicate MovesExactly(ledger: TokenLedger, ledger': TokenLedger, source: PublicKey, merchant: PublicKey,
                               cost: int)
  {
    && ledger'.Keys == ledger.Keys
    && source in ledger && merchant in ledger
    && ledger'[merchant].balance == ledger[merchant].balance + cost
    && ledger'[source].balance == ledger[source].balance - cost
    && (forall key :: key in ledger && key != source && key != merchant ==> ledger'[key] == ledger[key])
    && (forall key :: key in ledger ==>
          ledger'[key].mint == ledger[key].mint && ledger'[key].owner == ledger[key].owner)
    && Total(ledger') == Total(ledger)
  }

  /**
   * When an accepted transaction runs, it moves exactly the cost to the merchant if and only if its source is not the
   * merchant's own token account; in that case, which the validator does not rule out, it moves nothing.
   */
  lemma AcceptedPaysExactly(s: Settings, tx: Transaction, cost: int, reqID: string, t: Transfer, ledger: TokenLedger)
    requires AcceptableBy(s, tx, cost, reqID, t)
    requires RunAll(ledger, tx.instructions, 6, tx.signers).Some?
    ensures var ledger' := RunAll(ledger, tx.instructions, 6, tx.signers).value;
            && (MovesExactly(ledger, ledger', t.source, s.payToTokenAccount, cost) <==> t.source != s.payToTokenAccount)
            && (t.source == s.payToTokenAccount ==> ledger' == ledger)
            && t.source in ledger && ledger[t.source].mint == s.mint && MaySpend(ledger[t.source], t.owner, cost)
  {
    var i :| OnlyTransferAt(tx.instructions, i) && tx.instructions[i].transfer == t;
    RunOnlyTransfer(ledger, tx.instructions, i, 6, tx.signers);
    hide RunAll, SolanaMemo, AcceptableBy;
    TransferMoves(ledger, t, cost, tx.signers);
  }

  /**
   * An accepted transaction runs exactly when its two token accounts exist for the configured mint, the source holds
   * the cost, and the signer is its owner or a delegate with the allowance: nothing the validator checks makes it fail.
   */
  lemma AcceptedRunsExactly(s: Settings, tx: Transaction, cost: int, reqID: string, t: Transfer, ledger: TokenLedger)
    requires AcceptableBy(s, tx, cost, reqID, t)
    ensures RunAll(ledger, tx.instructions, 6, tx.signers).Some? <==>
            && t.source in ledger && ledger[t.source].mint == s.mint
            && s.payToTokenAccount in ledger && ledger[s.payToTokenAccount].mint == s.mint
            && ledger[t.source].balance >= cost && MaySpend(ledger[t.source], t.owner, cost)
  {
    var i :| OnlyTransferAt(tx.instructions, i) && tx.instructions[i].transfer == t;
    RunOnlyTransfer(ledger, tx.instructions, i, 6, tx.signers);
    hide RunAll, SolanaMemo;
  }

  lemma TransferMoves(ledger: TokenLedger, t: Transfer, cost: int, signers: set<PublicKey>)
    requires t.amount.Some? && t.amount.value == cost > 0 && RunTransfer(ledger, t, 6, signers).Some?
    ensures var ledger' := RunTransfer(ledger, t, 6, signers).value;
            && (MovesExactly(ledger, ledger', t.source, t.destination, cost) <==> t.source != t.destination)
            && (t.source == t.destination ==> ledger' == ledger)
            && t.source in ledger && ledger[t.source].mint == t.mint && MaySpend(ledger[t.source], t.owner, cost)
  {
    hide Total;
    if t.source != t.destination {
      var from, to := ledger[t.source], ledger[t.destination];
      var mid := ledger[t.source := Spend(from, t.owner, cost)];
      TotalUpdated(ledger, t.source, Spend(from, t.owner, cost));
      TotalUpdated(mid, t.destination, to.(balance := to.balance + cost));
    }
  }

  /**
   * The validator lets self-transfers through: for every cost in range and every request there is one that is
   * accepted, runs on any funded merchant account whose owner signed it, and pays nothing.
   */
  lemma SelfTransferPaysNothing(s: Settings, cost: int, reqID: string, ledger: TokenLedger)
    requires 0 < cost < TWO_63 && s.payToTokenAccount in ledger
    requires var account := ledger[s.payToTokenAccount];
             account.mint == s.mint && account.owner != ZERO_KEY && account.delegate.None? && cost <= account.balance
    ensures exists tx ::
              Acceptable(s, tx, cost, reqID) && RunAll(ledger, tx.instructions, 6, tx.signers) == Some(ledger)
  {
    var owner := ledger[s.payToTokenAccount].owner;
    var t := Transfer(Some(cost), Some(6), s.payToTokenAccount, s.mint, s.payToTokenAccount, owner);
    var memo, pay := MemoCreate(SolanaMemo(reqID)), TransferChecked(t);
    var tx := Transaction([""], 0, true, [memo, pay], {owner});
    assert OnlyTransferAt(tx.instructions, 1);
    assert tx.instructions[0] == memo;
    assert AcceptableBy(s, tx, cost, reqID, t);
    hide AcceptableBy, SolanaMemo;
    RunOnlyTransfer(ledger, tx.instructions, 1, 6, tx.signers);
  }

  // ----- confirmation -----

  datatype Level = Processed | Confirmed | Finalized

  /** One answer of GetSignatureStatuses. */
  datatype Poll = RpcError | Absent | Status(failed: bool, level: Level)

  datatype Wait = ConfirmedOk | TransactionFailed | TimedOut

  /** The commitment configured: `confirmed`, or else `finalized`. */
  predicate Sufficient(wantFinalized: bool, level: Level) {
    level.Finalized? || (!wantFinalized && level.Confirmed?)
  }

  predicate Decisive(wantFinalized: bool, p: Poll) {
    p.Status? && (p.failed || Sufficient(wantFinalized, p.level))
  }

  ghost predicate FirstDecisive(wantFinalized: bool, poll: nat -> Poll, n: nat) {
    Decisive(wantFinalized, poll(n)) && forall k: nat :: k < n ==> !Decisive(wantFinalized, poll(k))
  }

  const TICK_MS: int := 750

  /** When the context ends, when the ticker ticks, and what the select after each poll takes. */
  datatype Clock = Clock(deadline: int, tickAt: nat -> int, stops: nat -> bool)

  /**
   * Ticks are at least 750 ms apart. `tickAt(k)` is when the tick awaited after poll `k` is there; the select waits for
   * whichever of tick and deadline comes first, and when both are there at once may take either.
   */
  ghost predicate Ticks(c: Clock) {
    forall k: nat ::
      && c.tickAt(k) >= TICK_MS * (k + 1)
      && (c.tickAt(k) < c.deadline ==> !c.stops(k))
      && (c.tickAt(k) > c.deadline ==> c.stops(k))
  }

  /** A poll is made if no select before it took the deadline. */
  ghost predicate Made(c: Clock, n: nat) {
    forall k: nat :: k < n ==> !c.stops(k)
  }

  /**
   * waitConfirmed: poll, then wait for the next tick or the deadline. The first decisive poll decides, if it is made;
   * the number of polls is bounded by the deadline.
   */
  method WaitConfirmed(poll: nat -> Poll, c: Clock, wantFinalized: bool) returns (r: Wait, polls: nat)
    requires Ticks(c)
    ensures 0 < polls && Made(c, polls - 1)
    ensures forall k: nat :: k < polls - 1 ==> !Decisive(wantFinalized, poll(k))
    ensures r == TimedOut <==> !Decisive(wantFinalized, poll(polls - 1))
    ensures r == TimedOut ==> !Made(c, polls)
    ensures r == TransactionFailed ==> poll(polls - 1).Status? && poll(polls - 1).failed
    ensures r == ConfirmedOk ==> poll(polls - 1).Status? && !poll(polls - 1).failed
                                 && Sufficient(wantFinalized, poll(polls - 1).level)
    ensures forall n: nat :: Made(c, n) && FirstDecisive(wantFinalized, poll, n) ==> polls == n + 1
    ensures TICK_MS * (polls - 1) <= Max(c.deadline, 0)
    ensures r == ConfirmedOk ==>
              var level := poll(polls - 1).level; level.Finalized? || (level.Confirmed? && !wantFinalized)
    ensures forall k: nat :: k < (if r == TimedOut then polls else polls - 1) && poll(k).Status? ==>
              !poll(k).failed && !poll(k).level.Finalized? && (poll(k).level.Confirmed? ==> wantFinalized)
  {
    polls := 0;
    while true
      invariant Made(c, polls)
      invariant forall k: nat :: k < polls ==> !Decisive(wantFinalized, poll(k))
      invariant polls > 0 ==> TICK_MS * polls <= c.deadline
      decreases c.deadline - TICK_MS * polls
    {
      var status := poll(polls);
      polls := polls + 1;
      if status.Status? {
        if status.failed {
          return TransactionFailed, polls;
        }
        if status.level.Finalized? || (!wantFinalized && status.level.Confirmed?) {
          return ConfirmedOk, polls;
        }
      }
      assert c.tickAt(polls - 1) >= TICK_MS * polls;
      if c.stops(polls - 1) {
        return TimedOut, polls;
      }
    }
  }

  /** The wait ends in success exactly when a first decisive poll is made and shows no error. */
  ghost predicate SeenConfirmed(poll: nat -> Poll, c: Clock, wantFinalized: bool) {
    exists n: nat :: Made(c, n) && FirstDecisive(wantFinalized, poll, n) && !poll(n).failed
  }

  // ----- settlement -----

  datatype SolanaPayload = SolanaPayload(kind: string, requestID: string, transaction: Option<Transaction>)

  datatype Settlement = Settlement(txHash: string, payer: PublicKey)

  datatype SettleFault = BadPayload | Rejected(fault: Fault) | NotSubmitted | NotConfirmed(wait: Wait)

  /** A payload for this request that carries a transaction. */
  predicate NamesRequest(payload: Option<SolanaPayload>, reqID: string) {
    && payload.Some?
    && payload.value.kind == SIGNED_TRANSACTION
    && payload.value.requestID == reqID
    && payload.value.transaction.Some?
  }

  /** And the transaction is acceptable for it. */
  ghost predicate PaysFor(s: Settings, payload: Option<SolanaPayload>, cost: int, reqID: string) {
    NamesRequest(payload, reqID) && Acceptable(s, payload.value.transaction.value, cost, reqID)
  }

  /** Outside a dry run the transaction must be sent without error and seen confirmed in time. */
  ghost predicate Succeeds(s: Settings, payload: Option<SolanaPayload>, cost: int, reqID: string, dryRun: bool,
                           send: Transaction -> Option<string>, poll: nat -> Poll, c: Clock, wantFinalized: bool)
  {
    && PaysFor(s, payload, cost, reqID)
    && (dryRun || (send(payload.value.transaction.value).Some? && SeenConfirmed(poll, c, wantFinalized)))
  }

  /**
   * Settle, exactly: when it succeeds, what it submits, and the cause of every failure. After a failure that says
   * NotSubmitted or NotConfirmed the transaction may still take effect (ChargedWithoutService).
   */
  method Settle(s: Settings, payload: Option<SolanaPayload>, cost: int, reqID: string, dryRun: bool,
                send: Transaction -> Option<string>, poll: nat -> Poll, c: Clock, wantFinalized: bool)
    returns (r: Result<Settlement, SettleFault>, ghost submitted: Option<Transaction>)
    requires Ticks(c)
    ensures submitted == if PaysFor(s, payload, cost, reqID) && !dryRun then payload.value.transaction else None
    ensures r.Success? <==> Succeeds(s, payload, cost, reqID, dryRun, send, poll, c, wantFinalized)
    ensures r.Success? ==>
              && (exists t ::
                    AcceptableBy(s, payload.value.transaction.value, cost, reqID, t) && r.value.payer == t.owner)
              && r.value.txHash == if dryRun then "DRYRUN-" + payload.value.transaction.value.signatures[0]
                                   else send(payload.value.transaction.value).value
    ensures r == Failure(BadPayload) <==> !NamesRequest(payload, reqID)
    ensures r == Failure(BadPayload) <==>
              || payload.None? || payload.value.kind != "signed_transaction"
              || payload.value.requestID != reqID || payload.value.transaction.None?
    ensures NamesRequest(payload, reqID) ==>
              forall e :: r == Failure(Rejected(e)) <==> FirstFault(s, payload.value.transaction.value, cost, reqID, e)
    ensures r == Failure(NotSubmitted) <==> submitted.Some? && send(submitted.value).None?
    ensures r.Failure? && r.error.NotConfirmed? ==>
              && submitted.Some? && r.error.wait != ConfirmedOk
              && (r.error.wait == TimedOut <==> forall n: nat :: Made(c, n) ==> !FirstDecisive(wantFinalized, poll, n))
  {
    hide Acceptable, AcceptableBy, Made, FirstDecisive, FirstFault, Ticks;
    submitted := None;
    if payload.None? || payload.value.kind != SIGNED_TRANSACTION || payload.value.requestID != reqID {
      return Failure(BadPayload), None;
    }
    if payload.value.transaction.None? {
      return Failure(BadPayload), None;
    }
    var tx := payload.value.transaction.value;
    var payer := ValidateTransaction(s, tx, cost, reqID);
    RejectedExactly(s, tx, cost, reqID, payer);
    if payer.Failure? {
      return Failure(Rejected(payer.error)), None;
    }
    PayerOf(s, tx, cost, reqID, payer.value);
    if dryRun {
      return Success(Settlement("DRYRUN-" + tx.signatures[0], payer.value)), None;
    }
    submitted := Some(tx);
    var sig := send(tx);
    if sig.None? {
      return Failure(NotSubmitted), submitted;
    }
    var outcome, polls := WaitConfirmed(poll, c, wantFinalized);
    WaitDecided(poll, c, wantFinalized, outcome, polls);
    if outcome != ConfirmedOk {
      return Failure(NotConfirmed(outcome)), submitted;
    }
    r := Success(Settlement(sig.value, payer.value));
  }

  lemma RejectedExactly(s: Settings, tx: Transaction, cost: int, reqID: string, payer: Result<PublicKey, Fault>)
    requires payer.Success? <==> Acceptable(s, tx, cost, reqID)
    requires payer.Failure? ==> FirstFault(s, tx, cost, reqID, payer.error)
    ensures forall e :: payer == Failure(e) <==> FirstFault(s, tx, cost, reqID, e)
  {
    AcceptableExactly(s, tx, cost, reqID);
    hide Faulty, Acceptable;
  }

  lemma PayerOf(s: Settings, tx: Transaction, cost: int, reqID: string, payer: PublicKey)
    requires Acceptable(s, tx, cost, reqID)
    requires forall t :: AcceptableBy(s, tx, cost, reqID, t) ==> t.owner == payer
    ensures exists t :: AcceptableBy(s, tx, cost, reqID, t) && payer == t.owner
    ensures tx.signatures != []
  {
    var t :| AcceptableBy(s, tx, cost, reqID, t);
  }

  /** What the wait's outcome says of the polls. */
  lemma WaitDecided(poll: nat -> Poll, c: Clock, wantFinalized: bool, r: Wait, polls: nat)
    requires 0 < polls && Made(c, polls - 1)
    requires forall k: nat :: k < polls - 1 ==> !Decisive(wantFinalized, poll(k))
    requires r == TimedOut <==> !Decisive(wantFinalized, poll(polls - 1))
    requires r == TransactionFailed ==> poll(polls - 1).Status? && poll(polls - 1).failed
    requires r == ConfirmedOk ==> poll(polls - 1).Status? && !poll(polls - 1).failed
    requires forall n: nat :: Made(c, n) && FirstDecisive(wantFinalized, poll, n) ==> polls == n + 1
    ensures r == ConfirmedOk <==> SeenConfirmed(poll, c, wantFinalized)
    ensures r == TimedOut <==> forall n: nat :: Made(c, n) ==> !FirstDecisive(wantFinalized, poll, n)
  {
    var last: nat := polls - 1;
    assert r != TimedOut ==> FirstDecisive(wantFinalized, poll, last);
    hide Made, Decisive;
  }

  /**
   * A transaction that was submitted and runs moves the cost to the merchant unless it comes from the merchant's own
   * account, whatever Settle answers; and Settle refuses the request exactly when the sending failed or no confirmation
   * was seen. Both at once is a client charged without being served.
   */
  lemma ChargedWithoutService(s: Settings, payload: Option<SolanaPayload>, cost: int, reqID: string, t: Transfer,
                              send: Transaction -> Option<string>, poll: nat -> Poll, c: Clock, wantFinalized: bool,
                              ledger: TokenLedger)
    requires NamesRequest(payload, reqID) && AcceptableBy(s, payload.value.transaction.value, cost, reqID, t)
    requires var tx := payload.value.transaction.value; RunAll(ledger, tx.instructions, 6, tx.signers).Some?
    ensures var tx := payload.value.transaction.value;
            var ledger' := RunAll(ledger, tx.instructions, 6, tx.signers).value;
            var served := Succeeds(s, payload, cost, reqID, false, send, poll, c, wantFinalized);
            && (MovesExactly(ledger, ledger', t.source, s.payToTokenAccount, cost) && !served <==>
                t.source != s.payToTokenAccount && !(send(tx).Some? && SeenConfirmed(poll, c, wantFinalized)))
  {
    AcceptedPaysExactly(s, payload.value.transaction.value, cost, reqID, t, ledger);
    assert Acceptable(s, payload.value.transaction.value, cost, reqID);
    hide AcceptableBy, RunAll, MovesExactly, SeenConfirmed;
  }

  /** An endpoint that never reports the transaction leaves every wait without a confirmation. */
  lemma SilenceTimesOut(c: Clock, wantFinalized: bool)
    ensures !SeenConfirmed(_ => Absent, c, wantFinalized)
  {
    hide Made;
  }
}
