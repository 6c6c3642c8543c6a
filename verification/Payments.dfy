/** The payments table of internal/store/payment.go, with the unique indexes of internal/store/db.go. */
module Payments {
  /** One row, without the row id and the time the database adds. */
  datatype Payment = Payment(
    from: string, to: string, amount: int, txHash: string, model: string,
    promptTokens: int, completionTokens: int, requestID: string, network: string)

  /** The new row would repeat a request id, or a transaction on the same network. */
  predicate Conflicts(rows: seq<Payment>, p: Payment) {
    exists i :: 0 <= i < |rows| &&
      (rows[i].requestID == p.requestID || (rows[i].network == p.network && rows[i].txHash == p.txHash))
  }

  /** Both indexes admit the row: its request id is new, and so is its transaction on that network. */
  predicate Admits(rows: seq<Payment>, p: Payment) {
    && (forall i :: 0 <= i < |rows| ==> rows[i].requestID != p.requestID)
    && (forall i :: 0 <= i < |rows| && rows[i].network == p.network ==> rows[i].txHash != p.txHash)
  }

  /** What the two unique indexes guarantee. */
  ghost predicate UniqueRows(rows: seq<Payment>) {
    forall i, j :: 0 <= i < j < |rows| ==>
      rows[i].requestID != rows[j].requestID && (rows[i].network, rows[i].txHash) != (rows[j].network, rows[j].txHash)
  }

  lemma AppendKeepsUnique(rows: seq<Payment>, p: Payment)
    requires UniqueRows(rows)
    ensures UniqueRows(rows + [p]) <==> !Conflicts(rows, p)
  {
    if UniqueRows(rows + [p]) {
      forall i | 0 <= i < |rows|
        ensures rows[i].requestID != p.requestID && (rows[i].network, rows[i].txHash) != (p.network, p.txHash)
      {
        assert (rows + [p])[i] == rows[i] && (rows + [p])[|rows|] == p;
      }
    }
  }

  // ----- sums -----

  function AmountOf(rows: seq<Payment>, addr: string): int {
    if rows == [] then 0
    else AmountOf(rows[1..], addr) + if rows[0].from == addr then rows[0].amount else 0
  }

  function CountOf(rows: seq<Payment>, addr: string): nat {
    if rows == [] then 0
    else CountOf(rows[1..], addr) + if rows[0].from == addr then 1 else 0
  }

  function TotalAmount(rows: seq<Payment>): int {
    if rows == [] then 0 else rows[0].amount + TotalAmount(rows[1..])
  }

  function TotalPrompt(rows: seq<Payment>): int {
    if rows == [] then 0 else rows[0].promptTokens + TotalPrompt(rows[1..])
  }

  function TotalCompletion(rows: seq<Payment>): int {
    if rows == [] then 0 else rows[0].completionTokens + TotalCompletion(rows[1..])
  }

  function Payers(rows: seq<Payment>): set<string> {
    set i | 0 <= i < |rows| :: rows[i].from
  }

  datatype Summary = Summary(
    totalAmount: int, paymentCount: nat, uniquePayers: nat, promptTokens: int, completionTokens: int)

  class PaymentDb {
    var rows: seq<Payment>

    constructor ()
      ensures rows == []
    {
      rows := [];
    }

    /** Record: the insert fails on a conflict, and may fail for the database's own reasons. */
    method Record(p: Payment, fails: bool) returns (ok: bool)
      modifies this
      ensures ok <==> !fails && !Conflicts(old(rows), p)
      ensures ok <==> !fails && Admits(old(rows), p)
      ensures rows == if ok then old(rows) + [p] else old(rows)
      ensures UniqueRows(old(rows)) ==> UniqueRows(rows)
    {
      AppendKeepsUniqueWhen(rows, p);
      if fails || Conflicts(rows, p) {
        return false;
      }
      rows := rows + [p];
      return true;
    }

    /** SumByAddress, as a scan of the table. */
    method SumByAddress(addr: string) returns (total: int, count: nat)
      ensures total == AmountOf(rows, addr) && count == CountOf(rows, addr)
    {
      total, count := 0, 0;
      var i := |rows|;
      while i > 0
        invariant 0 <= i <= |rows|
        invariant total == AmountOf(rows[i..], addr) && count == CountOf(rows[i..], addr)
      {
        i := i - 1;
        assert rows[i..][1..] == rows[i + 1..];
        if rows[i].from == addr {
          total, count := total + rows[i].amount, count + 1;
        }
      }
      assert rows[0..] == rows;
    }

    /** Summary, as a scan of the table. */
    method Summarize() returns (s: Summary)
      ensures s == SummaryOf(rows)
    {
      var amount, prompt, completion := 0, 0, 0;
      var payers: set<string> := {};
      var i := |rows|;
      while i > 0
        invariant 0 <= i <= |rows|
        invariant amount == TotalAmount(rows[i..])
        invariant prompt == TotalPrompt(rows[i..])
        invariant completion == TotalCompletion(rows[i..])
        invariant payers == set k | i <= k < |rows| :: rows[k].from
      {
        i := i - 1;
        assert rows[i..][1..] == rows[i + 1..];
        amount := amount + rows[i].amount;
        prompt := prompt + rows[i].promptTokens;
        completion := completion + rows[i].completionTokens;
        payers := payers + {rows[i].from};
      }
      assert rows[0..] == rows;
      s := Summary(amount, |rows|, |payers|, prompt, completion);
    }
  }

  lemma AppendKeepsUniqueWhen(rows: seq<Payment>, p: Payment)
    ensures UniqueRows(rows) && !Conflicts(rows, p) ==> UniqueRows(rows + [p])
  {
    if UniqueRows(rows) {
      AppendKeepsUnique(rows, p);
    }
  }

  // ----- conservation: the summary is the sum over its payers -----

  /** What a row counts for in each column of the summary. */
  datatype Column = Amount | Rows | PromptTokens | CompletionTokens

  function Weight(p: Payment, column: Column): int {
    match column
    case Amount => p.amount
    case Rows => 1
    case PromptTokens => p.promptTokens
    case CompletionTokens => p.completionTokens
  }

  function ColumnOf(s: Summary, column: Column): int {
    match column
    case Amount => s.totalAmount
    case Rows => s.paymentCount
    case PromptTokens => s.promptTokens
    case CompletionTokens => s.completionTokens
  }

  /** A column summed over the rows of one address. */
  function SumOf(rows: seq<Payment>, addr: string, column: Column): int {
    if rows == [] then 0
    else SumOf(rows[1..], addr, column) + if rows[0].from == addr then Weight(rows[0], column) else 0
  }

  function SumOfAll(rows: seq<Payment>, addrs: seq<string>, column: Column): int {
    if addrs == [] then 0 else SumOf(rows, addrs[0], column) + SumOfAll(rows, addrs[1..], column)
  }

  function SummaryOf(rows: seq<Payment>): Summary {
    Summary(TotalAmount(rows), |rows|, |Payers(rows)|, TotalPrompt(rows), TotalCompletion(rows))
  }

  predicate Distinct(addrs: seq<string>) {
    forall i, j :: 0 <= i < j < |addrs| ==> addrs[i] != addrs[j]
  }

  /** SumByAddress gives the sums of the first two columns. */
  lemma {:induction false} AddressSums(rows: seq<Payment>, addr: string)
    ensures AmountOf(rows, addr) == SumOf(rows, addr, Amount) && CountOf(rows, addr) == SumOf(rows, addr, Rows)
  {
    if rows == [] {
    } else {
      AddressSums(rows[1..], addr);
    }
  }

  lemma {:induction false} AllOfOneMore(rows: seq<Payment>, addrs: seq<string>, column: Column)
    requires rows != [] && Distinct(addrs)
    ensures SumOfAll(rows, addrs, column)
            == SumOfAll(rows[1..], addrs, column) + if rows[0].from in addrs then Weight(rows[0], column) else 0
  {
    if addrs == [] {
    } else {
      AllOfOneMore(rows, addrs[1..], column);
      assert addrs[0] !in addrs[1..];
      assert rows[0].from in addrs <==> rows[0].from == addrs[0] || rows[0].from in addrs[1..];
    }
  }

  lemma {:induction false} NoneOfEmpty(addrs: seq<string>, column: Column)
    ensures SumOfAll([], addrs, column) == 0
  {
    if addrs == [] {
    } else {
      NoneOfEmpty(addrs[1..], column);
    }
  }

  /** For any listing of the payers, each column of the summary is the sum of that column over their own rows. */
  lemma {:induction false} SummaryIsSumOverPayers(rows: seq<Payment>, addrs: seq<string>, column: Column)
    requires Distinct(addrs) && forall i :: 0 <= i < |rows| ==> rows[i].from in addrs
    ensures SumOfAll(rows, addrs, column) == ColumnOf(SummaryOf(rows), column)
  {
    if rows == [] {
      NoneOfEmpty(addrs, column);
    } else {
      SummaryIsSumOverPayers(rows[1..], addrs, column);
      AllOfOneMore(rows, addrs, column);
    }
  }

  /** The number of unique payers is the length of any listing of the payers without repetition. */
  lemma UniquePayersCounted(rows: seq<Payment>, addrs: seq<string>)
    requires Distinct(addrs) && forall addr :: addr in addrs <==> exists i :: 0 <= i < |rows| && rows[i].from == addr
    ensures SummaryOf(rows).uniquePayers == |addrs|
  {
    DistinctSize(addrs);
    assert Payers(rows) == set addr | addr in addrs;
  }

  lemma {:induction false} DistinctSize(addrs: seq<string>)
    requires Distinct(addrs)
    ensures |set addr | addr in addrs| == |addrs|
  {
    if addrs == [] {
    } else {
      DistinctSize(addrs[1..]);
      assert addrs[0] !in addrs[1..];
      assert (set addr | addr in addrs) == (set addr | addr in addrs[1..]) + {addrs[0]};
    }
  }

  /** One more row adds its amount and one payment to its payer, and nothing to anyone else. */
  lemma {:induction false} AppendedSums(rows: seq<Payment>, p: Payment, addr: string)
    ensures AmountOf(rows + [p], addr) == AmountOf(rows, addr) + if p.from == addr then p.amount else 0
    ensures CountOf(rows + [p], addr) == CountOf(rows, addr) + if p.from == addr then 1 else 0
  {
    if rows == [] {
      assert [] + [p] == [p] && [p][1..] == [];
    } else {
      AppendedSums(rows[1..], p, addr);
      assert (rows + [p])[1..] == rows[1..] + [p];
    }
  }
}
