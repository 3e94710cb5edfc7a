/** The shared transaction ledger (`TransactionContext`): newest first, ids
    `TXN-nnn` numbered from the ledger's length, and a per-service view. */
module Transactions {
  import opened Seqs
  import opened Text
  import opened Results

  datatype TxType = Credit | Debit
  datatype TxStatus = Completed | Pending | Cancelled

  /** The amount is the formatted text the dialogs store, e.g. "₱500.00". */
  datatype Transaction = Transaction(
    id: string,
    date: string,
    description: string,
    account: string,
    txType: TxType,
    amount: string,
    status: TxStatus,
    memberName: Option<string>,
    serviceId: Option<string>,
    serviceName: Option<string>)

  /** What callers hand to `addTransaction`: everything but the id. */
  datatype TransactionInput = TransactionInput(
    date: string,
    description: string,
    account: string,
    txType: TxType,
    amount: string,
    status: TxStatus,
    memberName: Option<string>,
    serviceId: Option<string>,
    serviceName: Option<string>)

  function TxnId(n: nat): string {
    "TXN-" + ZeroPad3(n)
  }

  lemma TxnIdInjective(a: nat, b: nat)
    ensures TxnId(a) == TxnId(b) <==> a == b
  {
    if TxnId(a) == TxnId(b) {
      assert TxnId(a)[4..] == ZeroPad3(a);
      assert TxnId(b)[4..] == ZeroPad3(b);
      ZeroPad3Injective(a, b);
    }
  }

  function WithId(t: TransactionInput, id: string): Transaction {
    Transaction(id, t.date, t.description, t.account, t.txType, t.amount, t.status,
                t.memberName, t.serviceId, t.serviceName)
  }

  /** `addTransaction`: the new entry, numbered one past the current length,
      goes in front of the existing ones. */
  function AddTransaction(txs: seq<Transaction>, t: TransactionInput): (r: seq<Transaction>)
    ensures |r| == |txs| + 1 && r[1..] == txs
    ensures r[0].id == TxnId(|txs| + 1)
    ensures r[0] == WithId(t, r[0].id)
  {
    [WithId(t, TxnId(|txs| + 1))] + txs
  }

  function Ids(txs: seq<Transaction>): (ids: seq<string>)
    ensures |ids| == |txs|
    ensures forall i :: 0 <= i < |txs| ==> ids[i] == txs[i].id
  {
    seq(|txs|, i requires 0 <= i < |txs| => txs[i].id)
  }

  /** The id is one of `TXN-001` up to `TXN-n`. */
  predicate HasNumberUpTo(id: string, n: nat) {
    exists k :: 1 <= k <= n && id == TxnId(k)
  }

  /** The ledger's ids are `TXN-001` up to `TXN-n` for its length `n`, each once. */
  predicate NumberedIds(txs: seq<Transaction>) {
    && NoDup(Ids(txs))
    && (forall i :: 0 <= i < |txs| ==> HasNumberUpTo(txs[i].id, |txs|))
    && (forall k :: 1 <= k <= |txs| ==> TxnId(k) in Ids(txs))
  }

  /** Adding keeps the numbering: with nothing ever removed, the next number
      is always a new one. */
  lemma AddTransactionKeepsNumbering(txs: seq<Transaction>, t: TransactionInput)
    requires NumberedIds(txs)
    ensures NumberedIds(AddTransaction(txs, t))
  {
    AddedIdsDistinct(txs, t);
    AddedIdsNumbered(txs, t);
    AddedNumbersPresent(txs, t);
  }

  /** The ids after an add: the new number, then the old ids. */
  lemma AddedIds(txs: seq<Transaction>, t: TransactionInput)
    ensures Ids(AddTransaction(txs, t)) == [TxnId(|txs| + 1)] + Ids(txs)
  {
    var r := AddTransaction(txs, t);
    var a, b := Ids(r), [r[0].id] + Ids(txs);
    forall i | 0 <= i < |a|
      ensures a[i] == b[i]
    {
      if i > 0 {
        assert r[i] == txs[i - 1];
      }
    }
    assert a == b;
  }

  lemma AddedIdsDistinct(txs: seq<Transaction>, t: TransactionInput)
    requires NumberedIds(txs)
    ensures NoDup(Ids(AddTransaction(txs, t)))
  {
    var x, ids := TxnId(|txs| + 1), Ids(txs);
    AddedIds(txs, t);
    NextIdUnused(txs);
    ConsNoDup(x, ids);
  }

  lemma AddedIdsNumbered(txs: seq<Transaction>, t: TransactionInput)
    requires NumberedIds(txs)
    ensures var r := AddTransaction(txs, t);
      forall i :: 0 <= i < |r| ==> HasNumberUpTo(r[i].id, |r|)
  {
    var n := |txs|;
    var r := AddTransaction(txs, t);
    forall i | 0 <= i < n + 1
      ensures HasNumberUpTo(r[i].id, n + 1)
    {
      if i == 0 {
        assert r[0].id == TxnId(n + 1);
      } else {
        assert r[i] == txs[i - 1];
        assert HasNumberUpTo(txs[i - 1].id, n);
        var k :| 1 <= k <= n && txs[i - 1].id == TxnId(k);
        assert 1 <= k <= n + 1 && r[i].id == TxnId(k);
      }
    }
  }

  lemma AddedNumbersPresent(txs: seq<Transaction>, t: TransactionInput)
    requires NumberedIds(txs)
    ensures var r := AddTransaction(txs, t);
      forall k :: 1 <= k <= |r| ==> TxnId(k) in Ids(r)
  {
    var n := |txs|;
    var ids, rs := Ids(txs), Ids(AddTransaction(txs, t));
    AddedIds(txs, t);
    forall k | 1 <= k <= n + 1
      ensures TxnId(k) in rs
    {
      if k == n + 1 {
        assert rs[0] == TxnId(k);
      } else {
        assert TxnId(k) in ids;
        var j :| 0 <= j < n && ids[j] == TxnId(k);
        assert rs[j + 1] == TxnId(k);
      }
    }
  }

  /** The next number is not yet in a numbered ledger. */
  lemma NextIdUnused(txs: seq<Transaction>)
    requires NumberedIds(txs)
    ensures TxnId(|txs| + 1) !in Ids(txs)
  {
    var n := |txs|;
    forall i | 0 <= i < n
      ensures txs[i].id != TxnId(n + 1)
    {
      assert HasNumberUpTo(txs[i].id, n);
      var k :| 1 <= k <= n && txs[i].id == TxnId(k);
      TxnIdInjective(k, n + 1);
    }
  }

  /** `getServiceTransactions`: the entries recorded for one service, in ledger order. */
  function ServiceTransactions(txs: seq<Transaction>, serviceId: string): seq<Transaction>
    decreases |txs|
  {
    if |txs| == 0 then []
    else if txs[0].serviceId == Some(serviceId) then [txs[0]] + ServiceTransactions(txs[1..], serviceId)
    else ServiceTransactions(txs[1..], serviceId)
  }

  /** Exactly the entries carrying that service id, every copy of them, as a
      subsequence; an entry without a service id never appears. */
  lemma ServiceTransactionsSpec(txs: seq<Transaction>, serviceId: string)
    ensures forall t :: t in ServiceTransactions(txs, serviceId) <==> t in txs && t.serviceId == Some(serviceId)
    ensures forall x :: multiset(ServiceTransactions(txs, serviceId))[x]
                    == if x.serviceId == Some(serviceId) then multiset(txs)[x] else 0
    ensures forall t :: t in ServiceTransactions(txs, serviceId) ==> t.serviceId.Some?
    ensures IsSubsequence(ServiceTransactions(txs, serviceId), txs)
  {
    ServiceTransactionsSelects(txs, serviceId);
    ServiceTransactionsCounts(txs, serviceId);
  }

  lemma {:induction false} ServiceTransactionsSelects(txs: seq<Transaction>, serviceId: string)
    ensures forall t :: t in ServiceTransactions(txs, serviceId) <==> t in txs && t.serviceId == Some(serviceId)
    ensures forall t :: t in ServiceTransactions(txs, serviceId) ==> t.serviceId.Some?
    ensures IsSubsequence(ServiceTransactions(txs, serviceId), txs)
    decreases |txs|
  {
    if |txs| > 0 {
      ServiceTransactionsSelects(txs[1..], serviceId);
      assert forall t :: t in txs <==> t == txs[0] || t in txs[1..];
      assert [txs[0]] + txs[1..] == txs;
      if txs[0].serviceId == Some(serviceId) {
        assert ServiceTransactions(txs, serviceId)[1..] == ServiceTransactions(txs[1..], serviceId);
      } else {
        SubsequenceExtendLeft(ServiceTransactions(txs[1..], serviceId), [txs[0]], txs[1..]);
      }
    }
  }

  lemma {:induction false} ServiceTransactionsCounts(txs: seq<Transaction>, serviceId: string)
    ensures forall x :: multiset(ServiceTransactions(txs, serviceId))[x]
                    == if x.serviceId == Some(serviceId) then multiset(txs)[x] else 0
    decreases |txs|
  {
    if |txs| > 0 {
      ServiceTransactionsCounts(txs[1..], serviceId);
      assert txs == [txs[0]] + txs[1..];
      assert multiset(txs) == multiset{txs[0]} + multiset(txs[1..]);
      if txs[0].serviceId == Some(serviceId) {
        assert multiset(ServiceTransactions(txs, serviceId))
            == multiset{txs[0]} + multiset(ServiceTransactions(txs[1..], serviceId));
      }
    }
  }

  /** A new entry shows up in front of its service's list. */
  lemma AddTransactionServiceView(txs: seq<Transaction>, t: TransactionInput, serviceId: string)
    ensures ServiceTransactions(AddTransaction(txs, t), serviceId)
         == (if t.serviceId == Some(serviceId) then [WithId(t, TxnId(|txs| + 1))] else [])
            + ServiceTransactions(txs, serviceId)
  {
    var r := AddTransaction(txs, t);
    assert r[1..] == txs;
  }

  const InitialTransactions: seq<Transaction> := [
    Transaction("TXN-001", "2024-12-26", "Member Deposit - Juan Dela Cruz", "Savings Account",
                Credit, "₱5,000.00", Completed, None, None, None),
    Transaction("TXN-002", "2024-12-26", "Office Supplies Purchase", "Office Expenses",
                Debit, "₱2,500.00", Completed, None, None, None),
    Transaction("TXN-003", "2024-12-25", "Loan Interest Payment", "Interest Income",
                Credit, "₱1,200.00", Pending, None, None, None),
    Transaction("TXN-004", "2024-12-25", "Member Withdrawal - Maria Santos", "Savings Account",
                Debit, "₱3,000.00", Completed, None, None, None),
    Transaction("TXN-005", "2024-12-26", "Loan Processing Fee", "Service Revenue",
                Credit, "₱500.00", Completed, Some("Juan Dela Cruz"), Some("1"), Some("Personal Loan")),
    Transaction("TXN-006", "2024-12-25", "Rice Milling Service", "Service Revenue",
                Credit, "₱200.00", Pending, Some("Maria Santos"), Some("2"), Some("Rice Milling"))
  ]

  /** The seeded ids are the first six numbers, in order. */
  lemma InitialIds()
    ensures forall k :: 1 <= k <= 6 ==> TxnId(k) == InitialTransactions[k - 1].id
  {
    forall k | 1 <= k <= 6
      ensures TxnId(k) == InitialTransactions[k - 1].id
    {
      ZeroPad3OneDigit(k);
    }
  }

  /** A ledger whose i-th entry carries number i + 1 is numbered. */
  lemma AscendingIdsNumbered(txs: seq<Transaction>)
    requires forall i :: 0 <= i < |txs| ==> txs[i].id == TxnId(i + 1)
    ensures NumberedIds(txs)
  {
    forall i, j | 0 <= i < j < |txs|
      ensures Ids(txs)[i] != Ids(txs)[j]
    {
      TxnIdInjective(i + 1, j + 1);
    }
    forall i | 0 <= i < |txs|
      ensures HasNumberUpTo(txs[i].id, |txs|)
    {
      assert 1 <= i + 1 <= |txs| && txs[i].id == TxnId(i + 1);
    }
    forall k | 1 <= k <= |txs|
      ensures TxnId(k) in Ids(txs)
    {
      assert Ids(txs)[k - 1] == TxnId(k);
    }
  }

  /** The seeded ledger is numbered `TXN-001` to `TXN-006`. */
  lemma InitialTransactionsNumbered()
    ensures NumberedIds(InitialTransactions)
  {
    InitialIds();
    AscendingIdsNumbered(InitialTransactions);
  }

  /** In the seeded ledger service "1" has only TXN-005 and service "2" only TXN-006. */
  lemma InitialServiceViews()
    ensures ServiceTransactions(InitialTransactions, "1") == [InitialTransactions[4]]
    ensures ServiceTransactions(InitialTransactions, "2") == [InitialTransactions[5]]
  {
  }
}
