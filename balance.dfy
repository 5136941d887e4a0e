/**
 * The balance aggregation of the accounts service: a `$match` on the account
 * id followed by a `$group` that sums `amount` for deposits and `-amount`
 * for everything else. The balance is never stored; it is this fold over the log.
 */
module BalanceCalculator {
  import opened Schemas

  /** The `$cond` of the aggregation: deposits count positively, withdrawals negatively. */
  function Signed(t: Tx): int
  {
    if t.kind == Deposit then t.amount else -t.amount
  }

  /** What one record contributes to the balance of `id`: nothing unless it passes the `$match`. */
  function Contribution(t: Tx, id: AccountId): int
  {
    if t.accountId == id then Signed(t) else 0
  }

  /** The balance of `id` after the records of `log`, folded from the oldest record on; 0 for no records. */
  function Balance(log: seq<Tx>, id: AccountId): int
    decreases |log|
  {
    if log == [] then 0
    else Balance(log[..|log| - 1], id) + Contribution(log[|log| - 1], id)
  }

  // ---- An independent reference definition: sum of deposits minus sum of withdrawals ----

  function Sum(xs: seq<int>): int
    decreases |xs|
  {
    if xs == [] then 0 else xs[0] + Sum(xs[1..])
  }

  /** The amounts, in log order, of the records of account `id` whose kind is `k`. */
  function Amounts(log: seq<Tx>, id: AccountId, k: Kind): seq<int>
    decreases |log|
  {
    if log == [] then []
    else (if log[0].accountId == id && log[0].kind == k then [log[0].amount] else [])
         + Amounts(log[1..], id, k)
  }

  /** The records of `log` that belong to `id` (the `$match` stage), in log order. */
  function RecordsOf(log: seq<Tx>, id: AccountId): (r: seq<Tx>)
    ensures forall t :: t in r <==> t in log && t.accountId == id
    ensures |r| <= |log|
    decreases |log|
  {
    if log == [] then []
    else (if log[0].accountId == id then [log[0]] else []) + RecordsOf(log[1..], id)
  }

  /** No account has a negative balance. */
  ghost predicate Solvent(log: seq<Tx>)
  {
    forall id :: Balance(log, id) >= 0
  }

  // ---- Lemmas ----

  lemma {:induction false} SumAppend(a: seq<int>, b: seq<int>)
    ensures Sum(a + b) == Sum(a) + Sum(b)
    decreases |a|
  {
    if a == [] {
      assert a + b == b;
    } else {
      assert (a + b)[1..] == a[1..] + b;
      SumAppend(a[1..], b);
    }
  }

  lemma {:induction false} AmountsAppend(a: seq<Tx>, b: seq<Tx>, id: AccountId, k: Kind)
    ensures Amounts(a + b, id, k) == Amounts(a, id, k) + Amounts(b, id, k)
    decreases |a|
  {
    if a == [] {
      assert a + b == b;
    } else {
      assert (a + b)[0] == a[0];
      assert (a + b)[1..] == a[1..] + b;
      AmountsAppend(a[1..], b, id, k);
    }
  }

  lemma {:induction false} RecordsOfAppend(a: seq<Tx>, b: seq<Tx>, id: AccountId)
    ensures RecordsOf(a + b, id) == RecordsOf(a, id) + RecordsOf(b, id)
    decreases |a|
  {
    if a == [] {
      assert a + b == b;
    } else {
      assert (a + b)[0] == a[0];
      assert (a + b)[1..] == a[1..] + b;
      RecordsOfAppend(a[1..], b, id);
    }
  }

  /** The `$match` keeps every copy of a matching record and no copy of any other record. */
  lemma {:induction false} RecordsOfMultiset(log: seq<Tx>, id: AccountId)
    ensures forall t :: multiset(RecordsOf(log, id))[t] == if t.accountId == id then multiset(log)[t] else 0
    decreases |log|
  {
    if log != [] {
      assert log == [log[0]] + log[1..];
      RecordsOfMultiset(log[1..], id);
    }
  }

  /** Appending one record changes the balance of `id` by exactly that record's contribution. */
  lemma BalanceAppend(log: seq<Tx>, t: Tx, id: AccountId)
    ensures Balance(log + [t], id) == Balance(log, id) + Contribution(t, id)
  {
    assert (log + [t])[..|log|] == log;
  }

  /** The balance of `id` is the sum of its deposit amounts minus the sum of its withdrawal amounts. */
  lemma {:induction false} BalanceIsDepositsMinusWithdrawals(log: seq<Tx>, id: AccountId)
    ensures Balance(log, id) == Sum(Amounts(log, id, Deposit)) - Sum(Amounts(log, id, Withdraw))
    decreases |log|
  {
    if log != [] {
      var init, t := log[..|log| - 1], log[|log| - 1];
      assert log == init + [t];
      BalanceIsDepositsMinusWithdrawals(init, id);
      AmountsAppend(init, [t], id, Deposit);
      AmountsAppend(init, [t], id, Withdraw);
      assert [t][1..] == [];
      SumAppend(Amounts(init, id, Deposit), Amounts([t], id, Deposit));
      SumAppend(Amounts(init, id, Withdraw), Amounts([t], id, Withdraw));
    }
  }

  /** An account with no records in the log has balance 0. */
  lemma {:induction false} BalanceWithoutRecords(log: seq<Tx>, id: AccountId)
    requires forall i :: 0 <= i < |log| ==> log[i].accountId != id
    ensures Balance(log, id) == 0
    decreases |log|
  {
    if log != [] {
      BalanceWithoutRecords(log[..|log| - 1], id);
    }
  }

  /** The balance of a log split in two is the sum of the balances of the parts. */
  lemma {:induction false} BalanceConcat(a: seq<Tx>, b: seq<Tx>, id: AccountId)
    ensures Balance(a + b, id) == Balance(a, id) + Balance(b, id)
    decreases |b|
  {
    if b == [] {
      assert a + b == a;
    } else {
      var init, t := b[..|b| - 1], b[|b| - 1];
      assert a + b == (a + init) + [t];
      assert (a + b)[..|a + b| - 1] == a + init;
      BalanceConcat(a, init, id);
    }
  }

  /** Records of other accounts never affect a balance: only the `$match`ed records count. */
  lemma {:induction false} BalanceOnlyOwnRecords(log: seq<Tx>, id: AccountId)
    ensures Balance(log, id) == Balance(RecordsOf(log, id), id)
    decreases |log|
  {
    if log != [] {
      var h, rest := log[0], log[1..];
      assert log == [h] + rest;
      BalanceConcat([h], rest, id);
      RecordsOfAppend([h], rest, id);
      assert [h][1..] == [];
      BalanceOnlyOwnRecords(rest, id);
      var own := RecordsOf([h], id);
      BalanceConcat(own, RecordsOf(rest, id), id);
      if h.accountId == id {
        assert ([] + [h])[..0] == [];
        assert Balance([h], id) == Balance(own, id);
      } else {
        assert own == [];
        assert [] + [h] == [h];
        assert Balance([h], id) == 0;
        assert own + RecordsOf(rest, id) == RecordsOf(rest, id);
      }
    }
  }
}
