/**
 * The transaction engine: one deposit or withdrawal, run inside a database
 * unit of work that is committed on success and aborted on any error.
 */
module TransactionsService {
  import opened Wrappers
  import opened Schemas
  import opened BalanceCalculator
  import opened LedgerStore
  import AccountsService

  /**
   * The outcome of one `create` on a given state: the first check that
   * fails, in the source's order (existence, status, funds, then the
   * schema's minimum when the record is written, then the database's own
   * answer `storeFault`), or the record itself.
   */
  function Decide(accounts: map<AccountId, Account>, log: seq<Tx>, dto: Tx, storeFault: bool): Result<Tx, Error>
  {
    if dto.accountId !in accounts then Failure(AccountDoesNotExist)
    else if !accounts[dto.accountId].isActive then Failure(AccountFrozen)
    else if dto.kind == Withdraw && Balance(log, dto.accountId) < dto.amount then Failure(InsufficientFunds)
    else if dto.amount < MinAmount then Failure(AmountBelowMinimum)
    else if storeFault then Failure(StoreFailure)
    else Success(dto)
  }

  /** The log after a unit of work: the created record on commit, nothing on abort. */
  function Committed(log: seq<Tx>, r: Result<Tx, Error>): seq<Tx>
  {
    if r.Success? then log + [r.value] else log
  }

  /**
   * Runs one deposit or withdrawal. `storeFault` is the database's answer
   * to the write and the commit. Either exactly the returned record is
   * appended, or nothing changes.
   */
  method Create(store: Store, dto: Tx, storeFault: bool) returns (r: Result<Tx, Error>)
    requires store.Valid()
    modifies store
    ensures store.Valid()
    ensures r == Decide(old(store.accounts), old(store.log), dto, storeFault)
    ensures r.Success? ==> r.value == dto
    ensures store.log == Committed(old(store.log), r)
    ensures store.accounts == old(store.accounts) && store.nextId == old(store.nextId)
    ensures forall id :: Balance(store.log, id) ==
              Balance(old(store.log), id) + (if r.Success? then Contribution(dto, id) else 0)
  {
    // startSession / startTransaction: reads below see the unit's snapshot,
    // writes are staged in `staged` until the commit.
    var acct := AccountsService.FindById(store, dto.accountId);
    if acct.None? {
      return Failure(AccountDoesNotExist);       // abortTransaction: nothing staged
    }
    if !acct.value.isActive {
      return Failure(AccountFrozen);             // abortTransaction
    }
    var balance := AccountsService.GetBalance(store, dto.accountId);
    BalanceIsDepositsMinusWithdrawals(store.log, dto.accountId);
    if dto.kind == Withdraw && balance.value < dto.amount {
      return Failure(InsufficientFunds);         // abortTransaction
    }
    if dto.amount < MinAmount {
      return Failure(AmountBelowMinimum);        // schema validation inside txModel.create
    }
    var staged := [dto];                         // txModel.create([dto], { session })
    if storeFault {
      return Failure(StoreFailure);              // abortTransaction: the staged write is discarded
    }
    AppendKeepsSolvent(store.log, dto);
    forall id ensures Balance(store.log + staged, id) == Balance(store.log, id) + Contribution(dto, id) {
      BalanceAppend(store.log, dto, id);
    }
    store.log := store.log + staged;             // commitTransaction
    r := Success(dto);
  }

  // ---- Properties of the engine ----

  /** Appending an admitted record keeps every balance non-negative. */
  lemma AppendKeepsSolvent(log: seq<Tx>, dto: Tx)
    requires Solvent(log)
    requires dto.amount >= MinAmount
    requires dto.kind == Withdraw ==> dto.amount <= Balance(log, dto.accountId)
    ensures Solvent(log + [dto])
  {
    forall id ensures Balance(log + [dto], id) >= 0 {
      BalanceAppend(log, dto, id);
    }
  }

  /** A missing account is NotFound whatever the kind, the amount or the database does. */
  lemma MissingAccountIsNotFound(accounts: map<AccountId, Account>, log: seq<Tx>, dto: Tx, storeFault: bool)
    requires dto.accountId !in accounts
    ensures Decide(accounts, log, dto, storeFault) == Failure(AccountDoesNotExist)
  {
  }

  /** A frozen account refuses deposits and withdrawals alike. */
  lemma FrozenAccountRefuses(accounts: map<AccountId, Account>, log: seq<Tx>, dto: Tx, storeFault: bool)
    requires dto.accountId in accounts && !accounts[dto.accountId].isActive
    ensures Decide(accounts, log, dto, storeFault) == Failure(AccountFrozen)
  {
  }

  /** The funds check: which requests are refused for insufficient funds, exactly. */
  lemma InsufficientFundsExactly(accounts: map<AccountId, Account>, log: seq<Tx>, dto: Tx, storeFault: bool)
    ensures Decide(accounts, log, dto, storeFault) == Failure(InsufficientFunds) <==>
              && dto.accountId in accounts && accounts[dto.accountId].isActive
              && dto.kind == Withdraw && Balance(log, dto.accountId) < dto.amount
  {
  }

  /** A deposit is never refused for funds, and neither is a withdrawal of at most the balance. */
  lemma NoFundsCheckUpToBalance(accounts: map<AccountId, Account>, log: seq<Tx>, dto: Tx, storeFault: bool)
    requires dto.kind == Deposit || dto.amount <= Balance(log, dto.accountId)
    ensures Decide(accounts, log, dto, storeFault) != Failure(InsufficientFunds)
  {
  }

  /** When is a request committed: exactly when every check passes. */
  lemma SucceedsExactly(accounts: map<AccountId, Account>, log: seq<Tx>, dto: Tx, storeFault: bool)
    ensures Decide(accounts, log, dto, storeFault).Success? <==>
              && dto.accountId in accounts && accounts[dto.accountId].isActive
              && (dto.kind == Withdraw ==> dto.amount <= Balance(log, dto.accountId))
              && dto.amount >= MinAmount && !storeFault
    ensures Decide(accounts, log, dto, storeFault).Success? ==> Decide(accounts, log, dto, storeFault).value == dto
  {
  }

  /**
   * The effect of one `create` on every balance: the record's own account
   * moves by its signed amount on commit; nothing else ever moves.
   */
  lemma {:induction false} CreateEffect(accounts: map<AccountId, Account>, log: seq<Tx>, dto: Tx, storeFault: bool, id: AccountId)
    ensures var r := Decide(accounts, log, dto, storeFault);
            Balance(Committed(log, r), id) ==
              Balance(log, id) + (if r.Success? && id == dto.accountId then Signed(dto) else 0)
  {
    BalanceAppend(log, dto, id);
  }

  /** A solvent log stays solvent through any `create`, committed or not. */
  lemma {:induction false} CreateKeepsSolvent(accounts: map<AccountId, Account>, log: seq<Tx>, dto: Tx, storeFault: bool)
    requires Solvent(log)
    ensures Solvent(Committed(log, Decide(accounts, log, dto, storeFault)))
  {
    if Decide(accounts, log, dto, storeFault).Success? {
      AppendKeepsSolvent(log, dto);
    }
  }

  /** Freezing stops every transfer; unfreezing an existing account lifts the status check again. */
  lemma FreezeThenUnfreeze(accounts: map<AccountId, Account>, log: seq<Tx>, dto: Tx, storeFault: bool)
    requires dto.accountId in accounts
    ensures Decide(AccountsService.StatusUpdated(accounts, dto.accountId, false), log, dto, storeFault) == Failure(AccountFrozen)
    ensures var r := Decide(AccountsService.StatusUpdated(accounts, dto.accountId, true), log, dto, storeFault);
            r != Failure(AccountFrozen) && r != Failure(AccountDoesNotExist)
  {
  }

  // ---- Many requests served one after another ----

  /** The log after serving `reqs` in order, each in its own unit of work, with no database faults. */
  function Serve(accounts: map<AccountId, Account>, log: seq<Tx>, reqs: seq<Tx>): seq<Tx>
    decreases |reqs|
  {
    if reqs == [] then log
    else Serve(accounts, Committed(log, Decide(accounts, log, reqs[0], false)), reqs[1..])
  }

  function Min(a: nat, b: nat): nat
  {
    if a <= b then a else b
  }

  /**
   * N withdrawals of `a` against a balance of exactly k * a: exactly
   * min(k, N) of them are committed and the balance ends at (k - min(k, N)) * a.
   * The requests are served one after another, each unit of work on its own, with no database faults.
   */
  lemma {:induction false} WithdrawalsNeverOverdraw(accounts: map<AccountId, Account>, log: seq<Tx>, id: AccountId, a: int, k: nat, reqs: seq<Tx>)
    requires id in accounts && accounts[id].isActive
    requires a >= MinAmount
    requires Balance(log, id) == k * a
    requires forall i :: 0 <= i < |reqs| ==> reqs[i] == Tx(id, Withdraw, a)
    ensures |Serve(accounts, log, reqs)| == |log| + Min(k, |reqs|)
    ensures Balance(Serve(accounts, log, reqs), id) == (k - Min(k, |reqs|)) * a
    decreases |reqs|
  {
    if reqs != [] {
      var req := reqs[0];
      var next := Committed(log, Decide(accounts, log, req, false));
      BalanceAppend(log, req, id);
      if k > 0 {
        assert k * a >= a;
        assert next == log + [req];
        assert Balance(next, id) == (k - 1) * a;
        WithdrawalsNeverOverdraw(accounts, next, id, a, k - 1, reqs[1..]);
      } else {
        assert next == log;
        WithdrawalsNeverOverdraw(accounts, next, id, a, 0, reqs[1..]);
      }
    }
  }
}
