/**
 * The accounts service: opening accounts, looking them up, freezing and
 * unfreezing them, and answering balance queries.
 */
module AccountsService {
  import opened Wrappers
  import opened Schemas
  import opened BalanceCalculator
  import opened LedgerStore

  /** The account table after `findByIdAndUpdate(id, { isActive: status })`. */
  function StatusUpdated(accounts: map<AccountId, Account>, id: AccountId, status: bool): map<AccountId, Account>
  {
    if id in accounts then accounts[id := accounts[id].(isActive := status)] else accounts
  }

  /** Opens an account: it starts active, gets a fresh id, and has no records (so balance 0). */
  method Create(store: Store, category: AccountType) returns (id: AccountId, acct: Account)
    requires store.Valid()
    modifies store
    ensures store.Valid()
    ensures id !in old(store.accounts)
    ensures acct == Account(category, true) && acct.isActive
    ensures store.accounts == old(store.accounts)[id := acct]
    ensures store.log == old(store.log)
    ensures Balance(store.log, id) == 0
  {
    id := store.nextId;
    acct := Account(category, true);
    store.accounts := store.accounts[id := acct];
    store.nextId := store.nextId + 1;
    BalanceWithoutRecords(store.log, id);
  }

  /** Looks an account up; `None` stands for the `null` the query returns. */
  method FindById(store: Store, id: AccountId) returns (r: Option<Account>)
    ensures r.Some? <==> id in store.accounts
    ensures r.Some? ==> r.value == store.accounts[id]
  {
    if id in store.accounts {
      r := Some(store.accounts[id]);
    } else {
      r := None;
    }
  }

  /**
   * Sets the active flag of one account and returns the updated account;
   * a missing id is NotFound and changes nothing.
   */
  method SetAccountStatus(store: Store, id: AccountId, status: bool) returns (r: Result<Account, Error>)
    requires store.Valid()
    modifies store
    ensures store.Valid()
    ensures store.accounts == StatusUpdated(old(store.accounts), id, status)
    ensures store.log == old(store.log) && store.nextId == old(store.nextId)
    ensures id !in old(store.accounts) ==> r == Failure(AccountNotFound)
    ensures id in old(store.accounts) ==>
              r == Success(old(store.accounts)[id].(isActive := status)) && r.value.isActive == status
  {
    if id !in store.accounts {
      return Failure(AccountNotFound);
    }
    var updated := store.accounts[id].(isActive := status);
    store.accounts := store.accounts[id := updated];
    r := Success(updated);
  }

  /**
   * The balance of an existing account: the sum of its deposits minus the
   * sum of its withdrawals, 0 with no records; NotFound for a missing id.
   * In a valid store it is never negative.
   */
  method GetBalance(store: Store, id: AccountId) returns (r: Result<int, Error>)
    ensures id !in store.accounts ==> r == Failure(AccountNotFound)
    ensures id in store.accounts ==>
              r == Success(Sum(Amounts(store.log, id, Deposit)) - Sum(Amounts(store.log, id, Withdraw)))
    ensures id in store.accounts && RecordsOf(store.log, id) == [] ==> r == Success(0)
    ensures store.Valid() && r.Success? ==> r.value >= 0
  {
    var acct := FindById(store, id);
    if acct.None? {
      return Failure(AccountNotFound);
    }
    BalanceIsDepositsMinusWithdrawals(store.log, id);
    BalanceOnlyOwnRecords(store.log, id);
    r := Success(Balance(store.log, id));
  }

  // ---- Properties of the status update ----

  /** Setting the same status twice is the same as setting it once. */
  lemma StatusUpdateIdempotent(accounts: map<AccountId, Account>, id: AccountId, status: bool)
    ensures StatusUpdated(StatusUpdated(accounts, id, status), id, status) == StatusUpdated(accounts, id, status)
  {
  }

  /** The update touches only the `isActive` flag of account `id`. */
  lemma StatusUpdateFrame(accounts: map<AccountId, Account>, id: AccountId, status: bool)
    ensures StatusUpdated(accounts, id, status).Keys == accounts.Keys
    ensures forall other :: other in accounts && other != id ==>
              StatusUpdated(accounts, id, status)[other] == accounts[other]
    ensures id in accounts ==>
              StatusUpdated(accounts, id, status)[id] == Account(accounts[id].category, status)
    ensures id !in accounts ==> StatusUpdated(accounts, id, status) == accounts
  {
  }
}
