/** The end-to-end scenarios, and a freeze/unfreeze scenario over the controller's endpoints, each starting from an empty store. Amounts in cents. */
module Scenarios {
  import opened Wrappers
  import opened Schemas
  import opened BalanceCalculator
  import opened LedgerStore
  import AccountsService
  import TransactionsService

  /** Open an account, deposit 200, withdraw 50: both are committed and the balance is 150. */
  method DepositThenWithdraw() returns (deposit: Result<Tx, Error>, withdraw: Result<Tx, Error>, balance: Result<int, Error>)
    ensures deposit.Success? && withdraw.Success?
    ensures balance == Success(15000)
  {
    var store := new Store();
    var id, _ := AccountsService.Create(store, Savings);
    deposit := TransactionsService.Create(store, Tx(id, Deposit, 20000), false);
    withdraw := TransactionsService.Create(store, Tx(id, Withdraw, 5000), false);
    BalanceIsDepositsMinusWithdrawals(store.log, id);
    balance := AccountsService.GetBalance(store, id);
  }

  /** Withdrawing 100 from a newly opened account is refused for insufficient funds and the balance stays 0. */
  method OverdraftRefused() returns (withdraw: Result<Tx, Error>, balance: Result<int, Error>)
    ensures withdraw == Failure(InsufficientFunds)
    ensures balance == Success(0)
  {
    var store := new Store();
    var id, _ := AccountsService.Create(store, Checking);
    withdraw := TransactionsService.Create(store, Tx(id, Withdraw, 10000), false);
    balance := AccountsService.GetBalance(store, id);
  }

  /** A frozen account refuses a deposit, and after unfreezing the same deposit is committed. */
  method FreezeBlocksUntilUnfrozen() returns (refused: Result<Tx, Error>, accepted: Result<Tx, Error>)
    ensures refused == Failure(AccountFrozen)
    ensures accepted.Success?
  {
    var store := new Store();
    var id, _ := AccountsService.Create(store, Business);
    var _ := AccountsService.SetAccountStatus(store, id, false);
    refused := TransactionsService.Create(store, Tx(id, Deposit, 5000), false);
    var _ := AccountsService.SetAccountStatus(store, id, true);
    accepted := TransactionsService.Create(store, Tx(id, Deposit, 5000), false);
  }
}
