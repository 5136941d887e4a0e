/**
 * The database behind both services: the `accounts` collection, keyed by
 * id, and the append-only `transactions` collection.
 */
module LedgerStore {
  import opened Schemas
  import opened BalanceCalculator

  class Store {
    /** The account collection. Accounts are never deleted. */
    var accounts: map<AccountId, Account>
    /** The transaction collection, oldest record first. Only ever appended to. */
    var log: seq<Tx>
    /** Where fresh ids come from; stands for ObjectId generation. */
    var nextId: nat

    /**
     * What every committed state satisfies: ids already handed out are
     * below `nextId`, every record belongs to an existing account and
     * passed the schema's minimum, and no balance is negative.
     */
    ghost predicate Valid()
      reads this
    {
      && (forall id :: id in accounts ==> id < nextId)
      && (forall i :: 0 <= i < |log| ==> log[i].accountId in accounts && log[i].amount >= MinAmount)
      && Solvent(log)
    }

    /** An empty database. */
    constructor ()
      ensures Valid()
      ensures accounts == map[] && log == []
    {
      accounts := map[];
      log := [];
      nextId := 0;
    }
  }
}
