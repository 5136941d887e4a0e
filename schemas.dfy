/**
 * The two Mongoose collections of the ledger (accounts and transactions)
 * and the errors the services throw.
 */
module Schemas {

  /** Account ids stand for Mongo ObjectIds: opaque, unique, never reused. */
  type AccountId = nat

  /** The account category; informational only, no ledger rule reads it. */
  datatype AccountType = Savings | Checking | Business

  /** An account document, without its personal metadata. `isActive` false means frozen. */
  datatype Account = Account(category: AccountType, isActive: bool)

  /** The `type` field of a transaction record. */
  datatype Kind = Deposit | Withdraw

  /**
   * A transaction record (and the request that creates it). Amounts are in
   * integer cents; the direction is carried by `kind`, never by the sign.
   */
  datatype Tx = Tx(accountId: AccountId, kind: Kind, amount: int)

  /** The schema's `min: 0.01`, in cents. */
  const MinAmount: int := 1

  /** The errors thrown by the core, by the exception class that carries them. */
  datatype Error =
    | NotFound(message: string)        // NestJS NotFoundException
    | BadRequest(message: string)      // NestJS BadRequestException
    | ValidationFailed(path: string)   // Mongoose ValidationError raised by `create`
    | StoreFailure                     // the database failed the write, or the commit; treated as an abort

  const AccountNotFound: Error := NotFound("Account not found")
  const AccountDoesNotExist: Error := NotFound("Account does not exist")
  const AccountFrozen: Error := BadRequest("Account is frozen")
  const InsufficientFunds: Error := BadRequest("Insufficient funds")
  const AmountBelowMinimum: Error := ValidationFailed("amount")
}
