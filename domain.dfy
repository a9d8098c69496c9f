/**
 * The entities of the bank (Simplebank.Domain/Database/Models) and the
 * exceptions of the application layer, as values.
 */
module Domain {

  /**
   * Identifiers. A .NET `Guid` compared with `CompareTo` is a total order
   * over 128-bit values; the model keeps only that it is a total order and
   * uses the order of the naturals.
   */
  type Guid = nat

  /** C# `decimal`: exact base-10 arithmetic, modelled by exact reals. */
  type Money = real

  /** A reading of the clock (`DateTime.UtcNow`), supplied by the caller. */
  type Time = int

  datatype Account = Account(id: Guid, ownerId: Guid, balance: Money, currency: string)

  /**
   * The `Description` column of an entry. The service writes one of two
   * texts: "Balance modification from API", or "Transfer ID " followed by
   * the id of the transfer the entry belongs to.
   */
  datatype Description = BalanceModificationFromApi | TransferId(transferId: Guid)

  datatype Entry = Entry(id: Guid, accountId: Guid, amount: Money, description: Description, createdAt: Time)

  datatype Transfer = Transfer(id: Guid, fromAccountId: Guid, toAccountId: Guid, amount: Money, createdAt: Time)

  /** A user; `password` holds what the service stored, i.e. the hash. */
  datatype User = User(id: Guid, login: string, name: string, email: string, password: string)

  /**
   * What the AutoMapper profile copies out of a `User` into a `UserDto`:
   * the id, login, name and email, and not the password. The DTO's
   * `CreatedAt` and `UpdatedAt` are copied too; timestamps of users are not
   * part of this model.
   */
  datatype UserDto = UserDto(id: Guid, login: string, name: string, email: string)

  function ToDto(u: User): (d: UserDto)
    ensures d.id == u.id && d.login == u.login && d.name == u.name && d.email == u.email
  {
    UserDto(u.id, u.login, u.name, u.email)
  }

  /** The value `TransfersService.TransferAsync` returns. */
  datatype TransferResult = TransferResult(
    fromAccount: Account, toAccount: Account, amount: Money, fromEntry: Entry, toEntry: Entry)

  /**
   * The exceptions of Simplebank.Application/Exceptions (and the
   * `InvalidOperationException` of the unit of work), one variant each.
   * `SameAccountTransfer` and `DifferentCurrencyAccounts` exist in the
   * source but no code path raises them. `InvalidAmount` has no exception
   * class: it stands for the refusal of a non-positive transfer amount,
   * which the source never makes.
   */
  datatype Error =
    | AccountNotFound(id: Guid)
    | AccountNotOwned(accountId: Guid, userId: Guid)
    | InsufficientBalance(accountId: Guid, amount: Money)
    | AccountAlreadyExists(owner: Guid, currency: string)
    | SameAccountTransfer
    | DifferentCurrencyAccounts(currencyFrom: string, currencyTo: string)
    | UserNotFound(userId: Guid)
    | UserAlreadyExists(login: string, email: string)
    | LoginNotFound(login: string)
    | IncorrectPassword(login: string)
    | InvalidOperation(message: string)
    | InvalidAmount(amount: Money)

  /** The one database error the repositories translate: SQL error 2601, a duplicate key. */
  datatype DbError = DuplicateKeys
}
