/**
 * `AccountsService` (Simplebank.Application/Services/AccountsService.cs):
 * reading an account, opening an account in a currency, and changing a
 * balance from the API, the last two inside a transaction of the unit of
 * work.
 */
module AccountsService {
  import opened Wrappers
  import opened Domain
  import opened Ledger
  import opened Transactions

  /** `GetAccountAsync`. */
  function GetAccount(accounts: map<Guid, Account>, id: Guid): (r: Result<Account, Error>)
    ensures r.Success? <==> id in accounts
    ensures r.Success? ==> r.value == accounts[id]
    ensures r.Failure? ==> r.error == AccountNotFound(id)
  {
    if id in accounts then Success(accounts[id]) else Failure(AccountNotFound(id))
  }

  /**
   * What `CreateAccountAsync` does to the tables once its transaction has
   * begun: insert an account with balance 0; the unique index on
   * (OwnerId, Currency) turns a second account in the same currency into
   * `AccountAlreadyExists`, and the transaction is rolled back.
   */
  function CreateAccountSpec(t: Tables, owner: Guid, currency: string): (r: (Tables, Result<Account, Error>))
    ensures r.1.Failure? <==> HasAccountFor(t.accounts, owner, currency)
    ensures r.1.Failure? ==> r.0 == t && r.1.error == AccountAlreadyExists(owner, currency)
    ensures r.1.Success? ==>
      && r.1.value == Account(t.nextId, owner, 0.0, currency)
      && r.0 == t.(accounts := t.accounts[t.nextId := r.1.value], nextId := t.nextId + 1)
    ensures Consistent(t) ==> Consistent(r.0)
  {
    match InsertAccount(t, Account(0, owner, 0.0, currency))
    case (t', Success(a)) => (t', Success(a))
    case (_, Failure(_)) => (t, Failure(AccountAlreadyExists(owner, currency)))
  }

  /** Opening an account keeps the audit trail: the new account starts at 0 with no entries. */
  lemma CreateAccountKeepsAudit(t: Tables, owner: Guid, currency: string)
    requires Consistent(t) && Audited(t)
    ensures Audited(CreateAccountSpec(t, owner, currency).0)
  {
    var r := CreateAccountSpec(t, owner, currency);
    if r.1.Success? {
      EntrySumOfStranger(t.entries, t.nextId);
    }
  }

  /** Opening an account does not change how much money the bank holds. */
  lemma CreateAccountKeepsTotal(t: Tables, owner: Guid, currency: string)
    requires Consistent(t)
    ensures Total(CreateAccountSpec(t, owner, currency).0.accounts) == Total(t.accounts)
  {
    var r := CreateAccountSpec(t, owner, currency);
    if r.1.Success? {
      TotalInsert(t.accounts, t.nextId, r.1.value);
    }
  }

  /** After opening an account, the owner holds an account in that currency; a second attempt fails. */
  lemma CreateAccountTwiceFails(t: Tables, owner: Guid, currency: string)
    requires CreateAccountSpec(t, owner, currency).1.Success?
    ensures var t' := CreateAccountSpec(t, owner, currency).0;
      CreateAccountSpec(t', owner, currency) == (t', Failure(AccountAlreadyExists(owner, currency)))
  {
    var t' := CreateAccountSpec(t, owner, currency).0;
    assert t'.accounts[t.nextId].ownerId == owner && t'.accounts[t.nextId].currency == currency;
  }

  /**
   * `CreateAccountAsync`. When the unit of work already has a transaction
   * open, the begin call throws before the try block and nothing else
   * happens; otherwise the transaction ends in a commit on success and a
   * rollback on failure.
   */
  method CreateAccount(db: Store, uow: UnitOfWork, owner: Guid, currency: string) returns (r: Result<Account, Error>)
    requires db.Valid() && uow.Valid() && uow.db == db
    modifies db, uow
    ensures db.Valid() && uow.Valid()
    ensures old(uow.transaction).Some? ==>
      && r == Failure(AlreadyStarted) && db.Snapshot() == old(db.Snapshot())
      && uow.transaction == old(uow.transaction) && uow.log == old(uow.log)
    ensures old(uow.transaction).None? ==>
      && (db.Snapshot(), r) == CreateAccountSpec(old(db.Snapshot()), owner, currency)
      && uow.transaction.None?
      && uow.log == old(uow.log) + [BeginOp, if r.Success? then CommitOp else RollbackOp]
  {
    var begun := uow.Begin();
    if begun.Fail? {
      return Failure(begun.error);
    }
    var added := db.AddAccount(Account(0, owner, 0.0, currency));
    r := if added.Success? then Success(added.value) else Failure(AccountAlreadyExists(owner, currency));
    Conclude(uow, r.Success?);
  }

  /**
   * What `AddBalanceAsync` does to the tables once its transaction has
   * begun: look the account up by id (there is no check of who owns it
   * and none of the resulting balance), write an entry for the amount,
   * then add the amount to the balance.
   */
  function AddBalanceSpec(t: Tables, id: Guid, amount: Money, now: Time): (r: (Tables, Outcome<Error>))
    ensures r.1.Fail? <==> id !in t.accounts
    ensures r.1.Fail? ==> r.0 == t && r.1.error == AccountNotFound(id)
    ensures r.1.Pass? ==>
      && r.0.accounts == t.accounts[id := t.accounts[id].(balance := t.accounts[id].balance + amount)]
      && r.0.entries == t.entries + [Entry(t.nextId, id, amount, BalanceModificationFromApi, now)]
      && r.0.transfers == t.transfers && r.0.users == t.users && r.0.nextId == t.nextId + 1
    ensures Consistent(t) ==> Consistent(r.0)
  {
    if id !in t.accounts then (t, Fail(AccountNotFound(id)))
    else
      var (t1, _) := InsertEntry(t, Entry(0, id, amount, BalanceModificationFromApi, 0), now);
      (WithBalance(t1, id, t1.accounts[id].balance + amount), Pass)
  }

  /** Changing a balance from the API records the change: the audit trail is kept. */
  lemma AddBalanceKeepsAudit(t: Tables, id: Guid, amount: Money, now: Time)
    requires Audited(t)
    ensures Audited(AddBalanceSpec(t, id, amount, now).0)
  {
    var r := AddBalanceSpec(t, id, amount, now);
    if r.1.Pass? {
      var e := Entry(t.nextId, id, amount, BalanceModificationFromApi, now);
      forall k | k in r.0.accounts
        ensures r.0.accounts[k].balance == EntrySum(r.0.entries, k)
      {
        EntrySumAppend(t.entries, e, k);
      }
    }
  }

  /** Changing a balance from the API moves the bank's total by exactly the amount. */
  lemma AddBalanceMovesTotal(t: Tables, id: Guid, amount: Money, now: Time)
    requires id in t.accounts
    ensures Total(AddBalanceSpec(t, id, amount, now).0.accounts) == Total(t.accounts) + amount
  {
    TotalUpdate(t.accounts, id, t.accounts[id].(balance := t.accounts[id].balance + amount));
  }

  /**
   * The request validation admits amounts down to -100000 and the service
   * does not compare them with the balance: any account can be taken below
   * zero.
   */
  lemma AddBalanceCanOverdraw(t: Tables, id: Guid, amount: Money, now: Time)
    requires id in t.accounts && amount < -t.accounts[id].balance
    ensures AddBalanceSpec(t, id, amount, now).1.Pass?
    ensures AddBalanceSpec(t, id, amount, now).0.accounts[id].balance < 0.0
  {
  }

  /** `AddBalanceAsync`, inside its transaction. */
  method AddBalance(db: Store, uow: UnitOfWork, id: Guid, amount: Money, now: Time) returns (r: Outcome<Error>)
    requires db.Valid() && uow.Valid() && uow.db == db
    modifies db, uow
    ensures db.Valid() && uow.Valid()
    ensures old(uow.transaction).Some? ==>
      && r == Fail(AlreadyStarted) && db.Snapshot() == old(db.Snapshot())
      && uow.transaction == old(uow.transaction) && uow.log == old(uow.log)
    ensures old(uow.transaction).None? ==>
      && (db.Snapshot(), r) == AddBalanceSpec(old(db.Snapshot()), id, amount, now)
      && uow.transaction.None?
      && uow.log == old(uow.log) + [BeginOp, if r.Pass? then CommitOp else RollbackOp]
  {
    ghost var before := db.Snapshot();
    var begun := uow.Begin();
    if begun.Fail? {
      return begun;
    }
    if id !in db.accounts {
      r := Fail(AccountNotFound(id));
    } else {
      var _ := db.AddEntry(Entry(0, id, amount, BalanceModificationFromApi, 0), now);
      db.SetBalance(id, db.accounts[id].balance + amount);
      r := Pass;
    }
    assert (db.Snapshot(), r) == AddBalanceSpec(before, id, amount, now);
    Conclude(uow, r.Pass?);
  }
}
