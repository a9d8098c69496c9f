/**
 * `TransfersService` (Simplebank.Application/Services/TransfersService.cs):
 * moving money from one account to another inside a transaction.
 *
 * The service locks both accounts in ascending id order, checks that the
 * caller owns the source account and that its balance covers the amount,
 * then debits the source, credits the destination, and records one
 * transfer and two entries. It makes no other check: neither that the
 * accounts differ, nor that their currencies agree, nor that the amount
 * is positive.
 */
module TransfersService {
  import opened Wrappers
  import opened Domain
  import opened Ledger
  import opened Transactions
  import AccountsRepository

  /** The order in which the two accounts are locked: the smaller id first. */
  function LockOrder(fromId: Guid, toId: Guid): (r: (Guid, Guid))
    ensures r.0 <= r.1
    ensures multiset{r.0, r.1} == multiset{fromId, toId}
  {
    if fromId > toId then (toId, fromId) else (fromId, toId)
  }

  /**
   * Two transfers between the same pair of accounts lock them in the same
   * order whichever way the money goes, so they cannot each hold one lock
   * while waiting for the other.
   */
  lemma LockOrderIgnoresDirection(a: Guid, b: Guid)
    ensures LockOrder(a, b) == LockOrder(b, a)
  {
  }

  /**
   * Locking both accounts: the first account in lock order that is missing
   * is reported.
   */
  function LockAccounts(accounts: map<Guid, Account>, fromId: Guid, toId: Guid): (r: Result<(Account, Account), Error>)
    ensures r.Success? <==> fromId in accounts && toId in accounts
    ensures r.Success? ==> r.value == (accounts[fromId], accounts[toId])
    ensures r.Failure? ==>
      && r.error.AccountNotFound?
      && (r.error.id == fromId || r.error.id == toId)
      && r.error.id !in accounts
      && (fromId < r.error.id ==> fromId in accounts)
      && (toId < r.error.id ==> toId in accounts)
  {
    var (first, second) := LockOrder(fromId, toId);
    if first !in accounts then Failure(AccountNotFound(first))
    else if second !in accounts then Failure(AccountNotFound(second))
    else Success((accounts[fromId], accounts[toId]))
  }

  /**
   * The writes of a transfer that passed its checks. The destination's new
   * balance is computed from the row as the debit left it, so when both
   * ids name the same account the debit and the credit cancel out.
   */
  function Move(t: Tables, fromId: Guid, toId: Guid, amount: Money, now: Time): (r: (Tables, TransferResult))
    requires fromId in t.accounts && toId in t.accounts
    ensures r.0.accounts.Keys == t.accounts.Keys
    ensures forall k :: k in t.accounts && k != fromId && k != toId ==> r.0.accounts[k] == t.accounts[k]
    ensures fromId != toId ==>
      && r.0.accounts[fromId] == t.accounts[fromId].(balance := t.accounts[fromId].balance - amount)
      && r.0.accounts[toId] == t.accounts[toId].(balance := t.accounts[toId].balance + amount)
    ensures fromId == toId ==> r.0.accounts == t.accounts
    ensures r.0.transfers == t.transfers + [Domain.Transfer(t.nextId, fromId, toId, amount, now)]
    ensures r.0.entries == t.entries + [
      Entry(t.nextId + 1, fromId, -amount, TransferId(t.nextId), now),
      Entry(t.nextId + 2, toId, amount, TransferId(t.nextId), now)]
    ensures r.0.users == t.users && r.0.nextId == t.nextId + 3
    ensures r.0.accounts == Rebalance(t, fromId, toId, amount).accounts
    ensures r.1 == TransferResult(r.0.accounts[fromId], r.0.accounts[toId], amount,
      r.0.entries[|t.entries|], r.0.entries[|t.entries| + 1])
    ensures Consistent(t) ==> Consistent(r.0)
  {
    var t2 := Rebalance(t, fromId, toId, amount);
    RebalanceKeepsConsistent(t, fromId, toId, amount);
    var recorded := Record(t2, fromId, toId, amount, now);
    (recorded.0, TransferResult(t2.accounts[fromId], t2.accounts[toId], amount, recorded.1, recorded.2))
  }

  /**
   * Debit the source row, then credit the destination row as the debit
   * left it.
   */
  function Rebalance(t: Tables, fromId: Guid, toId: Guid, amount: Money): (r: Tables)
    requires fromId in t.accounts && toId in t.accounts
    ensures r.accounts.Keys == t.accounts.Keys
    ensures forall k :: k in t.accounts && k != fromId && k != toId ==> r.accounts[k] == t.accounts[k]
    ensures fromId != toId ==>
      && r.accounts[fromId] == t.accounts[fromId].(balance := t.accounts[fromId].balance - amount)
      && r.accounts[toId] == t.accounts[toId].(balance := t.accounts[toId].balance + amount)
    ensures fromId == toId ==> r.accounts == t.accounts
    ensures r == t.(accounts := r.accounts)
  {
    var t1 := WithBalance(t, fromId, t.accounts[fromId].balance - amount);
    var t2 := WithBalance(t1, toId, t1.accounts[toId].balance + amount);
    assert t2.accounts == t1.accounts[toId := t1.accounts[toId].(balance := t1.accounts[toId].balance + amount)];
    t2
  }

  /** Whatever the two ids, rebalancing leaves the bank's total as it was. */
  lemma RebalanceKeepsTotal(t: Tables, fromId: Guid, toId: Guid, amount: Money)
    requires fromId in t.accounts && toId in t.accounts
    ensures Total(Rebalance(t, fromId, toId, amount).accounts) == Total(t.accounts)
  {
    var debited := t.accounts[fromId := t.accounts[fromId].(balance := t.accounts[fromId].balance - amount)];
    var credited := debited[toId := debited[toId].(balance := debited[toId].balance + amount)];
    TotalUpdate(t.accounts, fromId, debited[fromId]);
    TotalUpdate(debited, toId, credited[toId]);
    assert Rebalance(t, fromId, toId, amount).accounts == credited;
  }

  /** Rebalancing changes balances only, so it keeps every key and unique index. */
  lemma RebalanceKeepsConsistent(t: Tables, fromId: Guid, toId: Guid, amount: Money)
    requires fromId in t.accounts && toId in t.accounts
    ensures Consistent(t) ==> Consistent(Rebalance(t, fromId, toId, amount))
  {
  }

  /** Insert the transfer, then the debit entry and the credit entry that name it. */
  function Record(t: Tables, fromId: Guid, toId: Guid, amount: Money, now: Time): (r: (Tables, Entry, Entry))
    requires fromId in t.accounts && toId in t.accounts
    ensures r.1 == Entry(t.nextId + 1, fromId, -amount, TransferId(t.nextId), now)
    ensures r.2 == Entry(t.nextId + 2, toId, amount, TransferId(t.nextId), now)
    ensures r.0 == t.(transfers := t.transfers + [Domain.Transfer(t.nextId, fromId, toId, amount, now)],
                      entries := t.entries + [r.1, r.2],
                      nextId := t.nextId + 3)
    ensures Consistent(t) ==> Consistent(r.0)
  {
    var transfer := InsertTransfer(t, Domain.Transfer(0, fromId, toId, amount, 0), now);
    var fromEntry := InsertEntry(transfer.0, Entry(0, fromId, -amount, TransferId(transfer.1.id), 0), now);
    var toEntry := InsertEntry(fromEntry.0, Entry(0, toId, amount, TransferId(transfer.1.id), 0), now);
    (toEntry.0, fromEntry.1, toEntry.1)
  }

  /**
   * `TransferInternalAsync` on the tables: lock, check ownership of the
   * source, check its balance, then move the money. Every refusal happens
   * before the first write. The ownership error is raised with the user id
   * in the account position and the account id in the user position.
   */
  function TransferSpec(t: Tables, userId: Guid, fromId: Guid, toId: Guid, amount: Money, now: Time)
    : (r: (Tables, Result<TransferResult, Error>))
    ensures r.1.Failure? ==> r.0 == t
    ensures LockAccounts(t.accounts, fromId, toId).Failure? ==> r.1 == Failure(LockAccounts(t.accounts, fromId, toId).error)
    ensures fromId in t.accounts && toId in t.accounts && t.accounts[fromId].ownerId != userId
      ==> r.1 == Failure(AccountNotOwned(userId, fromId))
    ensures fromId in t.accounts && toId in t.accounts && t.accounts[fromId].ownerId == userId
      && t.accounts[fromId].balance < amount
      ==> r.1 == Failure(InsufficientBalance(fromId, amount))
    ensures r.1.Success? ==> fromId in t.accounts && toId in t.accounts && r == (Move(t, fromId, toId, amount, now).0, Success(Move(t, fromId, toId, amount, now).1))
    ensures Consistent(t) ==> Consistent(r.0)
  {
    match LockAccounts(t.accounts, fromId, toId)
    case Failure(e) => (t, Failure(e))
    case Success((from, _)) =>
      if from.ownerId != userId then (t, Failure(AccountNotOwned(userId, fromId)))
      else if from.balance < amount then (t, Failure(InsufficientBalance(fromId, amount)))
      else
        var (t', result) := Move(t, fromId, toId, amount, now);
        (t', Success(result))
  }

  /** A transfer goes through exactly when both accounts exist, the caller owns the source, and it covers the amount. */
  lemma TransferSucceedsIff(t: Tables, userId: Guid, fromId: Guid, toId: Guid, amount: Money, now: Time)
    ensures TransferSpec(t, userId, fromId, toId, amount, now).1.Success?
       <==> && fromId in t.accounts && toId in t.accounts
            && t.accounts[fromId].ownerId == userId
            && t.accounts[fromId].balance >= amount
  {
  }

  /** Neither the same-account nor the currency exception is ever raised. */
  lemma TransferNeverChecksAccountsOrCurrencies(t: Tables, userId: Guid, fromId: Guid, toId: Guid, amount: Money, now: Time)
    requires TransferSpec(t, userId, fromId, toId, amount, now).1.Failure?
    ensures var e := TransferSpec(t, userId, fromId, toId, amount, now).1.error;
      !e.SameAccountTransfer? && !e.DifferentCurrencyAccounts?
  {
  }

  /** Between two different accounts, the source loses the amount and the destination gains it; no other account changes. */
  lemma TransferMovesMoney(t: Tables, userId: Guid, fromId: Guid, toId: Guid, amount: Money, now: Time)
    requires fromId != toId
    requires TransferSpec(t, userId, fromId, toId, amount, now).1.Success?
    ensures var t' := TransferSpec(t, userId, fromId, toId, amount, now).0;
      && t'.accounts.Keys == t.accounts.Keys
      && t'.accounts[fromId].balance == t.accounts[fromId].balance - amount
      && t'.accounts[toId].balance == t.accounts[toId].balance + amount
      && (forall k :: k in t.accounts && k != fromId && k != toId ==> t'.accounts[k] == t.accounts[k])
  {
  }

  /**
   * A transfer from an account to itself goes through: no balance changes,
   * yet a transfer and two entries are recorded.
   */
  lemma SelfTransferIsRecorded(t: Tables, userId: Guid, id: Guid, amount: Money, now: Time)
    requires id in t.accounts && t.accounts[id].ownerId == userId && t.accounts[id].balance >= amount
    ensures var r := TransferSpec(t, userId, id, id, amount, now);
      && r.1.Success?
      && r.0.accounts == t.accounts
      && |r.0.transfers| == |t.transfers| + 1
      && |r.0.entries| == |t.entries| + 2
  {
  }

  /**
   * Accounts in different currencies: the amount leaves the source and
   * arrives at the destination unconverted.
   */
  lemma CrossCurrencyTransferIsUnconverted(t: Tables, userId: Guid, fromId: Guid, toId: Guid, amount: Money, now: Time)
    requires fromId in t.accounts && toId in t.accounts && fromId != toId
    requires t.accounts[fromId].currency != t.accounts[toId].currency
    requires t.accounts[fromId].ownerId == userId && t.accounts[fromId].balance >= amount
    ensures var r := TransferSpec(t, userId, fromId, toId, amount, now);
      r.1.Success? && r.0.accounts[toId].balance - t.accounts[toId].balance == amount
  {
  }

  /** A transfer neither creates nor destroys money. */
  lemma TransferKeepsTotal(t: Tables, userId: Guid, fromId: Guid, toId: Guid, amount: Money, now: Time)
    ensures Total(TransferSpec(t, userId, fromId, toId, amount, now).0.accounts) == Total(t.accounts)
  {
    var r := TransferSpec(t, userId, fromId, toId, amount, now);
    if r.1.Success? {
      RebalanceKeepsTotal(t, fromId, toId, amount);
      assert r.0.accounts == Rebalance(t, fromId, toId, amount).accounts;
    }
  }

  /** A transfer keeps the audit trail: the two entries account for the two balance changes. */
  lemma TransferKeepsAudit(t: Tables, userId: Guid, fromId: Guid, toId: Guid, amount: Money, now: Time)
    requires Audited(t)
    ensures Audited(TransferSpec(t, userId, fromId, toId, amount, now).0)
  {
    var r := TransferSpec(t, userId, fromId, toId, amount, now);
    if r.1.Success? {
      var debit := Entry(t.nextId + 1, fromId, -amount, TransferId(t.nextId), now);
      var credit := Entry(t.nextId + 2, toId, amount, TransferId(t.nextId), now);
      assert r.0.entries == (t.entries + [debit]) + [credit];
      forall k | k in r.0.accounts
        ensures r.0.accounts[k].balance == EntrySum(r.0.entries, k)
      {
        EntrySumAppend(t.entries, debit, k);
        EntrySumAppend(t.entries + [debit], credit, k);
      }
    }
  }

  /** With a non-negative amount, a transfer never takes an account below zero. */
  lemma TransferKeepsBalancesNonNegative(t: Tables, userId: Guid, fromId: Guid, toId: Guid, amount: Money, now: Time)
    requires amount >= 0.0
    requires forall k :: k in t.accounts ==> t.accounts[k].balance >= 0.0
    ensures var t' := TransferSpec(t, userId, fromId, toId, amount, now).0;
      forall k :: k in t'.accounts ==> t'.accounts[k].balance >= 0.0
  {
  }

  /**
   * A negative amount passes the balance check of any source with a
   * non-negative balance, and the transfer then takes money out of the
   * destination, which may belong to someone else, down to below zero when
   * the amount exceeds its balance.
   */
  lemma NegativeTransferDrainsDestination(t: Tables, userId: Guid, fromId: Guid, toId: Guid, amount: Money, now: Time)
    requires fromId in t.accounts && toId in t.accounts && fromId != toId
    requires t.accounts[fromId].ownerId == userId && t.accounts[fromId].balance >= 0.0
    requires amount < 0.0
    ensures var r := TransferSpec(t, userId, fromId, toId, amount, now);
      && r.1.Success?
      && r.0.accounts[toId].balance < t.accounts[toId].balance
      && r.0.accounts[fromId].balance > t.accounts[fromId].balance
      && (amount < -t.accounts[toId].balance ==> r.0.accounts[toId].balance < 0.0)
  {
  }

  /**
   * Sending an amount and having the owner of the destination send it
   * back restores every balance, while both transfers stay on record.
   */
  lemma {:induction false} TransferThereAndBack(t: Tables, userId: Guid, fromId: Guid, toId: Guid, amount: Money, now: Time, later: Time)
    requires fromId != toId
    requires TransferSpec(t, userId, fromId, toId, amount, now).1.Success?
    requires t.accounts[toId].balance >= 0.0
    ensures var t1 := TransferSpec(t, userId, fromId, toId, amount, now).0;
      var back := TransferSpec(t1, t.accounts[toId].ownerId, toId, fromId, amount, later);
      && back.1.Success?
      && back.0.accounts == t.accounts
      && |back.0.transfers| == |t.transfers| + 2
  {
    var t1 := TransferSpec(t, userId, fromId, toId, amount, now).0;
    TransferSucceedsIff(t, userId, fromId, toId, amount, now);
    TransferMovesMoney(t, userId, fromId, toId, amount, now);
    var owner := t.accounts[toId].ownerId;
    assert t1.accounts[toId].ownerId == owner;
    assert t1.accounts[toId].balance >= amount;
    TransferSucceedsIff(t1, owner, toId, fromId, amount, later);
    var back := TransferSpec(t1, owner, toId, fromId, amount, later);
    TransferMovesMoney(t1, owner, toId, fromId, amount, later);
    forall k | k in t.accounts
      ensures back.0.accounts[k] == t.accounts[k]
    {
    }
    assert back.0.accounts == t.accounts;
  }

  /**
   * The transfer the API tests expect (Simplebank.API.Tests/TransferTests.cs:
   * a negative amount, one account on both sides, and two currencies are
   * each refused), with the exceptions the application declares for the
   * last two, and the ownership error's arguments in their declared order.
   * The account pair is checked before the amount, so a transfer from an
   * account to itself is always `SameAccountTransfer`. Every refusal comes
   * before the first write; what passes is the transfer as written.
   */
  function TransferChecked(t: Tables, userId: Guid, fromId: Guid, toId: Guid, amount: Money, now: Time)
    : (r: (Tables, Result<TransferResult, Error>))
    ensures r.1.Failure? ==> r.0 == t
    ensures fromId == toId ==> r.1 == Failure(SameAccountTransfer)
    ensures fromId != toId && amount <= 0.0 ==> r.1 == Failure(InvalidAmount(amount))
    ensures amount > 0.0 && fromId != toId && fromId in t.accounts && toId in t.accounts
      && t.accounts[fromId].ownerId != userId
      ==> r.1 == Failure(AccountNotOwned(fromId, userId))
    ensures amount > 0.0 && fromId != toId && fromId in t.accounts && toId in t.accounts
      && t.accounts[fromId].ownerId == userId && t.accounts[fromId].currency != t.accounts[toId].currency
      ==> r.1 == Failure(DifferentCurrencyAccounts(t.accounts[fromId].currency, t.accounts[toId].currency))
    ensures r.1.Success? ==> r == TransferSpec(t, userId, fromId, toId, amount, now)
  {
    if fromId == toId then (t, Failure(SameAccountTransfer))
    else if amount <= 0.0 then (t, Failure(InvalidAmount(amount)))
    else match LockAccounts(t.accounts, fromId, toId)
      case Failure(e) => (t, Failure(e))
      case Success((from, to)) =>
        if from.ownerId != userId then (t, Failure(AccountNotOwned(fromId, userId)))
        else if from.currency != to.currency then (t, Failure(DifferentCurrencyAccounts(from.currency, to.currency)))
        else if from.balance < amount then (t, Failure(InsufficientBalance(fromId, amount)))
        else
          var (t', result) := Move(t, fromId, toId, amount, now);
          (t', Success(result))
  }

  /**
   * The corrected transfer goes through exactly when the amount is
   * positive, the accounts are two existing accounts in one currency, the
   * caller owns the source and its balance covers the amount.
   */
  lemma TransferCheckedSucceedsIff(t: Tables, userId: Guid, fromId: Guid, toId: Guid, amount: Money, now: Time)
    ensures TransferChecked(t, userId, fromId, toId, amount, now).1.Success?
       <==> && amount > 0.0 && fromId != toId
            && fromId in t.accounts && toId in t.accounts
            && t.accounts[fromId].ownerId == userId
            && t.accounts[fromId].currency == t.accounts[toId].currency
            && t.accounts[fromId].balance >= amount
  {
  }

  /**
   * Under the corrected transfer the only balance that can go down is that
   * of the source account, which the caller owns; every other account
   * keeps or grows its balance.
   */
  lemma TransferCheckedProtectsOthers(t: Tables, userId: Guid, fromId: Guid, toId: Guid, amount: Money, now: Time)
    ensures var t' := TransferChecked(t, userId, fromId, toId, amount, now).0;
      && t'.accounts.Keys == t.accounts.Keys
      && forall k :: k in t.accounts && t'.accounts[k].balance < t.accounts[k].balance
           ==> k == fromId && t.accounts[k].ownerId == userId
  {
    var r := TransferChecked(t, userId, fromId, toId, amount, now);
    if r.1.Success? {
      TransferCheckedSucceedsIff(t, userId, fromId, toId, amount, now);
      TransferMovesMoney(t, userId, fromId, toId, amount, now);
    }
  }

  /**
   * Whatever the amount, the corrected transfer never takes an account
   * below zero, which the transfer as written does with a negative amount
   * (`NegativeTransferDrainsDestination`).
   */
  lemma TransferCheckedKeepsBalancesNonNegative(t: Tables, userId: Guid, fromId: Guid, toId: Guid, amount: Money, now: Time)
    requires forall k :: k in t.accounts ==> t.accounts[k].balance >= 0.0
    ensures var t' := TransferChecked(t, userId, fromId, toId, amount, now).0;
      forall k :: k in t'.accounts ==> t'.accounts[k].balance >= 0.0
  {
    var r := TransferChecked(t, userId, fromId, toId, amount, now);
    if r.1.Success? {
      TransferCheckedSucceedsIff(t, userId, fromId, toId, amount, now);
      TransferKeepsBalancesNonNegative(t, userId, fromId, toId, amount, now);
    }
  }

  /**
   * `TransferInternalAsync`: the accounts are locked in id order, and the
   * balances are updated on the tracked rows, which are the same row when
   * both ids are equal.
   */
  method TransferInternal(db: Store, userId: Guid, fromId: Guid, toId: Guid, amount: Money, now: Time)
    returns (r: Result<TransferResult, Error>)
    requires db.Valid()
    modifies db
    ensures db.Valid()
    ensures (db.Snapshot(), r) == TransferSpec(old(db.Snapshot()), userId, fromId, toId, amount, now)
  {
    var reverseOrder := fromId > toId;
    var fromAccount: Option<Account>;
    var toAccount: Option<Account>;
    if reverseOrder {
      toAccount := AccountsRepository.GetWithLock(db.accounts, toId);
      if toAccount.None? {
        return Failure(AccountNotFound(toId));
      }
      fromAccount := AccountsRepository.GetWithLock(db.accounts, fromId);
      if fromAccount.None? {
        return Failure(AccountNotFound(fromId));
      }
    } else {
      fromAccount := AccountsRepository.GetWithLock(db.accounts, fromId);
      if fromAccount.None? {
        return Failure(AccountNotFound(fromId));
      }
      toAccount := AccountsRepository.GetWithLock(db.accounts, toId);
      if toAccount.None? {
        return Failure(AccountNotFound(toId));
      }
    }
    if fromAccount.value.ownerId != userId {
      return Failure(AccountNotOwned(userId, fromId));
    }
    if fromAccount.value.balance < amount {
      return Failure(InsufficientBalance(fromId, amount));
    }
    var result := MoveMoney(db, fromId, toId, amount, now);
    r := Success(result);
  }

  /** The writes of `TransferInternalAsync`, on the tracked rows. */
  method MoveMoney(db: Store, fromId: Guid, toId: Guid, amount: Money, now: Time) returns (result: TransferResult)
    requires db.Valid() && fromId in db.accounts && toId in db.accounts
    modifies db
    ensures db.Valid()
    ensures (db.Snapshot(), result) == Move(old(db.Snapshot()), fromId, toId, amount, now)
  {
    RebalanceAccounts(db, fromId, toId, amount);
    var fromAccount, toAccount := db.accounts[fromId], db.accounts[toId];
    var fromEntry, toEntry := RecordTransfer(db, fromId, toId, amount, now);
    result := TransferResult(fromAccount, toAccount, amount, fromEntry, toEntry);
  }

  /** `fromAccount.Balance -= amount; toAccount.Balance += amount;` and the two `UpdateAsync` calls. */
  method RebalanceAccounts(db: Store, fromId: Guid, toId: Guid, amount: Money)
    requires db.Valid() && fromId in db.accounts && toId in db.accounts
    modifies db
    ensures db.Valid()
    ensures db.Snapshot() == Rebalance(old(db.Snapshot()), fromId, toId, amount)
  {
    db.SetBalance(fromId, db.accounts[fromId].balance - amount);
    db.SetBalance(toId, db.accounts[toId].balance + amount);
  }

  /** The three `AddAsync` calls: the transfer, then the entry on each side. */
  method RecordTransfer(db: Store, fromId: Guid, toId: Guid, amount: Money, now: Time) returns (fromEntry: Entry, toEntry: Entry)
    requires db.Valid() && fromId in db.accounts && toId in db.accounts
    modifies db
    ensures db.Valid()
    ensures (db.Snapshot(), fromEntry, toEntry) == Record(old(db.Snapshot()), fromId, toId, amount, now)
  {
    var transfer := db.AddTransfer(Domain.Transfer(0, fromId, toId, amount, 0), now);
    fromEntry := db.AddEntry(Entry(0, fromId, -amount, TransferId(transfer.id), 0), now);
    toEntry := db.AddEntry(Entry(0, toId, amount, TransferId(transfer.id), 0), now);
  }

  /**
   * `TransferAsync`: the internal transfer inside a transaction that is
   * committed on success and rolled back on any refusal. A unit of work
   * that already has a transaction open refuses to begin, and nothing
   * happens.
   */
  method Transfer(db: Store, uow: UnitOfWork, userId: Guid, fromId: Guid, toId: Guid, amount: Money, now: Time)
    returns (r: Result<TransferResult, Error>)
    requires db.Valid() && uow.Valid() && uow.db == db
    modifies db, uow
    ensures db.Valid() && uow.Valid()
    ensures old(uow.transaction).Some? ==>
      && r == Failure(AlreadyStarted) && db.Snapshot() == old(db.Snapshot())
      && uow.transaction == old(uow.transaction) && uow.log == old(uow.log)
    ensures old(uow.transaction).None? ==>
      && (db.Snapshot(), r) == TransferSpec(old(db.Snapshot()), userId, fromId, toId, amount, now)
      && uow.transaction.None?
      && uow.log == old(uow.log) + [BeginOp, if r.Success? then CommitOp else RollbackOp]
  {
    var begun := uow.Begin();
    if begun.Fail? {
      return Failure(begun.error);
    }
    r := TransferInternal(db, userId, fromId, toId, amount, now);
    Conclude(uow, r.Success?);
  }
}
