/**
 * The account-specific queries of
 * Simplebank.Infrastructure/Repositories/AccountsRepository.cs.
 */
module AccountsRepository {
  import opened Wrappers
  import opened Domain
  import opened Ledger

  /**
   * `GetWithLockAsync`: the row with that id, or null. The update lock the
   * query takes only matters for concurrent transactions, which the model
   * does not have, so it reads exactly what a plain read would.
   */
  function GetWithLock(accounts: map<Guid, Account>, id: Guid): (r: Option<Account>)
    ensures r.Some? <==> id in accounts
    ensures r.Some? ==> r.value == accounts[id]
  {
    AccountById(accounts, id)
  }

  /** `GetByOwnerAsync`: exactly the accounts whose owner is `ownerId`. */
  function GetByOwner(accounts: map<Guid, Account>, ownerId: Guid): (r: set<Account>)
    ensures forall a :: a in r ==> a.ownerId == ownerId && a in accounts.Values
    ensures forall id :: id in accounts && accounts[id].ownerId == ownerId ==> accounts[id] in r
  {
    set a | a in accounts.Values && a.ownerId == ownerId
  }

  /** An owner has at most one account per currency among the accounts returned. */
  lemma GetByOwnerOnePerCurrency(t: Tables, ownerId: Guid, a: Account, b: Account)
    requires Consistent(t)
    requires a in GetByOwner(t.accounts, ownerId) && b in GetByOwner(t.accounts, ownerId)
    requires a.currency == b.currency
    ensures a == b
  {
    var ka :| ka in t.accounts && t.accounts[ka] == a;
    var kb :| kb in t.accounts && t.accounts[kb] == b;
    assert ka == kb;
  }

  /**
   * `AddBalanceAsync`: the single statement
   * `UPDATE Accounts SET Balance = Balance + amount OUTPUT INSERTED.* WHERE Id = id`.
   * Only the balance of the one row with that id changes; a missing id
   * updates nothing and yields null.
   */
  function AddBalanceSpec(t: Tables, id: Guid, amount: Money): (r: (Tables, Option<Account>))
    ensures r.1.None? <==> id !in t.accounts
    ensures r.1.None? ==> r.0 == t
    ensures r.1.Some? ==>
      && r.1.value == t.accounts[id].(balance := t.accounts[id].balance + amount)
      && r.0.accounts == t.accounts[id := r.1.value]
      && r.0.entries == t.entries && r.0.transfers == t.transfers && r.0.users == t.users && r.0.nextId == t.nextId
    ensures Consistent(t) ==> Consistent(r.0)
  {
    if id !in t.accounts then (t, None)
    else
      var t' := WithBalance(t, id, t.accounts[id].balance + amount);
      (t', Some(t'.accounts[id]))
  }

  method AddBalance(db: Store, id: Guid, amount: Money) returns (r: Option<Account>)
    requires db.Valid()
    modifies db
    ensures db.Valid()
    ensures (db.Snapshot(), r) == AddBalanceSpec(old(db.Snapshot()), id, amount)
  {
    if id !in db.accounts {
      return None;
    }
    db.SetBalance(id, db.accounts[id].balance + amount);
    r := Some(db.accounts[id]);
  }

  /** The atomic update moves the total held by the bank by exactly `amount`. */
  lemma AddBalanceMovesTotal(t: Tables, id: Guid, amount: Money)
    requires id in t.accounts
    ensures Total(AddBalanceSpec(t, id, amount).0.accounts) == Total(t.accounts) + amount
  {
    TotalUpdate(t.accounts, id, t.accounts[id].(balance := t.accounts[id].balance + amount));
  }

  /**
   * The atomic update writes no entry, so on its own it breaks the audit
   * trail whenever it changes a balance.
   */
  lemma AddBalanceAloneBreaksAudit(t: Tables, id: Guid, amount: Money)
    requires Audited(t) && id in t.accounts && amount != 0.0
    ensures !Audited(AddBalanceSpec(t, id, amount).0)
  {
    var t' := AddBalanceSpec(t, id, amount).0;
    assert t'.accounts[id].balance == EntrySum(t.entries, id) + amount;
  }
}
