/**
 * The database of the bank: the Accounts, Entries, Transfers and Users
 * tables, the keys and unique indexes that SQL Server enforces on them, and
 * the in-memory context (`Store`) through which the repositories read and
 * write them.
 *
 * Identifiers are handed out by the store from `nextId`, which is larger
 * than every id in use; this stands in for `Guid` generation on insert.
 */
module Ledger {
  import opened Wrappers
  import opened Domain

  datatype Tables = Tables(
    accounts: map<Guid, Account>,
    entries: seq<Entry>,
    transfers: seq<Transfer>,
    users: seq<User>,
    nextId: Guid)

  const Empty: Tables := Tables(map[], [], [], [], 0)

  /** Primary key of Accounts: every row is stored under its own id, and ids are below `nextId`. */
  ghost predicate AccountsKeyed(accounts: map<Guid, Account>, nextId: Guid) {
    forall id :: id in accounts ==> accounts[id].id == id && id < nextId
  }

  /** The unique index IX_Accounts_Owner_Currency: one account per (OwnerId, Currency). */
  ghost predicate OneAccountPerOwnerCurrency(accounts: map<Guid, Account>) {
    forall a, b ::
      a in accounts && b in accounts &&
      accounts[a].ownerId == accounts[b].ownerId && accounts[a].currency == accounts[b].currency
      ==> a == b
  }

  /** Entries have allocated ids and refer to existing accounts. */
  ghost predicate EntriesKeyed(entries: seq<Entry>, accounts: map<Guid, Account>, nextId: Guid) {
    forall i :: 0 <= i < |entries| ==> entries[i].id < nextId && entries[i].accountId in accounts
  }

  ghost predicate TransfersKeyed(transfers: seq<Transfer>, nextId: Guid) {
    forall i :: 0 <= i < |transfers| ==> transfers[i].id < nextId
  }

  /** Primary key of Users and the unique indexes IX_Users_Login and IX_Users_Email. */
  ghost predicate UsersKeyed(users: seq<User>, nextId: Guid) {
    && (forall i :: 0 <= i < |users| ==> users[i].id < nextId)
    && (forall i, j :: 0 <= i < j < |users| ==>
          users[i].id != users[j].id && users[i].login != users[j].login && users[i].email != users[j].email)
  }

  ghost predicate Consistent(t: Tables) {
    && AccountsKeyed(t.accounts, t.nextId)
    && OneAccountPerOwnerCurrency(t.accounts)
    && EntriesKeyed(t.entries, t.accounts, t.nextId)
    && TransfersKeyed(t.transfers, t.nextId)
    && UsersKeyed(t.users, t.nextId)
  }

  lemma EmptyIsConsistent()
    ensures Consistent(Empty)
  {
  }

  /** `Repository.GetByIdAsync` on Accounts: the row with that id, or null. */
  function AccountById(accounts: map<Guid, Account>, id: Guid): (r: Option<Account>)
    ensures r.Some? <==> id in accounts
    ensures r.Some? ==> r.value == accounts[id]
  {
    if id in accounts then Some(accounts[id]) else None
  }

  /** A tracked account whose `Balance` property is assigned. */
  function WithBalance(t: Tables, id: Guid, balance: Money): (r: Tables)
    requires id in t.accounts
    ensures Consistent(t) ==> Consistent(r)
    ensures r.accounts.Keys == t.accounts.Keys
    ensures r.accounts[id] == t.accounts[id].(balance := balance)
    ensures forall k :: k in t.accounts && k != id ==> r.accounts[k] == t.accounts[k]
    ensures r.entries == t.entries && r.transfers == t.transfers && r.users == t.users && r.nextId == t.nextId
  {
    t.(accounts := t.accounts[id := t.accounts[id].(balance := balance)])
  }

  /** Is there an account with this owner and currency already? */
  predicate HasAccountFor(accounts: map<Guid, Account>, ownerId: Guid, currency: string) {
    exists k :: k in accounts && accounts[k].ownerId == ownerId && accounts[k].currency == currency
  }

  /**
   * `Repository.AddAsync` on Accounts: the row gets a fresh id, unless the
   * unique index on (OwnerId, Currency) rejects it with a duplicate key.
   */
  function InsertAccount(t: Tables, a: Account): (r: (Tables, Result<Account, DbError>))
    ensures r.1.Failure? <==> HasAccountFor(t.accounts, a.ownerId, a.currency)
    ensures r.1.Failure? ==> r.0 == t
    ensures r.1.Success? ==>
      && r.1.value == a.(id := t.nextId)
      && r.0 == t.(accounts := t.accounts[t.nextId := r.1.value], nextId := t.nextId + 1)
    ensures Consistent(t) ==> Consistent(r.0) && (r.1.Success? ==> r.1.value.id !in t.accounts)
  {
    if HasAccountFor(t.accounts, a.ownerId, a.currency) then
      (t, Failure(DuplicateKeys))
    else
      var saved := a.(id := t.nextId);
      (t.(accounts := t.accounts[saved.id := saved], nextId := t.nextId + 1), Success(saved))
  }

  /** `Repository.AddAsync` on Entries: a fresh id and `CreatedAt` set to the clock. */
  function InsertEntry(t: Tables, e: Entry, now: Time): (r: (Tables, Entry))
    requires e.accountId in t.accounts
    ensures r.1 == e.(id := t.nextId, createdAt := now)
    ensures r.0 == t.(entries := t.entries + [r.1], nextId := t.nextId + 1)
    ensures Consistent(t) ==> Consistent(r.0)
  {
    var saved := e.(id := t.nextId, createdAt := now);
    (t.(entries := t.entries + [saved], nextId := t.nextId + 1), saved)
  }

  /** `Repository.AddAsync` on Transfers. */
  function InsertTransfer(t: Tables, tr: Transfer, now: Time): (r: (Tables, Transfer))
    ensures r.1 == tr.(id := t.nextId, createdAt := now)
    ensures r.0 == t.(transfers := t.transfers + [r.1], nextId := t.nextId + 1)
    ensures Consistent(t) ==> Consistent(r.0)
  {
    var saved := tr.(id := t.nextId, createdAt := now);
    (t.(transfers := t.transfers + [saved], nextId := t.nextId + 1), saved)
  }

  /** Does a row already hold this login or this email? */
  predicate LoginOrEmailTaken(users: seq<User>, login: string, email: string) {
    exists i :: 0 <= i < |users| && (users[i].login == login || users[i].email == email)
  }

  /**
   * `Repository.AddAsync` on Users: the unique indexes on Login and Email
   * reject a second row with either value.
   */
  function InsertUser(t: Tables, u: User): (r: (Tables, Result<User, DbError>))
    ensures r.1.Failure? <==> LoginOrEmailTaken(t.users, u.login, u.email)
    ensures r.1.Failure? ==> r.0 == t
    ensures r.1.Success? ==>
      && r.1.value == u.(id := t.nextId)
      && r.0 == t.(users := t.users + [r.1.value], nextId := t.nextId + 1)
    ensures Consistent(t) ==> Consistent(r.0)
  {
    if LoginOrEmailTaken(t.users, u.login, u.email) then
      (t, Failure(DuplicateKeys))
    else
      var saved := u.(id := t.nextId);
      (t.(users := t.users + [saved], nextId := t.nextId + 1), Success(saved))
  }

  // ---------------------------------------------------------------------
  // The audit trail: every balance is the sum of the entries on its account.
  // ---------------------------------------------------------------------

  /** The sum of the amounts of the entries on one account. */
  function EntrySum(entries: seq<Entry>, accountId: Guid): Money
    decreases |entries|
  {
    if entries == [] then 0.0
    else
      var last := entries[|entries| - 1];
      EntrySum(entries[..|entries| - 1], accountId) + (if last.accountId == accountId then last.amount else 0.0)
  }

  lemma EntrySumAppend(entries: seq<Entry>, e: Entry, accountId: Guid)
    ensures EntrySum(entries + [e], accountId)
         == EntrySum(entries, accountId) + (if e.accountId == accountId then e.amount else 0.0)
  {
    assert (entries + [e])[..|entries|] == entries;
  }

  lemma {:induction false} EntrySumOfStranger(entries: seq<Entry>, accountId: Guid)
    requires forall i :: 0 <= i < |entries| ==> entries[i].accountId != accountId
    ensures EntrySum(entries, accountId) == 0.0
    decreases |entries|
  {
    if entries != [] {
      EntrySumOfStranger(entries[..|entries| - 1], accountId);
    }
  }

  /** The ledger balances: each account's balance equals the sum of its entries. */
  ghost predicate Audited(t: Tables) {
    forall id :: id in t.accounts ==> t.accounts[id].balance == EntrySum(t.entries, id)
  }

  // ---------------------------------------------------------------------
  // The money held by all accounts together.
  // ---------------------------------------------------------------------

  ghost function Total(accounts: map<Guid, Account>): Money
    decreases |accounts|
  {
    if accounts == map[] then 0.0
    else
      var k :| k in accounts;
      accounts[k].balance + Total(accounts - {k})
  }

  /** Any account may be taken out of the sum first. */
  lemma {:induction false} TotalPick(accounts: map<Guid, Account>, k: Guid)
    requires k in accounts
    ensures Total(accounts) == accounts[k].balance + Total(accounts - {k})
    decreases |accounts|
  {
    var j :| j in accounts && Total(accounts) == accounts[j].balance + Total(accounts - {j});
    if j != k {
      assert accounts - {j} - {k} == accounts - {k} - {j};
      TotalPick(accounts - {j}, k);
      TotalPick(accounts - {k}, j);
    }
  }

  /** Changing one balance changes the total by the difference. */
  lemma TotalUpdate(accounts: map<Guid, Account>, k: Guid, a: Account)
    requires k in accounts
    ensures Total(accounts[k := a]) == Total(accounts) - accounts[k].balance + a.balance
  {
    TotalPick(accounts, k);
    TotalPick(accounts[k := a], k);
    assert accounts[k := a] - {k} == accounts - {k};
  }

  /** Adding an account adds its balance to the total. */
  lemma TotalInsert(accounts: map<Guid, Account>, k: Guid, a: Account)
    requires k !in accounts
    ensures Total(accounts[k := a]) == Total(accounts) + a.balance
  {
    TotalPick(accounts[k := a], k);
    assert accounts[k := a] - {k} == accounts;
  }

  /**
   * The database context: one tracked row per account id, and the other
   * tables in insertion order. Assigning a tracked account's `Balance`
   * changes the row that any later read of the same id sees, as Entity
   * Framework's identity map does.
   */
  class Store {
    var accounts: map<Guid, Account>
    var entries: seq<Entry>
    var transfers: seq<Transfer>
    var users: seq<User>
    var nextId: Guid

    function Snapshot(): Tables
      reads this
    {
      Tables(accounts, entries, transfers, users, nextId)
    }

    ghost predicate Valid()
      reads this
    {
      Consistent(Snapshot())
    }

    constructor ()
      ensures Snapshot() == Empty && Valid()
    {
      accounts, entries, transfers, users, nextId := map[], [], [], [], 0;
    }

    /** Puts back the tables as they were when a transaction began. */
    method Restore(t: Tables)
      modifies this
      ensures Snapshot() == t
    {
      accounts, entries, transfers, users, nextId := t.accounts, t.entries, t.transfers, t.users, t.nextId;
    }

    /** `account.Balance = balance` on the tracked row, saved by `UpdateAsync`. */
    method SetBalance(id: Guid, balance: Money)
      requires Valid() && id in accounts
      modifies this
      ensures Valid()
      ensures Snapshot() == WithBalance(old(Snapshot()), id, balance)
    {
      accounts := accounts[id := accounts[id].(balance := balance)];
    }

    method AddAccount(a: Account) returns (r: Result<Account, DbError>)
      requires Valid()
      modifies this
      ensures Valid()
      ensures (Snapshot(), r) == InsertAccount(old(Snapshot()), a)
    {
      if HasAccountFor(accounts, a.ownerId, a.currency) {
        return Failure(DuplicateKeys);
      }
      var saved := a.(id := nextId);
      accounts := accounts[saved.id := saved];
      nextId := nextId + 1;
      r := Success(saved);
    }

    method AddEntry(e: Entry, now: Time) returns (saved: Entry)
      requires Valid() && e.accountId in accounts
      modifies this
      ensures Valid()
      ensures (Snapshot(), saved) == InsertEntry(old(Snapshot()), e, now)
    {
      saved := e.(id := nextId, createdAt := now);
      entries := entries + [saved];
      nextId := nextId + 1;
    }

    method AddTransfer(tr: Transfer, now: Time) returns (saved: Transfer)
      requires Valid()
      modifies this
      ensures Valid()
      ensures (Snapshot(), saved) == InsertTransfer(old(Snapshot()), tr, now)
    {
      saved := tr.(id := nextId, createdAt := now);
      transfers := transfers + [saved];
      nextId := nextId + 1;
    }

    method AddUser(u: User) returns (r: Result<User, DbError>)
      requires Valid()
      modifies this
      ensures Valid()
      ensures (Snapshot(), r) == InsertUser(old(Snapshot()), u)
    {
      if LoginOrEmailTaken(users, u.login, u.email) {
        return Failure(DuplicateKeys);
      }
      var saved := u.(id := nextId);
      users := users + [saved];
      nextId := nextId + 1;
      r := Success(saved);
    }
  }
}
