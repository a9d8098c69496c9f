/**
 * `EntriesService.GetEntriesAsync`
 * (Simplebank.Application/Services/EntriesService.cs): the account must
 * exist and belong to the caller before its entries are paged.
 */
module EntriesService {
  import opened Wrappers
  import opened Domain
  import opened Ledger
  import EntriesRepository

  /**
   * `GetEntriesAsync`: the page comes from the repository's query as
   * written, with its 32-bit offset.
   */
  function GetEntries(t: Tables, userId: Guid, accountId: Guid, page: int, perPage: int): (r: Result<seq<Entry>, Error>)
    requires EntriesRepository.IsInt32(page) && EntriesRepository.IsInt32(perPage)
    ensures r.Success? <==> accountId in t.accounts && t.accounts[accountId].ownerId == userId
    ensures accountId !in t.accounts ==> r == Failure(AccountNotFound(accountId))
    ensures accountId in t.accounts && t.accounts[accountId].ownerId != userId
      ==> r == Failure(AccountNotOwned(accountId, userId))
    ensures r.Success? ==> r.value == EntriesRepository.GetEntriesInt32(t.entries, accountId, page, perPage)
  {
    if accountId !in t.accounts then Failure(AccountNotFound(accountId))
    else if t.accounts[accountId].ownerId != userId then Failure(AccountNotOwned(accountId, userId))
    else Success(EntriesRepository.GetEntriesInt32(t.entries, accountId, page, perPage))
  }

  /**
   * A caller only ever sees entries of accounts they own, and only entries
   * that are in the table.
   */
  lemma OnlyOwnEntries(t: Tables, userId: Guid, accountId: Guid, page: int, perPage: int)
    requires EntriesRepository.IsInt32(page) && EntriesRepository.IsInt32(perPage)
    ensures var r := GetEntries(t, userId, accountId, page, perPage);
      r.Success? ==> forall e :: e in r.value ==>
        && e.accountId in t.accounts && t.accounts[e.accountId].ownerId == userId
        && e in t.entries
  {
    var r := GetEntries(t, userId, accountId, page, perPage);
    if r.Success? {
      forall e | e in r.value
        ensures e in t.entries
      {
        assert e in multiset(r.value);
      }
    }
  }

  /**
   * A refusal depends only on the accounts: it reveals nothing about the
   * entries of an account the caller does not own.
   */
  lemma RefusalIgnoresEntries(t: Tables, entries: seq<Entry>, userId: Guid, accountId: Guid, page: int, perPage: int)
    requires EntriesRepository.IsInt32(page) && EntriesRepository.IsInt32(perPage)
    requires GetEntries(t, userId, accountId, page, perPage).Failure?
    ensures GetEntries(t.(entries := entries), userId, accountId, page, perPage)
         == GetEntries(t, userId, accountId, page, perPage)
  {
  }

  /** The existence check comes first: a missing account is reported as missing to every caller. */
  lemma ExistenceIsCheckedBeforeOwnership(t: Tables, userId: Guid, accountId: Guid, page: int, perPage: int)
    requires EntriesRepository.IsInt32(page) && EntriesRepository.IsInt32(perPage)
    requires accountId !in t.accounts
    ensures GetEntries(t, userId, accountId, page, perPage).error.AccountNotFound?
  {
  }
}
