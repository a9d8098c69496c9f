/**
 * `EntriesRepository.GetEntriesAsync`
 * (Simplebank.Infrastructure/Repositories/EntriesRepository.cs): the
 * entries of one account, newest first, one page at a time:
 * Where, OrderByDescending(CreatedAt), Skip((page - 1) * perPage), Take(perPage).
 */
module EntriesRepository {
  import opened Domain

  /** `r` is `s` with some of its elements left out, the others kept in their order. */
  ghost predicate Subsequence(r: seq<Entry>, s: seq<Entry>)
    decreases |s|
  {
    if r == [] then true
    else if s == [] then false
    else (r[0] == s[0] && Subsequence(r[1..], s[1..])) || Subsequence(r, s[1..])
  }

  /**
   * `Where(a => a.AccountId == accountId)`: every entry of the account as
   * often as the table holds it, no other entry, in table order.
   */
  function OfAccount(entries: seq<Entry>, accountId: Guid): (r: seq<Entry>)
    ensures forall i :: 0 <= i < |r| ==> r[i].accountId == accountId
    ensures forall e :: multiset(r)[e] == if e.accountId == accountId then multiset(entries)[e] else 0
    ensures Subsequence(r, entries)
    ensures forall e :: e in entries && e.accountId == accountId ==> e in r
    ensures multiset(r) <= multiset(entries)
    decreases |entries|
  {
    if entries == [] then []
    else
      assert entries == [entries[0]] + entries[1..];
      var rest := OfAccount(entries[1..], accountId);
      if entries[0].accountId == accountId then
        var r := [entries[0]] + rest;
        assert r[1..] == rest;
        r
      else
        assert rest == [] || Subsequence(rest, entries[1..]);
        rest
  }

  /** Ordered by `CreatedAt`, newest first; entries with equal times may come in any order. */
  ghost predicate NewestFirst(s: seq<Entry>) {
    forall i, j :: 0 <= i < j < |s| ==> s[i].createdAt >= s[j].createdAt
  }

  /** Puts `e` into a newest-first sequence, ahead of the entries no newer than it. */
  function InsertNewestFirst(e: Entry, s: seq<Entry>): (r: seq<Entry>)
    ensures multiset(r) == multiset(s) + multiset{e}
    ensures |r| == |s| + 1 && (r[0] == e || (s != [] && r[0] == s[0]))
    ensures NewestFirst(s) ==> NewestFirst(r)
    decreases |s|
  {
    if s == [] || e.createdAt >= s[0].createdAt then
      PrependNewest(e, s);
      [e] + s
    else
      assert s == [s[0]] + s[1..];
      var rest := InsertNewestFirst(e, s[1..]);
      PrependNewest(s[0], rest);
      [s[0]] + rest
  }

  /**
   * An entry no older than the head of a newest-first sequence can go in
   * front of it; the tail of a newest-first sequence is newest first.
   */
  lemma PrependNewest(x: Entry, s: seq<Entry>)
    ensures NewestFirst(s) && (s == [] || x.createdAt >= s[0].createdAt) ==> NewestFirst([x] + s)
    ensures NewestFirst([x] + s) ==> NewestFirst(s)
  {
    var r := [x] + s;
    if NewestFirst(s) && (s == [] || x.createdAt >= s[0].createdAt) {
      forall i, j | 0 <= i < j < |r|
        ensures r[i].createdAt >= r[j].createdAt
      {
        if i == 0 {
          assert r[j] == s[j - 1];
          assert x.createdAt >= s[0].createdAt >= s[j - 1].createdAt;
        } else {
          assert r[i] == s[i - 1] && r[j] == s[j - 1];
        }
      }
    }
    if NewestFirst(r) {
      forall i, j | 0 <= i < j < |s|
        ensures s[i].createdAt >= s[j].createdAt
      {
        assert s[i] == r[i + 1] && s[j] == r[j + 1];
      }
    }
  }

  /** `OrderByDescending(a => a.CreatedAt)`: a newest-first permutation of its input. */
  function SortNewestFirst(s: seq<Entry>): (r: seq<Entry>)
    ensures NewestFirst(r)
    ensures multiset(r) == multiset(s)
    decreases |s|
  {
    if s == [] then []
    else
      assert s == [s[0]] + s[1..];
      InsertNewestFirst(s[0], SortNewestFirst(s[1..]))
  }

  /** The bound `n` clamped to the positions 0..len of a sequence. */
  function Clamp(n: int, len: nat): (r: nat)
    ensures r <= len
    ensures n <= 0 ==> r == 0
    ensures n >= len ==> r == len
    ensures 0 <= n <= len ==> r == n
  {
    if n <= 0 then 0 else if n >= len then len else n
  }

  /** LINQ `Skip`: a count of zero or less skips nothing, one past the end leaves nothing. */
  function Skip(s: seq<Entry>, n: int): (r: seq<Entry>)
    ensures r == s[Clamp(n, |s|)..]
  {
    if n <= 0 then s else if n >= |s| then [] else s[n..]
  }

  /** LINQ `Take`: a count of zero or less takes nothing, one past the end takes all. */
  function Take(s: seq<Entry>, n: int): (r: seq<Entry>)
    ensures r == s[..Clamp(n, |s|)]
  {
    if n <= 0 then [] else if n >= |s| then s else s[..n]
  }

  /** The largest C# `int`. */
  const IntMax: int := 0x7FFF_FFFF

  /** A C# `int` result of unchecked arithmetic: the mathematical value wrapped to 32 bits. */
  function WrapInt32(x: int): (r: int)
    ensures -IntMax - 1 <= r <= IntMax
    ensures (r - x) % 0x1_0000_0000 == 0
  {
    var m := x % 0x1_0000_0000;
    if m > IntMax then m - 0x1_0000_0000 else m
  }

  /** A value of the C# `int` type. */
  predicate IsInt32(x: int) {
    -IntMax - 1 <= x <= IntMax
  }

  /**
   * `(page - 1) * perPage` as the source computes it: both the subtraction
   * and the product in unchecked 32-bit `int` arithmetic.
   */
  function SkipCountInt32(page: int, perPage: int): (r: int)
    requires IsInt32(page) && IsInt32(perPage)
    ensures IsInt32(r)
    ensures page > -IntMax - 1 && IsInt32((page - 1) * perPage) ==> r == SkipCount(page, perPage)
  {
    WrapInt32(WrapInt32(page - 1) * perPage)
  }

  /**
   * Requests that the validation of `GetEntriesRequest` admits
   * (1 <= page <= int.MaxValue, 5 <= perPage <= 100) whose 32-bit skip
   * count wraps: to a negative count, and to a small positive one.
   */
  lemma SkipCountInt32Wraps()
    ensures SkipCountInt32(IntMax, 100) == -200
    ensures SkipCountInt32(42949674, 100) == 4
    ensures SkipCount(42949674, 100) == 4294967300
  {
  }

  /** The number of entries in front of page `page`, computed without wrap-around. */
  function SkipCount(page: int, perPage: int): (r: int)
    ensures page >= 1 && perPage >= 0 ==> r >= 0
  {
    (page - 1) * perPage
  }

  /** The entries of one account, newest first: what the query pages through. */
  function History(entries: seq<Entry>, accountId: Guid): (r: seq<Entry>)
    ensures forall i :: 0 <= i < |r| ==> r[i].accountId == accountId
    ensures NewestFirst(r)
    ensures multiset(r) <= multiset(entries)
    ensures forall e :: e in entries && e.accountId == accountId ==> e in r
    ensures forall e :: multiset(r)[e] == if e.accountId == accountId then multiset(entries)[e] else 0
  {
    var mine := OfAccount(entries, accountId);
    var sorted := SortNewestFirst(mine);
    SameAccount(mine, sorted, accountId);
    forall e | e in entries && e.accountId == accountId
      ensures e in sorted
    {
      assert e in multiset(mine);
    }
    sorted
  }

  /** `GetEntriesAsync(accountId, page, perPage)`. */
  function GetEntries(entries: seq<Entry>, accountId: Guid, page: int, perPage: int): (r: seq<Entry>)
    ensures forall e :: e in r ==> e.accountId == accountId
    ensures NewestFirst(r)
    ensures perPage >= 0 ==> |r| <= perPage
    ensures perPage <= 0 ==> r == []
    ensures multiset(r) <= multiset(entries)
  {
    var sorted := History(entries, accountId);
    PageOfHistory(entries, sorted, SkipCount(page, perPage), perPage);
    Take(Skip(sorted, SkipCount(page, perPage)), perPage)
  }

  /** The positions `lo` up to `hi` of `h`, each cut short at the end of `h`. */
  function Window(h: seq<Entry>, lo: int, hi: int): (r: seq<Entry>)
    requires 0 <= lo <= hi
    ensures |r| <= hi - lo
    ensures hi <= |h| ==> |r| == hi - lo
    ensures lo >= |h| ==> r == []
  {
    h[(if lo <= |h| then lo else |h|)..(if hi <= |h| then hi else |h|)]
  }

  /**
   * Page `page` is the window of the history from position
   * (page - 1) * perPage up to page * perPage; past the end a page is empty.
   */
  lemma PageIsWindow(entries: seq<Entry>, accountId: Guid, page: int, perPage: int)
    requires page >= 1 && perPage >= 0
    ensures GetEntries(entries, accountId, page, perPage)
         == Window(History(entries, accountId), SkipCount(page, perPage), SkipCount(page, perPage) + perPage)
  {
    var h := History(entries, accountId);
    PageIsSlice(h, SkipCount(page, perPage), perPage);
  }

  /**
   * Adjacent windows of one history join into one: pages cut from the same
   * order of the entries neither overlap nor leave a gap.
   */
  lemma WindowJoin(h: seq<Entry>, lo: int, mid: int, hi: int)
    requires 0 <= lo <= mid <= hi
    ensures Window(h, lo, mid) + Window(h, mid, hi) == Window(h, lo, hi)
  {
    var a := if lo <= |h| then lo else |h|;
    var m := if mid <= |h| then mid else |h|;
    var b := if hi <= |h| then hi else |h|;
    assert h[a..m] + h[m..b] == h[a..b];
  }

  /**
   * The query as written, with the skip count computed in 32-bit
   * arithmetic. A negative count skips nothing, as LINQ's `Skip` does.
   */
  function GetEntriesInt32(entries: seq<Entry>, accountId: Guid, page: int, perPage: int): (r: seq<Entry>)
    requires IsInt32(page) && IsInt32(perPage)
    ensures forall e :: e in r ==> e.accountId == accountId
    ensures NewestFirst(r)
    ensures perPage >= 0 ==> |r| <= perPage
    ensures perPage <= 0 ==> r == []
    ensures multiset(r) <= multiset(entries)
  {
    var sorted := History(entries, accountId);
    PageOfHistory(entries, sorted, SkipCountInt32(page, perPage), perPage);
    Take(Skip(sorted, SkipCountInt32(page, perPage)), perPage)
  }

  /** While the offset fits in an `int`, the query as written returns the page it should. */
  lemma Int32PageAgreesWhileOffsetFits(entries: seq<Entry>, accountId: Guid, page: int, perPage: int)
    requires 1 <= page <= IntMax && 0 <= perPage <= IntMax
    requires (page - 1) * perPage <= IntMax
    ensures GetEntriesInt32(entries, accountId, page, perPage) == GetEntries(entries, accountId, page, perPage)
  {
  }

  /**
   * Page 42949674 at 100 entries per page, which the request validation
   * admits, starts 4294967300 entries in: past the end of any shorter
   * history, so the page should be empty. The query as written wraps the
   * offset to 4 and returns the history's entries from position 4 on.
   */
  lemma {:induction false} OverflowedPageIsNotEmpty(entries: seq<Entry>, accountId: Guid)
    requires 4 < |History(entries, accountId)| <= SkipCount(42949674, 100)
    ensures GetEntriesInt32(entries, accountId, 42949674, 100) == Window(History(entries, accountId), 4, 104)
    ensures GetEntriesInt32(entries, accountId, 42949674, 100) != []
    ensures GetEntries(entries, accountId, 42949674, 100) == []
  {
    SkipCountInt32Wraps();
    var h := History(entries, accountId);
    PageIsSlice(h, 4, 100);
    assert GetEntriesInt32(entries, accountId, 42949674, 100) == Take(Skip(h, 4), 100);
    PageIsWindow(entries, accountId, 42949674, 100);
  }

  /** A page of a history inherits what the history guarantees about its entries. */
  lemma PageOfHistory(entries: seq<Entry>, h: seq<Entry>, skip: int, take: int)
    requires NewestFirst(h) && multiset(h) <= multiset(entries)
    ensures NewestFirst(Take(Skip(h, skip), take))
    ensures multiset(Take(Skip(h, skip), take)) <= multiset(entries)
    ensures take >= 0 ==> |Take(Skip(h, skip), take)| <= take
    ensures take <= 0 ==> Take(Skip(h, skip), take) == []
    ensures forall e :: e in Take(Skip(h, skip), take) ==> e in h
  {
    PageIsSlice(h, skip, take);
    var page := Take(Skip(h, skip), take);
    forall e | e in page
      ensures e in h
    {
      assert e in multiset(page);
    }
  }

  /** Skip followed by Take cuts one contiguous slice out of the sequence. */
  lemma PageIsSlice(s: seq<Entry>, skip: int, take: int)
    ensures var a := Clamp(skip, |s|);
      Take(Skip(s, skip), take) == s[a..a + Clamp(take, |s| - a)]
    ensures NewestFirst(s) ==> NewestFirst(Take(Skip(s, skip), take))
    ensures multiset(Take(Skip(s, skip), take)) <= multiset(s)
  {
    var a := Clamp(skip, |s|);
    var rest := Skip(s, skip);
    assert rest == s[a..];
    var c := Clamp(take, |rest|);
    assert Take(rest, take) == rest[..c] == s[a..a + c];
    SliceFacts(s, a, a + c);
  }

  /** A permutation of entries of one account holds only entries of that account. */
  lemma SameAccount(s: seq<Entry>, p: seq<Entry>, accountId: Guid)
    requires multiset(p) == multiset(s)
    requires forall i :: 0 <= i < |s| ==> s[i].accountId == accountId
    ensures forall i :: 0 <= i < |p| ==> p[i].accountId == accountId
  {
    forall i | 0 <= i < |p|
      ensures p[i].accountId == accountId
    {
      assert p[i] in multiset(s);
    }
  }

  /** A slice of a newest-first list is newest first, and a sub-multiset of it. */
  lemma SliceFacts(sorted: seq<Entry>, a: nat, b: nat)
    requires a <= b <= |sorted|
    ensures NewestFirst(sorted) ==> NewestFirst(sorted[a..b])
    ensures multiset(sorted[a..b]) <= multiset(sorted)
  {
    assert sorted == sorted[..a] + sorted[a..b] + sorted[b..];
  }
}
