/** Lookup history: recording searches, a user's paginated history, the
    most frequent recent queries, and deleting one entry. */
module LookupService {
  import opened Types
  import opened Sorting
  import opened QueryText

  /** The stored answer of a search; kept opaque. */
  datatype SearchResult = SearchResult(title: string, simplifiedDescription: string,
                                       nextSteps: seq<string>, category: string)

  /** A row of the `lookup_history` table. */
  datatype LookupRow = LookupRow(
    id: string,
    userId: UserId,
    rightId: Option<string>,
    query: string,
    result: SearchResult,
    timestamp: Timestamp)

  /** The `lookup_history` table, in insertion order. */
  type LookupTable = seq<LookupRow>

  /** How many of the most recent rows the popularity count looks at. */
  const RecentWindow := 1000

  /** The defaults of the query arguments: the first page of ten rows, the
      fifty most recent lookups, and the ten most popular queries. */
  const DefaultPage := 1
  const DefaultPageSize := 10
  const DefaultRecentLimit := 50
  const DefaultPopularLimit := 10

  function Stamp(row: LookupRow): int
  {
    row.timestamp
  }

  // ---------------------------------------------------------------------
  // Recording and deleting

  /** Appends one row for a search. A right id that is absent or empty is
      stored as null. */
  function RecordLookup(table: LookupTable, userId: UserId, query: string, result: SearchResult,
                        rightId: Option<string>, newId: string, now: Timestamp,
                        insertFails: bool): (r: Step<LookupRow, LookupTable>)
    requires forall i :: 0 <= i < |table| ==> table[i].id != newId
    ensures insertFails ==> r == Step(Failure("Failed to record lookup"), table)
    ensures !insertFails ==>
      && r.response.Success?
      && r.next == table + [r.response.data]
      && r.response.data.rightId == (if Provided(rightId) then rightId else None)
      && r.response.data.userId == userId
      && r.response.data.query == query
      && r.response.data.result == result
      && r.response.data.id == newId
      && r.response.data.timestamp == now
  {
    var row := LookupRow(newId, userId, if Provided(rightId) then rightId else None, query, result, now);
    if insertFails then Step(Failure("Failed to record lookup"), table)
    else Step(Success(row), table + [row])
  }

  /** Whether a delete request for (`userId`, `lookupId`) removes `row`. */
  predicate Targeted(row: LookupRow, userId: UserId, lookupId: string)
  {
    row.id == lookupId && row.userId == userId
  }

  /** The rows of `table` the delete leaves, in their order. */
  function Without(table: LookupTable, userId: UserId, lookupId: string): (r: LookupTable)
    ensures forall row :: row in r <==> row in table && !Targeted(row, userId, lookupId)
    ensures forall row :: multiset(r)[row] == if Targeted(row, userId, lookupId) then 0 else multiset(table)[row]
    ensures |r| <= |table|
    decreases |table|
  {
    if |table| == 0 then []
    else
      assert table == [table[0]] + table[1..];
      if Targeted(table[0], userId, lookupId) then Without(table[1..], userId, lookupId)
      else [table[0]] + Without(table[1..], userId, lookupId)
  }

  /** The rows of one user, in table order. */
  function RowsOfUser(table: LookupTable, userId: UserId): (r: LookupTable)
    ensures forall row :: row in r <==> row in table && row.userId == userId
    ensures forall row :: multiset(r)[row] == if row.userId == userId then multiset(table)[row] else 0
    ensures |r| <= |table|
    decreases |table|
  {
    if |table| == 0 then []
    else
      assert table == [table[0]] + table[1..];
      if table[0].userId == userId then [table[0]] + RowsOfUser(table[1..], userId)
      else RowsOfUser(table[1..], userId)
  }

  /** Deletes the entry with this id, but only when it belongs to this user.
      Deleting nothing is not an error. */
  function DeleteLookupHistory(table: LookupTable, userId: UserId, lookupId: string,
                               writeFails: bool): (r: Step<(), LookupTable>)
    ensures writeFails ==> r == Step(Failure("Failed to delete lookup history"), table)
    ensures !writeFails ==> r.response == Success(())
    ensures !writeFails ==> forall row :: row in r.next <==> row in table && !Targeted(row, userId, lookupId)
    ensures !writeFails ==> forall row ::
      multiset(r.next)[row] == if Targeted(row, userId, lookupId) then 0 else multiset(table)[row]
    ensures forall other :: other != userId ==> RowsOfUser(r.next, other) == RowsOfUser(table, other)
  {
    if writeFails then Step(Failure("Failed to delete lookup history"), table)
    else
      OtherUsersUntouched(table, userId, lookupId);
      Step(Success(()), Without(table, userId, lookupId))
  }

  /** The delete is scoped: every other user's history is exactly as it was,
      in the same order. */
  lemma {:induction false} OtherUsersUntouched(table: LookupTable, userId: UserId, lookupId: string)
    ensures forall other :: other != userId ==>
      RowsOfUser(Without(table, userId, lookupId), other) == RowsOfUser(table, other)
    decreases |table|
  {
    if |table| > 0 {
      OtherUsersUntouched(table[1..], userId, lookupId);
      var rest := Without(table[1..], userId, lookupId);
      if !Targeted(table[0], userId, lookupId) {
        assert ([table[0]] + rest)[1..] == rest;
      }
    }
  }

  /** Deleting a lookup right after recording it, as the same user, gives
      back the table as it was. */
  lemma RecordThenDeleteRestores(table: LookupTable, userId: UserId, query: string,
                                 result: SearchResult, rightId: Option<string>,
                                 newId: string, now: Timestamp)
    requires forall i :: 0 <= i < |table| ==> table[i].id != newId
    ensures
      var recorded := RecordLookup(table, userId, query, result, rightId, newId, now, false);
      DeleteLookupHistory(recorded.next, userId, newId, false) == Step(Success(()), table)
  {
    var row := RecordLookup(table, userId, query, result, rightId, newId, now, false).response.data;
    WithoutAppend(table, row, userId, newId);
    WithoutNoMatch(table, userId, newId);
    assert Targeted(row, userId, newId);
    assert Without([row], userId, newId) == [];
    assert Without(table + [row], userId, newId) == table;
  }

  /** The delete works row by row, so it distributes over an appended row. */
  lemma {:induction false} WithoutAppend(table: LookupTable, row: LookupRow, userId: UserId, lookupId: string)
    ensures Without(table + [row], userId, lookupId)
         == Without(table, userId, lookupId) + Without([row], userId, lookupId)
    decreases |table|
  {
    if |table| > 0 {
      var rest := table[1..];
      assert (table + [row])[0] == table[0];
      assert (table + [row])[1..] == rest + [row];
      WithoutAppend(rest, row, userId, lookupId);
      if !Targeted(table[0], userId, lookupId) {
        var a, b := Without(rest, userId, lookupId), Without([row], userId, lookupId);
        assert [table[0]] + (a + b) == ([table[0]] + a) + b;
      }
    } else {
      assert table + [row] == [row];
    }
  }

  /** A delete that matches no row leaves the table as it was. */
  lemma {:induction false} WithoutNoMatch(table: LookupTable, userId: UserId, lookupId: string)
    requires forall i :: 0 <= i < |table| ==> table[i].id != lookupId
    ensures Without(table, userId, lookupId) == table
    decreases |table|
  {
    if |table| > 0 {
      WithoutNoMatch(table[1..], userId, lookupId);
      assert [table[0]] + table[1..] == table;
    }
  }

  // ---------------------------------------------------------------------
  // Paginated history

  datatype Pagination = Pagination(page: int, limit: int, total: int, totalPages: int)

  datatype HistoryPage = HistoryPage(data: seq<LookupRow>, pagination: Pagination)

  /** `Math.ceil(n / d)` for a count `n` and a positive page size `d`: the
      fewest pages of `d` rows that hold `n` rows. */
  function CeilDiv(n: nat, d: int): (r: nat)
    requires d > 0
    ensures r * d >= n
    ensures r == 0 || (r - 1) * d < n
  {
    var q := (n + d - 1) / d;
    assert q * d == n + d - 1 - (n + d - 1) % d;
    q
  }

  /** Where a page starts in the newest-first list: the first page at 0,
      and each page `limit` rows after the one before it. */
  function Offset(page: int, limit: int): (offset: int)
    ensures page >= 1 && limit >= 0 ==> offset >= 0
    ensures page == 1 ==> offset == 0
    ensures offset + limit == page * limit
  {
    if page >= 1 && limit >= 0 then
      MulMonotone(0, page - 1, limit);
      (page - 1) * limit
    else
      (page - 1) * limit
  }

  /** The next page starts exactly `limit` rows after this one. */
  lemma NextPageOffset(page: int, limit: int)
    ensures Offset(page + 1, limit) == Offset(page, limit) + limit
  {
  }

  /** The pagination block of a response; an absent count reads as zero. */
  function Paginate(page: int, limit: int, count: Option<nat>): (p: Pagination)
    requires limit > 0
    ensures p.page == page && p.limit == limit
    ensures p.total == (if count.Some? then count.value else 0)
    ensures p.totalPages * limit >= p.total
    ensures p.totalPages == 0 || (p.totalPages - 1) * limit < p.total
  {
    var total: nat := if count.Some? then count.value else 0;
    Pagination(page, limit, total, CeilDiv(total, limit))
  }

  /** The store's `.range(from, to)`: rows `from` through `to` inclusive,
      cut short at the end of the list. */
  function Range<T>(xs: seq<T>, from: nat, to: int): (r: seq<T>)
    ensures |r| <= if to + 1 <= from then 0 else to + 1 - from
    ensures forall i :: 0 <= i < |r| ==> from + i < |xs| && r[i] == xs[from + i]
    ensures from < |xs| && from <= to ==> |r| == (if to + 1 < |xs| then to + 1 else |xs|) - from
  {
    var lo := if from < |xs| then from else |xs|;
    var hi := if to + 1 < lo then lo else if to + 1 < |xs| then to + 1 else |xs|;
    xs[lo..hi]
  }

  /** A user's rows, newest first. */
  function Newest(table: LookupTable, userId: UserId): (r: seq<LookupRow>)
    ensures SortedDesc(r, Stamp)
    ensures multiset(r) == multiset(RowsOfUser(table, userId))
    ensures |r| == |RowsOfUser(table, userId)|
  {
    SortDesc(RowsOfUser(table, userId), Stamp)
  }

  /** The most recent lookups across all users: at most `limit` rows, newest
      first, and no row left out is newer than one returned. */
  function GetRecentLookups(table: LookupTable, readFails: bool, limit: nat := DefaultRecentLimit)
    : (r: ApiResponse<seq<LookupRow>>)
    ensures r.Failure? <==> readFails
    ensures r.Failure? ==> r.error == "Failed to get recent lookups"
    ensures r.Success? ==>
      && |r.data| == (if limit < |table| then limit else |table|)
      && SortedDesc(r.data, Stamp)
      && multiset(r.data) <= multiset(table)
      && forall row, i :: row in multiset(table) - multiset(r.data) && 0 <= i < |r.data| ==>
           Stamp(row) <= Stamp(r.data[i])
  {
    if readFails then Failure("Failed to get recent lookups")
    else
      var newest := SortDesc(table, Stamp);
      var n := if limit < |table| then limit else |table|;
      NewestPrefix(table, newest, n);
      Success(newest[..n])
  }

  /** Cutting a newest-first ordering after `n` rows leaves out only rows no
      newer than the ones kept. */
  lemma NewestPrefix(table: LookupTable, newest: seq<LookupRow>, n: nat)
    requires SortedDesc(newest, Stamp) && multiset(newest) == multiset(table) && n <= |newest|
    ensures SortedDesc(newest[..n], Stamp)
    ensures multiset(newest[..n]) <= multiset(table)
    ensures forall row, i :: row in multiset(table) - multiset(newest[..n]) && 0 <= i < n ==>
      Stamp(row) <= Stamp(newest[i])
  {
    SortedSlice(newest, Stamp, 0, n);
    assert newest[0..n] == newest[..n];
    assert newest == newest[..n] + newest[n..];
    assert multiset(table) == multiset(newest[..n]) + multiset(newest[n..]);
    forall row, i | row in multiset(table) - multiset(newest[..n]) && 0 <= i < n
      ensures Stamp(row) <= Stamp(newest[i])
    {
      assert row in multiset(newest[n..]);
      var j :| 0 <= j < |newest[n..]| && newest[n..][j] == row;
      assert newest[n + j] == row;
    }
  }

  /** One page of a user's history, newest first, with its pagination
      block. */
  function GetUserLookupHistory(table: LookupTable, userId: UserId, countFails: bool, dataFails: bool,
                                page: int := DefaultPage, limit: int := DefaultPageSize)
    : (r: ApiResponse<HistoryPage>)
    requires page >= 1 && limit >= 1
    ensures r.Failure? <==> countFails || dataFails
    ensures r.Failure? ==> r.error == "Failed to get lookup history"
    ensures r.Success? ==>
      var mine := Newest(table, userId);
      var offset := Offset(page, limit);
      && IsWindow(r.data.data, mine, offset, limit)
      && SortedDesc(r.data.data, Stamp)
      && (forall row :: row in r.data.data ==> row in table && row.userId == userId)
      && r.data.pagination == Paginate(page, limit, Some(|RowsOfUser(table, userId)|))
  {
    if countFails || dataFails then Failure("Failed to get lookup history")
    else Success(HistoryPage(UserPage(table, userId, page, limit),
                             Paginate(page, limit, Some(|RowsOfUser(table, userId)|))))
  }

  /** The rows of one page: the window of the user's newest-first rows that
      the page number and size select. */
  function UserPage(table: LookupTable, userId: UserId, page: int, limit: int): (data: seq<LookupRow>)
    requires page >= 1 && limit >= 1
    ensures IsWindow(data, Newest(table, userId), Offset(page, limit), limit)
    ensures SortedDesc(data, Stamp)
    ensures forall row :: row in data ==> row in table && row.userId == userId
  {
    var mine := Newest(table, userId);
    var offset: nat := Offset(page, limit);
    PageWindow(mine, offset, limit);
    PageFacts(table, userId, mine, offset, limit);
    Range(mine, offset, offset + limit - 1)
  }

  /** `data` is the window of `limit` rows of `xs` starting at `offset`: at
      most `limit` rows, consecutive from `offset`, and exactly `limit` when
      that many remain. */
  predicate IsWindow<T(==)>(data: seq<T>, xs: seq<T>, offset: int, limit: int)
  {
    && |data| <= limit
    && (forall i :: 0 <= i < |data| ==> 0 <= offset + i < |xs| && data[i] == xs[offset + i])
    && (0 <= offset < |xs| ==> |data| == (if offset + limit < |xs| then limit else |xs| - offset))
  }

  lemma PageWindow<T>(xs: seq<T>, offset: nat, limit: int)
    requires limit >= 1
    ensures IsWindow(Range(xs, offset, offset + limit - 1), xs, offset, limit)
  {
  }

  lemma PageFacts(table: LookupTable, userId: UserId, mine: seq<LookupRow>, offset: nat, limit: int)
    requires limit >= 1
    requires SortedDesc(mine, Stamp) && multiset(mine) == multiset(RowsOfUser(table, userId))
    ensures var data := Range(mine, offset, offset + limit - 1);
      && SortedDesc(data, Stamp)
      && forall row :: row in data ==> row in table && row.userId == userId
  {
    var data := Range(mine, offset, offset + limit - 1);
    if |data| > 0 {
      assert data == mine[offset..offset + |data|];
      SortedSlice(mine, Stamp, offset, offset + |data|);
    }
    forall row | row in data
      ensures row in table && row.userId == userId
    {
      var i :| 0 <= i < |data| && data[i] == row;
      UserRowOf(table, userId, mine, offset + i);
    }
  }

  /** Every row of a permutation of the user's rows is one of the user's. */
  lemma UserRowOf(table: LookupTable, userId: UserId, mine: seq<LookupRow>, j: int)
    requires multiset(mine) == multiset(RowsOfUser(table, userId))
    requires 0 <= j < |mine|
    ensures mine[j] in table && mine[j].userId == userId
  {
    assert mine[j] in multiset(mine);
    assert mine[j] in RowsOfUser(table, userId);
  }

  lemma MulMonotone(a: int, b: int, c: int)
    requires a <= b && c >= 0
    ensures a * c <= b * c
  {
  }

  /** A page starts inside the rows exactly when its number is at most the
      announced page count. */
  lemma PageStartsInside(page: int, limit: int, total: nat, pages: nat)
    requires page >= 1 && limit >= 1
    requires pages * limit >= total && (pages == 0 || (pages - 1) * limit < total)
    ensures Offset(page, limit) < total <==> page <= pages
  {
    if page <= pages {
      MulMonotone(page - 1, pages - 1, limit);
    } else {
      MulMonotone(pages, page - 1, limit);
    }
  }

  /** A window from inside the rows holds at least one row; one from past
      the end holds none. */
  lemma WindowNonEmpty<T>(data: seq<T>, xs: seq<T>, offset: int, limit: int)
    requires IsWindow(data, xs, offset, limit) && offset >= 0 && limit >= 1
    ensures |data| > 0 <==> offset < |xs|
  {
    if |data| > 0 {
      var first := data[0];
      assert 0 <= offset + 0 < |xs| by {
        assert forall i :: 0 <= i < |data| ==> 0 <= offset + i < |xs| && data[i] == xs[offset + i];
      }
    }
  }

  /** Without page arguments the history is the first page of ten: the
      user's ten newest rows, or all of them when there are fewer. */
  lemma DefaultHistoryIsNewestTen(table: LookupTable, userId: UserId)
    ensures var r := GetUserLookupHistory(table, userId, false, false);
      var mine := Newest(table, userId);
      && r.Success?
      && r.data.data == mine[..if |mine| < 10 then |mine| else 10]
      && r.data.pagination.page == 1 && r.data.pagination.limit == 10
  {
    var r := GetUserLookupHistory(table, userId, false, false);
    var mine := Newest(table, userId);
    var n := if |mine| < 10 then |mine| else 10;
    assert Offset(1, 10) == 0;
    if |mine| > 0 {
      assert |r.data.data| == n;
    } else {
      assert |r.data.data| == 0;
    }
    forall i | 0 <= i < n ensures r.data.data[i] == mine[..n][i] {
    }
  }

  /** The pages the response announces are exactly the non-empty ones. */
  lemma AnnouncedPagesAreNonEmpty(table: LookupTable, userId: UserId, page: int, limit: int)
    requires page >= 1 && limit >= 1
    ensures
      var r := GetUserLookupHistory(table, userId, false, false, page, limit);
      |r.data.data| > 0 <==> page <= r.data.pagination.totalPages
  {
    var count := |RowsOfUser(table, userId)|;
    var p := Paginate(page, limit, Some(count));
    PageStartsInside(page, limit, count, p.totalPages);
    WindowNonEmpty(UserPage(table, userId, page, limit), Newest(table, userId), Offset(page, limit), limit);
  }

  // ---------------------------------------------------------------------
  // Popular queries

  datatype QueryCount = QueryCount(query: string, count: int)

  function CountKey(c: QueryCount): int
  {
    c.count
  }

  /** The key of every fetched query, row by row. */
  function Keys(qs: seq<string>): (ks: seq<string>)
    ensures |ks| == |qs|
    ensures forall i :: 0 <= i < |qs| ==> ks[i] == Normalize(qs[i])
  {
    seq(|qs|, i requires 0 <= i < |qs| => Normalize(qs[i]))
  }

  /** How many fetched queries have key `k`. */
  function Occurrences(qs: seq<string>, k: string): nat
  {
    multiset(Keys(qs))[k]
  }

  function KeysOf(t: seq<QueryCount>): (ks: seq<string>)
    ensures |ks| == |t|
    ensures forall i :: 0 <= i < |t| ==> ks[i] == t[i].query
  {
    seq(|t|, i requires 0 <= i < |t| => t[i].query)
  }

  predicate DistinctKeys(t: seq<QueryCount>)
  {
    forall i, j :: 0 <= i < j < |t| ==> t[i].query != t[j].query
  }

  predicate PositiveCounts(t: seq<QueryCount>)
  {
    forall i :: 0 <= i < |t| ==> t[i].count >= 1
  }

  /** The count a tally holds for `k` (zero when it has no entry). */
  function CountOf(t: seq<QueryCount>, k: string): int
  {
    if |t| == 0 then 0 else if t[0].query == k then t[0].count else CountOf(t[1..], k)
  }

  /** The sum of all counts of a tally. */
  function Total(t: seq<QueryCount>): int
  {
    if |t| == 0 then 0 else t[0].count + Total(t[1..])
  }

  /** Counts one more row with key `k`: its entry goes up by one, or a new
      entry with count one is appended. */
  function Bump(t: seq<QueryCount>, k: string): (r: seq<QueryCount>)
    requires DistinctKeys(t) && PositiveCounts(t)
    ensures BumpedFrom(r, t, k)
    decreases |t|
  {
    if |t| == 0 then
      var r := [QueryCount(k, 1)];
      BumpEmpty(t, k, r);
      r
    else if t[0].query == k then
      var r := [t[0].(count := t[0].count + 1)] + t[1..];
      BumpHead(t, k, r);
      r
    else
      var rest := Bump(t[1..], k);
      var r := [t[0]] + rest;
      BumpTail(t, k, rest, r);
      r
  }

  /** `r` is the tally `t` with one more row of key `k`: still one positive
      entry per key, `k`'s count one higher and every other count as it was,
      `k` now among the keys, and one more row in total. */
  ghost predicate BumpedFrom(r: seq<QueryCount>, t: seq<QueryCount>, k: string)
  {
    && DistinctKeys(r) && PositiveCounts(r)
    && (forall x :: CountOf(r, x) == CountOf(t, x) + (if x == k then 1 else 0))
    && (forall x :: x in KeysOf(r) <==> x in KeysOf(t) || x == k)
    && Total(r) == Total(t) + 1
  }

  /** The first entry is `k`'s: it goes up by one. */
  lemma BumpHead(t: seq<QueryCount>, k: string, r: seq<QueryCount>)
    requires DistinctKeys(t) && PositiveCounts(t) && |t| > 0 && t[0].query == k
    requires r == [t[0].(count := t[0].count + 1)] + t[1..]
    ensures BumpedFrom(r, t, k)
  {
    assert r[1..] == t[1..];
    assert |r| == |t|;
    assert forall i :: 0 <= i < |r| ==> r[i].query == t[i].query;
    assert KeysOf(r) == KeysOf(t);
    forall x
      ensures CountOf(r, x) == CountOf(t, x) + (if x == k then 1 else 0)
    {
    }
  }

  /** No entry yet: `k` gets one with count one. */
  lemma BumpEmpty(t: seq<QueryCount>, k: string, r: seq<QueryCount>)
    requires |t| == 0 && r == [QueryCount(k, 1)]
    ensures BumpedFrom(r, t, k)
  {
    assert r[1..] == [];
    assert KeysOf(r) == [k];
    forall x
      ensures CountOf(r, x) == CountOf(t, x) + (if x == k then 1 else 0)
    {
    }
  }

  /** The first entry is another key's: it stays, and the rest is bumped. */
  lemma BumpTail(t: seq<QueryCount>, k: string, rest: seq<QueryCount>, r: seq<QueryCount>)
    requires DistinctKeys(t) && PositiveCounts(t) && |t| > 0 && t[0].query != k
    requires BumpedFrom(rest, t[1..], k)
    requires r == [t[0]] + rest
    ensures BumpedFrom(r, t, k)
  {
    HeadNotInBumpedRest(t, k, rest);
    ConsDistinct(t[0], rest);
    ConsPositive(t[0], rest);
    forall x
      ensures CountOf(r, x) == CountOf(t, x) + (if x == k then 1 else 0)
    {
      BumpTailCount(t, k, rest, r, x);
    }
    BumpTailKeys(t, k, rest, r);
    assert Total(r) == t[0].count + Total(rest) by {
      assert r[0] == t[0] && r[1..] == rest;
    }
    assert Total(t) == t[0].count + Total(t[1..]);
  }

  /** The first entry's key is not among the keys of the bumped rest. */
  lemma HeadNotInBumpedRest(t: seq<QueryCount>, k: string, rest: seq<QueryCount>)
    requires DistinctKeys(t) && |t| > 0 && t[0].query != k
    requires forall x :: x in KeysOf(rest) <==> x in KeysOf(t[1..]) || x == k
    ensures t[0].query !in KeysOf(rest)
  {
    var head := t[0].query;
    forall i | 0 <= i < |t| - 1 ensures KeysOf(t[1..])[i] != head {
      assert t[1..][i] == t[i + 1];
    }
  }

  /** Keeping the first entry and bumping the rest adds `k` to the keys. */
  lemma BumpTailKeys(t: seq<QueryCount>, k: string, rest: seq<QueryCount>, r: seq<QueryCount>)
    requires |t| > 0
    requires forall x :: x in KeysOf(rest) <==> x in KeysOf(t[1..]) || x == k
    requires r == [t[0]] + rest
    ensures forall x :: x in KeysOf(r) <==> x in KeysOf(t) || x == k
  {
    var head := t[0].query;
    assert KeysOf(r) == [head] + KeysOf(rest);
    assert KeysOf(t) == [head] + KeysOf(t[1..]);
  }

  /** An entry whose key the rest does not hold keeps keys distinct. */
  lemma ConsDistinct(h: QueryCount, rest: seq<QueryCount>)
    requires DistinctKeys(rest) && h.query !in KeysOf(rest)
    ensures DistinctKeys([h] + rest)
  {
    var r := [h] + rest;
    forall i, j | 0 <= i < j < |r|
      ensures r[i].query != r[j].query
    {
      assert r[j] == rest[j - 1];
      if i == 0 {
        assert KeysOf(rest)[j - 1] == rest[j - 1].query;
      } else {
        assert r[i] == rest[i - 1];
      }
    }
  }

  lemma ConsPositive(h: QueryCount, rest: seq<QueryCount>)
    requires h.count >= 1 && PositiveCounts(rest)
    ensures PositiveCounts([h] + rest)
  {
    var r := [h] + rest;
    forall i | 0 <= i < |r|
      ensures r[i].count >= 1
    {
      if i > 0 {
        assert r[i] == rest[i - 1];
      }
    }
  }

  /** One key's count after bumping behind a first entry of another key. */
  lemma BumpTailCount(t: seq<QueryCount>, k: string, rest: seq<QueryCount>, r: seq<QueryCount>, x: string)
    requires |t| > 0 && t[0].query != k && r == [t[0]] + rest
    requires CountOf(rest, x) == CountOf(t[1..], x) + (if x == k then 1 else 0)
    ensures CountOf(r, x) == CountOf(t, x) + (if x == k then 1 else 0)
  {
    assert r[0] == t[0] && r[1..] == rest;
  }

  /** The frequency table the service builds: one entry per distinct key, in
      order of first occurrence. */
  function Tally(qs: seq<string>): (t: seq<QueryCount>)
    ensures DistinctKeys(t) && PositiveCounts(t)
    ensures forall x :: CountOf(t, x) == Occurrences(qs, x)
    ensures forall x :: x in KeysOf(t) <==> x in Keys(qs)
    ensures Total(t) == |qs|
    decreases |qs|
  {
    if |qs| == 0 then []
    else
      var init := qs[..|qs| - 1];
      var k := Normalize(qs[|qs| - 1]);
      KeysSnoc(qs);
      Bump(Tally(init), k)
  }

  /** Adding the last fetched row adds one occurrence of its key. */
  lemma KeysSnoc(qs: seq<string>)
    requires |qs| > 0
    ensures forall x :: Occurrences(qs, x) == Occurrences(qs[..|qs| - 1], x) + (if x == Normalize(qs[|qs| - 1]) then 1 else 0)
    ensures forall x :: x in Keys(qs) <==> x in Keys(qs[..|qs| - 1]) || x == Normalize(qs[|qs| - 1])
  {
    var init := qs[..|qs| - 1];
    var k := Normalize(qs[|qs| - 1]);
    var ks := Keys(init) + [k];
    assert |ks| == |Keys(qs)|;
    forall i | 0 <= i < |qs|
      ensures Keys(qs)[i] == ks[i]
    {
      if i < |qs| - 1 {
        assert init[i] == qs[i];
      }
    }
    assert Keys(qs) == ks;
    assert multiset(Keys(qs)) == multiset(Keys(init)) + multiset{k};
  }

  /** In a tally with distinct keys, every entry holds the tally's count for
      its key. */
  lemma {:induction false} EntryHoldsCount(t: seq<QueryCount>, i: int)
    requires DistinctKeys(t) && 0 <= i < |t|
    ensures t[i].count == CountOf(t, t[i].query)
    decreases |t|
  {
    if i > 0 {
      assert t[1..][i - 1] == t[i];
      EntryHoldsCount(t[1..], i - 1);
    }
  }

  /** In a tally with distinct keys no entry occurs twice. */
  lemma {:induction false} DistinctEntriesOnce(t: seq<QueryCount>, x: QueryCount)
    requires DistinctKeys(t)
    ensures multiset(t)[x] <= 1
    decreases |t|
  {
    if |t| > 0 {
      assert t == [t[0]] + t[1..];
      DistinctEntriesOnce(t[1..], x);
      if x == t[0] {
        assert x !in t[1..] by {
          forall i | 0 <= i < |t| - 1 ensures t[1..][i] != x {
            assert t[1..][i] == t[i + 1];
          }
        }
      }
    }
  }

  /** The queries of the most recent rows, newest first, at most
      `RecentWindow` of them: the same fetch as the recent-lookups query,
      which is characterised on its own, with only the query column kept. */
  function Recent(table: LookupTable): (qs: seq<string>)
    ensures |qs| == (if |table| < RecentWindow then |table| else RecentWindow)
    ensures var rows := GetRecentLookups(table, false, RecentWindow).data;
      |qs| == |rows| && forall i :: 0 <= i < |qs| ==> qs[i] == rows[i].query
  {
    var newest := SortDesc(table, Stamp);
    var n := if |newest| < RecentWindow then |newest| else RecentWindow;
    seq(n, i requires 0 <= i < n => newest[i].query)
  }

  /** JavaScript's `slice(0, end)`: a negative end counts from the back. */
  function SliceEnd(n: nat, end: int): (e: nat)
    ensures e <= n
    ensures end >= 0 ==> e == (if end < n then end else n)
    // a negative end drops the last -end entries, or all of them when fewer remain
    ensures end < 0 ==> (if -end <= n then n - e == -end else e == 0)
  {
    if end < 0 then (if n + end < 0 then 0 else n + end)
    else if end < n then end else n
  }

  /** Every entry of a permutation of the tally is a fetched key with its
      exact number of occurrences. */
  lemma RankedEntriesAreExact(qs: seq<string>, ranked: seq<QueryCount>)
    requires multiset(ranked) == multiset(Tally(qs))
    ensures forall i :: 0 <= i < |ranked| ==>
      ranked[i].query in Keys(qs) && ranked[i].count == Occurrences(qs, ranked[i].query)
  {
    var tally := Tally(qs);
    forall i | 0 <= i < |ranked|
      ensures ranked[i].query in Keys(qs) && ranked[i].count == Occurrences(qs, ranked[i].query)
    {
      assert ranked[i] in multiset(tally);
      var m :| 0 <= m < |tally| && tally[m] == ranked[i];
      EntryHoldsCount(tally, m);
      assert KeysOf(tally)[m] == ranked[i].query;
    }
  }

  /** A permutation of the tally still has one entry per key. */
  lemma RankedKeysDistinct(qs: seq<string>, ranked: seq<QueryCount>)
    requires multiset(ranked) == multiset(Tally(qs))
    ensures DistinctKeys(ranked)
  {
    RankedEntriesAreExact(qs, ranked);
    forall i, j | 0 <= i < j < |ranked|
      ensures ranked[i].query != ranked[j].query
    {
      if ranked[i].query == ranked[j].query {
        assert ranked[i] == ranked[j];
        TwoPositionsTwoOccurrences(ranked, i, j);
        DistinctEntriesOnce(Tally(qs), ranked[i]);
      }
    }
  }

  /** An entry left out of a prefix of a ranking counts no more than any
      entry inside it. */
  lemma LeftOutEntriesRankLower(tally: seq<QueryCount>, ranked: seq<QueryCount>, n: int, m: int)
    requires multiset(ranked) == multiset(tally) && SortedDesc(ranked, CountKey)
    requires 0 <= n <= |ranked| && 0 <= m < |tally|
    requires tally[m].query !in KeysOf(ranked[..n])
    ensures forall i :: 0 <= i < n ==> tally[m].count <= ranked[i].count
  {
    assert tally[m] in multiset(ranked);
    var j :| 0 <= j < |ranked| && ranked[j] == tally[m];
    assert forall i :: 0 <= i < n ==> KeysOf(ranked[..n])[i] == ranked[i].query;
    assert j >= n;
    forall i | 0 <= i < n
      ensures tally[m].count <= ranked[i].count
    {
      assert CountKey(ranked[i]) >= CountKey(ranked[j]);
    }
  }

  /** A key left out of a prefix of the ranking occurs no more often than
      any key inside it. */
  lemma LeftOutKeysRankLower(qs: seq<string>, ranked: seq<QueryCount>, n: int, k: string)
    requires multiset(ranked) == multiset(Tally(qs)) && SortedDesc(ranked, CountKey)
    requires 0 <= n <= |ranked|
    requires k in Keys(qs) && k !in KeysOf(ranked[..n])
    ensures forall i :: 0 <= i < n ==> Occurrences(qs, k) <= ranked[i].count
  {
    var tally := Tally(qs);
    assert k in KeysOf(tally);
    var m :| 0 <= m < |tally| && KeysOf(tally)[m] == k;
    EntryHoldsCount(tally, m);
    LeftOutEntriesRankLower(tally, ranked, n, m);
  }

  /** A prefix of a tally with one entry per key has one entry per key. */
  lemma PrefixDistinct(t: seq<QueryCount>, n: int)
    requires DistinctKeys(t) && 0 <= n <= |t|
    ensures DistinctKeys(t[..n])
  {
    forall i, j | 0 <= i < j < n
      ensures t[..n][i].query != t[..n][j].query
    {
      assert t[..n][i] == t[i] && t[..n][j] == t[j];
    }
  }

  /** Exact counts carry over to a prefix of the ranking. */
  lemma PrefixExact(qs: seq<string>, ranked: seq<QueryCount>, n: int)
    requires multiset(ranked) == multiset(Tally(qs)) && 0 <= n <= |ranked|
    ensures forall i :: 0 <= i < n ==>
      ranked[..n][i].query in Keys(qs) && ranked[..n][i].count == Occurrences(qs, ranked[..n][i].query)
  {
    RankedEntriesAreExact(qs, ranked);
    forall i | 0 <= i < n
      ensures ranked[..n][i].query in Keys(qs) && ranked[..n][i].count == Occurrences(qs, ranked[..n][i].query)
    {
      assert ranked[..n][i] == ranked[i];
    }
  }

  /** Keys left out of a prefix of the ranking occur no more often than
      those kept. */
  lemma PrefixTopN(qs: seq<string>, ranked: seq<QueryCount>, n: int)
    requires multiset(ranked) == multiset(Tally(qs)) && SortedDesc(ranked, CountKey)
    requires 0 <= n <= |ranked|
    ensures forall k :: k in Keys(qs) && k !in KeysOf(ranked[..n]) ==>
      forall i :: 0 <= i < n ==> Occurrences(qs, k) <= ranked[..n][i].count
  {
    forall k, i | k in Keys(qs) && k !in KeysOf(ranked[..n]) && 0 <= i < n
      ensures Occurrences(qs, k) <= ranked[..n][i].count
    {
      LeftOutKeysRankLower(qs, ranked, n, k);
      assert ranked[..n][i] == ranked[i];
    }
  }

  /** Facts about a ranking (a permutation of a tally, largest count first)
      that carry over to every prefix of it. */
  lemma RankingFacts(qs: seq<string>, ranked: seq<QueryCount>, n: int)
    requires multiset(ranked) == multiset(Tally(qs)) && SortedDesc(ranked, CountKey)
    requires 0 <= n <= |ranked|
    ensures var top := ranked[..n];
      && SortedDesc(top, CountKey)
      && DistinctKeys(top)
      && (forall i :: 0 <= i < |top| ==> top[i].query in Keys(qs) && top[i].count == Occurrences(qs, top[i].query))
      && (forall k :: k in Keys(qs) && k !in KeysOf(top) ==>
            forall i :: 0 <= i < |top| ==> Occurrences(qs, k) <= top[i].count)
  {
    SortedSlice(ranked, CountKey, 0, n);
    assert ranked[0..n] == ranked[..n];
    RankedKeysDistinct(qs, ranked);
    PrefixDistinct(ranked, n);
    PrefixExact(qs, ranked, n);
    PrefixTopN(qs, ranked, n);
  }

  /** The most frequent keys among the recent queries, most frequent first,
      at most `limit` of them. */
  function GetPopularQueries(table: LookupTable, readFails: bool, limit: int := DefaultPopularLimit)
    : (r: ApiResponse<seq<QueryCount>>)
    ensures r.Failure? <==> readFails
    ensures r.Failure? ==> r.error == "Failed to get popular queries"
    ensures r.Success? ==>
      var qs := Recent(table);
      var top := r.data;
      && SortedDesc(top, CountKey)
      && (limit >= 0 ==> |top| == (if limit < |Tally(qs)| then limit else |Tally(qs)|))
      && (limit < 0 ==> |top| == (if -limit <= |Tally(qs)| then |Tally(qs)| + limit else 0))
      && DistinctKeys(top)
      && (forall i :: 0 <= i < |top| ==> top[i].query in Keys(qs) && top[i].count == Occurrences(qs, top[i].query))
      && (forall k :: k in Keys(qs) && k !in KeysOf(top) ==>
            forall i :: 0 <= i < |top| ==> Occurrences(qs, k) <= top[i].count)
  {
    if readFails then Failure("Failed to get popular queries")
    else
      var qs := Recent(table);
      var ranked := SortDesc(Tally(qs), CountKey);
      var n := SliceEnd(|ranked|, limit);
      RankingFacts(qs, ranked, n);
      Success(ranked[..n])
  }

  /** Without a limit, the ten most frequent keys are returned, or every key
      when there are fewer: each with its exact count, and no key left out
      occurs more often than one returned. */
  lemma DefaultPopularIsTopTen(table: LookupTable)
    ensures var r := GetPopularQueries(table, false);
      var qs := Recent(table);
      var keys := |Tally(qs)|;
      && r.Success? && |r.data| == (if keys < 10 then keys else 10)
      && (forall i :: 0 <= i < |r.data| ==> r.data[i].count == Occurrences(qs, r.data[i].query))
      && (forall k :: k in Keys(qs) && k !in KeysOf(r.data) ==>
            forall i :: 0 <= i < |r.data| ==> Occurrences(qs, k) <= r.data[i].count)
  {
  }

  /** Every popular query is already in key form: searching it again is
      counted under the very same key. */
  lemma PopularKeysAreNormalized(table: LookupTable, limit: int)
    ensures var r := GetPopularQueries(table, false, limit);
      forall i :: 0 <= i < |r.data| ==> Normalize(r.data[i].query) == r.data[i].query
  {
    var r := GetPopularQueries(table, false, limit);
    forall i | 0 <= i < |r.data|
      ensures Normalize(r.data[i].query) == r.data[i].query
    {
      KeyIsNormal(Recent(table), r.data[i].query);
    }
  }

  /** A key of the fetched queries is its own key. */
  lemma KeyIsNormal(qs: seq<string>, k: string)
    requires k in Keys(qs)
    ensures Normalize(k) == k
  {
    var j :| 0 <= j < |qs| && Keys(qs)[j] == k;
    NormalizeIdempotent(qs[j]);
  }

  /** The counts add up to the number of rows fetched, which is at most
      `RecentWindow`. */
  lemma CountsSumToFetchedRows(table: LookupTable)
    ensures Total(Tally(Recent(table))) == |Recent(table)| <= RecentWindow
  {
  }
}
