/** The paging loop over a project's entry points, against any server and against a server
that pages an ordered list by cursor. */
module EntryPoints {
  import opened Text
  import opened Collections

  const BATCH_SIZE := 50

  datatype EntryPoint = EntryPoint(id: string, createdAt: string, url: string)
  datatype Cursor = Cursor(id: string, createdAt: string)

  /** A page for a cursor and a page limit. */
  type Server = (Option<Cursor>, int) -> seq<EntryPoint>

  function Min(a: int, b: int): int {
    if a <= b then a else b
  }

  function CursorOf(e: EntryPoint): Cursor {
    Cursor(e.id, e.createdAt)
  }

  /** The items of the pages still to come. */
  function Fetched(server: Server, remaining: int, cursor: Option<Cursor>): seq<EntryPoint>
    decreases if remaining < 0 then 0 else remaining
  {
    if remaining <= 0 then []
    else
      var page := server(cursor, Min(remaining, BATCH_SIZE));
      if page == [] then []
      else page + Fetched(server, remaining - BATCH_SIZE, Some(CursorOf(page[|page| - 1])))
  }

  /** The loop; an absent limit is 10. */
  method ListEntryPoints(server: Server, givenLimit: Option<int>) returns (data: seq<EntryPoint>, requests: nat)
    ensures var limit := if givenLimit.Some? then givenLimit.value else 10;
            && data == Fetched(server, limit, None)
            && (limit <= 0 ==> requests == 0)
            && (limit > 0 ==> 50 * (requests - 1) < limit)
  {
    var limit := if givenLimit.Some? then givenLimit.value else 10;
    var remaining := limit;
    var next := None;
    data, requests := [], 0;
    while remaining > 0
      invariant remaining == limit - BATCH_SIZE * requests
      invariant requests > 0 ==> BATCH_SIZE * (requests - 1) < limit
      invariant Fetched(server, limit, None) == data + Fetched(server, remaining, next)
      decreases remaining
    {
      var page := server(next, Min(remaining, BATCH_SIZE));
      requests := requests + 1;
      if page == [] {
        break;
      }
      Regroup(data, page, Fetched(server, remaining - BATCH_SIZE, Some(CursorOf(page[|page| - 1]))));
      data := data + page;
      next := Some(CursorOf(page[|page| - 1]));
      remaining := remaining - BATCH_SIZE;
    }
    assert data + [] == data;
  }

  // ---------------------------------------------------------------- any server

  ghost predicate HonoursLimit(server: Server) {
    forall cursor, k :: k >= 0 ==> |server(cursor, k)| <= k
  }

  /** A server that keeps to the page limit cannot make the result exceed the limit. */
  lemma {:induction false} NeverMoreThanLimit(server: Server, limit: int, cursor: Option<Cursor>)
    requires HonoursLimit(server)
    ensures |Fetched(server, limit, cursor)| <= if limit < 0 then 0 else limit
    decreases if limit < 0 then 0 else limit
  {
    if limit > 0 {
      var page := server(cursor, Min(limit, BATCH_SIZE));
      if page != [] {
        NeverMoreThanLimit(server, limit - BATCH_SIZE, Some(CursorOf(page[|page| - 1])));
      }
    }
  }

  // ---------------------------------------------------------------- a server over a list

  ghost predicate DistinctCursors(list: seq<EntryPoint>) {
    forall i, j :: 0 <= i < j < |list| ==> list[i].id != list[j].id || list[i].createdAt != list[j].createdAt
  }

  /** Where the page after a cursor starts. */
  function After(list: seq<EntryPoint>, c: Cursor): (n: nat)
    ensures n <= |list|
  {
    if list == [] then 0
    else if list[0].id == c.id && list[0].createdAt == c.createdAt then 1
    else 1 + After(list[1..], c)
  }

  /** The next items after the cursor: as many as asked for, up to the server's own cap. */
  function Page(list: seq<EntryPoint>, cap: nat, cursor: Option<Cursor>, k: int): seq<EntryPoint> {
    var start := Start(list, cursor);
    var n := Min(if k < 0 then 0 else k, Min(cap, |list| - start));
    list[start..start + n]
  }

  function ListServer(list: seq<EntryPoint>, cap: nat): Server {
    (cursor, k) => Page(list, cap, cursor, k)
  }

  lemma {:induction false} AfterItem(list: seq<EntryPoint>, i: nat)
    requires DistinctCursors(list) && i < |list|
    ensures After(list, CursorOf(list[i])) == i + 1
  {
    if i > 0 {
      assert list[0].id != list[i].id || list[0].createdAt != list[i].createdAt;
      assert list[1..][i - 1] == list[i];
      AfterItem(list[1..], i - 1);
    }
  }

  /** How many items the loop can take in at most, given the server's cap. */
  function Capacity(limit: int, cap: nat): (n: nat)
    decreases if limit < 0 then 0 else limit
  {
    if limit <= 0 then 0 else Min(Min(limit, BATCH_SIZE), cap) + Capacity(limit - BATCH_SIZE, cap)
  }

  function Slice(list: seq<EntryPoint>, start: nat, n: nat): seq<EntryPoint>
    requires start + n <= |list|
  {
    list[start..start + n]
  }

  lemma JoinSlices(list: seq<EntryPoint>, start: nat, n: nat, m: nat)
    requires start + n + m <= |list|
    ensures Slice(list, start, n) + Slice(list, start + n, m) == Slice(list, start, n + m)
    ensures n > 0 ==> Slice(list, start, n)[n - 1] == list[start + n - 1]
  {
  }

  /** How many of `left` items come on the next page. */
  function PageSize(left: nat, cap: nat, limit: int): (n: nat)
    requires limit > 0
    ensures n <= left
  {
    Min(Min(limit, BATCH_SIZE), Min(cap, left))
  }

  /** How many of `left` items the loop takes in. */
  function Count(left: nat, cap: nat, limit: int): (n: nat)
    ensures n <= left
    decreases if limit < 0 then 0 else limit
  {
    if limit <= 0 || PageSize(left, cap, limit) == 0 then 0
    else PageSize(left, cap, limit) + Count(left - PageSize(left, cap, limit), cap, limit - BATCH_SIZE)
  }

  lemma {:induction false} CountIsCapacity(left: nat, cap: nat, limit: int)
    ensures Count(left, cap, limit) == Min(left, Capacity(limit, cap))
    decreases if limit < 0 then 0 else limit
  {
    if limit > 0 {
      CountIsCapacity(left - PageSize(left, cap, limit), cap, limit - BATCH_SIZE);
      CapacityIsLimit(limit, cap);
    }
  }

  function Start(list: seq<EntryPoint>, cursor: Option<Cursor>): (n: nat)
    ensures n <= |list|
  {
    if cursor.None? then 0 else After(list, cursor.value)
  }

  lemma PageIsSlice(list: seq<EntryPoint>, cap: nat, limit: int, cursor: Option<Cursor>)
    requires limit > 0
    ensures var start := Start(list, cursor);
            ListServer(list, cap)(cursor, Min(limit, BATCH_SIZE)) == Slice(list, start, PageSize(|list| - start, cap, limit))
  {
  }

  /** The loop's step against a server. */
  lemma FetchedStep(server: Server, limit: int, cursor: Option<Cursor>, page: seq<EntryPoint>)
    requires limit > 0 && server(cursor, Min(limit, BATCH_SIZE)) == page
    ensures page == [] ==> Fetched(server, limit, cursor) == []
    ensures page != [] ==>
              Fetched(server, limit, cursor) == page + Fetched(server, limit - BATCH_SIZE, Some(CursorOf(page[|page| - 1])))
  {
  }

  /** The loop takes in the `n` items after the cursor. */
  ghost predicate Fetches(server: Server, list: seq<EntryPoint>, limit: int, cursor: Option<Cursor>, n: nat) {
    && Start(list, cursor) + n <= |list|
    && Fetched(server, limit, cursor) == Slice(list, Start(list, cursor), n)
  }

  lemma FetchesNothing(server: Server, list: seq<EntryPoint>, limit: int, cursor: Option<Cursor>)
    requires limit <= 0 || server(cursor, Min(limit, BATCH_SIZE)) == []
    ensures Fetches(server, list, limit, cursor, 0)
  {
    assert Slice(list, Start(list, cursor), 0) == [];
  }

  lemma FetchesMore(server: Server, list: seq<EntryPoint>, limit: int, cursor: Option<Cursor>, k: nat, next: Option<Cursor>, n: nat)
    requires limit > 0 && 0 < k <= n && Start(list, cursor) + k <= |list|
    requires server(cursor, Min(limit, BATCH_SIZE)) == Slice(list, Start(list, cursor), k)
    requires next == Some(CursorOf(list[Start(list, cursor) + k - 1])) && Start(list, next) == Start(list, cursor) + k
    requires Fetches(server, list, limit - BATCH_SIZE, next, n - k)
    ensures Fetches(server, list, limit, cursor, n)
  {
    var start := Start(list, cursor);
    JoinSlices(list, start, k, n - k);
    FetchedStep(server, limit, cursor, Slice(list, start, k));
  }

  lemma NextStart(list: seq<EntryPoint>, i: nat)
    requires DistinctCursors(list) && i < |list|
    ensures Start(list, Some(CursorOf(list[i]))) == i + 1
  {
    AfterItem(list, i);
  }

  lemma {:induction false} FetchedIsSlice(list: seq<EntryPoint>, cap: nat, limit: int, cursor: Option<Cursor>, n: nat)
    requires DistinctCursors(list) && n == Count(|list| - Start(list, cursor), cap, limit)
    ensures Fetches(ListServer(list, cap), list, limit, cursor, n)
    decreases if limit < 0 then 0 else limit
  {
    var server := ListServer(list, cap);
    if limit <= 0 {
      FetchesNothing(server, list, limit, cursor);
    } else {
      var start := Start(list, cursor);
      var k := PageSize(|list| - start, cap, limit);
      PageIsSlice(list, cap, limit, cursor);
      if k == 0 {
        FetchesNothing(server, list, limit, cursor);
      } else {
        var next := Some(CursorOf(list[start + k - 1]));
        NextStart(list, start + k - 1);
        FetchedIsSlice(list, cap, limit - BATCH_SIZE, next, n - k);
        FetchesMore(server, list, limit, cursor, k, next, n);
      }
    }
  }

  lemma {:induction false} CapacityIsLimit(limit: int, cap: nat)
    ensures Capacity(limit, cap) <= if limit < 0 then 0 else limit
    ensures cap >= Min(limit, BATCH_SIZE) && limit >= 0 ==> Capacity(limit, cap) == limit
    ensures cap == 0 ==> Capacity(limit, cap) == 0
    ensures 0 <= cap < Min(limit, BATCH_SIZE) ==> Capacity(limit, cap) < limit
    decreases if limit < 0 then 0 else limit
  {
    if limit > 0 {
      CapacityIsLimit(limit - BATCH_SIZE, cap);
    }
  }

  /** The result is the start of the list, as long as the capacity allows. */
  lemma FetchedIsPrefix(list: seq<EntryPoint>, cap: nat, limit: int)
    requires DistinctCursors(list)
    ensures Fetched(ListServer(list, cap), limit, None) == list[..Min(|list|, Capacity(limit, cap))]
  {
    FetchedIsSlice(list, cap, limit, None, Count(|list|, cap, limit));
    CountIsCapacity(|list|, cap, limit);
  }

  /** Against a server that fills its pages the loop returns the first min(limit, n) items. */
  lemma FirstItems(list: seq<EntryPoint>, cap: nat, limit: nat)
    requires cap >= 50 && DistinctCursors(list)
    ensures Fetched(ListServer(list, cap), limit, None) == list[..Min(limit, |list|)]
  {
    FetchedIsPrefix(list, cap, limit);
    CapacityIsLimit(limit, cap);
  }

  /** Full pages and a last one, each as large as the server allows. */
  function Intake(limit: nat, cap: nat): int {
    if limit == 0 then 0
    else (limit - 1) / 50 * Min(50, cap) + Min(limit - (limit - 1) / 50 * 50, cap)
  }

  lemma OnePageMore(limit: nat, cap: nat)
    requires limit > BATCH_SIZE
    ensures Intake(limit, cap) == Min(BATCH_SIZE, cap) + Intake(limit - BATCH_SIZE, cap)
  {
    var q, m := (limit - 1) / BATCH_SIZE, Min(BATCH_SIZE, cap);
    assert (limit - BATCH_SIZE - 1) / BATCH_SIZE == q - 1;
    assert q * m == (q - 1) * m + m;
  }

  lemma {:induction false} CapacityIsIntake(limit: nat, cap: nat)
    ensures Capacity(limit, cap) == Intake(limit, cap)
  {
    if limit > BATCH_SIZE {
      CapacityIsIntake(limit - BATCH_SIZE, cap);
      OnePageMore(limit, cap);
    } else if limit > 0 {
      assert Capacity(limit - BATCH_SIZE, cap) == 0;
      assert (limit - 1) / BATCH_SIZE == 0;
    }
  }

  /** The remaining count drops by 50 whatever came back, so a server with smaller pages is
      read short: the promised items come exactly when the cap covers a full page, or the
      list is no longer than full pages and a last one of that size. */
  lemma FirstItemsExactly(list: seq<EntryPoint>, cap: nat, limit: nat)
    requires DistinctCursors(list)
    ensures Fetched(ListServer(list, cap), limit, None) == list[..Min(limit, |list|)]
       <==> cap >= Min(limit, 50) || |list| <= Intake(limit, cap)
    ensures |Fetched(ListServer(list, cap), limit, None)| == Min(|list|, Intake(limit, cap))
  {
    FetchedIsPrefix(list, cap, limit);
    CapacityIsLimit(limit, cap);
    CapacityIsIntake(limit, cap);
    var n := Min(|list|, Capacity(limit, cap));
    assert |list[..n]| == n;
    assert |list[..Min(limit, |list|)]| == Min(limit, |list|);
  }

  /** Pages of 20 under a limit of 100: of every list of at least 100 items 40 come back. */
  lemma SmallPagesReadShort(list: seq<EntryPoint>)
    requires DistinctCursors(list) && |list| >= 100
    ensures |Fetched(ListServer(list, 20), 100, None)| == 40
  {
    FirstItemsExactly(list, 20, 100);
  }
}
