/**
 * The recent-events endpoint: SNI records of the last 24 hours, newest first,
 * twenty to a page, with the total count and the number of pages.
 *
 * The store is a sequence of records and `now` is the clock reading in epoch
 * milliseconds; the count query and the listing query become a filter, a sort
 * and a slice over that sequence.
 */
module SniData {
  import opened Wrappers
  import Decimal

  datatype SniRecord = SniRecord(id: int, srcIp: string, dstIp: string, sni: string, timestamp: int)

  datatype Pagination = Pagination(currentPage: nat, totalPages: nat, totalSni: nat)

  /** The response body: one page of records and the pagination summary. */
  datatype SniPage = SniPage(data: seq<SniRecord>, pagination: Pagination)

  const PageSize: nat := 20
  const DayMs := 24 * 60 * 60 * 1000

  /**
   * The requested page: 1 when the `currentPage` parameter is absent or empty,
   * otherwise the value of its decimal digits (None for a string that is not
   * plain decimal digits).
   */
  function CurrentPage(param: Option<string>): (page: Option<nat>)
    ensures param == None || param == Some("") ==> page == Some(1)
    ensures param.Some? && param.value != "" ==> page == Decimal.ParseNat(param.value)
  {
    if param == None || param.value == "" then Some(1) else Decimal.ParseNat(param.value)
  }

  /** The page a client asks for by writing its number into the query string is the page served. */
  lemma CurrentPageRoundTrip(page: nat)
    ensures CurrentPage(Some(Decimal.NatToString(page))) == Some(page)
  {
    Decimal.ParseNatToString(page);
  }

  /** `totalPages = ceil(totalSni / 20)`: the fewest pages of twenty that hold every record. */
  function TotalPages(totalSni: nat): (pages: nat)
    ensures pages * PageSize >= totalSni
    ensures pages > 0 ==> (pages - 1) * PageSize < totalSni
    ensures pages == 0 <==> totalSni == 0
  {
    (totalSni + PageSize - 1) / PageSize
  }

  /** The records the `timestamp >= now - 24h` filter keeps, in store order. */
  function Last24Hours(store: seq<SniRecord>, now: int): (recent: seq<SniRecord>)
    ensures forall x :: multiset(recent)[x] == if x.timestamp >= now - DayMs then multiset(store)[x] else 0
    decreases |store|
  {
    if store == [] then []
    else
      var init, x := store[..|store| - 1], store[|store| - 1];
      assert store == init + [x];
      var rest := Last24Hours(init, now);
      if x.timestamp >= now - DayMs then rest + [x] else rest
  }

  /** Ordered by timestamp, newest first. */
  predicate NewestFirst(rs: seq<SniRecord>) {
    forall i, j :: 0 <= i < j < |rs| ==> rs[i].timestamp >= rs[j].timestamp
  }

  /** Putting a record no older than the current head in front keeps the order. */
  lemma ConsNewestFirst(y: SniRecord, rs: seq<SniRecord>)
    requires NewestFirst(rs)
    requires rs != [] ==> y.timestamp >= rs[0].timestamp
    ensures NewestFirst([y] + rs)
  {
    var r := [y] + rs;
    forall i, j | 0 <= i < j < |r| ensures r[i].timestamp >= r[j].timestamp {
      if i == 0 && j > 1 {
        assert rs[0].timestamp >= rs[j - 1].timestamp;
      }
    }
  }

  /** Inserts `x` in front of the first record that is not newer than it. */
  function InsertNewestFirst(x: SniRecord, rs: seq<SniRecord>): (r: seq<SniRecord>)
    requires NewestFirst(rs)
    ensures NewestFirst(r)
    ensures multiset(r) == multiset(rs) + multiset{x}
    ensures |r| == |rs| + 1 && (r[0] == x || (rs != [] && r[0] == rs[0]))
    decreases |rs|
  {
    if rs == [] || x.timestamp >= rs[0].timestamp then
      ConsNewestFirst(x, rs);
      [x] + rs
    else
      assert rs == [rs[0]] + rs[1..];
      var tail := InsertNewestFirst(x, rs[1..]);
      assert rs[1..] != [] ==> rs[0].timestamp >= rs[1..][0].timestamp;
      ConsNewestFirst(rs[0], tail);
      [rs[0]] + tail
  }

  /** The `orderBy: {timestamp: 'desc'}` of the listing query. */
  function SortNewestFirst(rs: seq<SniRecord>): (sorted: seq<SniRecord>)
    ensures NewestFirst(sorted)
    ensures multiset(sorted) == multiset(rs)
    decreases |rs|
  {
    if rs == [] then []
    else
      assert rs == [rs[0]] + rs[1..];
      InsertNewestFirst(rs[0], SortNewestFirst(rs[1..]))
  }

  /** All records of the last 24 hours, newest first: what the listing pages through. */
  function Listing(store: seq<SniRecord>, now: int): seq<SniRecord> {
    SortNewestFirst(Last24Hours(store, now))
  }

  /** `skip = (currentPage - 1) * pageSize`. */
  function Skip(page: nat): nat
    requires page >= 1
  {
    (page - 1) * PageSize
  }

  /** `skip`/`take`: the records at positions [skip, skip + 20) of `listing`, as many as exist. */
  function TakePage(listing: seq<SniRecord>, page: nat): (r: seq<SniRecord>)
    requires page >= 1
    ensures |r| == if Skip(page) >= |listing| then 0
                   else if |listing| - Skip(page) < PageSize then |listing| - Skip(page) else PageSize
    ensures forall j :: 0 <= j < |r| ==> r[j] == listing[Skip(page) + j]
  {
    if Skip(page) >= |listing| then []
    else listing[Skip(page)..if Skip(page) + PageSize <= |listing| then Skip(page) + PageSize else |listing|]
  }

  /**
   * The GET handler: counts the last day's records, computes the page count,
   * and returns the requested page of the newest-first listing.
   */
  function GetSniData(store: seq<SniRecord>, now: int, currentPage: nat): (resp: SniPage)
    requires currentPage >= 1
    ensures resp.pagination.currentPage == currentPage
    ensures resp.pagination.totalPages == TotalPages(resp.pagination.totalSni)
    ensures |resp.data| <= PageSize
    ensures NewestFirst(resp.data)
    ensures forall x :: x in resp.data ==> x in store && x.timestamp >= now - DayMs
    ensures |resp.data| > 0 <==> currentPage <= resp.pagination.totalPages
  {
    var recent := Last24Hours(store, now);
    var totalSni := |recent|;
    var listing := SortNewestFirst(recent);
    ListingLength(store, now);
    var data := TakePage(listing, currentPage);
    forall x | x in data ensures x in store && x.timestamp >= now - DayMs {
      assert x in multiset(listing);
    }
    SniPage(data, Pagination(currentPage, TotalPages(totalSni), totalSni))
  }

  /** The count and the listing use the same filter: the listing has `totalSni` records. */
  lemma ListingLength(store: seq<SniRecord>, now: int)
    ensures |Listing(store, now)| == |Last24Hours(store, now)|
  {
    var recent := Last24Hours(store, now);
    calc {
      |Listing(store, now)|;
      |multiset(Listing(store, now))|;
      |multiset(recent)|;
      |recent|;
    }
  }

  /**
   * The listing holds exactly the store's records of the last 24 hours, each as
   * often as it occurs in the store.
   */
  lemma ListingIsRecentRecords(store: seq<SniRecord>, now: int, x: SniRecord)
    ensures multiset(Listing(store, now))[x] == if x.timestamp >= now - DayMs then multiset(store)[x] else 0
    ensures x in Listing(store, now) <==> x in store && x.timestamp >= now - DayMs
  {
  }

  /** The response's data is the requested page of the listing. */
  lemma GetSniDataIsPageOfListing(store: seq<SniRecord>, now: int, page: nat)
    requires page >= 1
    ensures GetSniData(store, now, page).data == TakePage(Listing(store, now), page)
    ensures GetSniData(store, now, page).pagination.totalSni == |Listing(store, now)|
  {
    ListingLength(store, now);
  }

  /** Position k lies on page k / 20 + 1, at offset k % 20, and that page is counted. */
  lemma PageOfPosition(k: nat, n: nat)
    requires k < n
    ensures k / PageSize + 1 <= TotalPages(n)
    ensures Skip(k / PageSize + 1) + k % PageSize == k
  {
    assert PageSize == 20;
    var q, r := k / PageSize, k % PageSize;
    assert k == q * PageSize + r && r < PageSize;
    var pages := TotalPages(n);
    assert pages * PageSize >= n > k >= q * PageSize;
    assert pages <= q ==> pages * PageSize <= q * PageSize;
  }

  /**
   * The pages tile the listing: record k of the listing is entry k % 20 of
   * page k / 20 + 1, and that page is within the page count.
   */
  lemma RecordOnItsPage(listing: seq<SniRecord>, k: nat)
    requires k < |listing|
    ensures var page := k / PageSize + 1;
      && page <= TotalPages(|listing|)
      && k % PageSize < |TakePage(listing, page)|
      && TakePage(listing, page)[k % PageSize] == listing[k]
  {
    var page, offset := k / PageSize + 1, k % PageSize;
    PageOfPosition(k, |listing|);
    var data := TakePage(listing, page);
    assert Skip(page) + offset == k < |listing|;
    assert offset < |data|;
    assert data[offset] == listing[k];
  }

  /** Forty-five recent records make three pages, the third holding the last five. */
  lemma FortyFiveRecords(listing: seq<SniRecord>)
    requires |listing| == 45
    ensures TotalPages(|listing|) == 3
    ensures TakePage(listing, 3) == listing[40..]
    ensures TakePage(listing, 4) == []
  {
  }
}
