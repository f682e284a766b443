# sakin-panel core, modelled in Dafny

sakin-panel is a small network-monitoring dashboard. Two HTTP endpoints read a
database of captured SNI and packet records. A React page charts them and pages
through them. This project models the sequential logic inside that glue and
proves properties of it:

- **Hourly bucketing** (`groupDataByHour`, `formatIPAddress` in
  `src/utils/formatData.ts`), in `format_data.dfy`. The fold over the records
  is a method with a loop over a `map` accumulator. Its specification is the
  function `Grouped`: 24 buckets, where bucket `h` sums SNI and packet counts
  over the non-error records of hour `h`.
- **The last-24-activity loop** (`fetchHourlyCounts`), in
  `last24_activity.dfy`. The two count queries of an hour are one abstract
  `query: Window -> HourOutcome`. Each call either returns two naturals or
  fails. The loop pushes one entry per hour, labelled with the UTC hour of the
  window start. A store-backed query shows that the 24 half-open windows count
  each record of the day exactly once.
- **SNI pagination** (`GET` in `src/app/api/sni-data/route.ts`), in
  `sni_data.dfy`. The store is a sequence of records and the clock reading is a
  parameter. The count and the listing are a filter, an insertion sort (newest
  first) and a slice of twenty.
- **Dashboard page cursor** (`NetworkDashboard.tsx`), in
  `network_dashboard.dfy`. This covers the `totalSniPages` fallback, the Prev
  and Next clamps as transitions of a `Dashboard` object, the hour labels and
  the two chart series.
- `decimal.dfy` holds number to decimal text and back. The page parameter and
  the hour labels use it. `wrappers.dfy` holds `Option`.

## Model

| member | source | states |
|---|---|---|
| FormatData.IsError | src/utils/formatData.ts:18 | a record is skipped exactly when its error flag is 1 |
| FormatData.Contribution | src/utils/formatData.ts:18-31 | a record adds its SNI and packet counts to its own hour only, and nothing when it is an error |
| FormatData.HourTotal | src/utils/formatData.ts:22-31 | reference definition of a bucket: the sums of SNI and of packet over the non-error records of the hour |
| FormatData.GroupDataByHour | src/utils/formatData.ts:6-41 | the result is `Grouped(data)`: exactly 24 buckets, bucket i has hour i and the sums of the non-error records of hour i; the empty input takes the separate all-zero branch |
| FormatData.AccumulateByHour | src/utils/formatData.ts:16-34 | after the fold, every hour key present in the accumulator holds the SNI/packet sums of the non-error records of that hour, and every hour absent from the accumulator has zero totals |
| FormatData.AccumulateStep | src/utils/formatData.ts:17-31 | one reduce step (skip when `err === 1`, else create the hour's entry if missing and add the record's counts) keeps the accumulator equal to the totals of the records seen so far |
| FormatData.Grouped | src/utils/formatData.ts:36-40 | the output has exactly 24 entries and entry i has hour i |
| FormatData.EmptyInputGivesZeroBuckets | src/utils/formatData.ts:7-14 | with no records, bucket i is `{hour: i, SNI: 0, Packet: 0}` for every i in 0..23 |
| FormatData.HourTotalPrefix | src/utils/formatData.ts:22-31 | extending the records seen by one record adds exactly that record's contribution to an hour's totals |
| FormatData.HourTotalSnoc | src/utils/formatData.ts:16-34 | appending a record adds its contribution to the totals of every hour |
| FormatData.HourTotalAppend | src/utils/formatData.ts:16-34 | the totals of a concatenation are the sums of the totals of its parts |
| FormatData.HourTotalAppendStep | src/utils/formatData.ts:16-34 | if the totals of `a + b` add up, they still add up after one record is appended to `b` |
| FormatData.SilentRecordIgnored | src/utils/formatData.ts:16-34 | removing a record that contributes nothing to an hour leaves that hour's totals unchanged |
| FormatData.ErrorRecordExcluded | src/utils/formatData.ts:18-20 | a record with `err === 1` changes no hour's totals and no bucket of the result |
| FormatData.OutOfRangeRecordIgnored | src/utils/formatData.ts:36-40 | a record whose hour is outside 0..23 changes no bucket of the result |
| FormatData.HourTotalRemoveAt | src/utils/formatData.ts:16-34 | the totals equal the totals without record j plus record j's contribution |
| FormatData.HourTotalPermutation | src/utils/formatData.ts:16-34 | two record sequences with the same multiset have the same totals for every hour |
| FormatData.GroupedPermutationInvariant | src/utils/formatData.ts:16-40 | reordering the input records leaves the 24 buckets unchanged |
| FormatData.AbsentHourTotal | src/utils/formatData.ts:36-39 | an hour that no record carries gets the `|| 0` zero totals |
| FormatData.DistinctHourTotal | src/utils/formatData.ts:22-31 | when all records have distinct hours, the bucket of a record's hour holds exactly that record's counts (zero when it is an error) |
| FormatData.AsRecords | src/utils/formatData.ts:36-40 | buckets read back as records keep hour, SNI and packet and carry no error flag |
| FormatData.GroupedIdempotent | src/utils/formatData.ts:6-41 | grouping the buckets of a grouping again gives the same buckets |
| FormatData.FormatIPAddress | src/utils/formatData.ts:43-45 | the result has length max(15, \|ip\|), ends with `ip`, and everything before `ip` is a space |
| FormatData.FormatIPAddressUnique | src/utils/formatData.ts:43-45 | any string with those three properties is the padded address, so they define `padStart(15, ' ')` |
| FormatData.FormatIPAddressIdempotent | src/utils/formatData.ts:43-45 | padding a padded address changes nothing |
| Last24Activity.InWindow | src/app/api/last-24-activity/route.ts:23-25 | an instant is counted by a window when it is `gte` the start and `lt` the end |
| Last24Activity.HourWindow | src/app/api/last-24-activity/route.ts:14-17 | hour i's window runs from local `i:00` to `(i+1):00` and is one hour long |
| Last24Activity.UtcHour | src/app/api/last-24-activity/route.ts:38 | the entry's hour label lies in 0..23 and equals i when the server runs on UTC |
| Last24Activity.HourEntry | src/app/api/last-24-activity/route.ts:38-41 | an entry is flagged `err = 1` exactly when its hour failed; a counted hour has `err = 0` and the two counts; a failed one has zero counts |
| Last24Activity.HourlyCounts | src/app/api/last-24-activity/route.ts:12-45 | the loop's result has exactly 24 entries |
| Last24Activity.FetchHourlyCounts | src/app/api/last-24-activity/route.ts:11-46 | the pushed entries are `HourlyCounts`: entry i, in iteration order, comes from window i's outcome |
| Last24Activity.HourlyCountsEntries | src/app/api/last-24-activity/route.ts:20-42 | entry i carries the UTC hour of window i; a success gives `err = 0` and the window's counts; a failure gives `err = 1` and zeros |
| Last24Activity.HourlyCountsAt | src/app/api/last-24-activity/route.ts:13-42 | entry i is the entry built from window i's outcome |
| Last24Activity.FailureIsLocal | src/app/api/last-24-activity/route.ts:19-42 | changing the outcome of one hour, a failure for instance, changes no other hour's entry |
| Last24Activity.ErrorEntriesHaveZeroCounts | src/app/api/last-24-activity/route.ts:41 | every entry flagged `err = 1` has zero SNI and packet counts |
| Last24Activity.HourWindowOfInstant | src/app/api/last-24-activity/route.ts:14-17 | an instant of the day lies in the window of exactly one hour, namely its offset from midnight divided by an hour |
| Last24Activity.AdjacentHourWindows | src/app/api/last-24-activity/route.ts:14-17 | a window ends where the next begins; it includes its start and excludes its end |
| Last24Activity.UtcHoursDistinct | src/app/api/last-24-activity/route.ts:38-41 | the 24 entries carry pairwise distinct hour labels |
| Last24Activity.UtcHourInjective | src/app/api/last-24-activity/route.ts:38 | two different loop indices get different UTC hour labels |
| Last24Activity.UtcHourUnshiftedIff | src/app/api/last-24-activity/route.ts:14-38 | the label equals the loop index exactly when the UTC offset is a whole number of days |
| Last24Activity.GroupedHourlyCounts | src/app/api/last-24-activity/route.ts:38-41 | grouping the loop's output puts each hour's counts into the bucket of its UTC hour, and a failed hour contributes zeros |
| Last24Activity.CountIn | src/app/api/last-24-activity/route.ts:21-35 | a window's count of stored records is at most the number of records |
| Last24Activity.CountInSplit | src/app/api/last-24-activity/route.ts:23-25 | splitting a half-open `gte`/`lt` window at any point splits its count exactly |
| Last24Activity.EmptyWindowCount | src/app/api/last-24-activity/route.ts:23-25 | an empty window counts nothing |
| Last24Activity.EntriesTotalPrefix | src/app/api/last-24-activity/route.ts:38 | extending a prefix of entries by one adds that entry's counts |
| Last24Activity.LastEntryCounts | src/app/api/last-24-activity/route.ts:38 | the k-th entry adds the counts of hour window k-1 to the total of the entries before it |
| Last24Activity.PrefixWindowSplit | src/app/api/last-24-activity/route.ts:14-17 | the first k hours split into the first k-1 hours and hour k-1 |
| Last24Activity.PrefixTotals | src/app/api/last-24-activity/route.ts:12-43 | the first k entries count exactly the records of the first k hours |
| Last24Activity.StoreBackedTotals | src/app/api/last-24-activity/route.ts:12-45 | when every hour is answered from the store, the 24 entries together count exactly the records of the whole local day; none is missed or counted twice |
| Decimal.DigitChar | src/app/components/NetworkDashboard.tsx:87-88 | a digit value renders as a decimal digit character |
| Decimal.DigitValue | src/app/api/sni-data/route.ts:18 | a character has a value exactly when it is a decimal digit, and the value renders back to it |
| Decimal.NatToString | src/app/components/NetworkDashboard.tsx:87-88 | a number renders as a non-empty string of digits, one digit long exactly below 10 and with no leading zero above 9 |
| Decimal.IntToString | src/app/components/NetworkDashboard.tsx:87 | an integer renders non-empty, with a leading `-` exactly when it is negative, followed by the decimal digits of its magnitude without leading zeros: they parse back to the magnitude |
| Decimal.ParseNat | src/app/api/sni-data/route.ts:18 | a string parses exactly when it is a non-empty run of decimal digits |
| Decimal.ParseNatToString | src/app/api/sni-data/route.ts:18 | parsing the rendering of a number gives back the number |
| Decimal.NatToStringInjective | src/app/components/NetworkDashboard.tsx:87-88 | distinct numbers render as distinct strings |
| Decimal.IntToStringInjective | src/app/components/NetworkDashboard.tsx:87 | distinct integers render as distinct strings |
| SniData.CurrentPage | src/app/api/sni-data/route.ts:18 | the page is 1 when the parameter is absent or empty, otherwise the parameter's decimal value |
| SniData.CurrentPageRoundTrip | src/app/api/sni-data/route.ts:18 | the page a client writes into the query string is the page the handler reads |
| SniData.TotalPages | src/app/api/sni-data/route.ts:20-32 | `ceil(totalSNI / 20)`: the fewest pages of twenty that hold every record, and 0 exactly when there are none |
| SniData.Last24Hours | src/app/api/sni-data/route.ts:15-41 | each record occurs as often as in the store when `timestamp >= now - 24h`, and not at all otherwise |
| SniData.ConsNewestFirst | src/app/api/sni-data/route.ts:44-46 | a record no older than the head of a newest-first list can be put in front of it |
| SniData.InsertNewestFirst | src/app/api/sni-data/route.ts:44-46 | inserting into a newest-first list keeps it newest-first and adds exactly one occurrence of the record |
| SniData.SortNewestFirst | src/app/api/sni-data/route.ts:44-46 | the sort's result is newest-first and a permutation of its input |
| SniData.Skip | src/app/api/sni-data/route.ts:35 | `skip = (currentPage - 1) * 20` |
| SniData.Listing | src/app/api/sni-data/route.ts:36-46 | the listing is the last-24-hours filter of the store, sorted newest first |
| SniData.TakePage | src/app/api/sni-data/route.ts:35-43 | the page is positions [(p-1)*20, (p-1)*20+20) of the listing, cut at its end |
| SniData.GetSniData | src/app/api/sni-data/route.ts:11-64 | the response echoes the page and has `totalPages = ceil(totalSNI/20)`; it holds at most 20 records, newest first, all from the store and from the last 24 hours; it is non-empty exactly when `page <= totalPages`, the count and the listing being read from one snapshot of the store |
| SniData.ListingLength | src/app/api/sni-data/route.ts:23-41 | over one snapshot of the store, the listing holds as many records as the count filter counts |
| SniData.ListingIsRecentRecords | src/app/api/sni-data/route.ts:36-46 | the listing is exactly the store's records of the last 24 hours, with multiplicity |
| SniData.GetSniDataIsPageOfListing | src/app/api/sni-data/route.ts:23-64 | the response's data is the page's slice of the listing, and `totalSNI` is the listing's length |
| SniData.PageOfPosition | src/app/api/sni-data/route.ts:32-35 | position k of n records falls on page k/20 + 1, which is within `totalPages`, at offset k mod 20 |
| SniData.RecordOnItsPage | src/app/api/sni-data/route.ts:32-43 | every record of the listing is served on exactly the page that position computation names |
| SniData.FortyFiveRecords | src/app/api/sni-data/route.ts:32-43 | with 45 records there are 3 pages, page 3 holds the last 5, and page 4 is empty |
| NetworkDashboard.TotalSniPages | src/app/components/NetworkDashboard.tsx:131 | the page count is at least 1; it is the response's `totalPages` when that is present and positive, and 1 otherwise |
| NetworkDashboard.PrevPage | src/app/components/NetworkDashboard.tsx:203 | Prev goes to `max(p-1, 1)`: at least 1, at least p-1, and one of the two |
| NetworkDashboard.NextPage | src/app/components/NetworkDashboard.tsx:211 | Next goes to `min(p+1, total)`: at most the total, at most p+1, and one of the two |
| NetworkDashboard.AfterPresses | src/app/components/NetworkDashboard.tsx:203-211 | the page after a run of Prev and Next presses, each applying its button's updater in order |
| NetworkDashboard.PressStaysInRange | src/app/components/NetworkDashboard.tsx:203-211 | from a page in range, one press of either button stays in range |
| NetworkDashboard.PressesStayInRange | src/app/components/NetworkDashboard.tsx:203-211 | from a page in range, any sequence of presses keeps `1 <= page <= totalSniPages` |
| NetworkDashboard.NextReachesEveryPage | src/app/components/NetworkDashboard.tsx:211 | from the initial page 1, page p is reached by p-1 presses of Next |
| NetworkDashboard.NextPressesFrom | src/app/components/NetworkDashboard.tsx:211 | n presses of Next advance by exactly n while the last page is not passed |
| NetworkDashboard.DisabledExactlyWhenNoOp | src/app/components/NetworkDashboard.tsx:203-212 | Prev is disabled exactly at page 1 and Next exactly at the last page, which are exactly the pages where pressing would do nothing |
| NetworkDashboard.NextFromBeyondLastPage | src/app/components/NetworkDashboard.tsx:211-212 | a page beyond the last keeps Next enabled, and pressing it jumps back to the last page |
| NetworkDashboard.HourLabel | src/app/components/NetworkDashboard.tsx:87-88 | a label is the hour's canonical decimal text followed by `:00`: the text before `:00` parses back to the hour, after a `-` for a negative hour, and has no leading zero |
| NetworkDashboard.HourLabelInjective | src/app/components/NetworkDashboard.tsx:87-88 | distinct hours get distinct labels |
| NetworkDashboard.HourLabels | src/app/components/NetworkDashboard.tsx:86-88 | with activity data, label i is `${activity[i].hour}:00` for each entry; without it, the 24 labels `0:00`..`23:00` |
| NetworkDashboard.DefaultLabelsDistinct | src/app/components/NetworkDashboard.tsx:88 | the 24 default labels `0:00`..`23:00` are pairwise distinct |
| NetworkDashboard.PacketSeries | src/app/components/NetworkDashboard.tsx:96 | the packet chart has 24 points, and point i is the packet total of hour i |
| NetworkDashboard.SniSeries | src/app/components/NetworkDashboard.tsx:109 | the SNI chart has 24 points, and point i is the SNI total of hour i |
| NetworkDashboard.HourLabelsMisaligned | src/app/components/NetworkDashboard.tsx:86-96 | for the loop's output, the label at chart position i names the hour plotted there exactly when the server's UTC offset is a whole number of days |
| NetworkDashboard.MisalignedAtThreeHoursAhead | src/app/components/NetworkDashboard.tsx:86-96 | on a server at UTC+3, the first point plots hour 0 under the label `21:00` |
| NetworkDashboard.AlignedHourLabels | src/app/components/NetworkDashboard.tsx:86-88 | the corrected labels are 24, one per plotted bucket |
| NetworkDashboard.AlignedLabelsMatchPoints | src/app/components/NetworkDashboard.tsx:86-109 | with the corrected labels, the label at every position names the hour whose SNI and packet totals are plotted there |
| NetworkDashboard.Dashboard.constructor | src/app/components/NetworkDashboard.tsx:35-39 | the initial state has no activity data, no pagination and page 1, which is in range |
| NetworkDashboard.Dashboard.PrevDisabled | src/app/components/NetworkDashboard.tsx:204 | Prev is disabled exactly on page 1 |
| NetworkDashboard.Dashboard.NextDisabled | src/app/components/NetworkDashboard.tsx:212 | Next is disabled exactly on the last page, `totalSniPages` |
| NetworkDashboard.Dashboard.Prev | src/app/components/NetworkDashboard.tsx:203-204 | the page becomes `max(p-1, 1)`; it stays in range, and it is unchanged exactly when the button is disabled |
| NetworkDashboard.Dashboard.Next | src/app/components/NetworkDashboard.tsx:211-212 | the page becomes `min(p+1, totalSniPages)`; it stays in range, and it is unchanged exactly when the button is disabled |
| NetworkDashboard.Dashboard.ReceiveActivity | src/app/components/NetworkDashboard.tsx:48-51 | an array response replaces the activity data and nothing else |
| NetworkDashboard.Dashboard.ReceiveSniData | src/app/components/NetworkDashboard.tsx:67-70 | an SNI response replaces the page count and keeps the current page |

## Left out

- Database access (`prisma.sniData.count`, `findMany`, `packetData.count`, `$disconnect`). The hourly queries are the abstract `query` parameter. The SNI store is a record sequence.
- `Promise.all` and async/await. Each hour is one atomic outcome, and nothing depends on concurrency.
- `Date` and time zones. `setHours` is modelled as whole local hours from a given local midnight in epoch milliseconds. `getUTCHours` is `(i - offset) mod 24` for a whole-hour UTC offset. Fractional offsets and daylight-saving days (23 or 25 hours) are not modelled.
- The clock (`new Date()`) is the `now` or `dayStart` parameter.
- `Last24Activity.UtcHour`: does not model offsets that are not whole hours, because the model's clock counts whole hours.
- `SniData.CurrentPage`: does not model JavaScript `Number()` on strings other than plain decimal digits (signs, spaces, exponents, `NaN`). These give `None`.
- `SniData.GetSniData`: requires page >= 1. A page of 0, a negative page or `NaN` makes the database call fail with an HTTP 500, which is not modelled.
- `SniData.GetSniData`: the count (route.ts:23) and the listing (route.ts:36) are two separate queries on a table that other processes keep writing. The model reads both from one snapshot of the store. A record inserted between the two queries is not modelled; with it, a page past `totalPages` can be non-empty, so the "non-empty exactly when `page <= totalPages`" clause holds only for a store that does not change during the request.
- HTTP responses, the 500 error paths, `fetch`, JSON parsing and `console` logging are not modelled.
- `SniData.SortNewestFirst`: the database's order among records with equal timestamps is unspecified. The model fixes one order (insertion sort) and proves only newest-first and permutation.
- `FormatData.GroupDataByHour`: hours are integers, and `err` is an integer flag that counts as an error exactly when it equals 1. JavaScript's loose typing (string hour keys such as `"3"`, `err` values of other types, non-numeric counts) is not modelled. The `|| 0` fallback is modelled for missing buckets only; it also turns `NaN` into 0, and `NaN` counts are not modelled.
- `FormatData.FormatIPAddress`: length is counted in characters, whereas JavaScript counts UTF-16 code units.
- React rendering, `useEffect` fetch triggering, the loading and message state, and Chart.js configuration are not modelled. The response guards (`Array.isArray`, the `data`/`pagination` checks) are modelled only as the methods that apply a response that passed them.
- `src/app/page.tsx` and `src/app/components/Footer.tsx` are static markup and are not part of this model.

## Findings

| source | as written | input that shows it | evidently intended | confidence | as-written member | corrected member |
|---|---|---|---|---|---|---|
| src/app/components/NetworkDashboard.tsx:86-88, 96, 109 with src/app/api/last-24-activity/route.ts:38 | the chart labels come from the response in order, i.e. the UTC hours of local hours 0..23. The plotted points come from `groupDataByHour`, whose position i holds UTC hour i | a server at UTC+3: position 0 is labelled `21:00` but plots the totals of UTC hour 0 | the label at each position names the hour whose totals are plotted there, e.g. labels taken from the grouped buckets | not executed | NetworkDashboard.HourLabelsMisaligned | NetworkDashboard.AlignedLabelsMatchPoints |
