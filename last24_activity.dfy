/**
 * The hourly activity endpoint: for each hour 0..23 of the current local day it
 * counts the SNI and packet records in the half-open window [i:00, i+1:00) and
 * appends one entry per hour; a failed hour becomes a zero-count entry flagged
 * `err: 1` and the loop carries on.
 *
 * The two count queries of an hour are one abstract outcome; time is epoch
 * milliseconds with the day starting at local midnight `dayStart`.
 */
module Last24Activity {
  import opened FormatData

  const HourMs := 60 * 60 * 1000

  /** A half-open time window [start, end), as the `gte`/`lt` filter selects. */
  datatype Window = Window(start: int, end: int)

  predicate InWindow(t: int, w: Window) {
    w.start <= t < w.end
  }

  /** The outcome of one hour's pair of count queries. */
  datatype HourOutcome = Counted(sniCount: nat, packetCount: nat) | Failed

  /** The window of local hour `i` of the day that starts at `dayStart`. */
  function HourWindow(dayStart: int, i: int): (w: Window)
    ensures w.end - w.start == HourMs
  {
    Window(dayStart + i * HourMs, dayStart + (i + 1) * HourMs)
  }

  /** The whole day, from local midnight to the next. */
  function DayWindow(dayStart: int): Window {
    Window(dayStart, dayStart + HoursPerDay * HourMs)
  }

  /**
   * The UTC hour of local hour `i`, for a local time zone `utcOffset` whole
   * hours ahead of UTC.
   */
  function UtcHour(i: int, utcOffset: int): (h: int)
    ensures 0 <= h < HoursPerDay
    ensures utcOffset == 0 && 0 <= i < HoursPerDay ==> h == i
  {
    (i - utcOffset) % HoursPerDay
  }

  /**
   * The entry pushed for one hour: a counted hour is not flagged and carries its
   * two counts; a failed hour is flagged and carries zero counts.
   */
  function HourEntry(hour: int, outcome: HourOutcome): (r: ActivityRecord)
    ensures r.hour == hour
    ensures IsError(r) <==> outcome.Failed?
    ensures outcome.Counted? ==> r.err == 0 && r.sni == outcome.sniCount && r.packet == outcome.packetCount
    ensures outcome.Failed? ==> r.sni == 0 && r.packet == 0
  {
    match outcome
    case Counted(s, p) => ActivityRecord(hour, s, p, 0)
    case Failed => ActivityRecord(hour, 0, 0, 1)
  }

  /** The 24 entries the loop produces, hour by hour. */
  function HourlyCounts(dayStart: int, utcOffset: int, query: Window -> HourOutcome): (rs: seq<ActivityRecord>)
    ensures |rs| == HoursPerDay
  {
    seq(HoursPerDay, i => HourEntry(UtcHour(i, utcOffset), query(HourWindow(dayStart, i))))
  }

  /** fetchHourlyCounts: one iteration per local hour, each appending one entry. */
  method FetchHourlyCounts(dayStart: int, utcOffset: int, query: Window -> HourOutcome)
    returns (hourlyCounts: seq<ActivityRecord>)
    ensures hourlyCounts == HourlyCounts(dayStart, utcOffset, query)
  {
    hourlyCounts := [];
    for i := 0 to HoursPerDay
      invariant hourlyCounts == HourlyCounts(dayStart, utcOffset, query)[..i]
    {
      var window := HourWindow(dayStart, i);
      var utcHour := UtcHour(i, utcOffset);
      match query(window)
      case Counted(countSni, countPacket) =>
        hourlyCounts := hourlyCounts + [ActivityRecord(utcHour, countSni, countPacket, 0)];
      case Failed =>
        hourlyCounts := hourlyCounts + [ActivityRecord(utcHour, 0, 0, 1)];
    }
  }

  /**
   * Entry i belongs to local hour i: a counted hour gives `err = 0` and that
   * window's two counts, a failed hour gives zero counts and `err = 1`.
   */
  lemma HourlyCountsEntries(dayStart: int, utcOffset: int, query: Window -> HourOutcome, i: int)
    requires 0 <= i < HoursPerDay
    ensures var r := HourlyCounts(dayStart, utcOffset, query)[i];
      && r.hour == UtcHour(i, utcOffset)
      && (query(HourWindow(dayStart, i)).Counted? ==>
            r.err == 0 && r.sni == query(HourWindow(dayStart, i)).sniCount
            && r.packet == query(HourWindow(dayStart, i)).packetCount)
      && (query(HourWindow(dayStart, i)).Failed? ==> r.err == 1 && r.sni == 0 && r.packet == 0)
  {
    HourlyCountsAt(dayStart, utcOffset, query, i);
  }

  /**
   * A failed hour does not disturb the others: two runs whose queries agree on
   * every hour but `i` produce the same entries everywhere but at `i`.
   */
  lemma FailureIsLocal(dayStart: int, utcOffset: int, q1: Window -> HourOutcome, q2: Window -> HourOutcome, i: int)
    requires forall j :: 0 <= j < HoursPerDay && j != i ==> q1(HourWindow(dayStart, j)) == q2(HourWindow(dayStart, j))
    ensures forall j :: 0 <= j < HoursPerDay && j != i ==>
      HourlyCounts(dayStart, utcOffset, q1)[j] == HourlyCounts(dayStart, utcOffset, q2)[j]
  {
  }

  /** Entry i is the entry of local hour i. */
  lemma HourlyCountsAt(dayStart: int, utcOffset: int, query: Window -> HourOutcome, i: int)
    requires 0 <= i < HoursPerDay
    ensures HourlyCounts(dayStart, utcOffset, query)[i] == HourEntry(UtcHour(i, utcOffset), query(HourWindow(dayStart, i)))
  {
  }

  /** Every error-flagged entry carries zero counts. */
  lemma ErrorEntriesHaveZeroCounts(dayStart: int, utcOffset: int, query: Window -> HourOutcome)
    ensures forall i :: 0 <= i < HoursPerDay && IsError(HourlyCounts(dayStart, utcOffset, query)[i]) ==>
      HourlyCounts(dayStart, utcOffset, query)[i].sni == 0 && HourlyCounts(dayStart, utcOffset, query)[i].packet == 0
  {
    forall i | 0 <= i < HoursPerDay {
      HourlyCountsAt(dayStart, utcOffset, query, i);
    }
  }

  /** Each instant of the day lies in the window of exactly one hour. */
  lemma HourWindowOfInstant(dayStart: int, t: int, i: int)
    requires InWindow(t, DayWindow(dayStart))
    requires 0 <= i < HoursPerDay
    ensures InWindow(t, HourWindow(dayStart, i)) <==> i == (t - dayStart) / HourMs
  {
    var k := (t - dayStart) / HourMs;
    assert dayStart + k * HourMs <= t < dayStart + (k + 1) * HourMs;
    assert i < k ==> (i + 1) * HourMs <= k * HourMs;
    assert i > k ==> (k + 1) * HourMs <= i * HourMs;
  }

  /** Consecutive windows meet: hour i's end is hour i+1's start, which hour i excludes. */
  lemma AdjacentHourWindows(dayStart: int, i: int)
    ensures HourWindow(dayStart, i).end == HourWindow(dayStart, i + 1).start
    ensures InWindow(HourWindow(dayStart, i).start, HourWindow(dayStart, i))
    ensures !InWindow(HourWindow(dayStart, i).end, HourWindow(dayStart, i))
  {
  }

  /** The local hours' UTC labels are 24 distinct hours: no two entries share a label. */
  lemma UtcHoursDistinct(dayStart: int, utcOffset: int, query: Window -> HourOutcome)
    ensures DistinctHours(HourlyCounts(dayStart, utcOffset, query))
  {
    var rs := HourlyCounts(dayStart, utcOffset, query);
    forall i, j | 0 <= i < j < |rs| ensures rs[i].hour != rs[j].hour {
      HourlyCountsAt(dayStart, utcOffset, query, i);
      HourlyCountsAt(dayStart, utcOffset, query, j);
      UtcHourInjective(i, j, utcOffset);
    }
  }

  /** Distinct local hours of one day have distinct UTC hours. */
  lemma UtcHourInjective(i: int, j: int, utcOffset: int)
    requires 0 <= i < j < HoursPerDay
    ensures UtcHour(i, utcOffset) != UtcHour(j, utcOffset)
  {
  }

  /** A local hour keeps its number in UTC exactly when the offset is a whole number of days. */
  lemma UtcHourUnshiftedIff(i: int, utcOffset: int)
    requires 0 <= i < HoursPerDay
    ensures UtcHour(i, utcOffset) == i <==> utcOffset % HoursPerDay == 0
  {
  }

  /**
   * Feeding the loop's output to the bucketing utility puts hour i's counts in
   * the bucket of its UTC label, and zero there when hour i failed.
   */
  lemma GroupedHourlyCounts(dayStart: int, utcOffset: int, query: Window -> HourOutcome, i: int)
    requires 0 <= i < HoursPerDay
    ensures var b := Grouped(HourlyCounts(dayStart, utcOffset, query))[UtcHour(i, utcOffset)];
      match query(HourWindow(dayStart, i))
      case Counted(s, p) => b.sni == s && b.packet == p
      case Failed => b.sni == 0 && b.packet == 0
  {
    var rs := HourlyCounts(dayStart, utcOffset, query);
    UtcHoursDistinct(dayStart, utcOffset, query);
    DistinctHourTotal(rs, i);
  }

  /** What one `count` query returns: how many timestamps of `ts` fall in window `w`. */
  function CountIn(ts: seq<int>, w: Window): (n: nat)
    ensures n <= |ts|
    decreases |ts|
  {
    if ts == [] then 0
    else CountIn(ts[..|ts| - 1], w) + (if InWindow(ts[|ts| - 1], w) then 1 else 0)
  }

  /** Splitting a window at any point splits its count: no timestamp is counted twice or missed. */
  lemma {:induction false} CountInSplit(ts: seq<int>, a: int, m: int, b: int)
    requires a <= m <= b
    ensures CountIn(ts, Window(a, b)) == CountIn(ts, Window(a, m)) + CountIn(ts, Window(m, b))
    decreases |ts|
  {
    if ts != [] {
      CountInSplit(ts[..|ts| - 1], a, m, b);
    }
  }

  /** The SNI and packet counts of all entries together. */
  function EntriesTotal(rs: seq<ActivityRecord>): Counts
    decreases |rs|
  {
    if rs == [] then NoCounts
    else Plus(EntriesTotal(rs[..|rs| - 1]), Counts(rs[|rs| - 1].sni, rs[|rs| - 1].packet))
  }

  /** A query that answers every hour from the store: timestamps of SNI records and of packet records. */
  ghost predicate AnswersFromStore(dayStart: int, query: Window -> HourOutcome, sniTs: seq<int>, packetTs: seq<int>) {
    forall i :: 0 <= i < HoursPerDay ==>
      query(HourWindow(dayStart, i)) == Counted(CountIn(sniTs, HourWindow(dayStart, i)), CountIn(packetTs, HourWindow(dayStart, i)))
  }

  /** Extending a prefix of entries by one adds that entry's counts. */
  lemma EntriesTotalPrefix(rs: seq<ActivityRecord>, k: int)
    requires 0 <= k < |rs|
    ensures EntriesTotal(rs[..k + 1]) == Plus(EntriesTotal(rs[..k]), Counts(rs[k].sni, rs[k].packet))
  {
    assert rs[..k + 1][..k] == rs[..k];
  }

  /** Entry `i` holds the counts of hour window `i`, for every `i` below `k`. */
  ghost predicate EntriesCountHours(rs: seq<ActivityRecord>, dayStart: int, sniTs: seq<int>, packetTs: seq<int>, k: int)
    requires 0 <= k <= |rs|
  {
    forall i :: 0 <= i < k ==>
      rs[i].sni == CountIn(sniTs, HourWindow(dayStart, i)) && rs[i].packet == CountIn(packetTs, HourWindow(dayStart, i))
  }

  /** The first `k` entries account for exactly the records of the first `k` hours. */
  lemma {:induction false} PrefixTotals(rs: seq<ActivityRecord>, dayStart: int, sniTs: seq<int>, packetTs: seq<int>, k: int)
    requires 0 <= k <= |rs|
    requires EntriesCountHours(rs, dayStart, sniTs, packetTs, k)
    ensures EntriesTotal(rs[..k]) ==
      Counts(CountIn(sniTs, Window(dayStart, dayStart + k * HourMs)), CountIn(packetTs, Window(dayStart, dayStart + k * HourMs)))
    decreases k
  {
    if k == 0 {
      assert rs[..k] == [];
      assert Window(dayStart, dayStart + k * HourMs) == Window(dayStart, dayStart);
      EmptyWindowCount(sniTs, dayStart);
      EmptyWindowCount(packetTs, dayStart);
    } else {
      PrefixTotals(rs, dayStart, sniTs, packetTs, k - 1);
      LastEntryCounts(rs, dayStart, sniTs, packetTs, k);
      PrefixWindowSplit(sniTs, dayStart, k);
      PrefixWindowSplit(packetTs, dayStart, k);
    }
  }

  /** The `k`-th entry adds the counts of hour window `k - 1` to the total of the entries before it. */
  lemma LastEntryCounts(rs: seq<ActivityRecord>, dayStart: int, sniTs: seq<int>, packetTs: seq<int>, k: int)
    requires 0 < k <= |rs|
    requires EntriesCountHours(rs, dayStart, sniTs, packetTs, k)
    ensures EntriesCountHours(rs, dayStart, sniTs, packetTs, k - 1)
    ensures EntriesTotal(rs[..k]) ==
      Plus(EntriesTotal(rs[..k - 1]), Counts(CountIn(sniTs, HourWindow(dayStart, k - 1)), CountIn(packetTs, HourWindow(dayStart, k - 1))))
  {
    EntriesTotalPrefix(rs, k - 1);
  }

  /** The window of the first `k` hours is that of the first `k - 1` hours followed by hour `k - 1`. */
  lemma PrefixWindowSplit(ts: seq<int>, dayStart: int, k: int)
    requires 0 < k
    ensures CountIn(ts, Window(dayStart, dayStart + k * HourMs)) ==
      CountIn(ts, Window(dayStart, dayStart + (k - 1) * HourMs)) + CountIn(ts, HourWindow(dayStart, k - 1))
  {
    assert HourMs == 3600000;
    CountInSplit(ts, dayStart, dayStart + (k - 1) * HourMs, dayStart + k * HourMs);
  }

  /** An empty window counts nothing. */
  lemma {:induction false} EmptyWindowCount(ts: seq<int>, t: int)
    ensures CountIn(ts, Window(t, t)) == 0
    decreases |ts|
  {
    if ts != [] {
      EmptyWindowCount(ts[..|ts| - 1], t);
    }
  }

  /**
   * When every hour is answered from the store, the 24 entries together count
   * exactly the records of the whole day: the half-open windows tile the day.
   */
  lemma StoreBackedTotals(dayStart: int, utcOffset: int, query: Window -> HourOutcome, sniTs: seq<int>, packetTs: seq<int>)
    requires AnswersFromStore(dayStart, query, sniTs, packetTs)
    ensures EntriesTotal(HourlyCounts(dayStart, utcOffset, query)) ==
      Counts(CountIn(sniTs, DayWindow(dayStart)), CountIn(packetTs, DayWindow(dayStart)))
  {
    var rs := HourlyCounts(dayStart, utcOffset, query);
    forall i | 0 <= i < HoursPerDay
      ensures rs[i].sni == CountIn(sniTs, HourWindow(dayStart, i)) && rs[i].packet == CountIn(packetTs, HourWindow(dayStart, i))
    {
      HourlyCountsAt(dayStart, utcOffset, query, i);
    }
    PrefixTotals(rs, dayStart, sniTs, packetTs, HoursPerDay);
    assert rs[..HoursPerDay] == rs;
  }
}
