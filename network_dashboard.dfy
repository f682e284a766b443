/**
 * The dashboard's logic: the page cursor of the recent-events table with its
 * clamped Prev/Next transitions, the page-count fallback, and the hour labels
 * and data series of the two activity charts.
 */
module NetworkDashboard {
  import opened Wrappers
  import opened FormatData
  import Decimal
  import Last24Activity

  /** `totalSniPages`: the response's page count when present and positive, 1 otherwise. */
  function TotalSniPages(totalPages: Option<int>): (pages: int)
    ensures pages >= 1
    ensures totalPages.Some? && totalPages.value > 0 ==> pages == totalPages.value
    ensures totalPages == None || totalPages.value <= 0 ==> pages == 1
  {
    if totalPages.Some? && totalPages.value > 0 then totalPages.value else 1
  }

  /** The Prev button's updater, `Math.max(prev - 1, 1)`. */
  function PrevPage(prev: int): (page: int)
    ensures page >= 1
    ensures page == prev - 1 || page == 1
    ensures page >= prev - 1
  {
    if prev - 1 > 1 then prev - 1 else 1
  }

  /** The Next button's updater, `Math.min(prev + 1, totalSniPages)`. */
  function NextPage(prev: int, total: int): (page: int)
    ensures page <= total
    ensures page == prev + 1 || page == total
    ensures page <= prev + 1
  {
    if prev + 1 < total then prev + 1 else total
  }

  datatype Button = PrevButton | NextButton

  /** The page after pressing the buttons `presses` in order, starting at `page`. */
  function AfterPresses(page: int, total: int, presses: seq<Button>): int
    decreases |presses|
  {
    if presses == [] then page
    else
      var next := match presses[0]
        case PrevButton => PrevPage(page)
        case NextButton => NextPage(page, total);
      AfterPresses(next, total, presses[1..])
  }

  /** One press keeps the page within [1, total]. */
  lemma PressStaysInRange(page: int, total: int)
    requires 1 <= page <= total
    ensures 1 <= PrevPage(page) <= total
    ensures 1 <= NextPage(page, total) <= total
  {
  }

  /** From any page in range, every sequence of presses keeps the page within [1, total]. */
  lemma {:induction false} PressesStayInRange(page: int, total: int, presses: seq<Button>)
    requires 1 <= page <= total
    ensures 1 <= AfterPresses(page, total, presses) <= total
    decreases |presses|
  {
    if presses != [] {
      PressStaysInRange(page, total);
      var next := match presses[0]
        case PrevButton => PrevPage(page)
        case NextButton => NextPage(page, total);
      PressesStayInRange(next, total, presses[1..]);
    }
  }

  /** Every page of the table can be reached from page 1 by pressing Next. */
  lemma {:induction false} NextReachesEveryPage(total: int, page: int)
    requires 1 <= page <= total
    ensures AfterPresses(1, total, seq(page - 1, _ => NextButton)) == page
    decreases page
  {
    if page > 1 {
      var presses := seq(page - 1, _ => NextButton);
      NextPressesFrom(1, total, page - 1);
    }
  }

  lemma {:induction false} NextPressesFrom(start: int, total: int, n: nat)
    requires 1 <= start && start + n <= total
    ensures AfterPresses(start, total, seq(n, _ => NextButton)) == start + n
    decreases n
  {
    if n > 0 {
      var presses := seq(n, _ => NextButton);
      assert presses[0] == NextButton;
      assert presses[1..] == seq(n - 1, _ => NextButton);
      NextPressesFrom(start + 1, total, n - 1);
    }
  }

  /**
   * Within range, a button is disabled exactly when pressing it would leave the
   * page where it is: Prev at page 1, Next at the last page.
   */
  lemma DisabledExactlyWhenNoOp(page: int, total: int)
    requires 1 <= page <= total
    ensures page == 1 <==> PrevPage(page) == page
    ensures page == total <==> NextPage(page, total) == page
  {
  }

  /** Beyond the last page, Next is enabled and moves the cursor back to the last page. */
  lemma NextFromBeyondLastPage(page: int, total: int)
    requires page > total
    ensures page != total && NextPage(page, total) == total < page
  {
  }

  /** `${hour}:00`. */
  function HourLabel(hour: int): (text: string)
    ensures |text| >= 4 && text[|text| - 3..] == ":00"
    ensures hour >= 0 ==> Decimal.ParseNat(text[..|text| - 3]) == Some(hour)
    ensures hour < 0 ==> text[0] == '-' && Decimal.ParseNat(text[1..|text| - 3]) == Some(-hour)
    ensures hour >= 0 && |text| > 4 ==> text[0] != '0'
    ensures hour < 0 && |text| > 5 ==> text[1] != '0'
  {
    var digits := Decimal.IntToString(hour);
    var text := digits + ":00";
    assert text[..|text| - 3] == digits;
    assert text[1..|text| - 3] == digits[1..];
    text
  }

  /** Distinct hours get distinct labels. */
  lemma HourLabelInjective(a: int, b: int)
    requires HourLabel(a) == HourLabel(b)
    ensures a == b
  {
    var ta := HourLabel(a);
    assert ta[..|ta| - 3] == Decimal.IntToString(a);
    assert HourLabel(b)[..|HourLabel(b)| - 3] == Decimal.IntToString(b);
    Decimal.IntToStringInjective(a, b);
  }

  /**
   * `hourLabels` as written: one `${entry.hour}:00` per entry of the activity
   * data, in response order, or `0:00`..`23:00` when there is none.
   */
  function HourLabels(activity: seq<ActivityRecord>): (labels: seq<string>)
    ensures |labels| == if |activity| > 0 then |activity| else HoursPerDay
    ensures |activity| > 0 ==> forall i :: 0 <= i < |activity| ==> labels[i] == HourLabel(activity[i].hour)
    ensures |activity| == 0 ==> forall i :: 0 <= i < HoursPerDay ==> labels[i] == HourLabel(i)
  {
    if |activity| > 0 then seq(|activity|, i requires 0 <= i < |activity| => HourLabel(activity[i].hour))
    else seq(HoursPerDay, i => HourLabel(i))
  }

  /** Without activity data the 24 default labels are pairwise distinct. */
  lemma DefaultLabelsDistinct()
    ensures forall i, j :: 0 <= i < j < HoursPerDay ==> HourLabels([])[i] != HourLabels([])[j]
  {
    forall i, j | 0 <= i < j < HoursPerDay ensures HourLabels([])[i] != HourLabels([])[j] {
      if HourLabels([])[i] == HourLabels([])[j] {
        HourLabelInjective(i, j);
      }
    }
  }

  /** The Packet series of the activity chart: bucket i's packet total at position i. */
  function PacketSeries(activity: seq<ActivityRecord>): (points: seq<int>)
    ensures |points| == HoursPerDay
    ensures forall i :: 0 <= i < HoursPerDay ==> points[i] == HourTotal(activity, i).packet
  {
    var buckets := Grouped(activity);
    seq(HoursPerDay, i requires 0 <= i < HoursPerDay => buckets[i].packet)
  }

  /** The SNI series of the SNI chart: bucket i's SNI total at position i. */
  function SniSeries(activity: seq<ActivityRecord>): (points: seq<int>)
    ensures |points| == HoursPerDay
    ensures forall i :: 0 <= i < HoursPerDay ==> points[i] == HourTotal(activity, i).sni
  {
    var buckets := Grouped(activity);
    seq(HoursPerDay, i requires 0 <= i < HoursPerDay => buckets[i].sni)
  }

  /**
   * As written, the label at chart position i names the hour of the bucket
   * plotted there only when the server's zone is a whole number of days from
   * UTC: labels follow the response order (local hours), points follow the
   * bucket index (UTC hours).
   */
  lemma HourLabelsMisaligned(dayStart: int, utcOffset: int, query: Last24Activity.Window -> Last24Activity.HourOutcome, i: int)
    requires 0 <= i < HoursPerDay
    ensures var activity := Last24Activity.HourlyCounts(dayStart, utcOffset, query);
      HourLabels(activity)[i] == HourLabel(Grouped(activity)[i].hour) <==> utcOffset % HoursPerDay == 0
  {
    var activity := Last24Activity.HourlyCounts(dayStart, utcOffset, query);
    var utcHour := Last24Activity.UtcHour(i, utcOffset);
    Last24Activity.HourlyCountsAt(dayStart, utcOffset, query, i);
    assert HourLabels(activity)[i] == HourLabel(utcHour);
    assert Grouped(activity)[i].hour == i;
    Last24Activity.UtcHourUnshiftedIff(i, utcOffset);
    if HourLabel(utcHour) == HourLabel(i) {
      HourLabelInjective(utcHour, i);
    }
  }

  /** A server three hours ahead of UTC labels the first point "21:00" while plotting hour 0 there. */
  lemma MisalignedAtThreeHoursAhead(dayStart: int, query: Last24Activity.Window -> Last24Activity.HourOutcome)
    ensures var activity := Last24Activity.HourlyCounts(dayStart, 3, query);
      HourLabels(activity)[0] == HourLabel(21) && Grouped(activity)[0].hour == 0
  {
    Last24Activity.HourlyCountsAt(dayStart, 3, query, 0);
  }

  /** Labels taken from the buckets that are plotted: `${bucket.hour}:00` for each of the 24 buckets. */
  function AlignedHourLabels(activity: seq<ActivityRecord>): (labels: seq<string>)
    ensures |labels| == HoursPerDay
  {
    var buckets := Grouped(activity);
    seq(HoursPerDay, i requires 0 <= i < HoursPerDay => HourLabel(buckets[i].hour))
  }

  /** With aligned labels, the label at every position names the hour whose totals are plotted there. */
  lemma AlignedLabelsMatchPoints(activity: seq<ActivityRecord>, i: int)
    requires 0 <= i < HoursPerDay
    ensures AlignedHourLabels(activity)[i] == HourLabel(i)
    ensures SniSeries(activity)[i] == HourTotal(activity, i).sni
    ensures PacketSeries(activity)[i] == HourTotal(activity, i).packet
  {
  }

  /**
   * The dashboard's state: the activity data, the page count of the last SNI
   * response (absent before one arrives) and the current page of the table.
   */
  class Dashboard {
    var activity: seq<ActivityRecord>
    var totalPages: Option<int>
    var currentPage: int

    /** The initial state: no activity data, no pagination, page 1. */
    constructor ()
      ensures activity == [] && totalPages == None && currentPage == 1
      ensures Valid()
    {
      activity := [];
      totalPages := None;
      currentPage := 1;
    }

    /** The cursor lies within the table's pages. */
    ghost predicate Valid()
      reads this
    {
      1 <= currentPage <= TotalSniPages(totalPages)
    }

    predicate PrevDisabled()
      reads this
    {
      currentPage == 1
    }

    predicate NextDisabled()
      reads this
    {
      currentPage == TotalSniPages(totalPages)
    }

    /** Pressing Prev. */
    method Prev()
      modifies this`currentPage
      ensures currentPage == PrevPage(old(currentPage))
      ensures old(Valid()) ==> Valid()
      ensures old(Valid()) ==> (old(PrevDisabled()) <==> currentPage == old(currentPage))
    {
      currentPage := if currentPage - 1 > 1 then currentPage - 1 else 1;
    }

    /** Pressing Next. */
    method Next()
      modifies this`currentPage
      ensures currentPage == NextPage(old(currentPage), TotalSniPages(totalPages))
      ensures old(Valid()) ==> Valid()
      ensures old(Valid()) ==> (old(NextDisabled()) <==> currentPage == old(currentPage))
    {
      var total := TotalSniPages(totalPages);
      currentPage := if currentPage + 1 < total then currentPage + 1 else total;
    }

    /** An activity response that is an array replaces the activity data. */
    method ReceiveActivity(result: seq<ActivityRecord>)
      modifies this`activity
      ensures activity == result
    {
      activity := result;
    }

    /** An SNI response with data and pagination replaces the page count; the cursor is kept. */
    method ReceiveSniData(pages: Option<int>)
      modifies this`totalPages
      ensures totalPages == pages
    {
      totalPages := pages;
    }
  }
}
