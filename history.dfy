/** The history screen (src/components/History.tsx): the last eight weeks,
    newest first, and the statistics drawn from them. */
module History {
  import opened Seqs
  import opened Types
  import opened Calculations

  /** One row of `historyData`. */
  datatype WeekSummary = WeekSummary(weekStart: Instant, weekEnd: Instant,
                                     infractions: seq<Infraction>, baseAmount: real,
                                     deductions: real, remaining: real, paid: bool)

  function Max(a: real, b: real): real
  {
    if a >= b then a else b
  }

  /** The infractions dated within `[start, end]`. */
  function Within(start: Instant, end: Instant): Infraction -> bool
  {
    (inf: Infraction) => start <= inf.date.instant <= end
  }

  /** The infractions dated within [start, end], in their original order. */
  function InWindow(all: seq<Infraction>, start: Instant, end: Instant): seq<Infraction>
  {
    Filter(all, Within(start, end))
  }

  /** An infraction is in the window exactly when it is one of `all` and
      dated within `[start, end]`. */
  lemma InWindowMember(all: seq<Infraction>, start: Instant, end: Instant, x: Infraction)
    ensures x in InWindow(all, start, end) <==> x in all && start <= x.date.instant <= end
  {
    var r := InWindow(all, start, end);
    if x in r {
      var i :| 0 <= i < |r| && r[i] == x;
      assert Within(start, end)(r[i]);
    }
    if x in all && start <= x.date.instant <= end {
      var i :| 0 <= i < |all| && all[i] == x;
      assert Within(start, end)(all[i]);
    }
  }

  /** Any sub-list of positively weighted infractions has a defined deduction. */
  lemma PositiveSubset(all: seq<Infraction>, part: seq<Infraction>)
    requires PositiveWeights(all)
    requires forall i :: 0 <= i < |part| ==> part[i] in all
    ensures PositiveWeights(part)
    ensures |part| == 0 || TotalWeight(part) > 0
  {
    PositiveWeightsDefined(part);
  }

  /** The summary built by one pass of the loop, for the week `i` weeks before
      `today` (`weekDate.setDate(today.getDate() - i * 7)`). */
  function WeekAgo(all: seq<Infraction>, today: Instant, i: int): WeekSummary
    requires PositiveWeights(all)
  {
    var weekDate := today - i * MsPerWeek;
    var weekStart := WeekStart(weekDate);
    var weekEnd := WeekEnd(weekStart);
    var weekInfractions := InWindow(all, weekStart, weekEnd);
    PositiveSubset(all, weekInfractions);
    var deductions := CalculateWeeklyDeduction(weekInfractions);
    var remaining := Max(0.0, 100.0 - deductions);
    WeekSummary(weekStart, weekEnd, weekInfractions, 100.0, deductions, remaining, weekEnd < today)
  }

  /** The window of the week `i` weeks back: a calendar week, `i` weeks
      before the current one, and the infractions dated inside it. */
  lemma WeekAgoWindow(all: seq<Infraction>, today: Instant, i: nat)
    requires PositiveWeights(all)
    ensures var w := WeekAgo(all, today, i);
            && IsWeekStart(w.weekStart)
            && w.weekStart == WeekStart(today) - i * MsPerWeek
            && w.weekEnd == WeekEnd(w.weekStart)
            && w.weekEnd == w.weekStart + MsPerWeek - 1
            && w.infractions == InWindow(all, w.weekStart, w.weekEnd)
  {
    WeekStartShift(today, i);
  }

  /** What one week of the history says: its window is the calendar week
      `i` weeks before the current one, it holds exactly the infractions in
      that window, it is paid exactly when it is not the current week, and it
      keeps the whole base only when it has no infraction. */
  lemma WeekAgoFacts(all: seq<Infraction>, today: Instant, i: nat)
    requires PositiveWeights(all)
    ensures var w := WeekAgo(all, today, i);
            && IsWeekStart(w.weekStart)
            && w.weekStart == WeekStart(today) - i * MsPerWeek
            && w.weekEnd == w.weekStart + MsPerWeek - 1
            && w.infractions == InWindow(all, w.weekStart, w.weekEnd)
            && (w.paid <==> i > 0)
            && w.baseAmount == 100.0
            && 0.0 <= w.deductions <= 100.0
            && 0.0 <= w.remaining <= 100.0
            && (|w.infractions| == 0 ==> w.deductions == 0.0 && w.remaining == 100.0)
            && (|w.infractions| > 0 ==> w.deductions == 100.0 && w.remaining == 0.0)
  {
    WeekAgoWindow(all, today, i);
  }

  /** The rows of two different weeks share no infraction. */
  lemma {:induction false} WeeksDisjoint(all: seq<Infraction>, today: Instant, j: nat, k: nat, x: Infraction)
    requires PositiveWeights(all)
    requires j != k
    requires x in WeekAgo(all, today, j).infractions
    ensures x !in WeekAgo(all, today, k).infractions
  {
    var sj := WeekStart(today) - j * MsPerWeek;
    var sk := WeekStart(today) - k * MsPerWeek;
    WeekAgoWindow(all, today, j);
    WeekAgoWindow(all, today, k);
    WeeksBackDistinct(j, k);
    WindowsDisjoint(all, sj, sk, x);
  }

  lemma WeeksBackDistinct(j: int, k: int)
    requires j != k
    ensures j * MsPerWeek != k * MsPerWeek
  {
  }

  /** Two different calendar weeks share no infraction. */
  lemma WindowsDisjoint(all: seq<Infraction>, s1: Instant, s2: Instant, x: Infraction)
    requires IsWeekStart(s1) && IsWeekStart(s2) && s1 != s2
    requires x in InWindow(all, s1, WeekEnd(s1))
    ensures x !in InWindow(all, s2, WeekEnd(s2))
  {
    var t := x.date.instant;
    InWindowMember(all, s1, WeekEnd(s1), x);
    WeekMembership(s1, t);
    WeekMembership(s2, t);
    InWindowMember(all, s2, WeekEnd(s2), x);
  }

  /** The rows the loop has pushed after `n` passes: the weeks 7, 6, ...,
      8 - n weeks back, oldest first. */
  function PushedRows(all: seq<Infraction>, today: Instant, n: nat): (rows: seq<WeekSummary>)
    requires PositiveWeights(all)
    ensures |rows| == n
  {
    if n == 0 then [] else PushedRows(all, today, n - 1) + [WeekAgo(all, today, 8 - n)]
  }

  lemma {:induction false} PushedRowsAt(all: seq<Infraction>, today: Instant, n: nat, j: nat)
    requires PositiveWeights(all)
    requires j < n
    ensures PushedRows(all, today, n)[j] == WeekAgo(all, today, 7 - j)
  {
    var earlier := PushedRows(all, today, n - 1);
    var last := WeekAgo(all, today, 8 - n);
    assert PushedRows(all, today, n) == earlier + [last];
    if j < n - 1 {
      PushedRowsAt(all, today, n - 1, j);
      assert (earlier + [last])[j] == earlier[j];
    } else {
      assert (earlier + [last])[j] == last;
    }
  }

  /** `historyData`: the loop from i = 7 down to 0 pushes the week i weeks
      back; the list is then reversed so that the current week comes first. */
  method BuildHistory(all: seq<Infraction>, today: Instant) returns (history: seq<WeekSummary>)
    requires PositiveWeights(all)
    ensures |history| == 8
    ensures forall k :: 0 <= k < 8 ==> history[k] == WeekAgo(all, today, k)
  {
    var weeks: seq<WeekSummary> := [];
    var i := 7;
    while i >= 0
      invariant -1 <= i <= 7
      invariant weeks == PushedRows(all, today, 7 - i)
    {
      weeks := weeks + [WeekAgo(all, today, i)];
      i := i - 1;
    }
    history := Reverse(weeks);
    forall k | 0 <= k < 8
      ensures history[k] == WeekAgo(all, today, k)
    {
      PushedRowsAt(all, today, 8, 7 - k);
    }
  }

  /** The eight rows, newest first: row 0 is the current week (it contains
      `today` and is not paid), each later row starts exactly one week
      earlier, and every older row is paid. */
  lemma HistoryShape(all: seq<Infraction>, today: Instant, history: seq<WeekSummary>)
    requires PositiveWeights(all)
    requires |history| == 8
    requires forall k :: 0 <= k < 8 ==> history[k] == WeekAgo(all, today, k)
    ensures history[0].weekStart == WeekStart(today)
    ensures WeekStart(today) <= today <= history[0].weekEnd
    ensures forall k :: 0 <= k < 7 ==> history[k + 1].weekStart == history[k].weekStart - MsPerWeek
    ensures forall k :: 0 <= k < 8 ==> (history[k].paid <==> k > 0)
  {
    forall k | 0 <= k < 8
      ensures history[k].paid <==> k > 0
    {
      WeekAgoFacts(all, today, k);
    }
    forall k | 0 <= k < 7
      ensures history[k + 1].weekStart == history[k].weekStart - MsPerWeek
    {
      WeekAgoFacts(all, today, k);
      WeekAgoFacts(all, today, k + 1);
      assert (k + 1) * MsPerWeek == k * MsPerWeek + MsPerWeek;
    }
    WeekAgoFacts(all, today, 0);
  }

  predicate IsPaid(w: WeekSummary)
  {
    w.paid
  }

  predicate IsExcellent(w: WeekSummary)
  {
    w.paid && w.remaining >= 80.0
  }

  predicate IsDifficult(w: WeekSummary)
  {
    w.paid && w.remaining < 50.0
  }

  function SumRemaining(weeks: seq<WeekSummary>): real
  {
    if weeks == [] then 0.0 else weeks[0].remaining + SumRemaining(weeks[1..])
  }

  /** `totalEarned`: the remaining amounts of the paid weeks, added up. */
  function TotalEarned(weeks: seq<WeekSummary>): real
  {
    SumRemaining(Filter(weeks, IsPaid))
  }

  /** `averageWeekly`: `totalEarned / paidCount || 0`; no paid week gives 0
      (where JavaScript divides 0 by 0 and replaces the NaN by 0). */
  function AverageWeekly(weeks: seq<WeekSummary>): real
  {
    var paid := |Filter(weeks, IsPaid)|;
    if paid == 0 then 0.0 else TotalEarned(weeks) / paid as real
  }

  /** "Excellent weeks": paid and at least 80 left. */
  function ExcellentCount(weeks: seq<WeekSummary>): nat
  {
    |Filter(weeks, IsExcellent)|
  }

  /** "Difficult weeks": paid and less than 50 left. */
  function DifficultCount(weeks: seq<WeekSummary>): nat
  {
    |Filter(weeks, IsDifficult)|
  }

  /** No week is both excellent and difficult, and together they are at most
      the paid weeks. */
  lemma {:induction false} PerformanceCounts(weeks: seq<WeekSummary>)
    ensures forall i :: 0 <= i < |weeks| ==> !(IsExcellent(weeks[i]) && IsDifficult(weeks[i]))
    ensures ExcellentCount(weeks) + DifficultCount(weeks) <= |Filter(weeks, IsPaid)|
  {
    FilterLength(weeks, IsExcellent);
    FilterLength(weeks, IsDifficult);
    FilterLength(weeks, IsPaid);
    CountsBelowPaid(weeks);
  }

  lemma {:induction false} CountsBelowPaid(weeks: seq<WeekSummary>)
    ensures Count(weeks, IsExcellent) + Count(weeks, IsDifficult) <= Count(weeks, IsPaid)
  {
    if weeks != [] {
      CountsBelowPaid(weeks[1..]);
    }
  }

  /** When every remaining amount lies in [0, 100], so do the average and
      the total per paid week; with no paid week both are 0. */
  lemma EarnedBounds(weeks: seq<WeekSummary>)
    requires forall i :: 0 <= i < |weeks| ==> 0.0 <= weeks[i].remaining <= 100.0
    ensures 0.0 <= TotalEarned(weeks) <= 100.0 * |Filter(weeks, IsPaid)| as real
    ensures 0.0 <= AverageWeekly(weeks) <= 100.0
    ensures |Filter(weeks, IsPaid)| == 0 ==> TotalEarned(weeks) == 0.0 && AverageWeekly(weeks) == 0.0
  {
    var paid := Filter(weeks, IsPaid);
    SumRemainingBounds(paid);
    if |paid| > 0 {
      DivideBound(TotalEarned(weeks), |paid| as real);
    }
  }

  lemma DivideBound(x: real, n: real)
    requires n > 0.0 && 0.0 <= x <= 100.0 * n
    ensures 0.0 <= x / n <= 100.0
  {
    assert x / n * n == x;
  }

  lemma {:induction false} SumRemainingBounds(weeks: seq<WeekSummary>)
    requires forall i :: 0 <= i < |weeks| ==> 0.0 <= weeks[i].remaining <= 100.0
    ensures 0.0 <= SumRemaining(weeks) <= 100.0 * |weeks| as real
  {
    if weeks != [] {
      SumRemainingBounds(weeks[1..]);
    }
  }

  predicate IsCleanPaid(w: WeekSummary)
  {
    w.paid && |w.infractions| == 0
  }

  /** Every week of the history keeps 100 when it has no infraction and 0
      otherwise, so what was received is 100 per past week without any
      infraction. */
  lemma {:induction false} EarnedIsCleanWeeks(weeks: seq<WeekSummary>)
    requires forall i :: 0 <= i < |weeks| ==>
               weeks[i].remaining == (if |weeks[i].infractions| == 0 then 100.0 else 0.0)
    ensures TotalEarned(weeks) == 100.0 * Count(weeks, IsCleanPaid) as real
  {
    if weeks != [] {
      EarnedIsCleanWeeks(weeks[1..]);
      assert weeks == [weeks[0]] + weeks[1..];
      FilterAppend([weeks[0]], weeks[1..], IsPaid);
      SumRemainingAppend(Filter([weeks[0]], IsPaid), Filter(weeks[1..], IsPaid));
    }
  }

  lemma {:induction false} SumRemainingAppend(a: seq<WeekSummary>, b: seq<WeekSummary>)
    ensures SumRemaining(a + b) == SumRemaining(a) + SumRemaining(b)
  {
    if a == [] {
      assert a + b == b;
    } else {
      assert (a + b)[1..] == a[1..] + b;
      SumRemainingAppend(a[1..], b);
    }
  }

  /** Each row of the history: paid exactly when it is not the current
      week, keeping 100 when its week has no infraction and 0 otherwise. */
  lemma HistoryRows(all: seq<Infraction>, today: Instant, history: seq<WeekSummary>)
    requires PositiveWeights(all)
    requires |history| == 8
    requires forall k :: 0 <= k < 8 ==> history[k] == WeekAgo(all, today, k)
    ensures forall k :: 0 <= k < 8 ==> (history[k].paid <==> k > 0)
    ensures forall k :: 0 <= k < 8 ==>
              history[k].remaining == (if |history[k].infractions| == 0 then 100.0 else 0.0)
  {
    forall k | 0 <= k < 8
      ensures history[k].paid <==> k > 0
      ensures history[k].remaining == (if |history[k].infractions| == 0 then 100.0 else 0.0)
    {
      WeekAgoFacts(all, today, k);
    }
  }

  /** The statistics of the eight-week history: seven weeks are paid, the
      total is 100 for each past week without infractions, and the average
      lies in [0, 100]. */
  lemma HistoryStatistics(history: seq<WeekSummary>)
    requires |history| == 8
    requires forall k :: 0 <= k < 8 ==> (history[k].paid <==> k > 0)
    requires forall k :: 0 <= k < 8 ==>
               history[k].remaining == (if |history[k].infractions| == 0 then 100.0 else 0.0)
    ensures |Filter(history, IsPaid)| == 7
    ensures TotalEarned(history) == 100.0 * Count(history, IsCleanPaid) as real
    ensures 0.0 <= AverageWeekly(history) <= 100.0
    ensures ExcellentCount(history) + DifficultCount(history) <= 7
  {
    assert history == [history[0]] + history[1..];
    FilterAppend([history[0]], history[1..], IsPaid);
    FilterKeepsAll(history[1..], IsPaid);
    EarnedIsCleanWeeks(history);
    EarnedBounds(history);
    PerformanceCounts(history);
  }
}
