/** The allowance engine (src/utils/calculations.ts): the proportional
    deduction rule and the Sunday-to-Saturday week resolver. */
module Calculations {
  import opened Seqs
  import opened Types

  /** WEEKLY_ALLOWANCE_BASE: the gross allowance of one week. */
  const WeeklyAllowanceBase: real := 100.0

  // ---------------------------------------------------------------------
  // Proportional deduction
  // ---------------------------------------------------------------------

  /** The snapshot weights of a list of infractions, in order. */
  function Weights(infs: seq<Infraction>): seq<int>
  {
    seq(|infs|, i requires 0 <= i < |infs| => infs[i].weight)
  }

  /** `infractions.reduce((sum, inf) => sum + inf.weight, 0)`. */
  function TotalWeight(infs: seq<Infraction>): int
  {
    Sum(Weights(infs))
  }

  /** One infraction's cost, `(WEEKLY_ALLOWANCE_BASE / totalWeights) * weight`. */
  function Share(totalWeight: int, weight: int): real
    requires totalWeight != 0
  {
    (WeeklyAllowanceBase / totalWeight as real) * weight as real
  }

  /** The second fold: the sum of the shares of all weights against one total. */
  function SumOfShares(ws: seq<int>, totalWeight: int): real
    requires totalWeight != 0
  {
    if ws == [] then 0.0 else Share(totalWeight, ws[0]) + SumOfShares(ws[1..], totalWeight)
  }

  /** Summing the shares is scaling the summed weights. */
  lemma {:induction false} SumOfSharesScales(ws: seq<int>, totalWeight: int)
    requires totalWeight != 0
    ensures SumOfShares(ws, totalWeight) == (WeeklyAllowanceBase / totalWeight as real) * Sum(ws) as real
  {
    if ws != [] {
      SumOfSharesScales(ws[1..], totalWeight);
      var c := WeeklyAllowanceBase / totalWeight as real;
      assert c * (ws[0] + Sum(ws[1..])) as real == c * ws[0] as real + c * Sum(ws[1..]) as real;
    }
  }

  /** The shares of a list's own weights always add up to the whole base. */
  lemma SharesExhaustBase(ws: seq<int>)
    requires Sum(ws) != 0
    ensures SumOfShares(ws, Sum(ws)) == WeeklyAllowanceBase
  {
    SumOfSharesScales(ws, Sum(ws));
  }

  function Min(a: real, b: real): real
  {
    if a <= b then a else b
  }

  /** `calculateWeeklyDeduction`: no infraction costs nothing; any non-empty
      week (whose weights do not add up to zero) forfeits the whole base. */
  function CalculateWeeklyDeduction(infs: seq<Infraction>): (r: real)
    requires |infs| == 0 || TotalWeight(infs) != 0
    ensures |infs| == 0 ==> r == 0.0
    ensures |infs| > 0 ==> r == WeeklyAllowanceBase
    ensures 0.0 <= r <= WeeklyAllowanceBase
  {
    if |infs| == 0 then 0.0
    else
      var totalWeights := TotalWeight(infs);
      var totalDeduction := SumOfShares(Weights(infs), totalWeights);
      SharesExhaustBase(Weights(infs));
      Min(totalDeduction, WeeklyAllowanceBase)
  }

  /** Every weight is positive (the documented range is 1..10). */
  predicate PositiveWeights(infs: seq<Infraction>)
  {
    forall i :: 0 <= i < |infs| ==> infs[i].weight > 0
  }

  /** With positive weights the deduction is always defined. */
  lemma PositiveWeightsDefined(infs: seq<Infraction>)
    requires PositiveWeights(infs)
    ensures |infs| > 0 ==> TotalWeight(infs) > 0
  {
    if |infs| > 0 {
      SumPositive(Weights(infs));
    }
  }

  /** Shares are proportional to weights: against the same total, equal
      weights cost the same and a heavier weight strictly more. */
  lemma ShareOrdered(totalWeight: int, w1: int, w2: int)
    requires totalWeight > 0
    ensures w1 == w2 ==> Share(totalWeight, w1) == Share(totalWeight, w2)
    ensures w1 < w2 ==> Share(totalWeight, w1) < Share(totalWeight, w2)
  {
    var c := WeeklyAllowanceBase / totalWeight as real;
    assert c > 0.0;
    if w1 < w2 {
      assert c * w2 as real - c * w1 as real == c * (w2 - w1) as real;
    }
  }

  /** Raising one infraction's weight while the others (summing to `others`)
      stay fixed never lowers its share, and strictly raises it when some
      other weight is present. */
  lemma ShareMonotone(others: int, w1: int, w2: int)
    requires others >= 0 && 0 < w1 <= w2
    ensures Share(others + w1, w1) <= Share(others + w2, w2)
    ensures others > 0 && w1 < w2 ==> Share(others + w1, w1) < Share(others + w2, w2)
  {
    var a, b := (others + w1) as real, (others + w2) as real;
    assert Share(others + w1, w1) == WeeklyAllowanceBase * w1 as real / a;
    assert Share(others + w2, w2) == WeeklyAllowanceBase * w2 as real / b;
    // w1 / a <= w2 / b  <==>  w1 * b <= w2 * a  <==>  w1 * others <= w2 * others
    assert w1 as real * b - w2 as real * a == others as real * (w1 - w2) as real;
    assert w1 as real * b <= w2 as real * a;
    DivMonotone(WeeklyAllowanceBase * w1 as real, a, WeeklyAllowanceBase * w2 as real, b);
    if others > 0 && w1 < w2 {
      assert w1 as real * b < w2 as real * a;
      DivStrict(WeeklyAllowanceBase * w1 as real, a, WeeklyAllowanceBase * w2 as real, b);
    }
  }

  lemma DivMonotone(x: real, a: real, y: real, b: real)
    requires a > 0.0 && b > 0.0 && x * b <= y * a
    ensures x / a <= y / b
  {
    assert x / a == (x * b) / (a * b);
    assert y / b == (y * a) / (a * b);
  }

  lemma DivStrict(x: real, a: real, y: real, b: real)
    requires a > 0.0 && b > 0.0 && x * b < y * a
    ensures x / a < y / b
  {
    assert x / a == (x * b) / (a * b);
    assert y / b == (y * a) / (a * b);
  }

  /** The deduction depends only on the multiset of weights, so reordering
      the infractions changes nothing. */
  lemma DeductionIgnoresOrder(a: seq<Infraction>, b: seq<Infraction>)
    requires multiset(Weights(a)) == multiset(Weights(b))
    requires |a| == 0 || TotalWeight(a) != 0
    ensures |b| == 0 || TotalWeight(b) != 0
    ensures CalculateWeeklyDeduction(a) == CalculateWeeklyDeduction(b)
  {
    SumPermutation(Weights(a), Weights(b));
    assert |Weights(a)| == |multiset(Weights(a))| == |multiset(Weights(b))| == |Weights(b)|;
  }

  // ---------------------------------------------------------------------
  // Week resolver
  // ---------------------------------------------------------------------

  const MsPerSecond: int := 1000
  const MsPerMinute: int := 60 * MsPerSecond
  const MsPerHour: int := 60 * MsPerMinute
  const MsPerDay: int := 24 * MsPerHour
  const MsPerWeek: int := 7 * MsPerDay

  /** `getDay()`: 0 is Sunday. The epoch, day 0, was a Thursday. */
  function Weekday(t: Instant): (r: int)
    ensures 0 <= r < 7
  {
    (t / MsPerDay + 4) % 7
  }

  /** `setHours(0, 0, 0, 0)`: the start of the day containing `t`. */
  function Midnight(t: Instant): (r: Instant)
    ensures r % MsPerDay == 0
    ensures r <= t < r + MsPerDay
  {
    DayParts(t);
    (t / MsPerDay) * MsPerDay
  }

  /** Sunday, 00:00:00.000. */
  predicate IsWeekStart(s: Instant)
  {
    s % MsPerDay == 0 && Weekday(s) == 0
  }

  lemma DayParts(t: Instant)
    ensures t == (t / MsPerDay) * MsPerDay + t % MsPerDay
    ensures 0 <= t % MsPerDay < MsPerDay
  {
  }

  lemma DayOf(q: int, m: int)
    requires 0 <= m < MsPerDay
    ensures (q * MsPerDay + m) / MsPerDay == q
  {
    var t := q * MsPerDay + m;
    DayParts(t);
    var q', m' := t / MsPerDay, t % MsPerDay;
    assert (q - q') * MsPerDay == m' - m;
  }

  /** A week start is the midnight of a day number congruent to 3 modulo 7. */
  lemma WeekStartDayNumber(s: Instant)
    requires IsWeekStart(s)
    ensures s == (s / MsPerDay) * MsPerDay
    ensures (s / MsPerDay) % 7 == 3
  {
    DayParts(s);
  }

  lemma DayNumberWeekStart(q: int)
    requires q % 7 == 3
    ensures IsWeekStart(q * MsPerDay)
  {
    DayOf(q, 0);
  }

  /** `getWeekStart`: step back `getDay()` days, then go to midnight. */
  function WeekStart(t: Instant): (r: Instant)
    ensures IsWeekStart(r)
    ensures r <= t < r + MsPerWeek
  {
    var diff := t - Weekday(t) * MsPerDay;
    var r := Midnight(diff);
    WeekStartProperties(t);
    r
  }

  lemma WeekStartProperties(t: Instant)
    ensures var r := Midnight(t - Weekday(t) * MsPerDay);
            IsWeekStart(r) && r <= t < r + MsPerWeek
  {
    DayParts(t);
    var d, m := t / MsPerDay, t % MsPerDay;
    var w := Weekday(t);
    assert t - w * MsPerDay == (d - w) * MsPerDay + m;
    DayOf(d - w, m);
    var r := Midnight(t - w * MsPerDay);
    assert r == (d - w) * MsPerDay;
    assert (d - w) % 7 == 3;
    DayNumberWeekStart(d - w);
  }

  /** Two week starts less than a week apart are the same instant. */
  lemma WeekStartsApart(s1: Instant, s2: Instant)
    requires IsWeekStart(s1) && IsWeekStart(s2)
    requires s1 <= s2 < s1 + MsPerWeek
    ensures s1 == s2
  {
    WeekStartDayNumber(s1);
    WeekStartDayNumber(s2);
    var q1, q2 := s1 / MsPerDay, s2 / MsPerDay;
    assert (q2 - q1) * MsPerDay == s2 - s1;
    assert 0 <= q2 - q1 < 7;
    assert (q2 - q1) % 7 == 0;
  }

  /** The week start of `t` is the only week start in (t - 7 days, t]. */
  lemma WeekStartUnique(t: Instant, s: Instant)
    requires IsWeekStart(s) && s <= t < s + MsPerWeek
    ensures WeekStart(t) == s
  {
    var r := WeekStart(t);
    if r <= s {
      WeekStartsApart(r, s);
    } else {
      WeekStartsApart(s, r);
    }
  }

  /** An instant exactly at Sunday 00:00:00.000 starts its own week, so
      `getWeekStart` is idempotent. */
  lemma WeekStartIdempotent(t: Instant)
    ensures IsWeekStart(t) ==> WeekStart(t) == t
    ensures WeekStart(WeekStart(t)) == WeekStart(t)
  {
    if IsWeekStart(t) {
      WeekStartUnique(t, t);
    }
    WeekStartUnique(WeekStart(t), WeekStart(t));
  }

  /** Instants more than seven days apart lie in different weeks. */
  lemma WeeksApart(t1: Instant, t2: Instant)
    requires t2 - t1 > MsPerWeek
    ensures WeekStart(t1) < WeekStart(t2)
  {
  }

  /** Moving `k` whole weeks moves the week start by `k` weeks. */
  lemma WeekStartShift(t: Instant, k: int)
    ensures WeekStart(t - k * MsPerWeek) == WeekStart(t) - k * MsPerWeek
  {
    var s := WeekStart(t);
    WeekStartDayNumber(s);
    var q := s / MsPerDay;
    DayNumberShift(q, k);
    DayNumberWeekStart(q - 7 * k);
    WeekStartUnique(t - k * MsPerWeek, s - k * MsPerWeek);
  }

  lemma DayNumberShift(q: int, k: int)
    ensures q * MsPerDay - k * MsPerWeek == (q - 7 * k) * MsPerDay
    ensures (q - 7 * k) % 7 == q % 7
  {
  }

  /** `getWeekEnd`: six days later, at 23:59:59.999 — one millisecond before
      the following midnight a week after the day of `d`. */
  function WeekEnd(d: Instant): (r: Instant)
    ensures r == Midnight(d) + MsPerWeek - 1
    ensures IsWeekStart(d) ==> r == d + MsPerWeek - 1
  {
    var weekEnd := d + 6 * MsPerDay;
    WeekEndProperties(d);
    Midnight(weekEnd) + 23 * MsPerHour + 59 * MsPerMinute + 59 * MsPerSecond + 999
  }

  lemma WeekEndProperties(d: Instant)
    ensures Midnight(d + 6 * MsPerDay) == Midnight(d) + 6 * MsPerDay
    ensures IsWeekStart(d) ==> Midnight(d) == d
  {
    DayParts(d);
    var q, m := d / MsPerDay, d % MsPerDay;
    assert d + 6 * MsPerDay == (q + 6) * MsPerDay + m;
    DayOf(q + 6, m);
  }

  /** An instant belongs to the week starting at `s` exactly when it lies
      between `s` and `getWeekEnd(s)`, both ends included. */
  lemma WeekMembership(s: Instant, t: Instant)
    requires IsWeekStart(s)
    ensures WeekStart(t) == s <==> s <= t <= WeekEnd(s)
  {
    if s <= t <= WeekEnd(s) {
      WeekStartUnique(t, s);
    }
  }

  /** The current week, `{ start, end }`, for the instant `now`. */
  datatype Week = Week(start: Instant, end: Instant)

  /** `getCurrentWeek`, with the clock reading passed in. */
  function GetCurrentWeek(now: Instant): (w: Week)
    ensures IsWeekStart(w.start) && w.start == WeekStart(now)
    ensures w.end == w.start + MsPerWeek - 1
    ensures w.start <= now <= w.end
  {
    var start := WeekStart(now);
    Week(start, WeekEnd(start))
  }
}
