/** The "last seen" label of `formatLastSeen`. Time is epoch milliseconds; the clock reading, the
    date parser and the local start of yesterday are inputs, and each rendered string is a label. */
module LastSeen {
  import opened Wrappers
  import Text

  datatype Label =
    | Never               // "never"
    | Invalid             // "Invalid date"
    | JustNow             // "just now"
    | MinutesAgo(n: int)  // "{n}m ago"
    | HoursAgo(n: int)    // "{n}h ago"
    | Yesterday           // "yesterday at {time}"
    | DaysAgo(n: int)     // "{n}d ago"
    | Absolute            // "{month} {day}, {year}"

  /** `Math.round(x / d)`: the nearest integer to x/d, halves rounded up (toward +infinity),
      which is floor(x/d + 1/2). */
  function RoundDiv(x: int, d: int): (r: int)
    requires d > 0
    ensures 2 * d * r <= 2 * x + d < 2 * d * r + 2 * d
  {
    (2 * x + d) / (2 * d)
  }

  /** Rounding a quotient is monotone in the dividend. */
  lemma RoundDivMonotone(x: int, y: int, d: int)
    requires d > 0 && x <= y
    ensures RoundDiv(x, d) <= RoundDiv(y, d)
  {
    var a, b := RoundDiv(x, d), RoundDiv(y, d);
    assert (2 * d) * a < (2 * d) * (b + 1);
    CancelFactor(2 * d, a, b + 1);
  }

  lemma CancelFactor(c: int, a: int, b: int)
    requires c > 0 && c * a < c * b
    ensures a < b
  {
  }

  /** The rounding cascade of the differences. */
  function Seconds(diffMs: int): int { RoundDiv(diffMs, 1000) }
  function Minutes(diffMs: int): int { RoundDiv(Seconds(diffMs), 60) }
  function Hours(diffMs: int): int { RoundDiv(Minutes(diffMs), 60) }
  function Days(diffMs: int): int { RoundDiv(Hours(diffMs), 24) }

  /** Each rounded unit is monotone non-decreasing in the millisecond difference. */
  lemma UnitsMonotone(d1: int, d2: int)
    requires d1 <= d2
    ensures Seconds(d1) <= Seconds(d2)
    ensures Minutes(d1) <= Minutes(d2)
    ensures Hours(d1) <= Hours(d2)
    ensures Days(d1) <= Days(d2)
  {
    RoundDivMonotone(d1, d2, 1000);
    RoundDivMonotone(Seconds(d1), Seconds(d2), 60);
    RoundDivMonotone(Minutes(d1), Minutes(d2), 60);
    RoundDivMonotone(Hours(d1), Hours(d2), 24);
  }

  /** The ordered `if` returns after a successful parse, with `diffMs = nowMs - dateMs`. */
  function Classify(dateMs: int, nowMs: int, startOfYesterdayMs: int): (l: Label)
    ensures l != Never && l != Invalid
    ensures l == Yesterday ==> dateMs >= startOfYesterdayMs
    ensures l.DaysAgo? || l == Absolute ==> dateMs < startOfYesterdayMs
  {
    var diffMs := nowMs - dateMs;
    if Seconds(diffMs) < 10 then JustNow
    else if Minutes(diffMs) < 60 then MinutesAgo(Minutes(diffMs))
    else if Hours(diffMs) < 24 then HoursAgo(Hours(diffMs))
    else if dateMs >= startOfYesterdayMs then Yesterday
    else if Days(diffMs) < 7 then DaysAgo(Days(diffMs))
    else Absolute
  }

  /** `formatLastSeen(timestamp)`: a missing or empty timestamp is "never"; otherwise the first
      space becomes 'T', and a string the parser rejects is "Invalid date". */
  function FormatLastSeen(timestamp: Option<string>, parse: string -> Option<int>,
                          nowMs: int, startOfYesterdayMs: int): (l: Label)
    ensures l == Never <==> timestamp.None? || timestamp.value == ""
    ensures l == Invalid <==> (timestamp.Some? && timestamp.value != ""
                               && parse(Text.ReplaceFirstSpace(timestamp.value)).None?)
  {
    if timestamp.None? || timestamp.value == "" then Never
    else
      match parse(Text.ReplaceFirstSpace(timestamp.value))
      case None => Invalid
      case Some(dateMs) => Classify(dateMs, nowMs, startOfYesterdayMs)
  }

  /** The rounded thresholds, restated on the millisecond difference. */
  lemma Thresholds(diffMs: int)
    ensures Seconds(diffMs) < 10 <==> diffMs < 9_500
    ensures Seconds(diffMs) < 30 <==> diffMs < 29_500
    ensures Minutes(diffMs) < 60 <==> diffMs < 3_569_500
    ensures Hours(diffMs) < 24 <==> diffMs < 84_569_500
    ensures Days(diffMs) < 7 <==> diffMs < 559_769_500
  {
  }

  /** An independent statement of the cascade: which label is chosen depends only on where the
      millisecond difference falls among fixed thresholds and, from 24 rounded hours on, on
      whether the date is before the start of yesterday. Exactly one case holds for each input. */
  lemma ClassifyByThresholds(dateMs: int, nowMs: int, startOfYesterdayMs: int)
    ensures var l, d := Classify(dateMs, nowMs, startOfYesterdayMs), nowMs - dateMs;
      && (l == JustNow <==> d < 9_500)
      && (l.MinutesAgo? <==> 9_500 <= d < 3_569_500)
      && (l.HoursAgo? <==> 3_569_500 <= d < 84_569_500)
      && (l == Yesterday <==> 84_569_500 <= d && dateMs >= startOfYesterdayMs)
      && (l.DaysAgo? <==> 84_569_500 <= d < 559_769_500 && dateMs < startOfYesterdayMs)
      && (l == Absolute <==> 559_769_500 <= d && dateMs < startOfYesterdayMs)
  {
    Thresholds(nowMs - dateMs);
  }

  /** Every timestamp at or after "now" is "just now" (the full 9.5-second band is in
      `ClassifyByThresholds`). */
  lemma FutureIsJustNow(dateMs: int, nowMs: int, startOfYesterdayMs: int)
    requires dateMs >= nowMs
    ensures Classify(dateMs, nowMs, startOfYesterdayMs) == JustNow
  {
    ClassifyByThresholds(dateMs, nowMs, startOfYesterdayMs);
  }

  /** The numbers the labels carry: minutes in 0..59 (0 exactly for rounded seconds 10..29),
      hours in 1..23, days in 1..6; each is the rounded unit of the difference. */
  lemma LabelPayloads(dateMs: int, nowMs: int, startOfYesterdayMs: int)
    ensures var l, d := Classify(dateMs, nowMs, startOfYesterdayMs), nowMs - dateMs;
      && (l.MinutesAgo? ==> l.n == Minutes(d) && 0 <= l.n <= 59
                            && (l.n == 0 <==> 10 <= Seconds(d) <= 29))
      && (l.HoursAgo? ==> l.n == Hours(d) && 1 <= l.n <= 23)
      && (l.DaysAgo? ==> l.n == Days(d) && 1 <= l.n <= 6 && dateMs < startOfYesterdayMs)
  {
    var d := nowMs - dateMs;
    ClassifyByThresholds(dateMs, nowMs, startOfYesterdayMs);
    if 9_500 <= d < 3_569_500 {
      UnitsMonotone(9_500, d);
      assert Minutes(d) == 0 <==> Seconds(d) < 30;
    } else if 3_569_500 <= d < 84_569_500 {
      UnitsMonotone(3_569_500, d);
    } else if 84_569_500 <= d {
      UnitsMonotone(84_569_500, d);
    }
  }

  /** An age under the rounded 24 hours gets an hours label wherever midnight falls: the
      start of yesterday plays no part. */
  lemma HoursIgnoreDayBoundary(dateMs: int, nowMs: int, soy1: int, soy2: int)
    requires 3_569_500 <= nowMs - dateMs < 84_569_500
    ensures Classify(dateMs, nowMs, soy1) == Classify(dateMs, nowMs, soy2)
    ensures Classify(dateMs, nowMs, soy1).HoursAgo?
  {
    ClassifyByThresholds(dateMs, nowMs, soy1);
    ClassifyByThresholds(dateMs, nowMs, soy2);
  }
}
