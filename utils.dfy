/**
 * utils.ts: the two day-string getters, with the clock replaced by the
 * explicit parameter `today`, and the three-way streak classifier.
 */
module Utils {
  import opened Options
  import opened Calendar
  import opened DayString

  /** getTodayDateString (utils.ts:1-6). */
  function TodayString(today: Date): (s: string)
    requires Valid(today)
    ensures ParseDayString(s) == Some(today)
  {
    ParseFormatRoundTrip(today);
    Format(today)
  }

  /** getYesterdayDateString (utils.ts:9-16): the string of the day before. */
  function YesterdayString(today: Date): (s: string)
    requires Valid(today)
    ensures ParseDayString(s) == Some(PrevDay(today))
    ensures s != TodayString(today)
  {
    ParseFormatRoundTrip(PrevDay(today));
    FormatInjective(today, PrevDay(today));
    Format(PrevDay(today))
  }

  datatype StreakStatus = StreakStatus(isCompletedToday: bool, isBroken: bool)

  /** calculateStreakStatus (utils.ts:18-34); `""` is falsy like null. */
  function CalculateStreakStatus(lastDate: Option<string>, today: Date): (r: StreakStatus)
    requires Valid(today)
    ensures !(r.isCompletedToday && r.isBroken)
    ensures r.isCompletedToday <==> lastDate == Some(TodayString(today))
    ensures !r.isBroken <==>
      lastDate == Some(TodayString(today)) || lastDate == Some(YesterdayString(today))
  {
    if lastDate.None? || lastDate.value == "" then StreakStatus(false, true)
    else if lastDate.value == TodayString(today) then StreakStatus(true, false)
    else if lastDate.value == YesterdayString(today) then StreakStatus(false, false)
    else StreakStatus(false, true)
  }

  /** Never completed: not done today, and broken (utils.ts:19). */
  lemma NullIsBroken(today: Date)
    requires Valid(today)
    ensures CalculateStreakStatus(None, today) == StreakStatus(false, true)
  {
  }

  /** Completed today (utils.ts:24-26). */
  lemma TodayIsCompleted(today: Date)
    requires Valid(today)
    ensures CalculateStreakStatus(Some(Format(today)), today) == StreakStatus(true, false)
  {
  }

  /** The grace day: completed yesterday is not yet broken (utils.ts:28-30). */
  lemma YesterdayIsGrace(today: Date)
    requires Valid(today)
    ensures CalculateStreakStatus(Some(Format(PrevDay(today))), today) == StreakStatus(false, false)
  {
    assert Format(PrevDay(today)) == YesterdayString(today);
  }

  /** Any day two or more days back is broken (utils.ts:32-33). */
  lemma OlderIsBroken(today: Date, last: Date)
    requires Valid(today) && Valid(last) && Before(last, PrevDay(today))
    ensures CalculateStreakStatus(Some(Format(last)), today) == StreakStatus(false, true)
  {
    FormatInjective(last, today);
    FormatInjective(last, PrevDay(today));
  }

  /**
   * For a real day, the classifier depends only on where that day lies
   * relative to today: on it, just before it, or further back.
   */
  lemma StatusByDay(today: Date, last: Date)
    requires Valid(today) && Valid(last) && OnOrBefore(last, today)
    ensures var r := CalculateStreakStatus(Some(Format(last)), today);
      && (r.isCompletedToday <==> last == today)
      && (r.isBroken <==> Before(last, PrevDay(today)))
  {
    FormatInjective(last, today);
    FormatInjective(last, PrevDay(today));
    if Before(last, today) {
      PrevDayIsImmediatePredecessor(today, last);
    }
  }
}
