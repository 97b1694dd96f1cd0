/**
 * App.tsx: the initial records, the reconciliation pass run on load, the
 * completion and manual-reset handlers, and the header total. Each handler
 * builds a new list with `.map`; that pure step is a function here, and the
 * `Tracker` class holds the list the handlers replace.
 */
module App {
  import opened Options
  import opened Calendar
  import opened Utils
  import opened Types

  function Max(a: nat, b: nat): (m: nat)
    ensures m >= a && m >= b && (m == a || m == b)
  {
    if a >= b then a else b
  }

  predicate UniqueIds(rs: seq<StreakData>) {
    forall i, j :: 0 <= i < j < |rs| ==> rs[i].id != rs[j].id
  }

  /** Every record's best streak is at least its current streak. */
  predicate Consistent(rs: seq<StreakData>) {
    forall i :: 0 <= i < |rs| ==> rs[i].bestStreak >= rs[i].currentStreak
  }

  /** A record with no last day has no current streak. */
  predicate NoStreakWithoutDate(rs: seq<StreakData>) {
    forall i :: 0 <= i < |rs| && rs[i].lastCompletedDate.None? ==> rs[i].currentStreak == 0
  }

  /** The record was last marked on day string `day` (App.tsx:70). */
  predicate MarkedOn(r: StreakData, day: string) {
    r.lastCompletedDate == Some(day)
  }

  /** Marked today or on the grace day before it. */
  predicate Live(last: Option<string>, today: Date)
    requires Valid(today)
  {
    last == Some(TodayString(today)) || last == Some(YesterdayString(today))
  }

  /** INITIAL_DATA (App.tsx:8-33): one empty record per category. */
  function InitialData(): (rs: seq<StreakData>)
    ensures |rs| == 3 && UniqueIds(rs) && Consistent(rs) && NoStreakWithoutDate(rs)
    ensures rs[0].category == Development && rs[1].category == Nutrition && rs[2].category == Physical
    ensures forall i :: 0 <= i < |rs| ==>
      rs[i].currentStreak == 0 && rs[i].bestStreak == 0 && rs[i].lastCompletedDate == None && rs[i].history == []
  {
    [ StreakData("dev", Development, 0, 0, None, []),
      StreakData("nutri", Nutrition, 0, 0, None, []),
      StreakData("phys", Physical, 0, 0, None, []) ]
  }

  function ReconcileRecord(r: StreakData, today: Date): StreakData
    requires Valid(today)
  {
    if CalculateStreakStatus(r.lastCompletedDate, today).isBroken then r.(currentStreak := 0) else r
  }

  /**
   * The load pass (App.tsx:49-55): a streak survives exactly when its last
   * completion is today or yesterday; nothing but `currentStreak` changes.
   */
  function ReconcileAll(rs: seq<StreakData>, today: Date): (out: seq<StreakData>)
    requires Valid(today)
    ensures |out| == |rs|
    ensures forall i :: 0 <= i < |rs| ==> out[i] == rs[i].(currentStreak := out[i].currentStreak)
    ensures forall i :: 0 <= i < |rs| ==>
      out[i].currentStreak == if Live(rs[i].lastCompletedDate, today) then rs[i].currentStreak else 0
  {
    seq(|rs|, i requires 0 <= i < |rs| => ReconcileRecord(rs[i], today))
  }

  function CompleteRecord(r: StreakData, day: string): StreakData {
    if MarkedOn(r, day) then r
    else
      var n := r.currentStreak + 1;
      r.(currentStreak := n, bestStreak := Max(r.bestStreak, n),
         lastCompletedDate := Some(day), history := r.history + [day])
  }

  /**
   * handleComplete (App.tsx:65-82) for the day string `day` of today: the
   * records with `id` not yet marked on `day` gain one day, whatever the gap
   * since their last completion.
   */
  function CompleteAll(rs: seq<StreakData>, id: string, day: string): (out: seq<StreakData>)
    ensures |out| == |rs|
    ensures forall i :: 0 <= i < |rs| && (rs[i].id != id || MarkedOn(rs[i], day)) ==> out[i] == rs[i]
    ensures forall i :: 0 <= i < |rs| && rs[i].id == id && !MarkedOn(rs[i], day) ==>
      && out[i].id == rs[i].id && out[i].category == rs[i].category
      && out[i].currentStreak == rs[i].currentStreak + 1
      && out[i].bestStreak == Max(rs[i].bestStreak, rs[i].currentStreak + 1)
      && out[i].lastCompletedDate == Some(day)
      && out[i].history == rs[i].history + [day]
    ensures forall i :: 0 <= i < |rs| && rs[i].id == id ==>
      MarkedOn(out[i], day) && out[i].bestStreak >= rs[i].bestStreak
  {
    seq(|rs|, i requires 0 <= i < |rs| => if rs[i].id == id then CompleteRecord(rs[i], day) else rs[i])
  }

  /**
   * handleReset (App.tsx:88-94): the records with `id` lose their current
   * streak and last date; best streak and history stay.
   */
  function ResetAll(rs: seq<StreakData>, id: string): (out: seq<StreakData>)
    ensures |out| == |rs|
    ensures forall i :: 0 <= i < |rs| && rs[i].id != id ==> out[i] == rs[i]
    ensures forall i :: 0 <= i < |rs| && rs[i].id == id ==>
      out[i] == rs[i].(currentStreak := 0, lastCompletedDate := None)
  {
    seq(|rs|, i requires 0 <= i < |rs| =>
      if rs[i].id == id then rs[i].(currentStreak := 0, lastCompletedDate := None) else rs[i])
  }

  /** totalStreak (App.tsx:104): `reduce` adding each current streak in turn. */
  function Total(rs: seq<StreakData>): (t: nat)
    ensures forall i :: 0 <= i < |rs| ==> rs[i].currentStreak <= t
  {
    if rs == [] then 0 else Total(rs[..|rs| - 1]) + rs[|rs| - 1].currentStreak
  }

  lemma {:induction false} TotalOfZeros(rs: seq<StreakData>)
    requires forall i :: 0 <= i < |rs| ==> rs[i].currentStreak == 0
    ensures Total(rs) == 0
    decreases |rs|
  {
    if rs != [] {
      TotalOfZeros(rs[..|rs| - 1]);
    }
  }

  lemma TotalInitialIsZero()
    ensures Total(InitialData()) == 0
  {
    TotalOfZeros(InitialData());
  }

  lemma {:induction false} TotalMonotone(a: seq<StreakData>, b: seq<StreakData>)
    requires |a| == |b|
    requires forall i :: 0 <= i < |a| ==> a[i].currentStreak <= b[i].currentStreak
    ensures Total(a) <= Total(b)
    decreases |a|
  {
    if a != [] {
      TotalMonotone(a[..|a| - 1], b[..|b| - 1]);
    }
  }

  /** Completing a known category adds one to the total, or nothing if it was already marked today. */
  lemma {:induction false} TotalAfterComplete(rs: seq<StreakData>, id: string, day: string, k: nat)
    requires UniqueIds(rs) && k < |rs| && rs[k].id == id
    ensures Total(CompleteAll(rs, id, day)) == Total(rs) + if MarkedOn(rs[k], day) then 0 else 1
    decreases |rs|
  {
    var n := |rs|;
    var out := CompleteAll(rs, id, day);
    var front := rs[..n - 1];
    assert out[..n - 1] == CompleteAll(front, id, day);
    if k == n - 1 {
      assert CompleteAll(front, id, day) == front;
    } else {
      TotalAfterComplete(front, id, day, k);
    }
  }

  /** Reconciliation never raises the total. */
  lemma ReconcileNeverIncreasesTotal(rs: seq<StreakData>, today: Date)
    requires Valid(today)
    ensures Total(ReconcileAll(rs, today)) <= Total(rs)
  {
    TotalMonotone(ReconcileAll(rs, today), rs);
  }

  /** A manual reset never raises the total. */
  lemma ResetNeverIncreasesTotal(rs: seq<StreakData>, id: string)
    ensures Total(ResetAll(rs, id)) <= Total(rs)
  {
    TotalMonotone(ResetAll(rs, id), rs);
  }

  /** Reconciling twice with the same `today` is reconciling once. */
  lemma ReconcileIdempotent(rs: seq<StreakData>, today: Date)
    requires Valid(today)
    ensures ReconcileAll(ReconcileAll(rs, today), today) == ReconcileAll(rs, today)
  {
  }

  /** Completing twice on one day is completing once (App.tsx:70). */
  lemma CompleteIdempotent(rs: seq<StreakData>, id: string, day: string)
    ensures CompleteAll(CompleteAll(rs, id, day), id, day) == CompleteAll(rs, id, day)
  {
  }

  /** Resetting twice is resetting once. */
  lemma ResetIdempotent(rs: seq<StreakData>, id: string)
    ensures ResetAll(ResetAll(rs, id), id) == ResetAll(rs, id)
  {
  }

  /** Reconciliation keeps ids unique and best streaks at least current ones. */
  lemma ReconcilePreservesInvariants(rs: seq<StreakData>, today: Date)
    requires Valid(today) && UniqueIds(rs) && Consistent(rs)
    ensures UniqueIds(ReconcileAll(rs, today)) && Consistent(ReconcileAll(rs, today))
  {
    var out := ReconcileAll(rs, today);
    forall i | 0 <= i < |out|
      ensures out[i].id == rs[i].id && out[i].bestStreak >= out[i].currentStreak
    {
      assert out[i] == rs[i].(currentStreak := out[i].currentStreak);
    }
  }

  /** Completion keeps ids unique and best streaks at least current ones. */
  lemma CompletePreservesInvariants(rs: seq<StreakData>, id: string, day: string)
    requires UniqueIds(rs) && Consistent(rs)
    ensures UniqueIds(CompleteAll(rs, id, day)) && Consistent(CompleteAll(rs, id, day))
  {
    var out := CompleteAll(rs, id, day);
    assert forall i :: 0 <= i < |rs| ==> out[i].id == rs[i].id;
  }

  /** A manual reset keeps ids unique and best streaks at least current ones. */
  lemma ResetPreservesInvariants(rs: seq<StreakData>, id: string)
    requires UniqueIds(rs) && Consistent(rs)
    ensures UniqueIds(ResetAll(rs, id)) && Consistent(ResetAll(rs, id))
  {
    var out := ResetAll(rs, id);
    assert forall i :: 0 <= i < |rs| ==> out[i].id == rs[i].id;
  }

  /** Whatever was stored, after the load pass no record without a day keeps a streak. */
  lemma ReconcileEstablishesNoStreakWithoutDate(rs: seq<StreakData>, today: Date)
    requires Valid(today)
    ensures NoStreakWithoutDate(ReconcileAll(rs, today))
  {
  }

  /** A completion gives the completed records a day and leaves the rest alone. */
  lemma CompleteKeepsNoStreakWithoutDate(rs: seq<StreakData>, id: string, day: string)
    requires NoStreakWithoutDate(rs)
    ensures NoStreakWithoutDate(CompleteAll(rs, id, day))
  {
  }

  /** A reset clears the streak together with the day. */
  lemma ResetKeepsNoStreakWithoutDate(rs: seq<StreakData>, id: string)
    requires NoStreakWithoutDate(rs)
    ensures NoStreakWithoutDate(ResetAll(rs, id))
  {
  }

  /**
   * Loading and then completing: a streak marked yesterday continues, one
   * marked today is untouched, and any other restarts at one.
   */
  lemma LoadThenComplete(rs: seq<StreakData>, id: string, today: Date, k: nat)
    requires Valid(today) && k < |rs| && rs[k].id == id
    ensures var r := CompleteAll(ReconcileAll(rs, today), id, TodayString(today))[k];
      r.currentStreak ==
        if MarkedOn(rs[k], TodayString(today)) then rs[k].currentStreak
        else if rs[k].lastCompletedDate == Some(YesterdayString(today)) then rs[k].currentStreak + 1
        else 1
  {
    var t := TodayString(today);
    var loaded := ReconcileAll(rs, today);
    assert loaded[k] == rs[k].(currentStreak := loaded[k].currentStreak);
    assert loaded[k].id == id && MarkedOn(loaded[k], t) == MarkedOn(rs[k], t);
    var done := CompleteAll(loaded, id, t);
    if MarkedOn(rs[k], t) {
      assert done[k] == loaded[k];
    } else {
      assert done[k].currentStreak == loaded[k].currentStreak + 1;
    }
  }

  /** Completing on 2024-01-10 a streak of 5 last marked 2024-01-09. */
  lemma CompleteScenario()
    ensures var today := Date(2024, 1, 10);
      CompleteAll([StreakData("dev", Development, 5, 5, Some("2024-01-09"), ["2024-01-09"])], "dev", TodayString(today))
        == [StreakData("dev", Development, 6, 6, Some("2024-01-10"), ["2024-01-09", "2024-01-10"])]
  {
    DayString.FormatExample();
    var r := StreakData("dev", Development, 5, 5, Some("2024-01-09"), ["2024-01-09"]);
    var out := CompleteAll([r], "dev", "2024-01-10");
    assert !MarkedOn(r, "2024-01-10");
    assert ["2024-01-09"] + ["2024-01-10"] == ["2024-01-09", "2024-01-10"];
    assert out[0] == StreakData("dev", Development, 6, 6, Some("2024-01-10"), ["2024-01-09", "2024-01-10"]);
  }

  /**
   * A reset clears the last day, so the same-day guard no longer applies: a
   * completion after a reset counts the day again, from a streak of 1, and
   * appends it to the history even when the history already ends with it.
   */
  lemma ResetReopensDay(rs: seq<StreakData>, id: string, day: string)
    ensures var out := CompleteAll(ResetAll(rs, id), id, day);
      forall i :: 0 <= i < |rs| && rs[i].id == id ==>
        out[i].currentStreak == 1 && out[i].lastCompletedDate == Some(day)
        && out[i].history == rs[i].history + [day]
  {
    var mid := ResetAll(rs, id);
    forall i | 0 <= i < |rs| && rs[i].id == id
      ensures !MarkedOn(mid[i], day)
    {
    }
  }

  /** Completing, resetting and completing again on one day lists that day twice. */
  lemma ResetThenCompleteScenario()
    ensures var r := StreakData("dev", Development, 0, 0, None, []);
      CompleteAll(ResetAll(CompleteAll([r], "dev", "2024-01-10"), "dev"), "dev", "2024-01-10")
        == [StreakData("dev", Development, 1, 1, Some("2024-01-10"), ["2024-01-10", "2024-01-10"])]
  {
    var r := StreakData("dev", Development, 0, 0, None, []);
    var once := CompleteAll([r], "dev", "2024-01-10");
    assert once[0] == StreakData("dev", Development, 1, 1, Some("2024-01-10"), ["2024-01-10"]);
    var reset := ResetAll(once, "dev");
    assert reset[0] == StreakData("dev", Development, 0, 1, None, ["2024-01-10"]);
    var twice := CompleteAll(reset, "dev", "2024-01-10");
    assert ["2024-01-10"] + ["2024-01-10"] == ["2024-01-10", "2024-01-10"];
    assert twice[0] == StreakData("dev", Development, 1, 1, Some("2024-01-10"), ["2024-01-10", "2024-01-10"]);
  }

  /** Loading on 2024-01-10 a streak of 5 last marked 2024-01-01 zeroes it and keeps the date. */
  lemma LoadScenario()
    ensures var today := Date(2024, 1, 10);
      ReconcileAll([StreakData("nutri", Nutrition, 5, 7, Some("2024-01-01"), ["2024-01-01"])], today)
        == [StreakData("nutri", Nutrition, 0, 7, Some("2024-01-01"), ["2024-01-01"])]
  {
    var today := Date(2024, 1, 10);
    var r := StreakData("nutri", Nutrition, 5, 7, Some("2024-01-01"), ["2024-01-01"]);
    assert !Live(r.lastCompletedDate, today) by {
      DayString.FormatExample();
      assert PrevDay(today) == Date(2024, 1, 9);
      assert TodayString(today) == "2024-01-10";
      assert YesterdayString(today) == "2024-01-09";
    }
    var out := ReconcileAll([r], today);
    assert out[0] == r.(currentStreak := 0);
  }

  /** Holds the `streaks` state (App.tsx:36); each handler replaces the list. */
  class Tracker {
    var streaks: seq<StreakData>

    constructor ()
      ensures streaks == InitialData()
      ensures TotalStreak() == 0
    {
      streaks := InitialData();
      TotalInitialIsZero();
    }

    /**
     * The mount effect (App.tsx:42-62): `stored` is `None` when the storage
     * key is absent, empty or does not parse, and the list is then kept.
     */
    method Load(stored: Option<seq<StreakData>>, today: Date)
      requires Valid(today)
      modifies this
      ensures streaks == if stored.Some? then ReconcileAll(stored.value, today) else old(streaks)
      ensures stored.Some? ==> forall i :: 0 <= i < |streaks| ==>
        streaks[i].currentStreak > 0 ==> Live(streaks[i].lastCompletedDate, today)
      ensures stored.Some? ==> NoStreakWithoutDate(streaks)
    {
      if stored.Some? {
        ReconcileEstablishesNoStreakWithoutDate(stored.value, today);
        streaks := ReconcileAll(stored.value, today);
      }
    }

    /** handleComplete (App.tsx:65-86). */
    method HandleComplete(id: string, today: Date)
      requires Valid(today)
      modifies this
      ensures streaks == CompleteAll(old(streaks), id, TodayString(today))
      ensures UniqueIds(old(streaks)) && Consistent(old(streaks)) ==> UniqueIds(streaks) && Consistent(streaks)
      ensures NoStreakWithoutDate(old(streaks)) ==> NoStreakWithoutDate(streaks)
    {
      if UniqueIds(streaks) && Consistent(streaks) {
        CompletePreservesInvariants(streaks, id, TodayString(today));
      }
      if NoStreakWithoutDate(streaks) {
        CompleteKeepsNoStreakWithoutDate(streaks, id, TodayString(today));
      }
      streaks := CompleteAll(streaks, id, TodayString(today));
    }

    /** handleReset (App.tsx:88-97). */
    method HandleReset(id: string)
      modifies this
      ensures streaks == ResetAll(old(streaks), id)
      ensures Consistent(old(streaks)) ==> Consistent(streaks)
      ensures UniqueIds(old(streaks)) ==> UniqueIds(streaks)
      ensures NoStreakWithoutDate(old(streaks)) ==> NoStreakWithoutDate(streaks)
    {
      if UniqueIds(streaks) && Consistent(streaks) {
        ResetPreservesInvariants(streaks, id);
      }
      if NoStreakWithoutDate(streaks) {
        ResetKeepsNoStreakWithoutDate(streaks, id);
      }
      streaks := ResetAll(streaks, id);
    }

    /** The number shown in the header (App.tsx:104, 126). */
    function TotalStreak(): (t: nat)
      reads this
      ensures forall i :: 0 <= i < |streaks| ==> streaks[i].currentStreak <= t
    {
      Total(streaks)
    }
  }
}
