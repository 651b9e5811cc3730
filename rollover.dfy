/**
 * The daily streak rollover (backend/utils/dailyRollover.ts): the date strings
 * for today and yesterday, the streak update, and the once-a-day processing of
 * one user document. The clock is the `today` parameter.
 */
module Rollover {
  import opened Wrappers
  import opened Calendar
  import opened UserModel

  /** `getTodayString()` for the local calendar day `today`. */
  function TodayString(today: Date): string
    requires Valid(today)
  {
    LocalDateString(today)
  }

  /** `getYesterdayString()`: the same rendering of the calendar day before `today`. */
  function YesterdayString(today: Date): string
    requires Valid(today)
  {
    LocalDateString(PrevDay(today))
  }

  /** For four-digit years, today's string is the RFC 3339 `full-date` of today. */
  lemma TodayStringIsFullDate(today: Date)
    requires Valid(today) && 1000 <= today.year <= 9999
    ensures FullDateShape(TodayString(today))
    ensures ParseFullDate(TodayString(today)) == Some(today)
  {
    LocalDateStringIsFullDate(today);
    ParseFullDateOfFullDate(today);
  }

  /**
   * Yesterday's string is the `full-date` of a valid date exactly one day before
   * today, across month and year ends and February 29.
   */
  lemma YesterdayIsOneDayBefore(today: Date)
    requires Valid(today) && 1001 <= today.year <= 9999
    ensures var p := ParseFullDate(YesterdayString(today));
      p.Some? && Valid(p.value) && DaysFromCivil(p.value) == DaysFromCivil(today) - 1
  {
    var y := PrevDay(today);
    assert 1000 <= y.year <= 9999;
    LocalDateStringIsFullDate(y);
    ParseFullDateOfFullDate(y);
    DaysFromCivilPrev(today);
  }

  /** `daily_completion_summary.get(date) || 0`: a missing entry counts as 0. */
  function SummaryCount(summary: map<string, int>, date: string): (n: int)
    ensures date !in summary ==> n == 0
    ensures date in summary ==> n == summary[date]
  {
    if date in summary then summary[date] else 0
  }

  /**
   * `calculateStreak(user, yesterday)`: the streak continues by one when the user
   * completed something yesterday and restarts at 0 otherwise, and the record
   * streak follows it upwards. No other field changes.
   */
  function CalculateStreak(u: User, yesterday: string): (v: User)
    ensures SummaryCount(u.daily_completion_summary, yesterday) > 0 ==> v.current_streak == u.current_streak + 1
    ensures SummaryCount(u.daily_completion_summary, yesterday) <= 0 ==> v.current_streak == 0
    ensures v.highest_streak >= u.highest_streak && v.highest_streak >= v.current_streak
    ensures v.highest_streak == if v.current_streak > u.highest_streak then v.current_streak else u.highest_streak
    ensures v == u.(current_streak := v.current_streak, highest_streak := v.highest_streak)
  {
    var current := if SummaryCount(u.daily_completion_summary, yesterday) > 0 then u.current_streak + 1 else 0;
    var highest := if current > u.highest_streak then current else u.highest_streak;
    u.(current_streak := current, highest_streak := highest)
  }

  /** Whether the user's rollover for `today` has already run. */
  predicate RolledOverToday(u: User, today: Date)
    requires Valid(today)
  {
    u.last_rollover_date == Some(TodayString(today))
  }

  /** The document `processDailyRollover` saves: unchanged when already stamped today. */
  function RollOver(u: User, today: Date): (v: User)
    requires Valid(today)
    ensures RolledOverToday(v, today)
    ensures RolledOverToday(u, today) ==> v == u
    ensures !RolledOverToday(u, today) ==>
      v == CalculateStreak(u, YesterdayString(today)).(last_rollover_date := Some(TodayString(today)))
  {
    if RolledOverToday(u, today) then u
    else CalculateStreak(u, YesterdayString(today)).(last_rollover_date := Some(TodayString(today)))
  }

  /** Rolling over twice on the same day is rolling over once. */
  lemma RollOverIdempotent(u: User, today: Date)
    requires Valid(today)
    ensures RollOver(RollOver(u, today), today) == RollOver(u, today)
  {
  }

  /** The rollover keeps `0 <= current_streak <= highest_streak`, and the record streak never drops. */
  lemma RollOverKeepsStreakInvariant(u: User, today: Date)
    requires Valid(today) && StreakInvariant(u)
    ensures StreakInvariant(RollOver(u, today))
    ensures RollOver(u, today).highest_streak >= u.highest_streak
  {
  }

  predicate AllValid(days: seq<Date>) {
    forall i :: 0 <= i < |days| ==> Valid(days[i])
  }

  /** On each of `days`, the summary holds a positive count for the day before. */
  predicate ActiveBefore(summary: map<string, int>, days: seq<Date>)
    requires AllValid(days)
  {
    forall i :: 0 <= i < |days| ==> SummaryCount(summary, YesterdayString(days[i])) > 0
  }

  /** The days render to distinct strings, none of them equal to the stamp. */
  predicate FreshDays(stamp: Option<string>, days: seq<Date>)
    requires AllValid(days)
  {
    (forall i :: 0 <= i < |days| ==> stamp != Some(TodayString(days[i]))) &&
    (forall i, j :: 0 <= i < j < |days| ==> TodayString(days[i]) != TodayString(days[j]))
  }

  lemma FreshDaysTail(stamp: Option<string>, days: seq<Date>)
    requires AllValid(days) && days != [] && FreshDays(stamp, days)
    ensures AllValid(days[1..]) && FreshDays(Some(TodayString(days[0])), days[1..])
  {
    var rest := days[1..];
    forall i, j | 0 <= i < j < |rest| ensures TodayString(rest[i]) != TodayString(rest[j]) {
      assert rest[i] == days[i + 1] && rest[j] == days[j + 1];
    }
    forall i | 0 <= i < |rest| ensures Some(TodayString(days[0])) != Some(TodayString(rest[i])) {
      assert rest[i] == days[i + 1];
    }
  }

  lemma ActiveBeforeTail(summary: map<string, int>, days: seq<Date>)
    requires AllValid(days) && days != [] && ActiveBefore(summary, days)
    ensures AllValid(days[1..]) && ActiveBefore(summary, days[1..])
  {
    forall i | 0 <= i < |days| - 1 ensures SummaryCount(summary, YesterdayString(days[1..][i])) > 0 {
      assert days[1..][i] == days[i + 1];
    }
  }

  /**
   * Over distinct days on each of which the user had completed something the day
   * before, each rollover adds exactly one to the streak.
   */
  lemma {:induction false} StreakGrowsOverActiveDays(u: User, days: seq<Date>)
    requires AllValid(days)
    requires FreshDays(u.last_rollover_date, days)
    requires ActiveBefore(u.daily_completion_summary, days)
    ensures RollOverAll(u, days).current_streak == u.current_streak + |days|
    decreases |days|
  {
    if days != [] {
      var v := RollOver(u, days[0]);
      assert v.daily_completion_summary == u.daily_completion_summary;
      assert v.last_rollover_date == Some(TodayString(days[0]));
      assert v.current_streak == u.current_streak + 1;
      FreshDaysTail(u.last_rollover_date, days);
      ActiveBeforeTail(u.daily_completion_summary, days);
      StreakGrowsOverActiveDays(v, days[1..]);
    }
  }

  /** Rollovers on the given days, in order. */
  function RollOverAll(u: User, days: seq<Date>): User
    requires AllValid(days)
    decreases |days|
  {
    if days == [] then u else RollOverAll(RollOver(u, days[0]), days[1..])
  }

  /**
   * `processDailyRollover(userId)`: an unknown user, a rollover already done today and a
   * failed save leave the store unchanged and raise nothing; otherwise the rolled-over
   * document replaces the stored one.
   */
  method ProcessDailyRollover(db: UserStore, userId: UserId, today: Date, saveSucceeds: bool)
    requires db.Valid() && Valid(today)
    modifies db
    ensures db.Valid()
    ensures userId !in old(db.users) ==> db.users == old(db.users)
    ensures userId in old(db.users) && (RolledOverToday(old(db.users)[userId], today) || !saveSucceeds) ==>
      db.users == old(db.users)
    ensures userId in old(db.users) && saveSucceeds ==>
      db.users == old(db.users)[userId := RollOver(old(db.users)[userId], today)]
  {
    if userId !in db.users {
      return;
    }
    var user := db.users[userId];
    if user.last_rollover_date == Some(TodayString(today)) {
      return;
    }
    user := CalculateStreak(user, YesterdayString(today));
    user := user.(last_rollover_date := Some(TodayString(today)));
    if saveSucceeds {
      ReplaceKeepsWellFormed(db.users, userId, user);
      db.users := db.users[userId := user];
    }
  }
}
