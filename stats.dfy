/**
 * The statistics route (backend/routes/stats.ts): the calendar heat-map built from
 * `daily_completion_summary` and the statistics answer for the current user.
 */
module Stats {
  import opened Wrappers
  import opened Http
  import opened Text
  import opened Calendar
  import opened Auth
  import opened UserModel

  const SecondsPerDay: int := 86400

  /** `String(NaN)`: the key an unparsable date string ends up under. */
  const InvalidKey: string := "NaN"

  /**
   * `Math.floor(new Date(dateStr + 'T00:00:00Z').getTime() / 1000).toString()`: the
   * Unix time in seconds of UTC midnight of the date, or "NaN" when the string is
   * not a date. Midnight is a whole number of days, so the floor is exact.
   */
  function HeatmapKey(dateStr: string): string {
    match ParseFullDate(dateStr)
    case Some(d) => IntToString(DaysFromCivil(d) * SecondsPerDay)
    case None => InvalidKey
  }

  /** The key of a date's `full-date` string counts the seconds since 1970-01-01. */
  lemma HeatmapKeyOfDate(d: Date)
    requires Valid(d) && FourDigitYear(d)
    ensures HeatmapKey(FullDate(d)) == IntToString(DaysFromCivil(d) * SecondsPerDay)
  {
    ParseFullDateOfFullDate(d);
  }

  /** The epoch is key "0", and each next day's key is 86400 seconds further. */
  lemma HeatmapKeyNextDay(d: Date)
    requires Valid(d) && FourDigitYear(d) && FourDigitYear(NextDay(d))
    ensures HeatmapKey(FullDate(Date(1970, 1, 1))) == "0"
    ensures HeatmapKey(FullDate(NextDay(d))) == IntToString(DaysFromCivil(d) * SecondsPerDay + SecondsPerDay)
  {
    DaysFromCivilEpoch();
    HeatmapKeyOfDate(Date(1970, 1, 1));
    HeatmapKeyOfDate(NextDay(d));
    DaysFromCivilNext(d);
  }

  /** A real date's key is never the "NaN" key. */
  lemma ValidKeyNotInvalid(dateStr: string)
    requires ParseFullDate(dateStr).Some?
    ensures HeatmapKey(dateStr) != InvalidKey
  {
    var k := HeatmapKey(dateStr);
    if DaysFromCivil(ParseFullDate(dateStr).value) * SecondsPerDay >= 0 {
      assert AllDigits(k);
      assert IsDigit(k[0]);
    }
  }

  /** Distinct date strings never share a key, so no day of the heat-map overwrites another. */
  lemma HeatmapKeyInjective(s: string, t: string)
    requires ParseFullDate(s).Some? && HeatmapKey(s) == HeatmapKey(t)
    ensures s == t
  {
    ValidKeyNotInvalid(s);
    var a := ParseFullDate(s).value;
    var b := ParseFullDate(t).value;
    IntToStringInjective(DaysFromCivil(a) * SecondsPerDay, DaysFromCivil(b) * SecondsPerDay);
    DaysFromCivilInjective(a, b);
    ParseFullDateInjective(s, t);
  }

  /**
   * `convertToCalendarData(summary)`: the keys of the result are the keys of the
   * entries' dates, every real date keeps its own count, and the "NaN" key, when
   * present, holds the count of one of the unparsable entries (whichever the
   * iteration visits last).
   */
  method ConvertToCalendarData(summary: map<string, int>) returns (data: map<string, int>)
    ensures data.Keys == set s | s in summary :: HeatmapKey(s)
    ensures forall s :: s in summary && ParseFullDate(s).Some? ==> HeatmapKey(s) in data && data[HeatmapKey(s)] == summary[s]
    ensures InvalidKey in data ==>
      exists s :: s in summary && ParseFullDate(s).None? && data[InvalidKey] == summary[s]
  {
    data := map[];
    var rest := summary.Keys;
    while rest != {}
      invariant rest <= summary.Keys
      invariant data.Keys == set s | s in summary && s !in rest :: HeatmapKey(s)
      invariant forall s :: s in summary && s !in rest && ParseFullDate(s).Some? ==>
        HeatmapKey(s) in data && data[HeatmapKey(s)] == summary[s]
      invariant InvalidKey in data ==>
        exists s :: s in summary && s !in rest && ParseFullDate(s).None? && data[InvalidKey] == summary[s]
      decreases rest
    {
      var s :| s in rest;
      forall x | x in summary && x !in rest && ParseFullDate(x).Some?
        ensures HeatmapKey(x) != HeatmapKey(s)
      {
        if HeatmapKey(x) == HeatmapKey(s) {
          HeatmapKeyInjective(x, s);
        }
      }
      if ParseFullDate(s).Some? {
        ValidKeyNotInvalid(s);
      }
      data := data[HeatmapKey(s) := summary[s]];
      rest := rest - {s};
    }
  }

  /** `Math.max(0, created - completed)`. */
  function TasksMissed(created: int, completed: int): (n: int)
    ensures n >= 0 && n >= created - completed
    ensures n == 0 || n == created - completed
  {
    if created - completed > 0 then created - completed else 0
  }

  datatype StatsBody = StatsBody(
    username: string,
    total_tasks_completed: int,
    total_tasks_started: int,
    tasks_missed: int,
    total_points: int,
    calendar_heatmap_data: map<string, int>)

  /**
   * GET `/`: a refused token is 401, an unknown user 404; otherwise the counters of the
   * user's document, the tasks started being the ones created, the tasks missed the
   * shortfall of completions, and the heat-map of its summary.
   */
  method GetStats(db: UserStore, t: Token) returns (res: Response<StatsBody>)
    ensures Authenticate(t).Denied? ==> res == Reject(Unauthorized)
    ensures Authenticate(t).Granted? && Authenticate(t).userId !in db.users ==> res == Reject(NotFound)
    ensures Authenticate(t).Granted? && Authenticate(t).userId in db.users ==>
      var u := db.users[Authenticate(t).userId];
      res.Reply? && res.status == Ok &&
      res.body.username == u.username &&
      res.body.total_tasks_completed == u.total_tasks_completed &&
      res.body.total_tasks_started == u.total_tasks_created &&
      res.body.tasks_missed == TasksMissed(u.total_tasks_created, u.total_tasks_completed) &&
      res.body.total_points == u.total_points &&
      res.body.calendar_heatmap_data.Keys == (set s | s in u.daily_completion_summary :: HeatmapKey(s)) &&
      (forall s :: s in u.daily_completion_summary && ParseFullDate(s).Some? ==>
        res.body.calendar_heatmap_data[HeatmapKey(s)] == u.daily_completion_summary[s])
  {
    var auth := Authenticate(t);
    if auth.Denied? {
      return Reject(auth.status);
    }
    if auth.userId !in db.users {
      return Reject(NotFound);
    }
    var u := db.users[auth.userId];
    var missed := TasksMissed(u.total_tasks_created, u.total_tasks_completed);
    var calendar := ConvertToCalendarData(u.daily_completion_summary);
    return Reply(Ok, StatsBody(u.username, u.total_tasks_completed, u.total_tasks_created, missed,
                               u.total_points, calendar));
  }
}
