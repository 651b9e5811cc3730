/**
 * The logic of the task-history page (frontend/task-history.ts): the order and the
 * status labels of a day's tasks, a day's completion rate, the grouping of the
 * records by year, month and day, and the order of the years. The locale
 * formatting of a record's date is foreign: the year, month name and day label of
 * each record are inputs.
 */
module TaskHistory {
  import opened Wrappers
  import opened Seqs
  import opened Text
  import TasksPage

  /** A task as the history page receives it. */
  datatype HistoryTask = HistoryTask(title: string, difficulty: Option<string>, completed: bool)

  predicate Done(t: HistoryTask) {
    t.completed
  }

  predicate NotDone(t: HistoryTask) {
    !t.completed
  }

  // ---------------------------------------------------------------------------
  // A day's task list

  /**
   * `tasks.sort((a, b) => a.completed === b.completed ? 0 : a.completed ? -1 : 1)`. The
   * sort is stable, so it is the completed tasks followed by the others, each group in
   * its original order.
   */
  function SortCompletedFirst(tasks: seq<HistoryTask>): seq<HistoryTask> {
    Filter(tasks, Done) + Filter(tasks, NotDone)
  }

  /** The comparator of the sort: negative when `a` goes first, zero on a tie. */
  function Compare(a: HistoryTask, b: HistoryTask): int {
    if a.completed == b.completed then 0 else if a.completed then -1 else 1
  }

  lemma NoneDone(s: seq<HistoryTask>)
    requires forall x :: x in s ==> !x.completed
    ensures Filter(s, Done) == []
  {
    FilterMembers(s, Done);
    if Filter(s, Done) != [] {
      assert Filter(s, Done)[0] in Filter(s, Done);
    }
  }

  lemma NoneNotDone(s: seq<HistoryTask>)
    requires forall x :: x in s ==> x.completed
    ensures Filter(s, NotDone) == []
  {
    FilterMembers(s, NotDone);
    if Filter(s, NotDone) != [] {
      assert Filter(s, NotDone)[0] in Filter(s, NotDone);
    }
  }

  /**
   * The sorted list is ordered by the comparator (every completed task before every
   * other one), is a permutation of the input, and keeps each group's order.
   */
  lemma SortCompletedFirstCorrect(tasks: seq<HistoryTask>)
    ensures var r := SortCompletedFirst(tasks);
      (forall i, j :: 0 <= i < j < |r| ==> Compare(r[i], r[j]) <= 0) &&
      multiset(r) == multiset(tasks) &&
      Filter(r, Done) == Filter(tasks, Done) &&
      Filter(r, NotDone) == Filter(tasks, NotDone)
  {
    var a := Filter(tasks, Done);
    var b := Filter(tasks, NotDone);
    var r := a + b;
    FilterMembers(tasks, Done);
    FilterMembers(tasks, NotDone);
    forall i, j | 0 <= i < j < |r| ensures Compare(r[i], r[j]) <= 0 {
      if j < |a| {
        assert r[i] == a[i] && r[j] == a[j];
        assert a[i] in a && a[j] in a;
      } else if i < |a| {
        assert r[i] == a[i] && a[i] in a;
      } else {
        assert r[i] == b[i - |a|] && r[j] == b[j - |a|];
        assert b[i - |a|] in b && b[j - |a|] in b;
      }
    }
    FilterPartition(tasks, Done, NotDone);
    FilterAppend(a, b, Done);
    FilterAppend(a, b, NotDone);
    forall i | 0 <= i < |a| ensures Done(a[i]) {
      assert a[i] in a;
    }
    forall i | 0 <= i < |b| ensures NotDone(b[i]) {
      assert b[i] in b;
    }
    FilterAllPass(a, Done);
    FilterAllPass(b, NotDone);
    NoneDone(b);
    NoneNotDone(a);
  }

  /** `task.completed ? "completed" : "missed"`, the item's status and the end of its label. */
  function StatusLabel(t: HistoryTask): (s: string)
    ensures s == "completed" <==> t.completed
    ensures s == "missed" <==> !t.completed
  {
    if t.completed then "completed" else "missed"
  }

  /** `${task.difficulty}`: an absent difficulty prints as "undefined". */
  function DifficultyText(d: Option<string>): string {
    d.GetOr("undefined")
  }

  /**
   * The markup of one history item as written: the title and difficulty go in
   * unescaped. The template literal's newlines and indentation are left out, so
   * positions in this string are not positions in the page's markup.
   */
  function ItemHtmlAsWritten(t: HistoryTask): string {
    "<span>" + t.title + "</span><span class=\"task-difficulty\">" + DifficultyText(t.difficulty) +
    " — " + StatusLabel(t) + "</span>"
  }

  /**
   * A title holding markup ends up as markup in the page: the `<b>` tag stands at
   * offset 6 of the modelled string, right after the opening `<span>`.
   */
  lemma ItemHtmlInjectsTitle()
    ensures var t := HistoryTask("<b>x</b>", None, false);
      OccursAt(ItemHtmlAsWritten(t), "<b>", 6)
  {
    var t := HistoryTask("<b>x</b>", None, false);
    assert ItemHtmlAsWritten(t)[6..9] == "<b>";
  }

  /** The markup with the title and difficulty escaped as the tasks page does it. */
  function ItemHtml(t: HistoryTask): string {
    "<span>" + TasksPage.Escape(t.title) + "</span><span class=\"task-difficulty\">" +
    TasksPage.Escape(DifficultyText(t.difficulty)) + " — " + StatusLabel(t) + "</span>"
  }

  /** With escaping, the title's text lies between the first span's tags and holds no `<` or `>`. */
  lemma ItemHtmlKeepsTitleText(t: HistoryTask)
    ensures var e := TasksPage.Escape(t.title);
      ItemHtml(t)[..6] == "<span>" && ItemHtml(t)[6..6 + |e|] == e &&
      (forall i :: 0 <= i < |e| ==> e[i] != '<' && e[i] != '>') &&
      TasksPage.Unescape(e) == t.title
  {
    TasksPage.EscapeHasNoMarkup(t.title);
    TasksPage.UnescapeEscape(t.title);
  }

  // ---------------------------------------------------------------------------
  // A day's completion rate

  /**
   * `Math.round(tasks.filter(t => t.completed).length / tasks.length * 100)` as written:
   * `None` stands for NaN, which an empty day produces.
   */
  function DayRateAsWritten(tasks: seq<HistoryTask>): (r: Option<int>)
    ensures r.None? <==> tasks == []
  {
    if tasks == [] then None else Some(TasksPage.ProgressPercent(|Filter(tasks, Done)|, |tasks|))
  }

  /** A day whose record holds no task is labelled "NaN% complete". */
  lemma EmptyDayRateIsNaN()
    ensures DayRateAsWritten([]) == None
  {
  }

  /** The day's rate with an empty day at 0, as the tasks page's progress bar has it. */
  function DayRate(tasks: seq<HistoryTask>): int {
    TasksPage.ProgressPercent(|Filter(tasks, Done)|, |tasks|)
  }

  /** The rate is a percentage: 0 for an empty day or one with nothing done, 100 when all is done. */
  lemma DayRateBounds(tasks: seq<HistoryTask>)
    ensures 0 <= DayRate(tasks) <= 100
    ensures tasks != [] ==> DayRateAsWritten(tasks) == Some(DayRate(tasks))
    ensures Filter(tasks, Done) == [] ==> DayRate(tasks) == 0
    ensures tasks != [] && Filter(tasks, Done) == tasks ==> DayRate(tasks) == 100
  {
    TasksPage.ProgressPercentBounds(|Filter(tasks, Done)|, |tasks|);
  }

  // ---------------------------------------------------------------------------
  // Grouping by year, month and day

  /** One fetched record with the year, month name and day label of its date. */
  datatype Entry = Entry(year: int, month: string, day: string, tasks: seq<HistoryTask>)

  type Groups = map<int, map<string, map<string, seq<HistoryTask>>>>

  /** The tasks stored under a year, month and day, if any. */
  function Lookup(g: Groups, year: int, month: string, day: string): Option<seq<HistoryTask>> {
    if year in g && month in g[year] && day in g[year][month] then Some(g[year][month][day]) else None
  }

  /** One step of the grouping: create the year and month when missing, then store the day. */
  function Insert(g: Groups, e: Entry): Groups {
    var months := if e.year in g then g[e.year] else map[];
    var days := if e.month in months then months[e.month] else map[];
    g[e.year := months[e.month := days[e.day := e.tasks]]]
  }

  /** Grouping the entries in order. */
  function Group(entries: seq<Entry>): Groups
    decreases |entries|
  {
    if entries == [] then map[] else Insert(Group(entries[..|entries| - 1]), entries[|entries| - 1])
  }

  lemma LookupInsert(g: Groups, e: Entry, year: int, month: string, day: string)
    ensures Lookup(Insert(g, e), year, month, day) ==
      if (e.year, e.month, e.day) == (year, month, day) then Some(e.tasks) else Lookup(g, year, month, day)
  {
  }

  predicate HasKey(e: Entry, year: int, month: string, day: string) {
    e.year == year && e.month == month && e.day == day
  }

  /**
   * Last writer wins: a year, month and day is present exactly when some entry carries
   * it, and then it holds the tasks of the last such entry.
   */
  lemma {:induction false} GroupLastWriterWins(entries: seq<Entry>, year: int, month: string, day: string)
    ensures Lookup(Group(entries), year, month, day).None? <==>
      forall i :: 0 <= i < |entries| ==> !HasKey(entries[i], year, month, day)
    ensures forall i :: (0 <= i < |entries| && HasKey(entries[i], year, month, day) &&
                         (forall j :: i < j < |entries| ==> !HasKey(entries[j], year, month, day))) ==>
      Lookup(Group(entries), year, month, day) == Some(entries[i].tasks)
    decreases |entries|
  {
    if entries != [] {
      var n := |entries| - 1;
      var front := entries[..n];
      GroupLastWriterWins(front, year, month, day);
      LookupInsert(Group(front), entries[n], year, month, day);
      assert forall i :: 0 <= i < n ==> front[i] == entries[i];
    }
  }

  lemma UpdateSame<K, V>(m: map<K, V>, k: K)
    requires k in m
    ensures m[k := m[k]] == m
  {
  }

  lemma UpdateTwice<K, V>(m: map<K, V>, k: K, a: V, b: V)
    ensures m[k := a][k := b] == m[k := b]
  {
  }

  /** The `records.forEach` loop that fills `sortedTasks`. */
  method GroupRecords(entries: seq<Entry>) returns (sorted: Groups)
    ensures sorted == Group(entries)
  {
    sorted := map[];
    var i := 0;
    while i < |entries|
      invariant 0 <= i <= |entries|
      invariant sorted == Group(entries[..i])
    {
      var e := entries[i];
      ghost var before := sorted;
      ghost var months := if e.year in before then before[e.year] else map[];
      ghost var days := if e.month in months then months[e.month] else map[];
      if e.year !in sorted {
        sorted := sorted[e.year := map[]];
      } else {
        UpdateSame(sorted, e.year);
      }
      assert sorted == before[e.year := months];
      if e.month !in sorted[e.year] {
        sorted := sorted[e.year := sorted[e.year][e.month := map[]]];
      } else {
        UpdateSame(months, e.month);
      }
      assert sorted == before[e.year := months[e.month := days]];
      sorted := sorted[e.year := sorted[e.year][e.month := sorted[e.year][e.month][e.day := e.tasks]]];
      UpdateTwice(months, e.month, days, days[e.day := e.tasks]);
      UpdateTwice(before, e.year, months[e.month := days], months[e.month := days[e.day := e.tasks]]);
      assert sorted == Insert(before, e);
      assert entries[..i + 1][..i] == entries[..i] && entries[..i + 1][i] == e;
      i := i + 1;
    }
    assert entries[..i] == entries;
  }

  // ---------------------------------------------------------------------------
  // Years, newest first

  predicate StrictlyDecreasing(r: seq<int>) {
    forall i, j :: 0 <= i < j < |r| ==> r[i] > r[j]
  }

  /** Places one year into a newest-first list, once. */
  function InsertYear(y: int, r: seq<int>): (r': seq<int>)
    requires StrictlyDecreasing(r)
    ensures StrictlyDecreasing(r')
    ensures forall z :: z in r' <==> z in r || z == y
    decreases |r|
  {
    if r == [] then [y]
    else if y > r[0] then [y] + r
    else if y == r[0] then r
    else
      var rest := InsertYear(y, r[1..]);
      assert forall z :: z in r[1..] ==> z < r[0];
      assert forall k :: 0 <= k < |rest| ==> rest[k] in rest;
      [r[0]] + rest
  }

  /**
   * `Object.entries(sortedTasks).sort(([a], [b]) => Number(b) - Number(a))` on the
   * object's years: every year once, in strictly decreasing order.
   */
  function YearsDescending(years: seq<int>): (r: seq<int>)
    ensures forall y :: y in r <==> y in years
    ensures StrictlyDecreasing(r)
    decreases |years|
  {
    if years == [] then []
    else
      var r := InsertYear(years[|years| - 1], YearsDescending(years[..|years| - 1]));
      assert forall y :: y in years <==> y in years[..|years| - 1] || y == years[|years| - 1];
      r
  }

  /** The years listed are exactly the years of the grouped entries. */
  lemma {:induction false} GroupYears(entries: seq<Entry>)
    ensures forall y :: y in Group(entries) <==> exists i :: 0 <= i < |entries| && entries[i].year == y
    decreases |entries|
  {
    if entries != [] {
      var n := |entries| - 1;
      GroupYears(entries[..n]);
      assert forall i :: 0 <= i < n ==> entries[..n][i] == entries[i];
    }
  }
}
