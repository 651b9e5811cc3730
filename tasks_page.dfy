/**
 * The logic of the tasks page (frontend/tasks.js) that does not touch the DOM or the
 * network: HTML escaping, the difficulty guessed from a title, the difficulty bars,
 * the patching of the page's copy of a record when a task is toggled or cancelled,
 * the progress percentage and the countdown to midnight.
 */
module TasksPage {
  import opened Wrappers
  import opened Text
  import opened RecordModel

  // ---------------------------------------------------------------------------
  // HTML escaping

  /** The characters `escapeHtml` replaces. */
  predicate IsSpecial(c: char) {
    c == '&' || c == '<' || c == '>' || c == '"' || c == '\'' || c == '/' || c == '`' || c == '='
  }

  /** The fixed replacement of one character; every other character stands for itself. */
  function Entity(c: char): (e: string)
    ensures !IsSpecial(c) ==> e == [c]
    ensures IsSpecial(c) ==> |e| >= 4 && e[0] == '&' && e[|e| - 1] == ';'
  {
    match c
    case '&' => "&amp;"
    case '<' => "&lt;"
    case '>' => "&gt;"
    case '"' => "&quot;"
    case '\'' => "&#39;"
    case '/' => "&#x2F;"
    case '`' => "&#x60;"
    case '=' => "&#x3D;"
    case _ => [c]
  }

  /** `escapeHtml(unsafe)` on a string: each character replaced by its entity. */
  function Escape(s: string): string
    decreases |s|
  {
    if s == [] then [] else Entity(s[0]) + Escape(s[1..])
  }

  /**
   * `escapeHtml(unsafe)`, with `String(unsafe || "")` taking an absent value to the empty
   * string: the output holds no `<` or `>` and decodes back to the input text.
   */
  function EscapeHtml(unsafe: Option<string>): (r: string)
    ensures unsafe.None? ==> r == ""
    ensures forall i :: 0 <= i < |r| ==> r[i] != '<' && r[i] != '>'
    ensures Unescape(r) == unsafe.GetOr("")
  {
    EscapeHasNoMarkup(unsafe.GetOr(""));
    UnescapeEscape(unsafe.GetOr(""));
    Escape(unsafe.GetOr(""))
  }

  /** No character of the output but `&` is special, so neither `<` nor `>` survives. */
  lemma {:induction false} EscapeHasNoMarkup(s: string)
    ensures forall i :: 0 <= i < |Escape(s)| ==> Escape(s)[i] == '&' || !IsSpecial(Escape(s)[i])
    decreases |s|
  {
    if s != [] {
      EscapeHasNoMarkup(s[1..]);
      var e := Entity(s[0]);
      var rest := Escape(s[1..]);
      assert Escape(s) == e + rest;
      forall i | 0 <= i < |e| ensures e[i] == '&' || !IsSpecial(e[i]) {
      }
      forall i | |e| <= i < |e| + |rest| ensures (e + rest)[i] == '&' || !IsSpecial((e + rest)[i]) {
        assert (e + rest)[i] == rest[i - |e|];
      }
    }
  }

  /** Reads one entity back, or one plain character. */
  function DecodeFirst(s: string): (r: (char, nat))
    requires s != []
    ensures 1 <= r.1 <= |s|
  {
    if |s| >= 5 && s[..5] == "&amp;" then ('&', 5)
    else if |s| >= 4 && s[..4] == "&lt;" then ('<', 4)
    else if |s| >= 4 && s[..4] == "&gt;" then ('>', 4)
    else if |s| >= 6 && s[..6] == "&quot;" then ('"', 6)
    else if |s| >= 5 && s[..5] == "&#39;" then ('\'', 5)
    else if |s| >= 6 && s[..6] == "&#x2F;" then ('/', 6)
    else if |s| >= 6 && s[..6] == "&#x60;" then ('`', 6)
    else if |s| >= 6 && s[..6] == "&#x3D;" then ('=', 6)
    else (s[0], 1)
  }

  /** The inverse of escaping: entities back to their characters. */
  function Unescape(s: string): string
    decreases |s|
  {
    if s == [] then [] else [DecodeFirst(s).0] + Unescape(s[DecodeFirst(s).1..])
  }

  /** A character other than `&` is read back as itself. */
  lemma DecodePlain(s: string)
    requires s != [] && s[0] != '&'
    ensures DecodeFirst(s) == (s[0], 1)
  {
    forall k | 1 <= k <= |s| ensures s[..k][0] == s[0] {
    }
  }

  lemma DecodeEntity(c: char, t: string)
    ensures DecodeFirst(Entity(c) + t) == (c, |Entity(c)|)
  {
    var s := Entity(c) + t;
    if IsSpecial(c) {
      var e := Entity(c);
      assert s[..|e|] == e;
      forall k | 0 <= k < |e| ensures s[k] == e[k] {
      }
      match c
      case '&' => assert s[..5] == "&amp;";
      case '<' => assert s[1] == 'l';
      case '>' => assert s[1] == 'g';
      case '"' => assert s[1] == 'q';
      case '\'' => assert s[1] == '#' && s[2] == '3';
      case '/' => assert s[1] == '#' && s[2] == 'x' && s[3] == '2';
      case '`' => assert s[1] == '#' && s[2] == 'x' && s[3] == '6';
      case '=' => assert s[1] == '#' && s[2] == 'x' && s[3] == '3';
    } else {
      DecodePlain(s);
    }
  }

  /** Escaping loses nothing: unescaping gives the original text back. */
  lemma {:induction false} UnescapeEscape(s: string)
    ensures Unescape(Escape(s)) == s
    decreases |s|
  {
    if s != [] {
      var t := Escape(s[1..]);
      DecodeEntity(s[0], t);
      assert (Entity(s[0]) + t)[|Entity(s[0])|..] == t;
      UnescapeEscape(s[1..]);
    }
  }

  // ---------------------------------------------------------------------------
  // Difficulty from a title

  /**
   * `inferDifficultyFromTitle(title)`: on the lower-cased title, "workout" or "project"
   * makes it hard, checked first; otherwise "read" or "plan" makes it easy; otherwise
   * medium. An absent title is the empty string.
   */
  function InferDifficulty(title: Option<string>): (d: Difficulty)
    ensures var t := LowerCase(title.GetOr(""));
      (d == Hard <==> Contains(t, "workout") || Contains(t, "project")) &&
      (d == Easy <==> !Contains(t, "workout") && !Contains(t, "project") && (Contains(t, "read") || Contains(t, "plan")))
  {
    var t := LowerCase(title.GetOr(""));
    if Contains(t, "workout") || Contains(t, "project") then Hard
    else if Contains(t, "read") || Contains(t, "plan") then Easy
    else Medium
  }

  lemma LowerCaseIdempotent(s: string)
    ensures LowerCase(LowerCase(s)) == LowerCase(s)
  {
  }

  /** The guess ignores letter case: a title and its lower-cased form get the same difficulty. */
  lemma InferIgnoresCase(s: string)
    ensures InferDifficulty(Some(LowerCase(s))) == InferDifficulty(Some(s))
  {
    LowerCaseIdempotent(s);
  }

  /** A keyword for hard wins over one for easy, wherever they stand. */
  lemma HardKeywordWins(s: string, i: nat)
    requires OccursAt(LowerCase(s), "project", i)
    ensures InferDifficulty(Some(s)) == Hard
  {
  }

  /** The Kelvin sign counts as a `k`: "WOR\U{212A}OUT PLAN" lower-cases to "workout plan" and is hard. */
  lemma KelvinSignIsK()
    ensures InferDifficulty(Some("WOR\U{212A}OUT PLAN")) == Hard
  {
    var t := LowerCase("WOR\U{212A}OUT PLAN");
    assert t[..7] == "workout";
    assert OccursAt(t, "workout", 0);
  }

  // ---------------------------------------------------------------------------
  // Difficulty bars

  /** `span.dataset.difficulty || span.textContent.trim().toLowerCase()`. */
  function BarLabel(dataset: string, text: string): string {
    if dataset != "" then dataset else LowerCase(Trim(text))
  }

  /** `{ easy: 1, medium: 2, hard: 3 }[difficulty] || 0`. */
  function DifficultyLevel(name: string): (n: nat)
    ensures n <= 3
    ensures n == 1 <==> name == "easy"
    ensures n == 2 <==> name == "medium"
    ensures n == 3 <==> name == "hard"
  {
    if name == "easy" then 1 else if name == "medium" then 2 else if name == "hard" then 3 else 0
  }

  /** With no label stored, a text without white space at its ends is read lower-cased. */
  lemma BarLabelOfText(text: string)
    requires text != [] && !IsSpace(text[0]) && !IsSpace(text[|text| - 1])
    ensures BarLabel("", text) == LowerCase(text)
  {
    TrimUntouched(text);
  }

  /** A span showing a stored difficulty name and carrying no label yet reads the name lower-cased. */
  lemma StoredNameLabel(d: Difficulty)
    ensures BarLabel("", DifficultyName(d)) == LowerCase(DifficultyName(d))
  {
    BarLabelOfText(DifficultyName(d));
  }

  /** The stored difficulty names, lower-cased, give levels 1 to 3 in order. */
  lemma StoredDifficultyLevels()
    ensures DifficultyLevel(LowerCase(DifficultyName(Easy))) == 1
    ensures DifficultyLevel(LowerCase(DifficultyName(Medium))) == 2
    ensures DifficultyLevel(LowerCase(DifficultyName(Hard))) == 3
  {
    assert LowerCase("Easy") == "easy";
    assert LowerCase("Medium") == "medium";
    assert LowerCase("Hard") == "hard";
  }

  /**
   * `renderDifficultyBars` on one span: the label is the stored `data-difficulty`, or
   * else the span's trimmed, lower-cased text, and it is stored back; of the three bars,
   * bar `i` (counting from 1, stored at index `i - 1`) is filled when `i <= level`, so
   * the number of filled bars is the label's level.
   */
  method RenderBars(dataset: string, text: string) returns (name: string, filled: seq<bool>)
    ensures name == BarLabel(dataset, text)
    ensures |filled| == 3
    ensures forall i :: 0 <= i < 3 ==> (filled[i] <==> i + 1 <= DifficultyLevel(name))
    ensures multiset(filled)[true] == DifficultyLevel(name)
  {
    name := BarLabel(dataset, text);
    var level := DifficultyLevel(name);
    filled := [];
    for i := 1 to 4
      invariant |filled| == i - 1
      invariant forall j :: 0 <= j < i - 1 ==> (filled[j] <==> j + 1 <= level)
      invariant multiset(filled)[true] == if i - 1 <= level then i - 1 else level
    {
      filled := filled + [i <= level];
    }
  }

  /**
   * Rendering again a span already rendered (its name stored, its text cleared to the
   * bars, which have no text) reads the same name, so the page draws the same bars.
   */
  lemma RenderAgainSameLabel(dataset: string, text: string)
    ensures BarLabel(BarLabel(dataset, text), "") == BarLabel(dataset, text)
  {
    if dataset == "" && BarLabel(dataset, text) == "" {
      assert Trim("") == "";
    }
  }

  // ---------------------------------------------------------------------------
  // The page's copy of a record

  /** A task as the page holds it: what the server sent, or `{ title, completed }` pushed locally. */
  datatype ClientTask = ClientTask(title: string, difficulty: Option<string>, completed: bool)

  /** `tasks.findIndex(t => t.title === title)`, with -1 as `None`. */
  function FindTitle(tasks: seq<ClientTask>, title: string): (r: Option<nat>)
    ensures r.None? <==> forall i :: 0 <= i < |tasks| ==> tasks[i].title != title
    ensures r.Some? ==> (r.value < |tasks| && tasks[r.value].title == title &&
                         forall i :: 0 <= i < r.value ==> tasks[i].title != title)
    decreases |tasks|
  {
    if tasks == [] then None
    else if tasks[0].title == title then Some(0)
    else match FindTitle(tasks[1..], title)
      case None => None
      case Some(i) => Some(i + 1)
  }

  /** The first task with the title gets the completion flag, or a new task is appended. */
  function PatchByTitle(tasks: seq<ClientTask>, title: string, completed: bool): seq<ClientTask> {
    match FindTitle(tasks, title)
    case Some(i) => tasks[i := tasks[i].(completed := completed)]
    case None => tasks + [ClientTask(title, None, completed)]
  }

  /**
   * Patching changes only the first task with that title, and only its flag; without
   * such a task, exactly one task with the title and flag is appended.
   */
  lemma PatchByTitleEffect(tasks: seq<ClientTask>, title: string, completed: bool)
    ensures var r := PatchByTitle(tasks, title, completed);
      var found := FindTitle(tasks, title);
      (found.Some? ==> (|r| == |tasks| && r[found.value] == tasks[found.value].(completed := completed) &&
                        forall i :: 0 <= i < |tasks| && i != found.value ==> r[i] == tasks[i])) &&
      (found.None? ==> r[..|tasks|] == tasks && r == tasks + [ClientTask(title, None, completed)])
  {
  }

  /** After a patch the first task with the title carries the flag, so patching again changes nothing. */
  lemma PatchByTitleIdempotent(tasks: seq<ClientTask>, title: string, completed: bool)
    ensures var r := PatchByTitle(tasks, title, completed);
      FindTitle(r, title).Some? && r[FindTitle(r, title).value].completed == completed &&
      PatchByTitle(r, title, completed) == r
  {
    var r := PatchByTitle(tasks, title, completed);
    var found := FindTitle(tasks, title);
    if found.Some? {
      assert FindTitle(r, title) == found by {
        assert forall i :: 0 <= i < found.value ==> r[i] == tasks[i];
      }
      assert r[found.value := r[found.value].(completed := completed)] == r;
    } else {
      assert forall i :: 0 <= i < |tasks| ==> r[i] == tasks[i];
      assert r[|tasks|].title == title;
      assert FindTitle(r, title) == Some(|tasks|);
      assert r[|tasks| := r[|tasks|].(completed := completed)] == r;
    }
  }

  /** The page's record for a day (`todayRecord` or `tomorrowRecord`). */
  class ClientRecord {
    var tasks: seq<ClientTask>

    constructor (tasks: seq<ClientTask>)
      ensures this.tasks == tasks
    {
      this.tasks := tasks;
    }

    /**
     * `toggleTaskState` on the task element with this title and status: the new flag
     * is the opposite of "completed" (any other status counts as not completed), and the
     * record is patched by title with it.
     */
    method ToggleTaskState(title: string, status: string) returns (completedNow: bool)
      modifies this
      ensures completedNow <==> status != "completed"
      ensures tasks == PatchByTitle(old(tasks), title, completedNow)
    {
      completedNow := status != "completed";
      var idx := FindTitle(tasks, title);
      if idx.Some? {
        tasks := tasks[idx.value := tasks[idx.value].(completed := completedNow)];
      } else {
        tasks := tasks + [ClientTask(title, None, completedNow)];
      }
    }

    /** `toggleTomorrowCancel`: whatever the element's status, the record's task is marked not completed. */
    method ToggleTomorrowCancel(title: string)
      modifies this
      ensures tasks == PatchByTitle(old(tasks), title, false)
    {
      var idx := FindTitle(tasks, title);
      if idx.Some? {
        tasks := tasks[idx.value := tasks[idx.value].(completed := false)];
      } else {
        tasks := tasks + [ClientTask(title, None, false)];
      }
    }
  }

  // ---------------------------------------------------------------------------
  // Progress and countdown

  /**
   * `tasks.length ? Math.round(completed / tasks.length * 100) : 0` on exact rationals:
   * the integer nearest to the percentage, halves rounded up.
   */
  function ProgressPercent(completed: nat, total: nat): (p: int)
    ensures total == 0 ==> p == 0
    ensures total > 0 ==> 2 * total * p <= 200 * completed + total < 2 * total * p + 2 * total
  {
    if total == 0 then 0 else (200 * completed + total) / (2 * total)
  }

  /** Multiplying by a positive number keeps a strict order, in both directions. */
  lemma MulCancel(t: int, a: int, b: int)
    requires t > 0 && t * a < t * b
    ensures a < b
  {
    assert t * (b - a) > 0;
  }

  /** With no more completed than present, the percentage is between 0 and 100, at the ends exactly at none and all. */
  lemma ProgressPercentBounds(completed: nat, total: nat)
    requires completed <= total
    ensures 0 <= ProgressPercent(completed, total) <= 100
    ensures completed == 0 ==> ProgressPercent(completed, total) == 0
    ensures total > 0 && completed == total ==> ProgressPercent(completed, total) == 100
  {
    if total > 0 {
      var p := ProgressPercent(completed, total);
      var t := 2 * total;
      assert t * p < t * 101;
      MulCancel(t, p, 101);
      assert t * (-1) < t * p;
      MulCancel(t, -1, p);
      if completed == 0 {
        assert t * p < t * 1;
        MulCancel(t, p, 1);
      }
      if completed == total {
        assert t * 99 < t * p;
        MulCancel(t, 99, p);
      }
    }
  }

  /**
   * The fields `updateCountdown` shows for a positive `diff`: `floor(diff / 3600000)`,
   * `floor(diff / 60000 % 60)` and `floor(diff / 1000 % 60)`. They are the whole hours,
   * minutes and seconds of `diff`: the minutes and seconds below 60, and together
   * less than a second short of `diff`.
   */
  function CountdownParts(diff: int): (p: (nat, nat, nat))
    requires diff > 0
    ensures p.1 < 60 && p.2 < 60
    ensures p.0 * 3600000 + p.1 * 60000 + p.2 * 1000 <= diff < p.0 * 3600000 + p.1 * 60000 + p.2 * 1000 + 1000
  {
    var secs := diff / 1000;
    var mins := secs / 60;
    assert diff / 60000 == mins;
    assert diff / 3600000 == mins / 60;
    (diff / 3600000, (diff / 60000) % 60, (diff / 1000) % 60)
  }

  function Pad(n: nat): string {
    PadStart(NatToString(n), 2, '0')
  }

  /** `updateCountdown`'s text for `diff` milliseconds left: "00:00:00" once the time is up. */
  function Countdown(diff: int): string {
    if diff <= 0 then "00:00:00"
    else
      var p := CountdownParts(diff);
      Pad(p.0) + ":" + Pad(p.1) + ":" + Pad(p.2)
  }

  /** Within a day the countdown reads `HH:MM:SS`, each field two digits. */
  lemma CountdownShape(diff: int)
    requires 0 < diff <= 24 * 3600000
    ensures var p := CountdownParts(diff); var s := Countdown(diff);
      |s| == 8 && s[2] == ':' && s[5] == ':' &&
      s[..2] == [DigitChar(p.0 / 10), DigitChar(p.0 % 10)] &&
      s[3..5] == [DigitChar(p.1 / 10), DigitChar(p.1 % 10)] &&
      s[6..] == [DigitChar(p.2 / 10), DigitChar(p.2 % 10)]
  {
    var p := CountdownParts(diff);
    assert p.0 <= 24;
    PadTwoDigits(p.0);
    PadTwoDigits(p.1);
    PadTwoDigits(p.2);
  }
}
