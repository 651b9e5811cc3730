/**
 * The `DailyRecord` document and its embedded tasks (backend/models/DailyRecord.ts),
 * the derived totals the handlers maintain, and the record collection with its
 * unique `(user_id, date)` index.
 */
module RecordModel {
  import opened Wrappers
  import opened Seqs
  import opened Text

  datatype Difficulty = Easy | Medium | Hard

  /**
   * The difficulty a stored task gets from the value sent by a client: an absent
   * value takes the default, one of the enum's names is kept, and anything else
   * fails the enum validator (`None`).
   */
  function ParseDifficulty(s: string): (r: Option<Difficulty>)
    ensures s == "" ==> r == Some(Medium)
    ensures r == Some(Easy) <==> s == "Easy"
    ensures r == Some(Hard) <==> s == "Hard"
    ensures r == Some(Medium) <==> s == "Medium" || s == ""
  {
    if s == "" || s == "Medium" then Some(Medium)
    else if s == "Easy" then Some(Easy)
    else if s == "Hard" then Some(Hard)
    else None
  }

  function DifficultyName(d: Difficulty): string {
    match d
    case Easy => "Easy"
    case Medium => "Medium"
    case Hard => "Hard"
  }

  lemma ParseDifficultyName(d: Difficulty)
    ensures ParseDifficulty(DifficultyName(d)) == Some(d)
  {
  }

  /** A subdocument id (an ObjectId in the database). */
  type TaskId = nat

  datatype Task = Task(id: TaskId, title: string, description: Option<string>,
                       difficulty: Difficulty, completed: bool)

  /** The task schema's validators: the title is stored trimmed and must not be empty. */
  predicate TaskConforms(t: Task) {
    t.title != [] && Trim(t.title) == t.title &&
    (t.description.Some? ==> Trim(t.description.value) == t.description.value)
  }

  /**
   * The subdocument built from a pushed `{ title, difficulty, completed: false }`:
   * the title is trimmed by the schema setter, the description is absent.
   */
  function NewTask(id: TaskId, title: string, difficulty: Difficulty): (t: Task)
    ensures t.id == id && t.difficulty == difficulty && !t.completed && t.description == None
    ensures t.title == Trim(title)
    ensures TaskConforms(t) <==> exists k :: 0 <= k < |title| && !IsSpace(title[k])
  {
    TrimEmptyIff(title);
    TrimIdempotent(title);
    assert Trim(title) != [] <==> exists k :: 0 <= k < |title| && !IsSpace(title[k]);
    Task(id, Trim(title), None, difficulty, false)
  }

  datatype DailyRecord = DailyRecord(
    user_id: string,
    date: string,
    total_tasks: int,
    completed_tasks: int,
    points_earned: int,
    completion_rate: real,
    tasks: seq<Task>,
    locked: bool)

  /** `new DailyRecord({ user_id, date, tasks: [] })`: every other field takes its default. */
  function NewRecord(userId: string, date: string): (r: DailyRecord)
    ensures r.user_id == userId && r.date == date && r.tasks == []
    ensures r.total_tasks == 0 && r.completed_tasks == 0 && r.points_earned == 0
    ensures r.completion_rate == 0.0 && !r.locked
  {
    DailyRecord(userId, date, 0, 0, 0, 0.0, [], false)
  }

  /** The record schema's `required` validators. */
  predicate RecordHasRequiredFields(r: DailyRecord) {
    r.user_id != "" && r.date != ""
  }

  predicate IsCompleted(t: Task) {
    t.completed
  }

  /** `tasks.filter(t => t.completed).length`. */
  function CountCompleted(tasks: seq<Task>): (n: nat)
    ensures n <= |tasks|
  {
    |Filter(tasks, IsCompleted)|
  }

  lemma CountCompletedAppend(a: seq<Task>, b: seq<Task>)
    ensures CountCompleted(a + b) == CountCompleted(a) + CountCompleted(b)
  {
    FilterAppend(a, b, IsCompleted);
  }

  lemma CountCompletedSingle(t: Task)
    ensures CountCompleted([t]) == if t.completed then 1 else 0
  {
    assert [t][1..] == [];
  }

  /**
   * `total ? (completed / total) * 100 : 0`, on exact rationals. JavaScript's
   * truthiness of a number is "non-zero".
   */
  function CompletionRate(completed: int, total: int): (rate: real)
    ensures total == 0 ==> rate == 0.0
    ensures total != 0 ==> rate * (total as real) == (completed as real) * 100.0
  {
    if total != 0 then (completed as real) / (total as real) * 100.0 else 0.0
  }

  /** With the derived counts consistent, the rate is a percentage. */
  lemma CompletionRateBounds(completed: int, total: int)
    requires 0 <= completed <= total
    ensures 0.0 <= CompletionRate(completed, total) <= 100.0
    ensures CompletionRate(completed, total) == 100.0 <==> total > 0 && completed == total
    ensures CompletionRate(completed, total) == 0.0 <==> completed == 0
  {
    if total != 0 {
      var rate := CompletionRate(completed, total);
      assert rate * (total as real) == (completed as real) * 100.0;
      assert (completed as real) * 100.0 <= (total as real) * 100.0;
      if rate == 100.0 {
        assert (completed as real) * 100.0 == (total as real) * 100.0;
      }
    }
  }

  /** The derived totals agree with the task list. */
  predicate TotalsConsistent(r: DailyRecord) {
    r.total_tasks == |r.tasks| && r.completed_tasks == CountCompleted(r.tasks)
  }

  /** The stored rate agrees with the stored totals. */
  predicate RateConsistent(r: DailyRecord) {
    r.completion_rate == CompletionRate(r.completed_tasks, r.total_tasks)
  }

  lemma NewRecordConsistent(userId: string, date: string)
    ensures TotalsConsistent(NewRecord(userId, date)) && RateConsistent(NewRecord(userId, date))
  {
  }

  /** Subdocument ids are distinct within one record. */
  predicate UniqueIds(tasks: seq<Task>) {
    forall i, j :: 0 <= i < j < |tasks| ==> tasks[i].id != tasks[j].id
  }

  /** A record key: the unique `(user_id, date)` index. */
  type RecordKey = (string, string)

  /**
   * A record the index, the validators and the handlers allow under `key`: stored under
   * its own `(user_id, date)`, with its required fields and consistent totals, holding
   * conforming tasks with distinct ids below the next id to hand out.
   */
  predicate RecordOk(key: RecordKey, r: DailyRecord, nextTaskId: nat) {
    r.user_id == key.0 && r.date == key.1 && RecordHasRequiredFields(r) &&
    TotalsConsistent(r) && UniqueIds(r.tasks) &&
    (forall t :: t in r.tasks ==> t.id < nextTaskId && TaskConforms(t))
  }

  /** The collection: one well-formed record per `(user_id, date)`. */
  predicate WellFormedRecords(records: map<RecordKey, DailyRecord>, nextTaskId: nat) {
    forall key :: key in records ==> RecordOk(key, records[key], nextTaskId)
  }

  /** Handing out a further id keeps every record well formed. */
  lemma WellFormedRecordsRaise(records: map<RecordKey, DailyRecord>, nextTaskId: nat)
    requires WellFormedRecords(records, nextTaskId)
    ensures WellFormedRecords(records, nextTaskId + 1)
  {
    forall key | key in records ensures RecordOk(key, records[key], nextTaskId + 1) {
      assert RecordOk(key, records[key], nextTaskId);
    }
  }

  /** Saving a well-formed record keeps the collection well formed. */
  lemma WellFormedRecordsStore(records: map<RecordKey, DailyRecord>, nextTaskId: nat, key: RecordKey, r: DailyRecord)
    requires WellFormedRecords(records, nextTaskId) && RecordOk(key, r, nextTaskId)
    ensures WellFormedRecords(records[key := r], nextTaskId)
  {
  }

  /** The daily-record collection; `nextTaskId` stands for ObjectId generation. */
  class RecordStore {
    var records: map<RecordKey, DailyRecord>
    var nextTaskId: nat

    ghost predicate Valid()
      reads this
    {
      WellFormedRecords(records, nextTaskId)
    }

    constructor ()
      ensures Valid() && records == map[] && nextTaskId == 0
    {
      records := map[];
      nextTaskId := 0;
    }
  }
}
