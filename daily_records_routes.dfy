/**
 * The daily-record handlers (backend/routes/dailyrecords.ts and its older
 * variant backend/routes/dailyrecords.js): get-or-create, add a task, read the
 * tasks, set one task's completion and delete a task. Each handler is a method
 * on the record store; the document changes it saves are the functions below.
 * The user id is the one the token middleware attached.
 */
module DailyRecordRoutes {
  import opened Wrappers
  import opened Http
  import opened Seqs
  import opened Text
  import opened RecordModel

  /** A subdocument id as the client sends it back (`_id.toString()`). */
  function IdString(id: TaskId): string {
    NatToString(id)
  }

  predicate HasId(t: Task, taskId: string) {
    IdString(t.id) == taskId
  }

  /** The filter callback `t => t._id.toString() !== taskId`. */
  function KeepOthers(taskId: string): Task -> bool {
    (t: Task) => IdString(t.id) != taskId
  }

  /** `record.tasks.id(taskId)`: the position of the first task with that id. */
  function FindTask(tasks: seq<Task>, taskId: string): (r: Option<nat>)
    ensures r.Some? ==> r.value < |tasks| && HasId(tasks[r.value], taskId)
    ensures r.Some? ==> forall j :: 0 <= j < r.value ==> !HasId(tasks[j], taskId)
    ensures r.None? <==> forall j :: 0 <= j < |tasks| ==> !HasId(tasks[j], taskId)
    decreases |tasks|
  {
    if tasks == [] then None
    else if HasId(tasks[0], taskId) then Some(0)
    else
      var rest := FindTask(tasks[1..], taskId);
      assert forall j :: 1 <= j < |tasks| ==> tasks[j] == tasks[1..][j - 1];
      if rest.None? then None else Some(rest.value + 1)
  }

  // ---------------------------------------------------------------------------
  // Document changes

  /** `record.tasks.push(task)` followed by `record.total_tasks = record.tasks.length`. */
  function AppendTask(r: DailyRecord, t: Task): DailyRecord {
    r.(tasks := r.tasks + [t], total_tasks := |r.tasks| + 1)
  }

  /**
   * Appending places the task last, keeps the earlier tasks, and keeps the totals
   * consistent because the new task is not completed.
   */
  lemma AppendTaskKeepsTotals(r: DailyRecord, t: Task)
    requires TotalsConsistent(r) && !t.completed
    ensures TotalsConsistent(AppendTask(r, t))
    ensures AppendTask(r, t).tasks[..|r.tasks|] == r.tasks && AppendTask(r, t).tasks[|r.tasks|] == t
    ensures AppendTask(r, t).completed_tasks == r.completed_tasks
  {
    CountCompletedAppend(r.tasks, [t]);
    CountCompletedSingle(t);
  }

  /** With something completed, one more task changes the rate. */
  lemma RateDependsOnTotal(c: int, n: int)
    requires 0 < c <= n
    ensures CompletionRate(c, n) != CompletionRate(c, n + 1)
  {
  }

  /** The add handler does not recompute `completion_rate`: once something is completed, the stored rate is stale. */
  lemma AppendTaskLeavesRateStale(r: DailyRecord, t: Task)
    requires TotalsConsistent(r) && RateConsistent(r) && r.completed_tasks > 0 && !t.completed
    ensures !RateConsistent(AppendTask(r, t))
  {
    AppendTaskKeepsTotals(r, t);
    RateDependsOnTotal(r.completed_tasks, r.total_tasks);
  }

  /** The task list with position `i` set to `completed`. */
  function SetAt(tasks: seq<Task>, i: nat, completed: bool): (ts: seq<Task>)
    requires i < |tasks|
    ensures |ts| == |tasks| && ts[i] == tasks[i].(completed := completed)
    ensures forall j :: 0 <= j < |tasks| && j != i ==> ts[j] == tasks[j]
  {
    tasks[i := tasks[i].(completed := completed)]
  }

  lemma CountCompletedSetAt(tasks: seq<Task>, i: nat, completed: bool)
    requires i < |tasks|
    ensures CountCompleted(SetAt(tasks, i, completed)) ==
      CountCompleted(tasks) - (if tasks[i].completed then 1 else 0) + (if completed then 1 else 0)
  {
    var ts := SetAt(tasks, i, completed);
    assert tasks == tasks[..i] + [tasks[i]] + tasks[i + 1..];
    assert ts == tasks[..i] + [ts[i]] + tasks[i + 1..];
    CountCompletedAppend(tasks[..i] + [tasks[i]], tasks[i + 1..]);
    CountCompletedAppend(tasks[..i], [tasks[i]]);
    CountCompletedAppend(tasks[..i] + [ts[i]], tasks[i + 1..]);
    CountCompletedAppend(tasks[..i], [ts[i]]);
    CountCompletedSingle(tasks[i]);
    CountCompletedSingle(ts[i]);
  }

  /**
   * `task.completed = completed` followed by the recount and the rate over the stored
   * `total_tasks`.
   */
  function SetCompleted(r: DailyRecord, i: nat, completed: bool): DailyRecord
    requires i < |r.tasks|
  {
    var ts := SetAt(r.tasks, i, completed);
    r.(tasks := ts, completed_tasks := CountCompleted(ts),
       completion_rate := CompletionRate(CountCompleted(ts), r.total_tasks))
  }

  /**
   * Setting one task's completion changes that task only, keeps the task count and
   * `total_tasks`, moves `completed_tasks` by the change, and leaves the totals and the
   * rate consistent, the rate within [0, 100].
   */
  lemma SetCompletedKeepsInvariant(r: DailyRecord, i: nat, completed: bool)
    requires i < |r.tasks| && TotalsConsistent(r)
    ensures var s := SetCompleted(r, i, completed);
      TotalsConsistent(s) && RateConsistent(s) && s.total_tasks == r.total_tasks &&
      0.0 <= s.completion_rate <= 100.0
    ensures SetCompleted(r, i, completed).completed_tasks ==
      r.completed_tasks - (if r.tasks[i].completed then 1 else 0) + (if completed then 1 else 0)
  {
    CountCompletedSetAt(r.tasks, i, completed);
    var s := SetCompleted(r, i, completed);
    CompletionRateBounds(s.completed_tasks, s.total_tasks);
  }

  /** `record.tasks.pull(taskId)` (or the `filter`) followed by recomputing all three totals. */
  function RemoveTask(r: DailyRecord, taskId: string): DailyRecord {
    var ts := Filter(r.tasks, KeepOthers(taskId));
    r.(tasks := ts, total_tasks := |ts|, completed_tasks := CountCompleted(ts),
       completion_rate := CompletionRate(CountCompleted(ts), |ts|))
  }

  /** After a removal no task carries the id, every other task stays, and the totals and rate are consistent. */
  lemma RemoveTaskKeepsInvariant(r: DailyRecord, taskId: string)
    ensures var s := RemoveTask(r, taskId);
      TotalsConsistent(s) && RateConsistent(s) && 0.0 <= s.completion_rate <= 100.0
    ensures forall t :: t in RemoveTask(r, taskId).tasks ==> !HasId(t, taskId) && t in r.tasks
    ensures forall t :: t in r.tasks && !HasId(t, taskId) ==> t in RemoveTask(r, taskId).tasks
  {
    var s := RemoveTask(r, taskId);
    CompletionRateBounds(s.completed_tasks, s.total_tasks);
    FilterMembers(r.tasks, KeepOthers(taskId));
    forall t ensures KeepOthers(taskId)(t) <==> !HasId(t, taskId) {
      KeepOthersIff(taskId, t);
    }
  }

  lemma KeepOthersIff(taskId: string, t: Task)
    ensures KeepOthers(taskId)(t) <==> !HasId(t, taskId)
  {
  }

  /** Under distinct ids, only the task at position `i` carries its id. */
  lemma OnlyOneHasId(tasks: seq<Task>, i: nat, taskId: string)
    requires UniqueIds(tasks) && i < |tasks| && HasId(tasks[i], taskId)
    ensures forall j :: 0 <= j < |tasks| && j != i ==> !HasId(tasks[j], taskId)
  {
    forall j | 0 <= j < |tasks| && j != i ensures !HasId(tasks[j], taskId) {
      NatToStringInjective(tasks[j].id, tasks[i].id);
    }
  }

  /** Under distinct ids, removing the task at position `i` keeps the others in their order. */
  lemma {:induction false} RemoveUniqueTask(tasks: seq<Task>, i: nat, taskId: string)
    requires UniqueIds(tasks) && i < |tasks| && HasId(tasks[i], taskId)
    ensures Filter(tasks, KeepOthers(taskId)) == tasks[..i] + tasks[i + 1..]
    decreases i
  {
    var p := KeepOthers(taskId);
    OnlyOneHasId(tasks, i, taskId);
    var rest := tasks[1..];
    assert forall j :: 0 <= j < |rest| ==> rest[j] == tasks[j + 1];
    if i == 0 {
      KeepOthersIff(taskId, tasks[0]);
      assert forall j :: 0 <= j < |rest| ==> p(rest[j]);
      FilterAllPass(rest, p);
      assert Filter(tasks, p) == Filter(rest, p);
    } else {
      KeepOthersIff(taskId, tasks[0]);
      assert p(tasks[0]);
      assert Filter(tasks, p) == [tasks[0]] + Filter(rest, p);
      assert UniqueIds(rest);
      RemoveUniqueTask(rest, i - 1, taskId);
      assert rest[..i - 1] == tasks[1..i] && rest[i..] == tasks[i + 1..];
      assert [tasks[0]] + tasks[1..i] == tasks[..i];
    }
  }

  /** Filtering keeps ids distinct. */
  lemma {:induction false} FilterKeepsUniqueIds(tasks: seq<Task>, p: Task -> bool)
    requires UniqueIds(tasks)
    ensures UniqueIds(Filter(tasks, p))
    decreases |tasks|
  {
    if tasks != [] {
      var rest := tasks[1..];
      assert forall j :: 0 <= j < |rest| ==> rest[j] == tasks[j + 1];
      assert UniqueIds(rest);
      FilterKeepsUniqueIds(rest, p);
      var fr := Filter(rest, p);
      FilterMembers(rest, p);
      if p(tasks[0]) {
        assert Filter(tasks, p) == [tasks[0]] + fr;
        forall j | 0 <= j < |fr| ensures fr[j].id != tasks[0].id {
          assert fr[j] in rest;
          var k :| 0 <= k < |rest| && rest[k] == fr[j];
          assert tasks[k + 1] == fr[j];
        }
      } else {
        assert Filter(tasks, p) == fr;
      }
    }
  }

  /** The filter leaves the length unchanged exactly when no task carries the id. */
  lemma RemovalLengthIff(tasks: seq<Task>, taskId: string)
    ensures |Filter(tasks, KeepOthers(taskId))| == |tasks| <==> FindTask(tasks, taskId).None?
  {
    FilterKeepsAll(tasks, KeepOthers(taskId));
  }

  // ---------------------------------------------------------------------------
  // The store invariant across the document changes

  lemma NewRecordOk(userId: string, date: string, nextTaskId: nat)
    requires userId != "" && date != ""
    ensures RecordOk((userId, date), NewRecord(userId, date), nextTaskId)
  {
  }

  lemma AppendTaskOk(key: RecordKey, r: DailyRecord, t: Task, nextTaskId: nat)
    requires RecordOk(key, r, nextTaskId) && t.id == nextTaskId && TaskConforms(t) && !t.completed
    ensures RecordOk(key, AppendTask(r, t), nextTaskId + 1)
  {
    AppendTaskKeepsTotals(r, t);
    var ts := AppendTask(r, t).tasks;
    assert forall x :: x in ts <==> x in r.tasks || x == t;
    forall i, j | 0 <= i < j < |ts| ensures ts[i].id != ts[j].id {
      if j == |r.tasks| {
        assert ts[i] in r.tasks;
      }
    }
  }

  lemma SetCompletedOk(key: RecordKey, r: DailyRecord, i: nat, completed: bool, nextTaskId: nat)
    requires RecordOk(key, r, nextTaskId) && i < |r.tasks|
    ensures RecordOk(key, SetCompleted(r, i, completed), nextTaskId)
  {
    SetCompletedKeepsInvariant(r, i, completed);
    var ts := SetCompleted(r, i, completed).tasks;
    forall x | x in ts ensures x.id < nextTaskId && TaskConforms(x) {
      var k :| 0 <= k < |ts| && ts[k] == x;
      assert r.tasks[k] in r.tasks;
    }
  }

  lemma RemoveTaskOk(key: RecordKey, r: DailyRecord, taskId: string, nextTaskId: nat)
    requires RecordOk(key, r, nextTaskId)
    ensures RecordOk(key, RemoveTask(r, taskId), nextTaskId)
  {
    RemoveTaskKeepsInvariant(r, taskId);
    FilterKeepsUniqueIds(r.tasks, KeepOthers(taskId));
  }

  // ---------------------------------------------------------------------------
  // Handlers

  /**
   * GET `/`: a missing date is 400; an existing record is answered as stored; otherwise
   * an empty record is created, stored and answered. Answering an existing record
   * changes nothing, so asking twice returns the same record.
   */
  method GetRecord(db: RecordStore, userId: string, date: string) returns (res: Response<DailyRecord>)
    requires db.Valid() && userId != ""
    modifies db
    ensures db.Valid() && db.nextTaskId == old(db.nextTaskId)
    ensures date == "" ==> res == Reject(BadRequest) && db.records == old(db.records)
    ensures date != "" && (userId, date) in old(db.records) ==>
      res == Reply(Ok, old(db.records)[(userId, date)]) && db.records == old(db.records)
    ensures date != "" && (userId, date) !in old(db.records) ==>
      res == Reply(Ok, NewRecord(userId, date)) &&
      db.records == old(db.records)[(userId, date) := NewRecord(userId, date)]
  {
    if date == "" {
      return Reject(BadRequest);
    }
    var key := (userId, date);
    if key in db.records {
      return Reply(Ok, db.records[key]);
    }
    var record := NewRecord(userId, date);
    NewRecordOk(userId, date, db.nextTaskId);
    WellFormedRecordsStore(db.records, db.nextTaskId, key, record);
    db.records := db.records[key := record];
    return Reply(Ok, record);
  }

  /**
   * POST `/addTask`: a missing date or title is 400. Otherwise the task is appended to
   * the found-or-new record; a difficulty outside the enum or a title of white space
   * fails validation at save (500) and nothing is stored.
   */
  method AddTask(db: RecordStore, userId: string, date: string, title: string, difficulty: string)
    returns (res: Response<DailyRecord>)
    requires db.Valid() && userId != ""
    modifies db
    ensures db.Valid()
    ensures date == "" || title == "" ==>
      res == Reject(BadRequest) && db.records == old(db.records) && db.nextTaskId == old(db.nextTaskId)
    ensures date != "" && title != "" && (ParseDifficulty(difficulty).None? || Trim(title) == "") ==>
      res == Reject(ServerError) && db.records == old(db.records) && db.nextTaskId == old(db.nextTaskId)
    ensures date != "" && title != "" && ParseDifficulty(difficulty).Some? && Trim(title) != "" ==>
      var key := (userId, date);
      var base := if key in old(db.records) then old(db.records)[key] else NewRecord(userId, date);
      var saved := AppendTask(base, NewTask(old(db.nextTaskId), title, ParseDifficulty(difficulty).value));
      res == Reply(Ok, saved) && db.records == old(db.records)[key := saved] &&
      db.nextTaskId == old(db.nextTaskId) + 1
  {
    if date == "" || title == "" {
      return Reject(BadRequest);
    }
    var key := (userId, date);
    var record := if key in db.records then db.records[key] else NewRecord(userId, date);
    var parsed := ParseDifficulty(difficulty);
    if parsed.None? || Trim(title) == "" {
      return Reject(ServerError);
    }
    var task := NewTask(db.nextTaskId, title, parsed.value);
    TrimEmptyIff(title);
    assert TaskConforms(task);
    if key !in db.records {
      NewRecordOk(userId, date, db.nextTaskId);
    }
    AppendTaskOk(key, record, task, db.nextTaskId);
    record := AppendTask(record, task);
    WellFormedRecordsRaise(db.records, db.nextTaskId);
    WellFormedRecordsStore(db.records, db.nextTaskId + 1, key, record);
    db.records := db.records[key := record];
    db.nextTaskId := db.nextTaskId + 1;
    return Reply(Ok, record);
  }

  /** GET `/getTasks`: 400 without a date, else the record's tasks or `[]`; nothing is created. */
  method GetTasks(db: RecordStore, userId: string, date: string) returns (res: Response<seq<Task>>)
    requires userId != ""
    ensures date == "" ==> res == Reject(BadRequest)
    ensures date != "" && (userId, date) in db.records ==> res == Reply(Ok, db.records[(userId, date)].tasks)
    ensures date != "" && (userId, date) !in db.records ==> res == Reply(Ok, [])
  {
    if date == "" {
      return Reject(BadRequest);
    }
    var key := (userId, date);
    if key in db.records {
      return Reply(Ok, db.records[key].tasks);
    }
    return Reply(Ok, []);
  }

  /** GET `/getAllTasks`: every record of the user, by date. */
  method GetAllTasks(db: RecordStore, userId: string) returns (res: map<string, DailyRecord>)
    requires db.Valid() && userId != ""
    ensures forall date :: date in res <==> (userId, date) in db.records
    ensures forall date :: date in res ==> res[date] == db.records[(userId, date)] && res[date].user_id == userId
  {
    res := map k | k in db.records && k.0 == userId :: k.1 := db.records[k];
  }

  /**
   * PATCH `/updateTask`: 400 without date or task id, 404 without the record or the task;
   * otherwise the first task with the id takes the new completion and the totals are
   * recounted.
   */
  method UpdateTask(db: RecordStore, userId: string, date: string, taskId: string, completed: bool)
    returns (res: Response<DailyRecord>)
    requires db.Valid() && userId != ""
    modifies db
    ensures db.Valid() && db.nextTaskId == old(db.nextTaskId)
    ensures date == "" || taskId == "" ==> res == Reject(BadRequest) && db.records == old(db.records)
    ensures date != "" && taskId != "" && (userId, date) !in old(db.records) ==>
      res == Reject(NotFound) && db.records == old(db.records)
    ensures (date != "" && taskId != "" && (userId, date) in old(db.records) &&
             FindTask(old(db.records)[(userId, date)].tasks, taskId).None?) ==>
      res == Reject(NotFound) && db.records == old(db.records)
    ensures (date != "" && taskId != "" && (userId, date) in old(db.records) &&
             FindTask(old(db.records)[(userId, date)].tasks, taskId).Some?) ==>
      var old_record := old(db.records)[(userId, date)];
      var saved := SetCompleted(old_record, FindTask(old_record.tasks, taskId).value, completed);
      res == Reply(Ok, saved) && db.records == old(db.records)[(userId, date) := saved]
  {
    if date == "" || taskId == "" {
      return Reject(BadRequest);
    }
    var key := (userId, date);
    if key !in db.records {
      return Reject(NotFound);
    }
    var record := db.records[key];
    var found := FindTask(record.tasks, taskId);
    if found.None? {
      return Reject(NotFound);
    }
    SetCompletedOk(key, record, found.value, completed, db.nextTaskId);
    record := SetCompleted(record, found.value, completed);
    WellFormedRecordsStore(db.records, db.nextTaskId, key, record);
    db.records := db.records[key := record];
    return Reply(Ok, record);
  }

  /**
   * DELETE `/deleteTask` (dailyrecords.ts): 400 without date or task id, 404 without the
   * record or when no task has the id; otherwise every task with the id is pulled and
   * the totals recomputed.
   */
  method DeleteTask(db: RecordStore, userId: string, date: string, taskId: string)
    returns (res: Response<seq<Task>>)
    requires db.Valid() && userId != ""
    modifies db
    ensures db.Valid() && db.nextTaskId == old(db.nextTaskId)
    ensures date == "" || taskId == "" ==> res == Reject(BadRequest) && db.records == old(db.records)
    ensures date != "" && taskId != "" && (userId, date) !in old(db.records) ==>
      res == Reject(NotFound) && db.records == old(db.records)
    ensures (date != "" && taskId != "" && (userId, date) in old(db.records) &&
             FindTask(old(db.records)[(userId, date)].tasks, taskId).None?) ==>
      res == Reject(NotFound) && db.records == old(db.records)
    ensures (date != "" && taskId != "" && (userId, date) in old(db.records) &&
             FindTask(old(db.records)[(userId, date)].tasks, taskId).Some?) ==>
      var saved := RemoveTask(old(db.records)[(userId, date)], taskId);
      res == Reply(Ok, saved.tasks) && db.records == old(db.records)[(userId, date) := saved]
  {
    if date == "" || taskId == "" {
      return Reject(BadRequest);
    }
    var key := (userId, date);
    if key !in db.records {
      return Reject(NotFound);
    }
    var record := db.records[key];
    if FindTask(record.tasks, taskId).None? {
      return Reject(NotFound);
    }
    RemoveTaskOk(key, record, taskId, db.nextTaskId);
    record := RemoveTask(record, taskId);
    WellFormedRecordsStore(db.records, db.nextTaskId, key, record);
    db.records := db.records[key := record];
    return Reply(Ok, record.tasks);
  }

  /**
   * DELETE `/deleteTask` (dailyrecords.js): the tasks are filtered first, and an unchanged
   * length answers 404 without saving.
   */
  method DeleteTaskByFilter(db: RecordStore, userId: string, date: string, taskId: string)
    returns (res: Response<seq<Task>>)
    requires db.Valid() && userId != ""
    modifies db
    ensures db.Valid() && db.nextTaskId == old(db.nextTaskId)
    ensures date == "" || taskId == "" ==> res == Reject(BadRequest) && db.records == old(db.records)
    ensures date != "" && taskId != "" && (userId, date) !in old(db.records) ==>
      res == Reject(NotFound) && db.records == old(db.records)
    ensures date != "" && taskId != "" && (userId, date) in old(db.records) ==>
      var old_record := old(db.records)[(userId, date)];
      var kept := Filter(old_record.tasks, KeepOthers(taskId));
      (|kept| == |old_record.tasks| ==> res == Reject(NotFound) && db.records == old(db.records)) &&
      (|kept| != |old_record.tasks| ==>
        res == Reply(Ok, kept) && db.records == old(db.records)[(userId, date) := RemoveTask(old_record, taskId)])
  {
    if date == "" || taskId == "" {
      return Reject(BadRequest);
    }
    var key := (userId, date);
    if key !in db.records {
      return Reject(NotFound);
    }
    var record := db.records[key];
    var originalLength := |record.tasks|;
    var kept := Filter(record.tasks, KeepOthers(taskId));
    if |kept| == originalLength {
      return Reject(NotFound);
    }
    RemoveTaskOk(key, record, taskId, db.nextTaskId);
    record := RemoveTask(record, taskId);
    WellFormedRecordsStore(db.records, db.nextTaskId, key, record);
    db.records := db.records[key := record];
    return Reply(Ok, record.tasks);
  }

  /**
   * The two delete handlers answer alike: 404 exactly when no task has the id, and
   * otherwise (ids being distinct) the one task with it is removed, the rest in order.
   */
  lemma DeleteVariantsAgree(r: DailyRecord, taskId: string)
    requires UniqueIds(r.tasks)
    ensures |Filter(r.tasks, KeepOthers(taskId))| == |r.tasks| <==> FindTask(r.tasks, taskId).None?
    ensures FindTask(r.tasks, taskId).Some? ==>
      var i := FindTask(r.tasks, taskId).value;
      RemoveTask(r, taskId).tasks == r.tasks[..i] + r.tasks[i + 1..]
  {
    RemovalLengthIff(r.tasks, taskId);
    if FindTask(r.tasks, taskId).Some? {
      RemoveUniqueTask(r.tasks, FindTask(r.tasks, taskId).value, taskId);
    }
  }
}
