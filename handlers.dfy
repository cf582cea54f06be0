/**
 * The command handlers that sequence the parser, the table and the scheduler:
 * `cmd_remind` (main.py:267-303), `cmd_edit` (main.py:305-323), `callbacks_done`
 * (main.py:542-559) and `cmd_delete` (main.py:561-578). Each handler's reply is a
 * value naming which message it sends; the scheduler is the list of jobs it has
 * been given, each a `send_reminder_job` call waiting for its instant.
 */
module Handlers {
  import opened Wrappers
  import opened Text
  import opened Calendar
  import opened TimeParse
  import opened Store

  /** `scheduler.add_job(send_reminder_job, "date", run_date=..., args=[chat_id, CATEGORY, text, task_id])`. */
  datatype Job = Job(runDate: DateTime, chatId: int, category: string, text: string, taskId: int)

  // ---------------------------------------------------------------- /remind

  datatype RemindReply =
    | RemindUsage                     // "Формат: `/remind время категория текст`"
    | FormatError(error: ParseError)  // a `ValueError`: "Ошибка формата: ..."
    | CreateError(error: ParseError)  // any other exception: "Ошибка при создании задачи: ..."
    | Created(id: int, category: string, kind: string, display: string, text: string)

  /** What `/remind` stores and schedules once its arguments are read: the parse and the other two pieces. */
  datatype RemindRequest = RemindRequest(parsed: Parsed, category: string, text: string)

  /** `except ValueError` catches every parse error but the date overflow, which the generic handler answers. */
  function ParseFailure(e: ParseError): (reply: RemindReply)
    ensures reply.FormatError? || reply.CreateError?
    ensures reply.error == e
    ensures reply.CreateError? <==> e == DateOverflow
  {
    if e == DateOverflow then CreateError(e) else FormatError(e)
  }

  /**
   * The part of `cmd_remind` before anything is stored (main.py:269-281): the arguments
   * are cut at the first two spaces and the first piece goes to the parser. On
   * success the three pieces put back together are the arguments, the first two hold
   * no space, and the parse is that of the first piece.
   */
  function PlanRemind(args: string, now: DateTime): (r: Result<RemindRequest, RemindReply>)
    requires ValidDateTime(now)
    ensures r == Err(RemindUsage) <==> |SplitOn(args, ' ', 2)| < 3
    ensures r.Ok? ==>
      && args == r.value.parsed.display + " " + r.value.category + " " + r.value.text
      && ' ' !in r.value.parsed.display && ' ' !in r.value.category
      && ParseTimeInput(r.value.parsed.display, now) == Ok(r.value.parsed)
      && Before(now, r.value.parsed.runDate)
    ensures r.Err? && r.error != RemindUsage ==>
      var first := SplitOn(args, ' ', 2)[0];
      ParseTimeInput(first, now).Err? && r.error == ParseFailure(ParseTimeInput(first, now).error)
  {
    if args == [] then Err(RemindUsage)
    else
      var parts := SplitOn(args, ' ', 2);
      if |parts| < 3 then Err(RemindUsage)
      else
        ThreePieces(parts, ' ');
        match ParseTimeInput(parts[0], now)
        case Err(e) => Err(ParseFailure(e))
        case Ok(p) => Ok(RemindRequest(p, parts[1], parts[2]))
  }

  lemma ThreePieces(parts: seq<string>, sep: char)
    requires |parts| == 3
    ensures Join(parts, sep) == parts[0] + [sep] + parts[1] + [sep] + parts[2]
  {
    var tail := parts[1..];
    assert tail[1..] == [parts[2]];
    assert Join(tail, sep) == parts[1] + [sep] + parts[2];
  }

  /**
   * The weekday and day-of-month forms typed with a space, as the help text shows
   * them (`пн 10:00 ...`, `15 18:00 ...`), never reach their branch: the split hands
   * the parser only the two-character head, which no pattern matches, so no task is
   * created.
   */
  lemma SpacedFormRejected(head: string, rest: string, now: DateTime)
    requires ValidDateTime(now) && |head| <= 2 && ' ' !in head
    ensures PlanRemind(head + " " + rest, now) == Err(RemindUsage)
      || PlanRemind(head + " " + rest, now) == Err(FormatError(BadFormat))
  {
    var args := head + " " + rest;
    SplitOnHead(head, ' ', rest, 2);
    assert SplitOn(args, ' ', 2)[0] == head;
    ShortInputRejected(head, now);
  }

  /** No pattern matches a text of at most two characters. */
  lemma ShortInputRejected(s: string, now: DateTime)
    requires ValidDateTime(now) && |s| <= 2
    ensures ParseTimeInput(s, now) == Err(BadFormat)
  {
    var b := Body(s);
    var lb := Body(Lower(s));
    assert |b| <= 2 && |lb| <= 2;
    assert ClockLen(b) == 0 && ClockLen(lb) == 0;
    assert !IsDailyForm(s) && !IsWeeklyForm(s) && !IsMonthlyForm(s);
    BadFormatExactly(s, now);
  }

  // ---------------------------------------------------------------- /edit

  datatype EditReply =
    | EditUsage            // "Ошибка! Используй: `/edit ID новый_текст`"
    | EditInvalidId        // `int()` raised: "ID должен быть числом"
    | EditNotFound(id: int)
    | Edited(id: int, text: string)

  /** `/edit` arguments once read: the id as typed, its value and the new text. */
  datatype EditRequest = EditRequest(idText: string, id: int, text: string)

  /**
   * Argument handling of `cmd_edit` (main.py:308-311): one cut at the first space,
   * the head read with `int()`. A request puts the arguments back together, with an
   * id text free of spaces that `int()` reads as the id.
   */
  function PlanEdit(args: string): (r: Result<EditRequest, EditReply>)
    ensures r == Err(EditUsage) <==> ' ' !in args
    ensures r == Err(EditInvalidId) <==> ' ' in args && PyInt(args[..IndexOf(args, ' ')]).None?
    ensures r.Ok? ==>
      && args == r.value.idText + " " + r.value.text
      && ' ' !in r.value.idText && PyInt(r.value.idText) == Some(r.value.id)
  {
    var parts := SplitOn(args, ' ', 1);
    if args == [] || |parts| < 2 then Err(EditUsage)
    else
      EditSplit(args);
      match PyInt(parts[0])
      case None => Err(EditInvalidId)
      case Some(id) => Ok(EditRequest(parts[0], id, parts[1]))
  }

  /** `args.split(" ", 1)` cuts exactly when there is a space, and cuts at the first one. */
  lemma EditSplit(args: string)
    ensures var parts := SplitOn(args, ' ', 1);
      && (|parts| == 2 <==> ' ' in args)
      && (|parts| == 2 ==> parts[0] == args[..IndexOf(args, ' ')] && args == parts[0] + " " + parts[1])
  {
    var parts := SplitOn(args, ' ', 1);
    var i := IndexOf(args, ' ');
    if ' ' in args {
      assert i < |args|;
      assert args == args[..i] + " " + args[i + 1..];
      SplitOnHead(args[..i], ' ', args[i + 1..], 1);
      assert SplitOn(args[i + 1..], ' ', 0) == [args[i + 1..]];
    } else {
      SplitOnNone(args, ' ', 1);
    }
  }

  // ---------------------------------------------------------------- /delete

  datatype DeleteReply =
    | DeleteUsage          // "Ошибка! Используй: `/delete ID`"
    | DeleteInvalidId      // `int()` raised
    | DeleteNotFound(id: int)
    | Deleted(id: int)

  /**
   * Argument handling of `cmd_delete` (main.py:564-567): the arguments stripped, then
   * read with `int()`.
   */
  function DeleteTarget(args: string): (r: Result<int, DeleteReply>)
    ensures r == Err(DeleteUsage) <==> args == []
    ensures r == Err(DeleteInvalidId) <==> args != [] && PyInt(Strip(args)).None?
    ensures r.Ok? ==> PyInt(Strip(args)) == Some(r.value)
  {
    if args == [] then Err(DeleteUsage)
    else
      var id := PyInt(Strip(args));
      if id.None? then Err(DeleteInvalidId) else Ok(id.value)
  }

  /** An id `int()` reads from the unstripped arguments is the id `/delete` acts on. */
  lemma DeleteReadsInt(args: string)
    ensures PyInt(args).Some? ==> DeleteTarget(args) == Ok(PyInt(args).value)
  {
    StripKeepsPyInt(args);
  }

  // ---------------------------------------------------------------- done_ callback

  datatype DoneReply =
    | DoneInvalidId        // "❌ Ошибка: неверный ID задачи"
    | Completed(id: int)

  /**
   * The callback data `send_reminder_job` attaches to its button (main.py:160): it
   * passes the router's `done_` prefix filter, holds no further underscore, and what
   * follows the prefix is a numeral `int()` reads as the task id.
   */
  function DoneData(taskId: int): (data: string)
    ensures |data| > 5 && data[..5] == "done_"
    ensures '_' !in data[5..]
    ensures PyInt(data[5..]) == Some(taskId)
  {
    var data := "done_" + ShowInt(taskId);
    assert data[5..] == ShowInt(taskId);
    ShowIntNoUnderscore(taskId);
    ShowIntRoundTrip(taskId);
    data
  }

  /**
   * `int(callback.data.split("_")[1])` (main.py:545) on data the router let through
   * because it starts with `done_`: the value of the text between the first and the
   * second underscore, or up to the end when there is no second one.
   */
  function DoneTarget(data: string): (r: Option<int>)
    requires |data| >= 5 && data[..5] == "done_"
    ensures var tail := data[5..]; r == PyInt(tail[..IndexOf(tail, '_')])
  {
    var tail := data[5..];
    assert data == "done" + "_" + tail;
    SplitOnHead("done", '_', tail, |data|);
    DoneField(tail, |data| - 1);
    PyInt(SplitOn(data, '_', |data|)[1])
  }

  lemma DoneField(tail: string, maxsplit: nat)
    requires maxsplit >= 1
    ensures SplitOn(tail, '_', maxsplit)[0] == tail[..IndexOf(tail, '_')]
  {
    var i := IndexOf(tail, '_');
    if i < |tail| {
      assert tail == tail[..i] + "_" + tail[i + 1..];
      SplitOnHead(tail[..i], '_', tail[i + 1..], maxsplit);
    } else {
      assert tail[..i] == tail;
      SplitOnNone(tail, '_', maxsplit);
    }
  }

  /** The button a reminder carries reads back as that reminder's id. */
  lemma DoneDataRoundTrip(taskId: int)
    ensures DoneTarget(DoneData(taskId)) == Some(taskId)
  {
    DoneTargetWholeTail(DoneData(taskId));
  }

  /** Data with no underscore after its prefix is read whole. */
  lemma DoneTargetWholeTail(data: string)
    requires |data| >= 5 && data[..5] == "done_" && '_' !in data[5..]
    ensures DoneTarget(data) == PyInt(data[5..])
  {
    var tail := data[5..];
    var i := IndexOf(tail, '_');
    assert i == |tail|;
    assert tail[..i] == tail;
  }

  // ---------------------------------------------------------------- the bot

  /**
   * The scheduler lives in memory only: it starts empty, while the table and its
   * counter survive in the database file. Every id issued since start-up, when the
   * counter stood at `started`, got exactly one job, in issue order; each surviving
   * row created since then has its job for its chat and category; a row from before
   * start-up has none.
   */
  predicate Scheduled(rows: seq<Row>, started: int, lastId: int, jobs: seq<Job>) {
    && |jobs| == lastId - started
    && (forall k :: 0 <= k < |jobs| ==> jobs[k].taskId == started + k + 1)
    && (forall i :: 0 <= i < |rows| && rows[i].id > started ==> RowScheduled(jobs, started, rows[i]))
  }

  /** The row's id was issued since start-up and its job went to the row's chat with the row's category. */
  predicate RowScheduled(jobs: seq<Job>, started: int, row: Row) {
    && started < row.id <= started + |jobs|
    && jobs[row.id - started - 1].chatId == row.chatId
    && jobs[row.id - started - 1].category == row.category
  }

  /** Storing a row under the next id and scheduling its job keeps the jobs in step with the table. */
  lemma ScheduledAfterAdd(rows: seq<Row>, started: int, lastId: int, jobs: seq<Job>, row: Row, job: Job)
    requires Scheduled(rows, started, lastId, jobs)
    requires row.id == lastId + 1 && job.taskId == lastId + 1
    requires job.chatId == row.chatId && job.category == row.category
    ensures Scheduled(rows + [row], started, lastId + 1, jobs + [job])
  {
    var rows2 := rows + [row];
    var jobs2 := jobs + [job];
    forall i | 0 <= i < |rows2| && rows2[i].id > started ensures RowScheduled(jobs2, started, rows2[i]) {
      if i < |rows| {
        assert rows2[i] == rows[i] && RowScheduled(jobs, started, rows[i]);
        assert jobs2[rows[i].id - started - 1] == jobs[rows[i].id - started - 1];
      }
    }
  }

  /**
   * The job of a stored task: one created since start-up has exactly one job with its
   * id; one from before start-up has none.
   */
  lemma JobOfStoredTask(rows: seq<Row>, started: int, lastId: int, jobs: seq<Job>, id: int, chatId: int)
    requires TableValid(rows, lastId) && Scheduled(rows, started, lastId, jobs) && Owns(rows, id, chatId)
    ensures id > started ==> id - started <= |jobs| && jobs[id - started - 1].taskId == id
    ensures id <= started ==> forall k :: 0 <= k < |jobs| ==> jobs[k].taskId != id
  {
    var i :| 0 <= i < |rows| && rows[i].id == id && rows[i].chatId == chatId;
    assert rows[i].id <= lastId;
  }

  /** A row whose id, chat and category are those of a scheduled row is scheduled too. */
  lemma SameKeyScheduled(jobs: seq<Job>, started: int, r: Row, r2: Row)
    requires RowScheduled(jobs, started, r)
    requires r2.id == r.id && r2.chatId == r.chatId && r2.category == r.category
    ensures RowScheduled(jobs, started, r2)
  {
  }

  /** Editing a text keeps the jobs in step with the table. */
  lemma ScheduledAfterText(rows: seq<Row>, started: int, lastId: int, jobs: seq<Job>, id: int, text: string)
    requires Scheduled(rows, started, lastId, jobs)
    ensures Scheduled(WithText(rows, id, text), started, lastId, jobs)
  {
    var rows2 := WithText(rows, id, text);
    forall i | 0 <= i < |rows2| && rows2[i].id > started ensures RowScheduled(jobs, started, rows2[i]) {
      var r, r2 := rows[i], rows2[i];
      assert r2.(text := r.text) == r;
      SameKeyScheduled(jobs, started, r, r2);
    }
  }

  /** Changing a status keeps the jobs in step with the table. */
  lemma ScheduledAfterStatus(rows: seq<Row>, started: int, lastId: int, jobs: seq<Job>, id: int, status: int)
    requires Scheduled(rows, started, lastId, jobs)
    ensures Scheduled(WithStatus(rows, id, status), started, lastId, jobs)
  {
    var rows2 := WithStatus(rows, id, status);
    forall i | 0 <= i < |rows2| && rows2[i].id > started ensures RowScheduled(jobs, started, rows2[i]) {
      var r, r2 := rows[i], rows2[i];
      assert r2.(isDone := r.isDone) == r;
      SameKeyScheduled(jobs, started, r, r2);
    }
  }

  /** Deleting a row keeps the jobs in step with the table; the deleted row's job, if it has one, stays. */
  lemma ScheduledAfterDelete(rows: seq<Row>, started: int, lastId: int, jobs: seq<Job>, id: int)
    requires Scheduled(rows, started, lastId, jobs)
    ensures Scheduled(Without(rows, id), started, lastId, jobs)
  {
    var rows2 := Without(rows, id);
    forall i | 0 <= i < |rows2| && rows2[i].id > started ensures RowScheduled(jobs, started, rows2[i]) {
      assert rows2[i] in rows2;
      var k :| 0 <= k < |rows| && rows[k] == rows2[i];
      assert RowScheduled(jobs, started, rows[k]);
    }
  }

  class Bot {
    const store: TaskStore
    /** The AUTOINCREMENT counter when the process started: ids up to it have no job. */
    ghost const started: int
    /** Every job handed to the scheduler since start-up, in order; jobs are never removed. */
    ghost var jobs: seq<Job>

    ghost predicate Valid()
      reads this, store
    {
      store.Valid() && Scheduled(store.rows, started, store.lastId, jobs)
    }

    /**
     * Start-up (main.py:580-582): `init_db()` on whatever the database file holds,
     * an empty table on a fresh file, and a scheduler with no jobs. Rows a previous
     * run left behind keep their ids and the counter, but none of them has a job.
     */
    constructor (saved: seq<Row>, savedLastId: int)
      requires TableValid(saved, savedLastId)
      ensures Valid() && fresh(store)
      ensures store.rows == saved && store.lastId == savedLastId
      ensures started == savedLastId && jobs == []
    {
      store := new TaskStore.Open(saved, savedLastId);
      started := savedLastId;
      jobs := [];
    }

    /**
     * `cmd_remind`: when the arguments split and parse, one row is stored with the
     * upper-cased category, then one job carrying that row's id is scheduled for the
     * parsed instant; otherwise nothing is stored or scheduled.
     */
    method Remind(chatId: int, args: string, now: DateTime) returns (reply: RemindReply)
      requires Valid() && ValidDateTime(now)
      modifies this, store
      ensures Valid()
      ensures match PlanRemind(args, now)
        case Err(e) =>
          && reply == e
          && store.rows == old(store.rows) && store.lastId == old(store.lastId) && jobs == old(jobs)
        case Ok(q) =>
          var id := old(store.lastId) + 1;
          var category := Upper(q.category);
          && reply == Created(id, category, q.parsed.kind, q.parsed.display, q.text)
          && store.lastId == id
          && store.rows == old(store.rows) + [Row(id, chatId, q.parsed.display, category, q.text, 0)]
          && jobs == old(jobs) + [Job(q.parsed.runDate, chatId, category, q.text, id)]
      ensures reply.Created? ==> Before(now, jobs[|jobs| - 1].runDate)
    {
      var plan := PlanRemind(args, now);
      match plan
      case Err(e) =>
        reply := e;
      case Ok(q) =>
        reply := Register(chatId, q);
    }

    /**
     * The storing half of `cmd_remind` (main.py:284-298): `add_reminder` with the
     * upper-cased category, then one job for the new id.
     */
    method Register(chatId: int, q: RemindRequest) returns (reply: RemindReply)
      requires Valid()
      modifies this, store
      ensures Valid()
      ensures
        var id := old(store.lastId) + 1;
        var category := Upper(q.category);
        && reply == Created(id, category, q.parsed.kind, q.parsed.display, q.text)
        && store.lastId == id
        && store.rows == old(store.rows) + [Row(id, chatId, q.parsed.display, category, q.text, 0)]
        && jobs == old(jobs) + [Job(q.parsed.runDate, chatId, category, q.text, id)]
    {
      var category := Upper(q.category);
      ghost var rows0, last0 := store.rows, store.lastId;
      var id := store.Add(chatId, q.parsed.display, category, q.text);
      var job := Job(q.parsed.runDate, chatId, category, q.text, id);
      ScheduledAfterAdd(rows0, started, last0, jobs, Row(id, chatId, q.parsed.display, category, q.text, 0), job);
      jobs := jobs + [job];
      reply := Created(id, category, q.parsed.kind, q.parsed.display, q.text);
    }

    /**
     * `cmd_edit`: the text changes only when the caller's chat owns the task; the
     * scheduled job keeps the text it was created with.
     */
    method Edit(chatId: int, args: string) returns (reply: EditReply)
      requires Valid()
      modifies store
      ensures Valid()
      ensures store.lastId == old(store.lastId) && jobs == old(jobs)
      ensures match PlanEdit(args)
        case Err(e) => reply == e && store.rows == old(store.rows)
        case Ok(q) =>
          if Owns(old(store.rows), q.id, chatId) then
            reply == Edited(q.id, q.text) && store.rows == WithText(old(store.rows), q.id, q.text)
          else
            reply == EditNotFound(q.id) && store.rows == old(store.rows)
    {
      match PlanEdit(args)
      case Err(e) =>
        reply := e;
      case Ok(q) =>
        var found := store.Exists(q.id, chatId);
        if !found {
          reply := EditNotFound(q.id);
        } else {
          ScheduledAfterText(store.rows, started, store.lastId, jobs, q.id, q.text);
          store.UpdateText(q.id, q.text);
          reply := Edited(q.id, q.text);
        }
    }

    /**
     * `cmd_delete`: the row goes only when the caller's chat owns it. A row created
     * since start-up keeps its job, which still fires; a row from before start-up
     * had none.
     */
    method Delete(chatId: int, args: string) returns (reply: DeleteReply)
      requires Valid()
      modifies store
      ensures Valid()
      ensures store.lastId == old(store.lastId) && jobs == old(jobs)
      ensures match DeleteTarget(args)
        case Err(e) => reply == e && store.rows == old(store.rows)
        case Ok(id) =>
          if Owns(old(store.rows), id, chatId) then
            reply == Deleted(id) && store.rows == Without(old(store.rows), id)
          else
            reply == DeleteNotFound(id) && store.rows == old(store.rows)
      ensures reply.Deleted? && reply.id > started ==>
        reply.id - started <= |jobs| && jobs[reply.id - started - 1].taskId == reply.id
      ensures reply.Deleted? && reply.id <= started ==> forall k :: 0 <= k < |jobs| ==> jobs[k].taskId != reply.id
    {
      match DeleteTarget(args)
      case Err(e) =>
        reply := e;
      case Ok(id) =>
        reply := DeleteOwned(chatId, id);
    }

    /**
     * The second half of `cmd_delete` (main.py:569-574), once the id is read: the
     * ownership check, then the row's removal.
     */
    method DeleteOwned(chatId: int, id: int) returns (reply: DeleteReply)
      requires Valid()
      modifies store
      ensures Valid()
      ensures store.lastId == old(store.lastId) && jobs == old(jobs)
      ensures if Owns(old(store.rows), id, chatId) then
          reply == Deleted(id) && store.rows == Without(old(store.rows), id)
        else
          reply == DeleteNotFound(id) && store.rows == old(store.rows)
      ensures reply.Deleted? && reply.id > started ==>
        reply.id - started <= |jobs| && jobs[reply.id - started - 1].taskId == reply.id
      ensures reply.Deleted? && reply.id <= started ==> forall k :: 0 <= k < |jobs| ==> jobs[k].taskId != reply.id
    {
      var found := store.Exists(id, chatId);
      if !found {
        reply := DeleteNotFound(id);
      } else {
        JobOfStoredTask(store.rows, started, store.lastId, jobs, id, chatId);
        ScheduledAfterDelete(store.rows, started, store.lastId, jobs, id);
        store.Delete(id);
        reply := Deleted(id);
      }
    }

    /**
     * `callbacks_done`: marks the task done whoever pressed the button; an id no row
     * has changes nothing.
     */
    method Done(data: string) returns (reply: DoneReply)
      requires Valid() && |data| >= 5 && data[..5] == "done_"
      modifies store
      ensures Valid()
      ensures store.lastId == old(store.lastId) && jobs == old(jobs)
      ensures match DoneTarget(data)
        case None => reply == DoneInvalidId && store.rows == old(store.rows)
        case Some(id) => reply == Completed(id) && store.rows == WithStatus(old(store.rows), id, 1)
    {
      match DoneTarget(data)
      case None =>
        reply := DoneInvalidId;
      case Some(id) =>
        ScheduledAfterStatus(store.rows, started, store.lastId, jobs, id, 1);
        store.UpdateStatus(id, 1);
        reply := Completed(id);
    }
  }
}
