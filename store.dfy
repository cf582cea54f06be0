/**
 * The `reminders` table (main.py:29-90) as an in-memory table. Each store function
 * opens the database, runs one statement and closes it; here each is one method on
 * a `TaskStore` whose rows are a sequence kept in id order and whose `lastId` is the
 * AUTOINCREMENT counter (the largest id ever issued, which deletions never lower).
 */
module Store {

  /** One row: `(id, chat_id, exec_time, category, message_text, is_done)`. */
  datatype Row = Row(id: int, chatId: int, execTime: string, category: string, text: string, isDone: int)

  /** The four columns `get_reminders` selects: `(id, exec_time, category, message_text)`. */
  datatype Listing = Listing(id: int, execTime: string, category: string, text: string)

  function Project(r: Row): Listing {
    Listing(r.id, r.execTime, r.category, r.text)
  }

  /** Ids strictly increase along the table, so no id occurs twice. */
  predicate IdsIncreasing(rows: seq<Row>) {
    forall i, j :: 0 <= i < j < |rows| ==> rows[i].id < rows[j].id
  }

  /** `SELECT id FROM reminders WHERE id = ? AND chat_id = ?` finds a row. */
  predicate Owns(rows: seq<Row>, id: int, chatId: int) {
    exists i :: 0 <= i < |rows| && rows[i].id == id && rows[i].chatId == chatId
  }

  /** Some row, whoever owns it, has this id. */
  predicate HasId(rows: seq<Row>, id: int) {
    exists i :: 0 <= i < |rows| && rows[i].id == id
  }

  /**
   * `SELECT id, exec_time, category, message_text ... WHERE chat_id = ? AND is_done = ?`,
   * in table order: exactly the projections of the rows of that chat with that status.
   */
  function Reminders(rows: seq<Row>, chatId: int, status: int): (out: seq<Listing>)
    ensures |out| <= |rows|
    ensures forall i :: 0 <= i < |rows| && rows[i].chatId == chatId && rows[i].isDone == status ==> Project(rows[i]) in out
    ensures forall l :: l in out ==> exists i :: 0 <= i < |rows| && rows[i].chatId == chatId && rows[i].isDone == status && Project(rows[i]) == l
  {
    if rows == [] then []
    else
      var tail := Reminders(rows[1..], chatId, status);
      var head := if rows[0].chatId == chatId && rows[0].isDone == status then [Project(rows[0])] else [];
      assert forall i :: 1 <= i < |rows| ==> rows[i] == rows[1..][i - 1];
      head + tail
  }

  /**
   * `UPDATE reminders SET message_text = ? WHERE id = ?`: the rows with that id get the
   * new text, nothing else changes.
   */
  function WithText(rows: seq<Row>, id: int, text: string): (out: seq<Row>)
    ensures |out| == |rows|
    ensures forall i :: 0 <= i < |rows| ==> out[i].(text := rows[i].text) == rows[i]
    ensures forall i :: 0 <= i < |rows| ==> out[i].text == if rows[i].id == id then text else rows[i].text
  {
    if rows == [] then []
    else
      var r := rows[0];
      var tail := WithText(rows[1..], id, text);
      assert forall i :: 1 <= i < |rows| ==> rows[i] == rows[1..][i - 1];
      [if r.id == id then r.(text := text) else r] + tail
  }

  /**
   * `UPDATE reminders SET is_done = ? WHERE id = ?`: the rows with that id get the new
   * status, nothing else changes.
   */
  function WithStatus(rows: seq<Row>, id: int, status: int): (out: seq<Row>)
    ensures |out| == |rows|
    ensures forall i :: 0 <= i < |rows| ==> out[i].(isDone := rows[i].isDone) == rows[i]
    ensures forall i :: 0 <= i < |rows| ==> out[i].isDone == if rows[i].id == id then status else rows[i].isDone
  {
    if rows == [] then []
    else
      var r := rows[0];
      var tail := WithStatus(rows[1..], id, status);
      assert forall i :: 1 <= i < |rows| ==> rows[i] == rows[1..][i - 1];
      [if r.id == id then r.(isDone := status) else r] + tail
  }

  /**
   * `DELETE FROM reminders WHERE id = ?`: exactly the rows with another id remain, in
   * their order.
   */
  function Without(rows: seq<Row>, id: int): (out: seq<Row>)
    ensures |out| <= |rows|
    ensures forall r :: r in out <==> r in rows && r.id != id
  {
    if rows == [] then []
    else
      var tail := Without(rows[1..], id);
      assert forall r :: r in rows <==> r == rows[0] || r in rows[1..];
      if rows[0].id == id then tail else [rows[0]] + tail
  }

  /** Deleting keeps the remaining ids in increasing order. */
  lemma {:induction false} WithoutIncreasing(rows: seq<Row>, id: int)
    requires IdsIncreasing(rows)
    ensures IdsIncreasing(Without(rows, id))
    decreases |rows|
  {
    if rows != [] {
      var tail := Without(rows[1..], id);
      WithoutIncreasing(rows[1..], id);
      if rows[0].id != id {
        forall r | r in tail ensures rows[0].id < r.id {
          var k :| 0 <= k < |rows[1..]| && rows[1..][k] == r;
          assert rows[k + 1] == r;
        }
        ConsIncreasing(rows[0], tail);
      }
    }
  }

  lemma ConsIncreasing(x: Row, tail: seq<Row>)
    requires IdsIncreasing(tail)
    requires forall r :: r in tail ==> x.id < r.id
    ensures IdsIncreasing([x] + tail)
  {
    var out := [x] + tail;
    forall i, j | 0 <= i < j < |out| ensures out[i].id < out[j].id {
      assert out[j] == tail[j - 1];
      if i == 0 {
        assert tail[j - 1] in tail;
      } else {
        assert out[i] == tail[i - 1];
      }
    }
  }

  // ---------------------------------------------------------------- the table

  /** Ids are unique, increase along the table and never exceed the counter. */
  predicate TableValid(rows: seq<Row>, lastId: int) {
    && 0 <= lastId
    && IdsIncreasing(rows)
    && forall i :: 0 <= i < |rows| ==> 1 <= rows[i].id <= lastId
  }

  class TaskStore {
    var rows: seq<Row>
    /** The AUTOINCREMENT counter: the largest id ever handed out, 0 before the first. */
    var lastId: int

    ghost predicate Valid()
      reads this
    {
      TableValid(rows, lastId)
    }

    /** `init_db` on a fresh database file: the table exists and is empty. */
    constructor ()
      ensures Valid() && rows == [] && lastId == 0
    {
      rows := [];
      lastId := 0;
    }

    /**
     * `init_db` on a database file a previous run left behind: `CREATE TABLE IF NOT
     * EXISTS` leaves its rows and its AUTOINCREMENT counter as they were.
     */
    constructor Open(saved: seq<Row>, savedLastId: int)
      requires TableValid(saved, savedLastId)
      ensures Valid() && rows == saved && lastId == savedLastId
    {
      rows := saved;
      lastId := savedLastId;
    }

    /**
     * `add_reminder`: inserts a row with `is_done` defaulting to 0 and returns its
     * id, one past every id ever issued, even ids whose rows were deleted since.
     */
    method Add(chatId: int, execTime: string, category: string, text: string) returns (id: int)
      requires Valid()
      modifies this
      ensures Valid()
      ensures id == old(lastId) + 1 && lastId == id
      ensures forall i :: 0 <= i < |old(rows)| ==> old(rows)[i].id < id
      ensures rows == old(rows) + [Row(id, chatId, execTime, category, text, 0)]
    {
      lastId := lastId + 1;
      id := lastId;
      rows := rows + [Row(id, chatId, execTime, category, text, 0)];
    }

    /** `update_task_text`: changes `message_text` of the row with that id and nothing else. */
    method UpdateText(id: int, text: string)
      requires Valid()
      modifies this
      ensures Valid()
      ensures rows == WithText(old(rows), id, text) && lastId == old(lastId)
    {
      rows := WithText(rows, id, text);
      assert forall i :: 0 <= i < |rows| ==> rows[i].id == old(rows)[i].id;
    }

    /** `get_reminders`: the listing of one chat's rows with the given status. */
    method Get(chatId: int, status: int) returns (out: seq<Listing>)
      ensures out == Reminders(rows, chatId, status)
    {
      out := Reminders(rows, chatId, status);
    }

    /** `update_status`: changes `is_done` of the row with that id and nothing else. */
    method UpdateStatus(id: int, status: int)
      requires Valid()
      modifies this
      ensures Valid()
      ensures rows == WithStatus(old(rows), id, status) && lastId == old(lastId)
    {
      rows := WithStatus(rows, id, status);
      assert forall i :: 0 <= i < |rows| ==> rows[i].id == old(rows)[i].id;
    }

    /** `delete_task`: removes the row with that id; the counter stays, so the id is never reused. */
    method Delete(id: int)
      requires Valid()
      modifies this
      ensures Valid()
      ensures rows == Without(old(rows), id) && lastId == old(lastId)
    {
      WithoutIncreasing(rows, id);
      rows := Without(rows, id);
      assert forall i :: 0 <= i < |rows| ==> rows[i] in old(rows);
    }

    /** `task_exists`: whether a row has both that id and that chat. */
    method Exists(id: int, chatId: int) returns (found: bool)
      ensures found <==> exists i :: 0 <= i < |rows| && rows[i].id == id && rows[i].chatId == chatId
    {
      found := Owns(rows, id, chatId);
    }
  }

  // ---------------------------------------------------------------- properties of the table

  /** A new row is listed for its chat, after everything that was listed before. */
  lemma {:induction false} AddThenList(rows: seq<Row>, r: Row, chatId: int, status: int)
    ensures Reminders(rows + [r], chatId, status)
      == Reminders(rows, chatId, status) + (if r.chatId == chatId && r.isDone == status then [Project(r)] else [])
    decreases |rows|
  {
    if rows != [] {
      assert (rows + [r])[1..] == rows[1..] + [r];
      AddThenList(rows[1..], r, chatId, status);
    }
  }

  /** Marking done twice is marking done once. */
  lemma {:induction false} StatusIdempotent(rows: seq<Row>, id: int, status: int)
    ensures WithStatus(WithStatus(rows, id, status), id, status) == WithStatus(rows, id, status)
    decreases |rows|
  {
    if rows != [] {
      var once := WithStatus(rows, id, status);
      assert once[1..] == WithStatus(rows[1..], id, status);
      StatusIdempotent(rows[1..], id, status);
    }
  }

  /** A task marked done drops out of its chat's active list. */
  lemma DoneLeavesActiveList(rows: seq<Row>, id: int, chatId: int)
    ensures forall l :: l in Reminders(WithStatus(rows, id, 1), chatId, 0) ==> l.id != id
  {
  }

  /** After `delete_task(id)` no chat owns a task with that id. */
  lemma DeleteRemoves(rows: seq<Row>, id: int, chatId: int)
    ensures !Owns(Without(rows, id), id, chatId)
  {
    var out := Without(rows, id);
    forall i | 0 <= i < |out| ensures out[i].id != id {
      assert out[i] in out;
    }
  }

  /** `delete_task(id)` leaves every other task's existence as it was. */
  lemma DeleteKeepsOthers(rows: seq<Row>, id: int, other: int, chatId: int)
    requires other != id
    ensures Owns(Without(rows, id), other, chatId) <==> Owns(rows, other, chatId)
  {
    var out := Without(rows, id);
    if Owns(rows, other, chatId) {
      var i :| 0 <= i < |rows| && rows[i].id == other && rows[i].chatId == chatId;
      assert rows[i] in rows;
      var j :| 0 <= j < |out| && out[j] == rows[i];
    }
    if Owns(out, other, chatId) {
      var j :| 0 <= j < |out| && out[j].id == other && out[j].chatId == chatId;
      assert out[j] in out;
      var i :| 0 <= i < |rows| && rows[i] == out[j];
    }
  }

  /** Editing or completing a task does not change which tasks exist, nor who owns them. */
  lemma UpdatesKeepOwnership(rows: seq<Row>, id: int, text: string, status: int, other: int, chatId: int)
    ensures Owns(WithText(rows, id, text), other, chatId) <==> Owns(rows, other, chatId)
    ensures Owns(WithStatus(rows, id, status), other, chatId) <==> Owns(rows, other, chatId)
  {
    var a := WithText(rows, id, text);
    var b := WithStatus(rows, id, status);
    assert forall i :: 0 <= i < |rows| ==> a[i].id == rows[i].id && a[i].chatId == rows[i].chatId;
    assert forall i :: 0 <= i < |rows| ==> b[i].id == rows[i].id && b[i].chatId == rows[i].chatId;
  }

  /** The three writes leave the table as it was when no row has the id. */
  lemma AbsentIdNoOp(rows: seq<Row>, id: int, text: string, status: int)
    requires !HasId(rows, id)
    ensures WithText(rows, id, text) == rows
    ensures WithStatus(rows, id, status) == rows
    ensures Without(rows, id) == rows
  {
    AbsentWithout(rows, id);
  }

  lemma {:induction false} AbsentWithout(rows: seq<Row>, id: int)
    requires !HasId(rows, id)
    ensures Without(rows, id) == rows
    decreases |rows|
  {
    if rows != [] {
      assert rows[0].id != id;
      assert !HasId(rows[1..], id) by {
        forall i | 0 <= i < |rows[1..]| ensures rows[1..][i].id != id {
          assert rows[1..][i] == rows[i + 1];
        }
      }
      AbsentWithout(rows[1..], id);
    }
  }
}
