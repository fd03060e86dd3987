/** The relational store the handlers share: the two tables and their
    AUTO_INCREMENT counters. Each statement the handlers run is one method
    (a write) or one function (a read) here. */
module Store {
  import opened Json
  import opened Tables

  class Database {
    var users: seq<User>
    var tasks: seq<Task>
    /** The id the next inserted user receives. */
    var nextUserId: int
    /** The id the next inserted task receives. */
    var nextTaskId: int

    /** Ids are generated from 1 upwards, so every stored id is positive, below
        its table's counter, and the rows are kept in ascending id order. */
    ghost predicate Valid()
      reads this
    {
      1 <= nextUserId && 1 <= nextTaskId &&
      Ascending(users, UserKey) && Ascending(tasks, TaskKey) &&
      (forall i :: 0 <= i < |users| ==> 1 <= users[i].id < nextUserId) &&
      (forall i :: 0 <= i < |tasks| ==> 1 <= tasks[i].id < nextTaskId)
    }

    /** Two empty tables whose counters start at 1. */
    constructor ()
      ensures Valid()
      ensures users == [] && tasks == [] && nextUserId == 1 && nextTaskId == 1
    {
      users, tasks := [], [];
      nextUserId, nextTaskId := 1, 1;
    }

    /** `INSERT INTO users (username, email) VALUES (?, ?)`; the result is `insertId`. */
    method InsertUser(username: JsValue, email: JsValue) returns (insertId: int)
      requires Valid()
      modifies this
      ensures Valid()
      ensures insertId == old(nextUserId) && nextUserId == insertId + 1
      ensures forall u :: u in old(users) ==> u.id < insertId
      ensures users == old(users) + [User(insertId, username, email)]
      ensures tasks == old(tasks) && nextTaskId == old(nextTaskId)
    {
      insertId := nextUserId;
      users := users + [User(insertId, username, email)];
      nextUserId := nextUserId + 1;
    }

    /** `INSERT INTO tasks (user_id, title, is_done) VALUES (?, ?, false)`. The
        owner is stored as given: no check that such a user exists. */
    method InsertTask(userId: int, title: JsValue) returns (insertId: int)
      requires Valid()
      modifies this
      ensures Valid()
      ensures insertId == old(nextTaskId) && nextTaskId == insertId + 1
      ensures forall t :: t in old(tasks) ==> t.id < insertId
      ensures tasks == old(tasks) + [Task(insertId, userId, title, false)]
      ensures users == old(users) && nextUserId == old(nextUserId)
    {
      insertId := nextTaskId;
      tasks := tasks + [Task(insertId, userId, title, false)];
      nextTaskId := nextTaskId + 1;
    }

    /** `UPDATE tasks SET is_done = ? WHERE id = ?`; the result is `affectedRows`,
        counted as rows matched. */
    method UpdateIsDone(id: int, isDone: bool) returns (affectedRows: nat)
      requires Valid()
      modifies this
      ensures Valid()
      ensures affectedRows == MatchedRows(old(tasks), id)
      ensures tasks == SetDone(old(tasks), id, isDone)
      ensures affectedRows == 0 ==> unchanged(this)
      ensures users == old(users) && nextUserId == old(nextUserId) && nextTaskId == old(nextTaskId)
    {
      affectedRows := MatchedRows(tasks, id);
      SetDoneChangesOneRow(tasks, id, isDone);
      if affectedRows > 0 {
        SetDoneKeepsIds(tasks, id, isDone);
        tasks := SetDone(tasks, id, isDone);
      }
    }

    /** `SELECT * FROM users ORDER BY id`: every user, by ascending id. */
    function AllUsersById(): (r: seq<User>)
      reads this
      requires Valid()
      ensures Ascending(r, UserKey)
      ensures forall u :: u in r <==> u in users
    {
      users
    }

    /** `SELECT * FROM tasks WHERE user_id = ? ORDER BY id`. */
    function TasksOfUserById(userId: int): (r: seq<Task>)
      reads this
      requires Valid()
      ensures Ascending(r, TaskKey)
      ensures forall t :: t in r <==> t in tasks && t.userId == userId
    {
      TasksOfUserAscending(tasks, userId);
      TasksOfUser(tasks, userId)
    }
  }
}
