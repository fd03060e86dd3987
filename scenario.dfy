/** Sequences of requests against one store, and what the handlers' contracts
    let a client conclude about them. */
module Scenario {
  import opened Json
  import opened Tables
  import opened Store
  import opened Server

  /** A fresh store: create alice, give her a task, mark it done, list her tasks. */
  method Walkthrough() returns (created: Response, added: Response, toggled: Response, listed: Response)
    ensures created == Response(201, UserRecord(User(1, Str("alice"), Str("a@x.com"))))
    ensures added == Response(201, TaskRecord(Task(1, 1, Str("buy milk"), false)))
    ensures toggled == Response(200, TaskRecord(Task(1, 1, Str("buy milk"), true)))
    ensures listed == Response(200, TaskList([Task(1, 1, Str("buy milk"), true)]))
  {
    var db := new Database();
    var alice := map["username" := Str("alice"), "email" := Str("a@x.com")];
    assert UserFieldsGiven(alice);
    created := CreateUser(db, alice, NoFault);
    var milk := map["title" := Str("buy milk")];
    assert TitleGiven(milk);
    added := CreateTask(db, 1, milk, NoFault);
    assert db.tasks == [Task(1, 1, Str("buy milk"), false)];
    var done := map["is_done" := Bool(true)];
    assert Field(done, "is_done") == Bool(true);
    toggled := SetTaskState(db, 1, done, NoFault);
    assert db.tasks == [Task(1, 1, Str("buy milk"), true)];
    listed := ListTasks(db, 1, NoFault);
    AscendingUnique(listed.reply.tasks, db.tasks, TaskKey);
  }

  /** A created user, with a fresh id, is appended to the next listing of users. */
  method CreateUserThenList(db: Database, body: Body) returns (created: Response, listed: Response)
    requires db.Valid()
    modifies db
    ensures db.Valid()
    ensures created.status == 201 <==> UserFieldsGiven(body)
    ensures created.status == 201 ==>
              created.reply.UserRecord? && listed.status == 200 && listed.reply.UserList? &&
              created.reply.user.username == Field(body, "username") &&
              created.reply.user.email == Field(body, "email") &&
              (forall u :: u in old(db.users) ==> u.id != created.reply.user.id) &&
              listed.reply.users == old(db.users) + [created.reply.user]
  {
    created := CreateUser(db, body, NoFault);
    listed := ListUsers(db, NoFault);
    if created.status == 201 {
      AscendingUnique(listed.reply.users, db.users, UserKey);
    }
  }

  /** A created task is appended to its owner's listing, open, with the given title. */
  method CreateTaskThenList(db: Database, userId: int, body: Body) returns (created: Response, listed: Response)
    requires db.Valid()
    modifies db
    ensures db.Valid()
    ensures created.status == 201 <==> TitleGiven(body)
    ensures created.status == 201 ==>
              created.reply.TaskRecord? &&
              created.reply.task.userId == userId && !created.reply.task.isDone &&
              created.reply.task.title == Field(body, "title") &&
              listed.status == 200 && listed.reply.TaskList? &&
              listed.reply.tasks == old(db.TasksOfUserById(userId)) + [created.reply.task]
  {
    ghost var before := db.tasks;
    created := CreateTask(db, userId, body, NoFault);
    listed := ListTasks(db, userId, NoFault);
    if created.status == 201 {
      var t := created.reply.task;
      TasksOfUserAppend(before, t, userId);
      TasksOfUserAscending(db.tasks, userId);
      AscendingUnique(listed.reply.tasks, TasksOfUser(db.tasks, userId), TaskKey);
    }
  }

  /** Sending the same `is_done` for the same task twice: the second request gets
      the same answer as the first, and the store ends as after one request. */
  method SetTaskStateTwice(db: Database, taskId: int, body: Body) returns (first: Response, second: Response)
    requires db.Valid()
    modifies db
    ensures db.Valid()
    ensures second == first
    ensures db.users == old(db.users)
    ensures db.nextUserId == old(db.nextUserId) && db.nextTaskId == old(db.nextTaskId)
    ensures IsBoolean(Field(body, "is_done")) ==>
              db.tasks == SetDone(old(db.tasks), taskId, Field(body, "is_done").b)
    ensures !IsBoolean(Field(body, "is_done")) ==> unchanged(db)
  {
    ghost var before := db.tasks;
    first := SetTaskState(db, taskId, body, NoFault);
    second := SetTaskState(db, taskId, body, NoFault);
    if IsBoolean(Field(body, "is_done")) {
      SetDoneIdempotent(before, taskId, Field(body, "is_done").b);
    }
  }
}
