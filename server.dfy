/** The six request handlers of the API service. Each validates its input,
    runs its statements against the shared store and maps the outcome to a
    status and a reply. */
module Server {
  import opened Json
  import opened Tables
  import opened Store

  /** Which store statement of a request raises, if any: `FailsAt(n)` means the
      statements before the n-th succeed and the n-th raises without effect.
      Statements are counted from 1 in the order a handler runs them; a value of
      `n` that names no statement the request runs (0, or past its last one)
      raises nothing and acts as `NoFault`. */
  datatype Fault = NoFault | FailsAt(statement: nat)

  /** The JSON a handler sends back. `Error` is the `{ error: message }` body. */
  datatype Reply =
    | StatusOk
    | UserRecord(user: User)
    | TaskRecord(task: Task)
    | UserList(users: seq<User>)
    | TaskList(tasks: seq<Task>)
    | Error

  datatype Response = Response(status: int, reply: Reply)

  /** The checks `!username || !email` and `!title` let a request through. */
  predicate UserFieldsGiven(body: Body)
    ensures UserFieldsGiven(body) <==>
              "username" in body && body["username"] !in {Undefined, Null, Bool(false), Num(0.0), Str("")} &&
              "email" in body && body["email"] !in {Undefined, Null, Bool(false), Num(0.0), Str("")}
  {
    Truthy(Field(body, "username")) && Truthy(Field(body, "email"))
  }

  predicate TitleGiven(body: Body)
    ensures TitleGiven(body) <==>
              "title" in body && body["title"] !in {Undefined, Null, Bool(false), Num(0.0), Str("")}
  {
    Truthy(Field(body, "title"))
  }

  /** GET /api/health */
  function Health(): (r: Response)
    ensures r.status == 200 && r.reply == StatusOk
  {
    Response(200, StatusOk)
  }

  /** POST /api/users */
  method CreateUser(db: Database, body: Body, fault: Fault) returns (r: Response)
    requires db.Valid()
    modifies db
    ensures db.Valid()
    ensures r.status == 400 <==> !UserFieldsGiven(body)
    ensures r.status in {201, 400, 500}
    ensures r.status != 201 ==> r.reply == Error
    // a rejected request or a failed INSERT leaves both tables as they were
    ensures !UserFieldsGiven(body) || fault == FailsAt(1) ==> unchanged(db)
    ensures UserFieldsGiven(body) && fault == FailsAt(1) ==> r.status == 500
    // otherwise exactly one row is added, under an id no earlier user had
    ensures UserFieldsGiven(body) && fault != FailsAt(1) ==>
              var u := User(old(db.nextUserId), Field(body, "username"), Field(body, "email"));
              (forall v :: v in old(db.users) ==> v.id != u.id) &&
              db.users == old(db.users) + [u] &&
              db.tasks == old(db.tasks) && db.nextTaskId == old(db.nextTaskId) &&
              r.status == (if fault == FailsAt(2) then 500 else 201) &&
              (r.status == 201 ==> r.reply == UserRecord(u))
  {
    var username, email := Field(body, "username"), Field(body, "email");
    if !Truthy(username) || !Truthy(email) {
      return Response(400, Error);
    }
    if fault == FailsAt(1) {
      return Response(500, Error);
    }
    var insertedId := db.InsertUser(username, email);
    if fault == FailsAt(2) {
      return Response(500, Error);
    }
    RowWithIdAfterInsert(old(db.users), UserKey, User(insertedId, username, email));
    var row := RowWithId(db.users, UserKey, insertedId);
    r := Response(201, UserRecord(row.value));
  }

  /** GET /api/users */
  method ListUsers(db: Database, fault: Fault) returns (r: Response)
    requires db.Valid()
    ensures r.status in {200, 500}
    ensures r.status == 500 <==> fault == FailsAt(1)
    ensures r.status == 500 ==> r.reply == Error
    ensures r.status == 200 ==>
              r.reply.UserList? && Ascending(r.reply.users, UserKey) &&
              forall u :: u in r.reply.users <==> u in db.users
  {
    if fault == FailsAt(1) {
      return Response(500, Error);
    }
    r := Response(200, UserList(db.AllUsersById()));
  }

  /** GET /api/users/:id/tasks. The id is not checked against `users`: an
      unknown user, like a user without tasks, gets an empty list. */
  method ListTasks(db: Database, userId: int, fault: Fault) returns (r: Response)
    requires db.Valid()
    ensures r.status in {200, 500}
    ensures r.status == 500 <==> fault == FailsAt(1)
    ensures r.status == 500 ==> r.reply == Error
    ensures r.status == 200 ==>
              r.reply.TaskList? && Ascending(r.reply.tasks, TaskKey) &&
              forall t :: t in r.reply.tasks <==> t in db.tasks && t.userId == userId
  {
    if fault == FailsAt(1) {
      return Response(500, Error);
    }
    r := Response(200, TaskList(db.TasksOfUserById(userId)));
  }

  /** POST /api/users/:id/tasks. The owner id is stored as given, whether or not
      a user has it. */
  method CreateTask(db: Database, userId: int, body: Body, fault: Fault) returns (r: Response)
    requires db.Valid()
    modifies db
    ensures db.Valid()
    ensures r.status == 400 <==> !TitleGiven(body)
    ensures r.status in {201, 400, 500}
    ensures r.status != 201 ==> r.reply == Error
    ensures !TitleGiven(body) || fault == FailsAt(1) ==> unchanged(db)
    ensures TitleGiven(body) && fault == FailsAt(1) ==> r.status == 500
    ensures TitleGiven(body) && fault != FailsAt(1) ==>
              var t := Task(old(db.nextTaskId), userId, Field(body, "title"), false);
              (forall v :: v in old(db.tasks) ==> v.id != t.id) &&
              db.tasks == old(db.tasks) + [t] &&
              db.users == old(db.users) && db.nextUserId == old(db.nextUserId) &&
              r.status == (if fault == FailsAt(2) then 500 else 201) &&
              (r.status == 201 ==> r.reply == TaskRecord(t))
  {
    var title := Field(body, "title");
    if !Truthy(title) {
      return Response(400, Error);
    }
    if fault == FailsAt(1) {
      return Response(500, Error);
    }
    var insertedId := db.InsertTask(userId, title);
    if fault == FailsAt(2) {
      return Response(500, Error);
    }
    RowWithIdAfterInsert(old(db.tasks), TaskKey, Task(insertedId, userId, title, false));
    var row := RowWithId(db.tasks, TaskKey, insertedId);
    r := Response(201, TaskRecord(row.value));
  }

  /** PUT /api/tasks/:id */
  method SetTaskState(db: Database, taskId: int, body: Body, fault: Fault) returns (r: Response)
    requires db.Valid()
    modifies db
    ensures db.Valid()
    ensures r.status in {200, 400, 404, 500}
    ensures r.status != 200 ==> r.reply == Error
    ensures r.status == 400 <==> !IsBoolean(Field(body, "is_done"))
    ensures r.status == 404 <==>
              IsBoolean(Field(body, "is_done")) && fault != FailsAt(1) &&
              forall t :: t in old(db.tasks) ==> t.id != taskId
    ensures r.status == 500 <==>
              IsBoolean(Field(body, "is_done")) &&
              (fault == FailsAt(1) ||
               (fault == FailsAt(2) && exists t :: t in old(db.tasks) && t.id == taskId))
    // validation failures, a failed UPDATE and a missing task change nothing
    ensures r.status in {400, 404} || fault == FailsAt(1) ==> unchanged(db)
    // otherwise exactly the flag of the one task with that id is set
    ensures IsBoolean(Field(body, "is_done")) && fault != FailsAt(1) ==>
              db.users == old(db.users) &&
              db.nextUserId == old(db.nextUserId) && db.nextTaskId == old(db.nextTaskId) &&
              db.tasks == SetDone(old(db.tasks), taskId, Field(body, "is_done").b)
    ensures r.status == 200 ==>
              exists k :: 0 <= k < |old(db.tasks)| && old(db.tasks)[k].id == taskId &&
                          db.tasks == old(db.tasks)[k := old(db.tasks)[k].(isDone := Field(body, "is_done").b)] &&
                          r.reply == TaskRecord(db.tasks[k])
  {
    var isDone := Field(body, "is_done");
    if !IsBoolean(isDone) {
      return Response(400, Error);
    }
    if fault == FailsAt(1) {
      return Response(500, Error);
    }
    ghost var before := db.tasks;
    SetDoneChangesOneRow(before, taskId, isDone.b);
    var affectedRows := db.UpdateIsDone(taskId, isDone.b);
    if affectedRows == 0 {
      return Response(404, Error);
    }
    if fault == FailsAt(2) {
      return Response(500, Error);
    }
    TaskWithIdAfterSetDone(before, taskId, isDone.b);
    var row := RowWithId(db.tasks, TaskKey, taskId);
    r := Response(200, TaskRecord(row.value));
  }
}
