/** The rows of the two tables, `users(id, username, email)` and
    `tasks(id, user_id, title, is_done)`, and the meaning of the SQL statements
    the handlers run against them, as functions over the rows in the order the
    store keeps them (insertion order). */
module Tables {
  import opened Json

  datatype Option<T> = None | Some(value: T)

  /** A row of `users`. The name and address are stored as the request gave them. */
  datatype User = User(id: int, username: JsValue, email: JsValue)

  /** A row of `tasks`. */
  datatype Task = Task(id: int, userId: int, title: JsValue, isDone: bool)

  /** The primary key of each table. */
  function UserKey(u: User): int { u.id }
  function TaskKey(t: Task): int { t.id }

  /** Row keys strictly increase along the table: ordered by id, no id twice. */
  predicate Ascending<T>(rows: seq<T>, key: T -> int)
  {
    forall i, j :: 0 <= i < j < |rows| ==> key(rows[i]) < key(rows[j])
  }

  /** No key occurs twice: what a primary key guarantees. An ordered table has it. */
  predicate DistinctKeys<T>(rows: seq<T>, key: T -> int)
  {
    forall i, j :: 0 <= i < j < |rows| ==> key(rows[i]) != key(rows[j])
  }

  /** `SELECT * FROM <table> WHERE id = ?`, the first row of the answer. */
  function RowWithId<T(==)>(rows: seq<T>, key: T -> int, id: int): (r: Option<T>)
    ensures r.Some? ==> r.value in rows && key(r.value) == id
    ensures r.None? <==> forall x :: x in rows ==> key(x) != id
  {
    if rows == [] then None
    else if key(rows[0]) == id then Some(rows[0])
    else RowWithId(rows[1..], key, id)
  }

  /** `SELECT * FROM tasks WHERE user_id = ?`: the matching rows, in table order. */
  function TasksOfUser(ts: seq<Task>, userId: int): (r: seq<Task>)
    ensures forall t :: t in r <==> t in ts && t.userId == userId
  {
    if ts == [] then []
    else if ts[0].userId == userId then [ts[0]] + TasksOfUser(ts[1..], userId)
    else TasksOfUser(ts[1..], userId)
  }

  /** `UPDATE tasks SET is_done = ? WHERE id = ?`: every row with that id gets the
      new flag; no other field and no other row changes. */
  function SetDone(ts: seq<Task>, id: int, isDone: bool): (r: seq<Task>)
    ensures |r| == |ts|
    ensures forall i :: 0 <= i < |ts| ==>
              r[i] == if ts[i].id == id then ts[i].(isDone := isDone) else ts[i]
  {
    if ts == [] then []
    else [if ts[0].id == id then ts[0].(isDone := isDone) else ts[0]] + SetDone(ts[1..], id, isDone)
  }

  /** The rows `WHERE id = ?` matches: the `affectedRows` the update reports. */
  function MatchedRows(ts: seq<Task>, id: int): (n: nat)
    ensures n == 0 <==> forall t :: t in ts ==> t.id != id
    ensures n <= |ts|
  {
    if ts == [] then 0
    else (if ts[0].id == id then 1 else 0) + MatchedRows(ts[1..], id)
  }

  /** Filtering keeps rows in table order, so an ordered table gives an ordered answer. */
  lemma {:induction false} TasksOfUserAscending(ts: seq<Task>, userId: int)
    requires Ascending(ts, TaskKey)
    ensures Ascending(TasksOfUser(ts, userId), TaskKey)
  {
    if ts != [] {
      var rest := TasksOfUser(ts[1..], userId);
      assert Ascending(ts[1..], TaskKey);
      TasksOfUserAscending(ts[1..], userId);
      if ts[0].userId == userId {
        forall t | t in rest ensures TaskKey(ts[0]) < TaskKey(t) {
          FirstIsLeast(ts, TaskKey, t);
        }
        ConsAscending(ts[0], rest, TaskKey);
      }
    }
  }

  /** A row below every row of an ordered table can go in front of it. */
  lemma ConsAscending<T>(x: T, rows: seq<T>, key: T -> int)
    requires Ascending(rows, key)
    requires forall y :: y in rows ==> key(x) < key(y)
    ensures Ascending([x] + rows, key)
  {
    var r := [x] + rows;
    forall i, j | 0 <= i < j < |r| ensures key(r[i]) < key(r[j]) {
      assert r[j] == rows[j - 1];
      if i == 0 {
        assert rows[j - 1] in rows;
      } else {
        assert r[i] == rows[i - 1];
      }
    }
  }

  /** An ordered answer is fixed by the rows it holds: two strictly ascending
      sequences with the same members are equal. So "ORDER BY id" together with
      the right set of rows determines the reply exactly. */
  lemma {:induction false} AscendingUnique<T>(a: seq<T>, b: seq<T>, key: T -> int)
    requires Ascending(a, key) && Ascending(b, key)
    requires forall x :: x in a <==> x in b
    ensures a == b
  {
    SameMembersBothEmpty(a, b);
    if a != [] {
      // each head is the member with the least id, so the heads agree
      FirstIsLeast(a, key, b[0]);
      FirstIsLeast(b, key, a[0]);
      assert a[0] == b[0];
      forall x ensures x in a[1..] <==> x in b[1..] {
        if x in a {
          FirstIsLeast(a, key, x);
          FirstIsLeast(b, key, x);
        }
      }
      AscendingUnique(a[1..], b[1..], key);
      assert a == [a[0]] + a[1..] && b == [b[0]] + b[1..];
    }
  }

  /** In an ordered table the first row has the least id, and every other row
      lies in the tail. */
  lemma FirstIsLeast<T>(a: seq<T>, key: T -> int, x: T)
    requires Ascending(a, key)
    requires x in a
    ensures key(a[0]) <= key(x)
    ensures key(x) == key(a[0]) ==> x == a[0]
    ensures x in a[1..] <==> x != a[0]
  {
    var k :| 0 <= k < |a| && a[k] == x;
    if k > 0 {
      assert key(a[0]) < key(a[k]);
      assert a[1..][k - 1] == x;
    }
    if x in a[1..] {
      var m :| 0 <= m < |a[1..]| && a[1..][m] == x;
      assert key(a[0]) < key(a[m + 1]);
    }
  }

  lemma SameMembersBothEmpty<T>(a: seq<T>, b: seq<T>)
    requires forall x :: x in a <==> x in b
    ensures a == [] <==> b == []
  {
    if a != [] { assert a[0] in a; }
    if b != [] { assert b[0] in b; }
  }

  /** A row appended to the table joins the end of its owner's list of tasks. */
  lemma {:induction false} TasksOfUserAppend(ts: seq<Task>, t: Task, userId: int)
    ensures TasksOfUser(ts + [t], userId)
            == TasksOfUser(ts, userId) + (if t.userId == userId then [t] else [])
  {
    if ts != [] {
      assert (ts + [t])[1..] == ts[1..] + [t];
      TasksOfUserAppend(ts[1..], t, userId);
    } else {
      assert [t][1..] == [];
    }
  }

  /** On a table without repeated ids an update touches at most one row, and when
      some row has the id, exactly that row, and only its `is_done` field. */
  lemma SetDoneChangesOneRow(ts: seq<Task>, id: int, isDone: bool)
    requires DistinctKeys(ts, TaskKey)
    ensures MatchedRows(ts, id) <= 1
    ensures MatchedRows(ts, id) == 0 ==> SetDone(ts, id, isDone) == ts
    ensures MatchedRows(ts, id) == 1 ==>
              exists k :: 0 <= k < |ts| && ts[k].id == id &&
                          SetDone(ts, id, isDone) == ts[k := ts[k].(isDone := isDone)]
  {
    MatchedRowsAtMostOne(ts, id);
    var r := SetDone(ts, id, isDone);
    if MatchedRows(ts, id) == 0 {
      forall j | 0 <= j < |ts| ensures r[j] == ts[j] {
        assert ts[j] in ts;
      }
      assert r == ts;
    } else {
      var t :| t in ts && t.id == id;
      var k :| 0 <= k < |ts| && ts[k] == t;
      var s := ts[k := ts[k].(isDone := isDone)];
      forall j | 0 <= j < |ts| ensures r[j] == s[j] {
        if j < k {
          assert TaskKey(ts[j]) != TaskKey(ts[k]);
        } else if k < j {
          assert TaskKey(ts[k]) != TaskKey(ts[j]);
        }
      }
      assert r == s;
    }
  }

  /** On a table without repeated ids, `affectedRows` is at most 1. */
  lemma {:induction false} MatchedRowsAtMostOne(ts: seq<Task>, id: int)
    requires DistinctKeys(ts, TaskKey)
    ensures MatchedRows(ts, id) <= 1
  {
    if ts != [] {
      assert DistinctKeys(ts[1..], TaskKey) by {
        forall i, j | 0 <= i < j < |ts[1..]| ensures TaskKey(ts[1..][i]) != TaskKey(ts[1..][j]) {
          assert ts[1..][i] == ts[i + 1] && ts[1..][j] == ts[j + 1];
        }
      }
      MatchedRowsAtMostOne(ts[1..], id);
      if ts[0].id == id {
        forall t | t in ts[1..] ensures t.id != id {
          var k :| 0 <= k < |ts[1..]| && ts[1..][k] == t;
          assert TaskKey(ts[0]) != TaskKey(ts[k + 1]);
        }
      }
    }
  }

  /** Setting the same flag on the same id a second time changes nothing more,
      and the second update still matches the row. */
  lemma {:induction false} SetDoneIdempotent(ts: seq<Task>, id: int, isDone: bool)
    ensures SetDone(SetDone(ts, id, isDone), id, isDone) == SetDone(ts, id, isDone)
    ensures MatchedRows(SetDone(ts, id, isDone), id) == MatchedRows(ts, id)
  {
    var once := SetDone(ts, id, isDone);
    assert SetDone(once, id, isDone) == once;
    MatchedRowsSetDone(ts, id, isDone);
  }

  lemma {:induction false} MatchedRowsSetDone(ts: seq<Task>, id: int, isDone: bool)
    ensures MatchedRows(SetDone(ts, id, isDone), id) == MatchedRows(ts, id)
  {
    if ts != [] {
      MatchedRowsSetDone(ts[1..], id, isDone);
      assert SetDone(ts, id, isDone)[1..] == SetDone(ts[1..], id, isDone);
    }
  }

  /** An update keeps every id in place, so the table stays ordered. */
  lemma SetDoneKeepsIds(ts: seq<Task>, id: int, isDone: bool)
    requires Ascending(ts, TaskKey)
    ensures Ascending(SetDone(ts, id, isDone), TaskKey)
  {
    var r := SetDone(ts, id, isDone);
    forall i, j | 0 <= i < j < |r| ensures TaskKey(r[i]) < TaskKey(r[j]) {
      assert TaskKey(ts[i]) < TaskKey(ts[j]);
    }
  }

  /** Reading back a row just appended under an id above every stored id finds it. */
  lemma RowWithIdAfterInsert<T>(rows: seq<T>, key: T -> int, x: T)
    requires forall y :: y in rows ==> key(y) < key(x)
    ensures RowWithId(rows + [x], key, key(x)) == Some(x)
  {
  }

  /** On a table without repeated ids, reading back the id of a stored row finds that row. */
  lemma RowWithIdAt<T>(rows: seq<T>, key: T -> int, k: int)
    requires DistinctKeys(rows, key)
    requires 0 <= k < |rows|
    ensures RowWithId(rows, key, key(rows[k])) == Some(rows[k])
  {
  }

  /** Reading back the row an update matched finds it with the new flag. */
  lemma TaskWithIdAfterSetDone(ts: seq<Task>, id: int, isDone: bool)
    requires Ascending(ts, TaskKey)
    requires MatchedRows(ts, id) > 0
    ensures exists k :: 0 <= k < |ts| && ts[k].id == id &&
                        RowWithId(SetDone(ts, id, isDone), TaskKey, id) == Some(ts[k].(isDone := isDone))
  {
    SetDoneChangesOneRow(ts, id, isDone);
    SetDoneKeepsIds(ts, id, isDone);
    var k :| 0 <= k < |ts| && ts[k].id == id &&
             SetDone(ts, id, isDone) == ts[k := ts[k].(isDone := isDone)];
    var r := SetDone(ts, id, isDone);
    RowWithIdAt(r, TaskKey, k);
    assert TaskKey(r[k]) == id;
  }
}
