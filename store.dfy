/**
  The server's board store: the two SQLite tables `columns(id, title)` and
  `tasks(id, title, status, position, description)` and the statements the
  routes run against them: one INSERT, UPDATE or DELETE per mutating route,
  preceded by `SELECT MAX(position)` in POST /tasks, and two SELECTs for
  GET /board. A table is a sequence of rows; `SELECT *` without `ORDER BY` is
  never issued, so the order of that sequence is only the order in which rows
  were inserted.
 */
module Store {
  import opened Seqs

  datatype Option<T> = None | Some(value: T)

  /** A row of `columns`. */
  datatype Column = Column(id: int, title: string)

  /** A row of `tasks`; `status` is the id of the owning column, `description` is NULL until set. */
  datatype Task = Task(id: int, title: string, status: int, position: int, description: Option<string>)

  function ColumnId(c: Column): int { c.id }
  function TaskId(t: Task): int { t.id }
  function Position(t: Task): int { t.position }

  /** The filter of `DELETE FROM tasks WHERE status = ?`: the rows that survive it. */
  function OutsideColumn(status: int): Task -> bool { (t: Task) => t.status != status }

  /** The filter of `DELETE FROM columns WHERE id = ?`: the rows that survive it. */
  function OtherColumn(id: int): Column -> bool { (c: Column) => c.id != id }

  /** `SELECT MAX(position) FROM tasks WHERE status = ?`, with SQL's NULL for "no rows" as `None`. */
  function MaxPosition(tasks: seq<Task>, status: int): (r: Option<int>)
    ensures r.None? <==> forall i :: 0 <= i < |tasks| ==> tasks[i].status != status
    ensures r.Some? ==> forall i :: 0 <= i < |tasks| && tasks[i].status == status ==> tasks[i].position <= r.value
    ensures r.Some? ==> exists i :: 0 <= i < |tasks| && tasks[i].status == status && tasks[i].position == r.value
    decreases |tasks|
  {
    if tasks == [] then None
    else
      var rest := MaxPosition(tasks[1..], status);
      assert forall i :: 1 <= i < |tasks| ==> tasks[i] == tasks[1..][i - 1];
      if tasks[0].status != status then rest
      else if rest.Some? && rest.value > tasks[0].position then rest
      else Some(tasks[0].position)
  }

  /**
    The position a new task of column `status` receives: one past the largest
    position in that column, or 0 for a column without tasks.
   */
  function NextPosition(tasks: seq<Task>, status: int): (p: int)
    ensures (forall i :: 0 <= i < |tasks| ==> tasks[i].status != status) ==> p == 0
    ensures forall i :: 0 <= i < |tasks| && tasks[i].status == status ==> tasks[i].position < p
    ensures (exists i :: 0 <= i < |tasks| && tasks[i].status == status) ==>
              exists i :: 0 <= i < |tasks| && tasks[i].status == status && tasks[i].position == p - 1
  {
    match MaxPosition(tasks, status)
    case None => 0
    case Some(m) => m + 1
  }

  /** `UPDATE tasks SET status = ?, position = ? WHERE id = ?`. */
  function MoveRows(tasks: seq<Task>, id: int, status: int, position: int): (r: seq<Task>)
    ensures |r| == |tasks|
    ensures forall i :: 0 <= i < |tasks| ==>
              r[i].id == tasks[i].id && r[i].title == tasks[i].title && r[i].description == tasks[i].description
    ensures forall i :: 0 <= i < |tasks| && tasks[i].id == id ==> r[i].status == status && r[i].position == position
    ensures forall i :: 0 <= i < |tasks| && tasks[i].id != id ==> r[i] == tasks[i]
    ensures (forall i :: 0 <= i < |tasks| ==> tasks[i].id != id) ==> r == tasks
  {
    seq(|tasks|, i requires 0 <= i < |tasks| =>
      if tasks[i].id == id then tasks[i].(status := status, position := position) else tasks[i])
  }

  /** `UPDATE tasks SET title = ? WHERE id = ?`. */
  function RenameRows(tasks: seq<Task>, id: int, title: string): (r: seq<Task>)
    ensures |r| == |tasks|
    ensures forall i :: 0 <= i < |tasks| ==>
              r[i].id == tasks[i].id && r[i].status == tasks[i].status &&
              r[i].position == tasks[i].position && r[i].description == tasks[i].description
    ensures forall i :: 0 <= i < |tasks| && tasks[i].id == id ==> r[i].title == title
    ensures forall i :: 0 <= i < |tasks| && tasks[i].id != id ==> r[i] == tasks[i]
    ensures (forall i :: 0 <= i < |tasks| ==> tasks[i].id != id) ==> r == tasks
  {
    seq(|tasks|, i requires 0 <= i < |tasks| =>
      if tasks[i].id == id then tasks[i].(title := title) else tasks[i])
  }

  /** `UPDATE tasks SET description = ? WHERE id = ?`. */
  function DescribeRows(tasks: seq<Task>, id: int, description: string): (r: seq<Task>)
    ensures |r| == |tasks|
    ensures forall i :: 0 <= i < |tasks| ==>
              r[i].id == tasks[i].id && r[i].title == tasks[i].title &&
              r[i].status == tasks[i].status && r[i].position == tasks[i].position
    ensures forall i :: 0 <= i < |tasks| && tasks[i].id == id ==> r[i].description == Some(description)
    ensures forall i :: 0 <= i < |tasks| && tasks[i].id != id ==> r[i] == tasks[i]
    ensures (forall i :: 0 <= i < |tasks| ==> tasks[i].id != id) ==> r == tasks
  {
    seq(|tasks|, i requires 0 <= i < |tasks| =>
      if tasks[i].id == id then tasks[i].(description := Some(description)) else tasks[i])
  }

  /**
    The two tables. Both primary keys are INTEGER PRIMARY KEY, so SQLite keeps
    ids unique within each table; `Valid` records exactly that.
   */
  class Board {
    var columns: seq<Column>
    var tasks: seq<Task>

    ghost predicate Valid()
      reads this
    {
      DistinctKeys(columns, ColumnId) && DistinctKeys(tasks, TaskId)
    }

    /** `CREATE TABLE IF NOT EXISTS` on an empty database: both tables are empty. */
    constructor ()
      ensures Valid() && columns == [] && tasks == []
    {
      columns := [];
      tasks := [];
    }

    /** Start-up: when `columns` is empty, insert one column titled "Todo". */
    method Seed()
      requires Valid()
      modifies this
      ensures Valid() && tasks == old(tasks)
      ensures old(columns) == [] ==> |columns| == 1 && columns[0].title == "Todo" && columns[0].id > 0
      ensures old(columns) != [] ==> columns == old(columns)
    {
      if |columns| == 0 {
        var id :| id > 0;
        columns := [Column(id, "Todo")];
      }
    }

    /** `INSERT INTO columns (title) VALUES (?)`: any title, empty included; the reply echoes the row. */
    method CreateColumn(title: string) returns (col: Column)
      requires Valid()
      modifies this
      ensures Valid() && tasks == old(tasks)
      ensures col.title == title && col.id > 0
      ensures forall c :: c in old(columns) ==> c.id != col.id
      ensures columns == old(columns) + [col]
    {
      ghost var bound := KeyBound(columns, ColumnId);
      var id :| id > 0 && id !in Keys(columns, ColumnId);
      col := Column(id, title);
      columns := columns + [col];
    }

    /** `INSERT INTO tasks (title, status, position) VALUES (?, ?, ?)` after computing the position. */
    method CreateTask(title: string, status: int) returns (task: Task)
      requires Valid()
      modifies this
      ensures Valid() && columns == old(columns)
      ensures task.id > 0 && forall t :: t in old(tasks) ==> t.id != task.id
      ensures task == Task(task.id, title, status, NextPosition(old(tasks), status), None)
      ensures tasks == old(tasks) + [task]
    {
      var position := NextPosition(tasks, status);
      ghost var bound := KeyBound(tasks, TaskId);
      var id :| id > 0 && id !in Keys(tasks, TaskId);
      task := Task(id, title, status, position, None);
      tasks := tasks + [task];
    }

    /** POST /tasks/move: always answers success, whether or not a row had that id. */
    method MoveTask(id: int, status: int, position: int)
      requires Valid()
      modifies this
      ensures Valid() && columns == old(columns)
      ensures tasks == MoveRows(old(tasks), id, status, position)
    {
      tasks := MoveRows(tasks, id, status, position);
      assert forall i :: 0 <= i < |tasks| ==> tasks[i].id == old(tasks)[i].id;
    }

    /** POST /tasks/rename. */
    method RenameTask(id: int, title: string)
      requires Valid()
      modifies this
      ensures Valid() && columns == old(columns)
      ensures tasks == RenameRows(old(tasks), id, title)
    {
      tasks := RenameRows(tasks, id, title);
      assert forall i :: 0 <= i < |tasks| ==> tasks[i].id == old(tasks)[i].id;
    }

    /** POST /tasks/description. */
    method SetDescription(id: int, description: string)
      requires Valid()
      modifies this
      ensures Valid() && columns == old(columns)
      ensures tasks == DescribeRows(old(tasks), id, description)
    {
      tasks := DescribeRows(tasks, id, description);
      assert forall i :: 0 <= i < |tasks| ==> tasks[i].id == old(tasks)[i].id;
    }

    /** DELETE /columns/:id/tasks. */
    method DeleteTasksByStatus(status: int)
      requires Valid()
      modifies this
      ensures Valid() && columns == old(columns)
      ensures forall t :: t in tasks ==> t.status != status
      ensures tasks == Filter(old(tasks), OutsideColumn(status))
      ensures (forall t :: t in old(tasks) ==> t.status != status) ==> tasks == old(tasks)
    {
      FilterDistinct(tasks, OutsideColumn(status), TaskId);
      if forall t :: t in tasks ==> t.status != status {
        FilterKeepsAll(tasks, OutsideColumn(status));
      }
      tasks := Filter(tasks, OutsideColumn(status));
    }

    /** DELETE /columns/:id: the column row only; its tasks stay. */
    method DeleteColumn(id: int)
      requires Valid()
      modifies this
      ensures Valid() && tasks == old(tasks)
      ensures forall c :: c in columns ==> c.id != id
      ensures columns == Filter(old(columns), OtherColumn(id))
    {
      FilterDistinct(columns, OtherColumn(id), ColumnId);
      columns := Filter(columns, OtherColumn(id));
    }

    /**
      GET /board: `SELECT * FROM columns ORDER BY id` and `SELECT * FROM tasks
      ORDER BY position`. Tasks are ordered by position across all columns, and
      SQL leaves the order of equal positions open, so only "a permutation,
      sorted" is promised.
     */
    method Snapshot() returns (cols: seq<Column>, ts: seq<Task>)
      requires Valid()
      ensures multiset(cols) == multiset(columns) && StrictlySortedBy(cols, ColumnId)
      ensures multiset(ts) == multiset(tasks) && SortedBy(ts, Position)
    {
      cols := SortBy(columns, ColumnId);
      SortByStrict(columns, ColumnId);
      ts := SortBy(tasks, Position);
    }
  }

  /**
    DELETE /columns/:id alone leaves the column's tasks behind: each of them
    survives and now names a column that no longer exists.
   */
  method OrphanedByColumnDelete(board: Board, id: int)
    requires board.Valid()
    modifies board
    ensures board.Valid()
    ensures forall t :: t in old(board.tasks) && t.status == id ==>
              t in board.tasks && forall c :: c in board.columns ==> c.id != t.status
  {
    board.DeleteColumn(id);
  }

  /** Running the start-up seed a second time changes nothing. */
  method SeedTwice(board: Board) returns (once: seq<Column>)
    requires board.Valid()
    modifies board
    ensures board.Valid() && board.tasks == old(board.tasks)
    ensures once != [] && board.columns == once
    ensures old(board.columns) == [] ==> |once| == 1 && once[0].title == "Todo"
    ensures old(board.columns) != [] ==> once == old(board.columns)
  {
    board.Seed();
    once := board.columns;
    board.Seed();
  }
}
