/**
  The browser side: the in-memory mirror `boardData = {columns, tasks}`, the
  per-column render filter, the handlers that create and delete items, and the
  drag-and-drop handler that re-sequences the list a task was dropped into.
  Each handler runs to completion against the store it calls.
 */
module Client {
  import opened Seqs
  import opened Store

  /** The body of one POST /tasks/move request. */
  datatype MoveRequest = MoveRequest(id: int, status: int, position: int)

  function RequestId(w: MoveRequest): int { w.id }

  /** The render filter `t.status === col.id`. */
  function InColumn(colId: int): Task -> bool { (t: Task) => t.status == colId }

  /** The tasks listed under column `colId`, in mirror order. */
  function ColumnTasks(tasks: seq<Task>, colId: int): seq<Task>
  {
    Filter(tasks, InColumn(colId))
  }

  /** One rendered column: its header and the tasks listed under it. */
  datatype ColumnView = ColumnView(column: Column, tasks: seq<Task>)

  /** `renderBoard`: one view per mirror column, in mirror order. */
  function Render(columns: seq<Column>, tasks: seq<Task>): (v: seq<ColumnView>)
    ensures |v| == |columns|
    ensures forall i :: 0 <= i < |v| ==> v[i].column == columns[i]
    ensures forall i, t :: 0 <= i < |v| ==> (t in v[i].tasks <==> t in tasks && t.status == columns[i].id)
    ensures forall i :: 0 <= i < |v| ==> v[i].tasks == ColumnTasks(tasks, columns[i].id)
  {
    seq(|columns|, i requires 0 <= i < |columns| => ColumnView(columns[i], ColumnTasks(tasks, columns[i].id)))
  }

  /**
    Each column lists every mirror task of that column exactly as often as the
    mirror holds it, and no other task; and the list follows mirror order: for
    a mirror split as `a + b`, the tasks from `a` come first.
   */
  lemma RenderCountsAndOrder(columns: seq<Column>, a: seq<Task>, b: seq<Task>, i: int, t: Task)
    requires 0 <= i < |columns|
    ensures multiset(Render(columns, a + b)[i].tasks)[t] ==
              if t.status == columns[i].id then multiset(a + b)[t] else 0
    ensures Render(columns, a + b)[i].tasks == ColumnTasks(a, columns[i].id) + ColumnTasks(b, columns[i].id)
  {
    FilterMultiset(a + b, InColumn(columns[i].id), t);
    FilterConcat(a, b, InColumn(columns[i].id));
  }

  /**
    A task appears on the rendered board exactly when some column has its
    status as id; a task whose column is gone is shown nowhere.
   */
  lemma RenderShowsExactly(columns: seq<Column>, tasks: seq<Task>, t: Task)
    ensures (exists i :: 0 <= i < |columns| && t in Render(columns, tasks)[i].tasks)
        <==> t in tasks && exists c :: c in columns && c.id == t.status
  {
    var v := Render(columns, tasks);
    if t in tasks && exists c :: c in columns && c.id == t.status {
      var c :| c in columns && c.id == t.status;
      var i :| 0 <= i < |columns| && columns[i] == c;
      assert t in v[i].tasks;
    }
  }

  /**
    `addTaskToColumn` appends the new task's element to its column's list
    without re-rendering; that list is the one a full re-render of the grown
    mirror would show, and every other column's list is unchanged.
   */
  lemma AppendMatchesRerender(tasks: seq<Task>, t: Task, colId: int)
    ensures t.status == colId ==> ColumnTasks(tasks + [t], colId) == ColumnTasks(tasks, colId) + [t]
    ensures t.status != colId ==> ColumnTasks(tasks + [t], colId) == ColumnTasks(tasks, colId)
  {
    FilterConcat(tasks, [t], InColumn(colId));
    assert Filter([t], InColumn(colId)) == Filter([], InColumn(colId)) + (if t.status == colId then [t] else []) by {
      assert [t][1..] == [];
    }
  }

  /** The store's tasks after the given move requests were applied one after another. */
  function ApplyMoves(tasks: seq<Task>, ws: seq<MoveRequest>): seq<Task>
    decreases |ws|
  {
    if ws == [] then tasks
    else
      var w := ws[|ws| - 1];
      MoveRows(ApplyMoves(tasks, ws[..|ws| - 1]), w.id, w.status, w.position)
  }

  /**
    Applying move requests for pairwise different ids: every row keeps its id,
    title and description; a row named by a request ends with that request's
    status and position; a row no request names is untouched.
   */
  lemma {:induction false} ApplyMovesEffect(tasks: seq<Task>, ws: seq<MoveRequest>)
    requires DistinctKeys(ws, RequestId)
    ensures |ApplyMoves(tasks, ws)| == |tasks|
    ensures forall k :: 0 <= k < |tasks| ==>
              var r := ApplyMoves(tasks, ws)[k];
              r.id == tasks[k].id && r.title == tasks[k].title && r.description == tasks[k].description
    ensures forall k, i :: 0 <= k < |tasks| && 0 <= i < |ws| && ws[i].id == tasks[k].id ==>
              ApplyMoves(tasks, ws)[k].status == ws[i].status && ApplyMoves(tasks, ws)[k].position == ws[i].position
    ensures forall k :: 0 <= k < |tasks| && (forall i :: 0 <= i < |ws| ==> ws[i].id != tasks[k].id) ==>
              ApplyMoves(tasks, ws)[k] == tasks[k]
    decreases |ws|
  {
    if ws != [] {
      var front := ws[..|ws| - 1];
      var w := ws[|ws| - 1];
      assert DistinctKeys(front, RequestId) by {
        forall i, j | 0 <= i < j < |front| ensures front[i].id != front[j].id {
          assert front[i] == ws[i] && front[j] == ws[j];
        }
      }
      ApplyMovesEffect(tasks, front);
      var mid := ApplyMoves(tasks, front);
      forall k, i | 0 <= k < |tasks| && 0 <= i < |ws| && ws[i].id == tasks[k].id
        ensures ApplyMoves(tasks, ws)[k].status == ws[i].status && ApplyMoves(tasks, ws)[k].position == ws[i].position
      {
        if i < |ws| - 1 {
          assert front[i] == ws[i];
          assert mid[k].id == tasks[k].id != w.id;
        }
      }
      forall k | 0 <= k < |tasks| && (forall i :: 0 <= i < |ws| ==> ws[i].id != tasks[k].id)
        ensures ApplyMoves(tasks, ws)[k] == tasks[k]
      {
        assert forall i :: 0 <= i < |front| ==> front[i] == ws[i];
        assert mid[k].id == tasks[k].id != w.id;
      }
    }
  }

  /** The move requests the drop handler issues for the target list `items`: request i is `{items[i], col, i}`. */
  ghost predicate DropRequests(ws: seq<MoveRequest>, items: seq<int>, col: int)
  {
    |ws| == |items| && forall i :: 0 <= i < |items| ==> ws[i] == MoveRequest(items[i], col, i)
  }

  /**
    After the drop's requests reach the store, the task shown at index i of the
    target list has the target column and position i; every task not in that
    list, the ones left in the source column included, keeps its old status and
    position, so the source column may be left with a gap.
   */
  lemma DropResequences(tasks: seq<Task>, items: seq<int>, col: int, ws: seq<MoveRequest>)
    requires DropRequests(ws, items, col)
    requires forall i, j :: 0 <= i < j < |items| ==> items[i] != items[j]
    ensures |ApplyMoves(tasks, ws)| == |tasks|
    ensures forall k, i :: 0 <= k < |tasks| && 0 <= i < |items| && tasks[k].id == items[i] ==>
              ApplyMoves(tasks, ws)[k].status == col && ApplyMoves(tasks, ws)[k].position == i
    ensures forall k :: 0 <= k < |tasks| && tasks[k].id !in items ==> ApplyMoves(tasks, ws)[k] == tasks[k]
  {
    assert DistinctKeys(ws, RequestId) by {
      forall i, j | 0 <= i < j < |ws| ensures ws[i].id != ws[j].id {
        assert ws[i].id == items[i] && ws[j].id == items[j];
      }
    }
    ApplyMovesEffect(tasks, ws);
    forall k | 0 <= k < |tasks| && tasks[k].id !in items
      ensures ApplyMoves(tasks, ws)[k] == tasks[k]
    {
      forall i | 0 <= i < |ws| ensures ws[i].id != tasks[k].id {
        assert ws[i].id == items[i];
      }
    }
  }

  /** The positions held by the tasks of column `col`. */
  function Positions(tasks: seq<Task>, col: int): set<int>
  {
    set t | t in tasks && t.status == col :: t.position
  }

  /**
    When the target list showed every stored task of the target column and only
    stored tasks, that column afterwards holds exactly the listed tasks, with
    positions exactly 0 .. n-1.
   */
  lemma DropMakesTargetContiguous(tasks: seq<Task>, items: seq<int>, col: int, ws: seq<MoveRequest>)
    requires DropRequests(ws, items, col)
    requires forall i, j :: 0 <= i < j < |items| ==> items[i] != items[j]
    requires forall k :: 0 <= k < |tasks| && tasks[k].status == col ==> tasks[k].id in items
    requires forall i :: 0 <= i < |items| ==> items[i] in Keys(tasks, TaskId)
    ensures |ApplyMoves(tasks, ws)| == |tasks|
    ensures forall k :: 0 <= k < |tasks| ==> (ApplyMoves(tasks, ws)[k].status == col <==> tasks[k].id in items)
    ensures forall p :: p in Positions(ApplyMoves(tasks, ws), col) <==> 0 <= p < |items|
  {
    DropResequences(tasks, items, col, ws);
    var r := ApplyMoves(tasks, ws);
    var positions := Positions(r, col);
    forall p | p in positions ensures 0 <= p < |items| {
      var t :| t in r && t.status == col && t.position == p;
      var k :| 0 <= k < |r| && r[k] == t;
      var i :| 0 <= i < |items| && items[i] == tasks[k].id;
    }
    forall p | 0 <= p < |items| ensures p in positions {
      var k :| 0 <= k < |tasks| && tasks[k].id == items[p];
      assert r[k] in r;
    }
  }

  /**
    Without the hypothesis that the list showed the whole target column, the
    drop can leave two tasks of that column at one position. This happens after
    a re-render from a stale mirror: a task the store already has in the target
    column is missing from the list, and when its position is one the drop hands
    out, the listed task given that position ends beside it.
   */
  lemma StaleListDuplicatesPosition(tasks: seq<Task>, items: seq<int>, col: int, ws: seq<MoveRequest>, k: int, m: int)
    requires DropRequests(ws, items, col)
    requires forall i, j :: 0 <= i < j < |items| ==> items[i] != items[j]
    requires 0 <= k < |tasks| && tasks[k].status == col && tasks[k].id !in items
    requires 0 <= tasks[k].position < |items|
    requires 0 <= m < |tasks| && tasks[m].id == items[tasks[k].position]
    ensures k != m && |ApplyMoves(tasks, ws)| == |tasks|
    ensures ApplyMoves(tasks, ws)[k].status == ApplyMoves(tasks, ws)[m].status == col
    ensures ApplyMoves(tasks, ws)[k].position == ApplyMoves(tasks, ws)[m].position
  {
    DropResequences(tasks, items, col, ws);
  }

  /**
    The client: the mirror `boardData` and the store it talks to. Create
    handlers patch the mirror with the server's reply; the drop and rename
    handlers leave it as it was.
   */
  class BoardController {
    var columns: seq<Column>
    var tasks: seq<Task>
    const server: Board

    /** The mirror holds exactly the store's rows, in some order. */
    ghost predicate InSync()
      reads this, server
    {
      multiset(columns) == multiset(server.columns) && multiset(tasks) == multiset(server.tasks)
    }

    /** `let boardData = { columns: [], tasks: [] }`. */
    constructor (server: Board)
      ensures this.server == server && columns == [] && tasks == []
    {
      this.server := server;
      columns := [];
      tasks := [];
    }

    /** `loadBoard`: the mirror becomes the snapshot of GET /board. */
    method LoadBoard()
      requires server.Valid()
      modifies this
      ensures InSync()
      ensures StrictlySortedBy(columns, ColumnId) && SortedBy(tasks, Position)
    {
      columns, tasks := server.Snapshot();
    }

    /** `addTask`: an empty title makes no call; otherwise the created row is appended to the mirror. */
    method AddTask(colId: int, title: string)
      requires server.Valid()
      modifies this, server
      ensures server.Valid()
      ensures title == "" ==> unchanged(this) && unchanged(server)
      ensures title != "" ==>
                && |server.tasks| == |old(server.tasks)| + 1
                && var t := server.tasks[|server.tasks| - 1];
                && t.title == title && t.status == colId
                && t.position == NextPosition(old(server.tasks), colId)
                && server.tasks == old(server.tasks) + [t]
                && tasks == old(tasks) + [t]
      ensures columns == old(columns) && server.columns == old(server.columns)
      ensures old(InSync()) ==> InSync()
    {
      if title == "" {
        return;
      }
      var t := server.CreateTask(title, colId);
      tasks := tasks + [t];
    }

    /** `confirmAddColumn`: an empty title makes no call; otherwise the created column is appended. */
    method ConfirmAddColumn(title: string)
      requires server.Valid()
      modifies this, server
      ensures server.Valid()
      ensures title == "" ==> unchanged(this) && unchanged(server)
      ensures title != "" ==>
                && |server.columns| == |old(server.columns)| + 1
                && var c := server.columns[|server.columns| - 1];
                && c.title == title
                && server.columns == old(server.columns) + [c]
                && columns == old(columns) + [c]
      ensures tasks == old(tasks) && server.tasks == old(server.tasks)
      ensures old(InSync()) ==> InSync()
    {
      if title == "" {
        return;
      }
      var c := server.CreateColumn(title);
      columns := columns + [c];
    }

    /**
      `deleteColumn`: without confirmation nothing happens; with it, the
      column's tasks are deleted, then the column, then both are stripped from
      the mirror, everything else keeping its order.
     */
    method DeleteColumn(colId: int, confirmed: bool)
      requires server.Valid()
      modifies this, server
      ensures server.Valid()
      ensures !confirmed ==> unchanged(this) && unchanged(server)
      ensures confirmed ==>
                && server.tasks == Filter(old(server.tasks), OutsideColumn(colId))
                && server.columns == Filter(old(server.columns), OtherColumn(colId))
                && tasks == Filter(old(tasks), OutsideColumn(colId))
                && columns == Filter(old(columns), OtherColumn(colId))
      ensures old(InSync()) ==> InSync()
    {
      if !confirmed {
        return;
      }
      ghost var before := multiset(tasks) == multiset(server.tasks) && multiset(columns) == multiset(server.columns);
      if before {
        FilterPermutation(tasks, server.tasks, OutsideColumn(colId));
        FilterPermutation(columns, server.columns, OtherColumn(colId));
      }
      server.DeleteTasksByStatus(colId);
      server.DeleteColumn(colId);
      columns := Filter(columns, OtherColumn(colId));
      tasks := Filter(tasks, OutsideColumn(colId));
    }

    /**
      Sortable's `onEnd`: one move request per element of the target list, in
      list order, request i carrying the target column and position i. The
      mirror is not touched.
     */
    method OnEnd(items: seq<int>, col: int) returns (sent: seq<MoveRequest>)
      requires server.Valid()
      modifies server
      ensures server.Valid() && server.columns == old(server.columns)
      ensures DropRequests(sent, items, col)
      ensures server.tasks == ApplyMoves(old(server.tasks), sent)
      ensures columns == old(columns) && tasks == old(tasks)
    {
      sent := [];
      for i := 0 to |items|
        invariant server.Valid() && server.columns == old(server.columns)
        invariant DropRequests(sent, items[..i], col)
        invariant server.tasks == ApplyMoves(old(server.tasks), sent)
      {
        server.MoveTask(items[i], col, i);
        sent := sent + [MoveRequest(items[i], col, i)];
        assert sent[..|sent| - 1] == sent[..i];
      }
      assert items[..|items|] == items;
    }
  }
}
