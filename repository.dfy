/**
 * The todo store behind `TodoRepository`. The repository is a framework
 * interface without code, so everything here is a modelling assumption: the
 * store keeps database rows (a todo row owning its ordered task rows), hands
 * out freshly built entity objects on reads, and writes entity objects back
 * on save and update, assigning identity-column ids that start at 1.
 */
module Repository {
  import opened Wrappers
  import opened Dto
  import opened Model
  import TaskMapper
  import TodoMapper

  datatype TaskRow = TaskRow(id: int, name: string, description: Option<string>)
  datatype TodoRow = TodoRow(name: string, description: Option<string>, tasks: seq<TaskRow>)

  /** The wire view of stored task rows, in order. */
  function TaskRowsDto(rs: seq<TaskRow>): (r: seq<TaskDto>)
  {
    seq(|rs|, i requires 0 <= i < |rs| => TaskDto(rs[i].name, rs[i].description))
  }

  /** The wire view of the stored todo `id`: what mapping its loaded entity gives. */
  function RowDto(id: int, row: TodoRow): (d: TodoDto)
  {
    TodoDto(Some(id), row.name, row.description, Some(TaskRowsDto(row.tasks)))
  }

  /** The ids of the tasks a todo row owns. */
  function TaskIds(row: TodoRow): (ids: set<int>)
  {
    set i | 0 <= i < |row.tasks| :: row.tasks[i].id
  }

  ghost predicate DistinctTaskIds(rs: seq<TaskRow>)
  {
    forall i, j :: 0 <= i < j < |rs| ==> rs[i].id != rs[j].id
  }

  /**
   * The integrity constraints of the two tables: todo ids and task ids are
   * below their generators, and every task id belongs to exactly one todo
   * (the foreign key of a task names its single owner).
   */
  ghost predicate WellFormed(rows: map<int, TodoRow>, nextTodoId: int, nextTaskId: int)
  {
    && 1 <= nextTodoId && 1 <= nextTaskId
    && (forall id :: id in rows ==> 1 <= id < nextTodoId)
    && (forall id :: id in rows ==> DistinctTaskIds(rows[id].tasks))
    && (forall id, i :: id in rows && 0 <= i < |rows[id].tasks| ==> 1 <= rows[id].tasks[i].id < nextTaskId)
    && (forall a, b :: a in rows && b in rows && a != b ==> TaskIds(rows[a]) !! TaskIds(rows[b]))
  }

  /**
   * Adding a todo under the next todo id, with task ids drawn fresh from the
   * task generator, keeps the constraints.
   */
  lemma InsertKeepsWellFormed(rows: map<int, TodoRow>, nextTodoId: int, nextTaskId: int, nextTaskId': int, row: TodoRow)
    requires WellFormed(rows, nextTodoId, nextTaskId) && nextTaskId <= nextTaskId'
    requires DistinctTaskIds(row.tasks)
    requires forall i :: 0 <= i < |row.tasks| ==> nextTaskId <= row.tasks[i].id < nextTaskId'
    ensures nextTodoId !in rows
    ensures WellFormed(rows[nextTodoId := row], nextTodoId + 1, nextTaskId')
  {
    var rows' := rows[nextTodoId := row];
    forall a, b | a in rows' && b in rows' && a != b ensures TaskIds(rows'[a]) !! TaskIds(rows'[b]) {
      if a == nextTodoId || b == nextTodoId {
        var other := if a == nextTodoId then b else a;
        forall k | k in TaskIds(rows'[other]) ensures k !in TaskIds(row) {
          var i :| 0 <= i < |rows[other].tasks| && rows[other].tasks[i].id == k;
        }
      }
    }
  }

  /**
   * Replacing the row of a stored todo by one whose task ids are either its
   * own old ones or fresh from the task generator keeps the constraints.
   */
  lemma ReplaceKeepsWellFormed(rows: map<int, TodoRow>, nextTodoId: int, nextTaskId: int, nextTaskId': int, id: int, row: TodoRow)
    requires WellFormed(rows, nextTodoId, nextTaskId)
    requires id in rows && nextTaskId <= nextTaskId'
    requires DistinctTaskIds(row.tasks)
    requires forall k :: k in TaskIds(row) ==> k in TaskIds(rows[id]) || nextTaskId <= k < nextTaskId'
    ensures WellFormed(rows[id := row], nextTodoId, nextTaskId')
  {
    var rows' := rows[id := row];
    forall o, i | o in rows' && 0 <= i < |rows'[o].tasks| ensures 1 <= rows'[o].tasks[i].id < nextTaskId' {
      if o == id {
        assert row.tasks[i].id in TaskIds(row);
        if row.tasks[i].id in TaskIds(rows[id]) {
          var j :| 0 <= j < |rows[id].tasks| && rows[id].tasks[j].id == row.tasks[i].id;
        }
      }
    }
    forall a, b | a in rows' && b in rows' && a != b ensures TaskIds(rows'[a]) !! TaskIds(rows'[b]) {
      if a == id || b == id {
        var other := if a == id then b else a;
        forall k | k in TaskIds(rows'[other]) ensures k !in TaskIds(row) {
          var i :| 0 <= i < |rows[other].tasks| && rows[other].tasks[i].id == k;
          assert TaskIds(rows[other]) !! TaskIds(rows[id]);
        }
      }
    }
  }

  /** The ids carried by task entities, in order (`None` for a task not yet persisted). */
  function TaskEntityIds(ts: seq<Task>): (r: seq<Option<int>>)
    reads ts
  {
    seq(|ts|, i reads ts requires 0 <= i < |ts| => ts[i].id)
  }

  /** The task ids of a stored todo lie between 1 and the task generator. */
  lemma RowTaskIdsBelow(rows: map<int, TodoRow>, nextTodoId: int, nextTaskId: int, id: int)
    requires WellFormed(rows, nextTodoId, nextTaskId) && id in rows
    ensures forall k :: k in TaskIds(rows[id]) ==> 1 <= k < nextTaskId
  {
    forall k | k in TaskIds(rows[id]) ensures 1 <= k < nextTaskId {
      var i :| 0 <= i < |rows[id].tasks| && rows[id].tasks[i].id == k;
    }
  }

  /**
   * Persisting a collection over a todo's old row, where a task either
   * carries one of the row's ids or gets a fresh one: every new id is old
   * or fresh, and an old id survives exactly when some task carries it.
   */
  lemma ReplacementIds(before: TodoRow, ids: seq<Option<int>>, row: TodoRow, nextTaskId: int, nextTaskId': int)
    requires |ids| == |row.tasks|
    requires forall k :: k in TaskIds(before) ==> k < nextTaskId
    requires forall i :: 0 <= i < |ids| ==>
      if ids[i].Some? then row.tasks[i].id == ids[i].value && ids[i].value in TaskIds(before)
      else nextTaskId <= row.tasks[i].id < nextTaskId'
    ensures forall k :: k in TaskIds(row) ==> k in TaskIds(before) || nextTaskId <= k < nextTaskId'
    ensures forall k :: k in TaskIds(before) ==> (k in TaskIds(row) <==> Some(k) in ids)
  {
    forall k | k in TaskIds(row) ensures k in TaskIds(before) || nextTaskId <= k < nextTaskId' {
      var i :| 0 <= i < |row.tasks| && row.tasks[i].id == k;
    }
    forall k | k in TaskIds(before) ensures k in TaskIds(row) <==> Some(k) in ids {
      if k in TaskIds(row) {
        var i :| 0 <= i < |row.tasks| && row.tasks[i].id == k;
        assert ids[i] == Some(k);
      }
      if Some(k) in ids {
        var i :| 0 <= i < |ids| && ids[i] == Some(k);
        assert row.tasks[i].id == k;
      }
    }
  }

  /**
   * When only the row of `id` changed and none of its old task ids is in its
   * new row, none of them is stored anywhere any more.
   */
  lemma OldTasksGone(before: map<int, TodoRow>, after: map<int, TodoRow>, nextTodoId: int, nextTaskId: int, id: int,
                     ids: seq<Option<int>>)
    requires WellFormed(before, nextTodoId, nextTaskId) && id in before
    requires after.Keys == before.Keys
    requires forall k :: k in before && k != id ==> after[k] == before[k]
    requires forall k :: k in TaskIds(before[id]) ==> (k in TaskIds(after[id]) <==> Some(k) in ids)
    requires forall j :: 0 <= j < |ids| ==> ids[j].None?
    ensures forall k, o :: k in TaskIds(before[id]) && o in after ==> k !in TaskIds(after[o])
  {
    forall k, o | k in TaskIds(before[id]) && o in after ensures k !in TaskIds(after[o]) {
      if o != id {
        assert TaskIds(before[o]) !! TaskIds(before[id]);
      } else {
        assert Some(k) !in ids;
      }
    }
  }

  /** The stored todos with ids in [lo, hi), by ascending id, as `findAll` returns them. */
  function ListingFrom(rows: map<int, TodoRow>, lo: int, hi: int): (r: seq<TodoDto>)
    decreases hi - lo
  {
    if lo >= hi then []
    else (if lo in rows then [RowDto(lo, rows[lo])] else []) + ListingFrom(rows, lo + 1, hi)
  }

  /** Every entry of the listing is the wire view of a stored todo of the range. */
  lemma {:induction false} ListingFromEntries(rows: map<int, TodoRow>, lo: int, hi: int)
    ensures forall i :: 0 <= i < |ListingFrom(rows, lo, hi)| ==>
      var d := ListingFrom(rows, lo, hi)[i];
      d.id.Some? && lo <= d.id.value < hi && d.id.value in rows && d == RowDto(d.id.value, rows[d.id.value])
    decreases hi - lo
  {
    if lo < hi {
      ListingFromEntries(rows, lo + 1, hi);
    }
  }

  /** The listing is in strictly ascending id order. */
  lemma {:induction false} ListingFromOrdered(rows: map<int, TodoRow>, lo: int, hi: int)
    ensures forall i, j :: 0 <= i < j < |ListingFrom(rows, lo, hi)| ==>
      ListingFrom(rows, lo, hi)[i].id.OrElse(0) < ListingFrom(rows, lo, hi)[j].id.OrElse(0)
    decreases hi - lo
  {
    if lo < hi {
      ListingFromOrdered(rows, lo + 1, hi);
      ListingFromEntries(rows, lo + 1, hi);
    }
  }

  /** The wire view of every stored todo of the range appears in the listing. */
  lemma {:induction false} ListingFromComplete(rows: map<int, TodoRow>, lo: int, hi: int)
    ensures forall k :: k in rows && lo <= k < hi ==> RowDto(k, rows[k]) in ListingFrom(rows, lo, hi)
    decreases hi - lo
  {
    if lo < hi {
      ListingFromComplete(rows, lo + 1, hi);
    }
  }

  /** The listing has one entry per stored todo of the range. */
  lemma {:induction false} ListingFromLength(rows: map<int, TodoRow>, lo: int, hi: int)
    ensures |ListingFrom(rows, lo, hi)| == |set k | k in rows && lo <= k < hi|
    decreases hi - lo
  {
    if lo < hi {
      ListingFromLength(rows, lo + 1, hi);
      var keys := set k | k in rows && lo <= k < hi;
      var keysRest := set k | k in rows && lo + 1 <= k < hi;
      if lo in rows {
        assert keys == {lo} + keysRest;
      } else {
        assert keys == keysRest;
      }
    } else {
      assert (set k | k in rows && lo <= k < hi) == {};
    }
  }

  /** When every id of the store lies in [lo, hi), the listing has one entry per stored todo. */
  lemma ListingFromCoversStore(rows: map<int, TodoRow>, lo: int, hi: int)
    requires forall k :: k in rows ==> lo <= k < hi
    ensures |ListingFrom(rows, lo, hi)| == |rows|
  {
    ListingFromLength(rows, lo, hi);
    assert (set k | k in rows && lo <= k < hi) == rows.Keys;
  }

  /** An entity object that reflects the stored todo `id` field by field, tasks included. */
  ghost predicate Mirrors(t: Todo, id: int, row: TodoRow)
    reads t, t.tasks
  {
    && t.id == Some(id) && t.name == row.name && t.description == row.description
    && |t.tasks| == |row.tasks|
    && forall i :: 0 <= i < |row.tasks| ==>
         && t.tasks[i].id == Some(row.tasks[i].id)
         && t.tasks[i].name == row.tasks[i].name
         && t.tasks[i].description == row.tasks[i].description
  }

  /** Mapping an entity that mirrors a row gives the row's wire view. */
  lemma MirrorsToDto(t: Todo, id: int, row: TodoRow)
    requires Mirrors(t, id, row)
    ensures TodoMapper.ToDto(t) == RowDto(id, row)
  {
    var d := TodoMapper.ToDto(t);
    assert d.tasks.value == TaskRowsDto(row.tasks);
  }

  /** Builds a detached entity for a stored row (hydration on read). */
  method Hydrate(id: int, row: TodoRow) returns (t: Todo)
    ensures fresh(t) && Mirrors(t, id, row) && t.Owns()
    ensures forall i :: 0 <= i < |t.tasks| ==> fresh(t.tasks[i])
  {
    t := new Todo(row.name, row.description);
    t.id := Some(id);
    var tasks: seq<Task> := [];
    var i := 0;
    while i < |row.tasks|
      invariant 0 <= i <= |row.tasks| && |tasks| == i
      invariant t.id == Some(id) && t.name == row.name && t.description == row.description
      invariant forall j :: 0 <= j < i ==>
        && fresh(tasks[j]) && tasks[j].todo == t
        && tasks[j].id == Some(row.tasks[j].id)
        && tasks[j].name == row.tasks[j].name
        && tasks[j].description == row.tasks[j].description
      invariant forall j, k :: 0 <= j < k < i ==> tasks[j] != tasks[k]
    {
      var task := new Task(row.tasks[i].name, row.tasks[i].description, t);
      task.id := Some(row.tasks[i].id);
      tasks := tasks + [task];
      i := i + 1;
    }
    t.tasks := tasks;
  }

  class TodoStore {
    var rows: map<int, TodoRow>
    var nextTodoId: int
    var nextTaskId: int

    ghost predicate Valid()
      reads this
    {
      WellFormed(rows, nextTodoId, nextTaskId)
    }

    /** An empty store whose identity columns start at 1. */
    constructor ()
      ensures Valid()
      ensures rows == map[] && nextTodoId == 1 && nextTaskId == 1
    {
      rows := map[];
      nextTodoId := 1;
      nextTaskId := 1;
    }

    /** The wire view of the stored todo `id`, if there is one. */
    function Find(id: int): (d: Option<TodoDto>)
      reads this
      ensures d.Some? <==> id in rows
      ensures d.Some? ==> d.value.id == Some(id)
    {
      if id in rows then Some(RowDto(id, rows[id])) else None
    }

    /** The wire view of every stored todo, by ascending id. */
    function Listing(): (r: seq<TodoDto>)
      reads this
    {
      ListingFrom(rows, 1, nextTodoId)
    }

    /** `findAll()`: a fresh entity per stored todo, by ascending id. */
    method FindAll() returns (ts: seq<Todo>)
      requires Valid()
      ensures TodoMapper.ListToDto(ts) == Listing()
    {
      ts := [];
      var k := nextTodoId;
      while k > 1
        invariant 1 <= k <= nextTodoId
        invariant TodoMapper.ListToDto(ts) == ListingFrom(rows, k, nextTodoId)
      {
        k := k - 1;
        if k in rows {
          var t := Hydrate(k, rows[k]);
          MirrorsToDto(t, k, rows[k]);
          var ts' := [t] + ts;
          assert ts'[1..] == ts;
          ts := ts';
        }
      }
    }

    /** `findById(id)`: a fresh entity for the stored todo, or empty when it is absent. */
    method FindById(id: int) returns (t: Option<Todo>)
      ensures t.None? <==> id !in rows
      ensures t.Some? ==> id in rows && fresh(t.value) && Mirrors(t.value, id, rows[id]) && t.value.Owns()
      ensures t.Some? ==> forall i :: 0 <= i < |t.value.tasks| ==> fresh(t.value.tasks[i])
    {
      if id in rows {
        var e := Hydrate(id, rows[id]);
        t := Some(e);
      } else {
        t := None;
      }
    }

    /**
     * Writes the task entities of one todo as rows: a task that already has
     * an id keeps it, a new task gets the next identity value, which is also
     * stored back into the entity.
     */
    method PersistTasks(ts: seq<Task>) returns (out: seq<TaskRow>)
      requires forall i, j :: 0 <= i < j < |ts| ==> ts[i] != ts[j]
      requires forall i :: 0 <= i < |ts| && ts[i].id.Some? ==> 1 <= ts[i].id.value < nextTaskId
      requires forall i, j :: 0 <= i < j < |ts| && ts[i].id.Some? ==> ts[i].id != ts[j].id
      modifies this`nextTaskId, ts
      ensures old(nextTaskId) <= nextTaskId
      ensures |out| == |ts|
      ensures forall i :: 0 <= i < |ts| ==>
        && ts[i].name == old(ts[i].name) && ts[i].description == old(ts[i].description)
        && ts[i].todo == old(ts[i].todo)
      ensures forall i :: 0 <= i < |ts| ==>
        && ts[i].id == Some(out[i].id)
        && out[i].name == ts[i].name && out[i].description == ts[i].description
      ensures forall i :: 0 <= i < |ts| ==>
        if old(ts[i].id).Some? then out[i].id == old(ts[i].id.value)
        else old(nextTaskId) <= out[i].id < nextTaskId
      ensures DistinctTaskIds(out)
    {
      out := [];
      var i := 0;
      while i < |ts|
        invariant 0 <= i <= |ts| && |out| == i
        invariant old(nextTaskId) <= nextTaskId
        invariant forall j :: 0 <= j < |ts| ==>
          && ts[j].name == old(ts[j].name) && ts[j].description == old(ts[j].description)
          && ts[j].todo == old(ts[j].todo)
        invariant forall j :: i <= j < |ts| ==> ts[j].id == old(ts[j].id)
        invariant forall j :: 0 <= j < i ==>
          && ts[j].id == Some(out[j].id)
          && out[j].name == ts[j].name && out[j].description == ts[j].description
        invariant forall j :: 0 <= j < i ==>
          if old(ts[j].id).Some? then out[j].id == old(ts[j].id.value)
          else old(nextTaskId) <= out[j].id < nextTaskId
        invariant DistinctTaskIds(out)
      {
        var t := ts[i];
        var tid: int;
        if t.id.Some? {
          tid := t.id.value;
        } else {
          tid := nextTaskId;
          nextTaskId := nextTaskId + 1;
          t.id := Some(tid);
        }
        out := out + [TaskRow(tid, t.name, t.description)];
        i := i + 1;
      }
    }

    /**
     * `save(entity)` of a new todo: the todo and its tasks get fresh ids,
     * its row is added and no other row changes.
     */
    method Save(t: Todo) returns (saved: Todo)
      requires Valid()
      requires t.id.None? && t.Owns()
      requires forall i :: 0 <= i < |t.tasks| ==> t.tasks[i].id.None?
      modifies this, t, t.tasks
      ensures Valid() && saved == t
      ensures nextTodoId == old(nextTodoId) + 1
      ensures old(nextTodoId) !in old(rows) && t.id == Some(old(nextTodoId))
      ensures rows.Keys == old(rows).Keys + {old(nextTodoId)}
      ensures forall k :: k in old(rows) ==> rows[k] == old(rows)[k]
      ensures rows[old(nextTodoId)].name == old(t.name)
      ensures rows[old(nextTodoId)].description == old(t.description)
      ensures TaskRowsDto(rows[old(nextTodoId)].tasks) == old(TaskMapper.ListToDto(t.tasks))
      ensures forall k :: k in TaskIds(rows[old(nextTodoId)]) ==> old(nextTaskId) <= k
      ensures t.tasks == old(t.tasks) && t.Owns() && Mirrors(t, old(nextTodoId), rows[old(nextTodoId)])
    {
      var out := PersistTasks(t.tasks);
      var id := nextTodoId;
      t.id := Some(id);
      var row := TodoRow(t.name, t.description, out);
      InsertKeepsWellFormed(rows, id, old(nextTaskId), nextTaskId, row);
      rows := rows[id := row];
      nextTodoId := nextTodoId + 1;
      saved := t;
    }

    /**
     * `update(entity)` of a stored todo: its row takes the entity's name,
     * description and task collection. Tasks that carry one of this todo's
     * task ids keep it, new tasks get fresh ids, and every other task of the
     * todo is deleted (orphan removal). No other row changes.
     */
    method Update(t: Todo) returns (updated: Todo)
      requires Valid()
      requires t.id.Some? && t.id.value in rows && t.Owns()
      requires forall i :: 0 <= i < |t.tasks| && t.tasks[i].id.Some? ==> t.tasks[i].id.value in TaskIds(rows[t.id.value])
      requires forall i, j :: 0 <= i < j < |t.tasks| && t.tasks[i].id.Some? ==> t.tasks[i].id != t.tasks[j].id
      modifies this, t.tasks
      ensures Valid() && updated == t
      ensures nextTodoId == old(nextTodoId)
      ensures rows.Keys == old(rows).Keys
      ensures forall k :: k in old(rows) && k != t.id.value ==> rows[k] == old(rows)[k]
      ensures rows[t.id.value].name == t.name && rows[t.id.value].description == t.description
      ensures TaskRowsDto(rows[t.id.value].tasks) == old(TaskMapper.ListToDto(t.tasks))
      ensures forall i :: 0 <= i < |t.tasks| ==>
        if old(t.tasks[i].id).Some? then rows[t.id.value].tasks[i].id == old(t.tasks[i].id.value)
        else old(nextTaskId) <= rows[t.id.value].tasks[i].id
      ensures forall k :: k in TaskIds(old(rows)[t.id.value]) ==>
        (k in TaskIds(rows[t.id.value]) <==> Some(k) in old(TaskEntityIds(t.tasks)))
      ensures t.Owns() && Mirrors(t, t.id.value, rows[t.id.value])
    {
      var id := t.id.value;
      ghost var before := rows[id];
      ghost var ids := TaskEntityIds(t.tasks);
      RowTaskIdsBelow(rows, nextTodoId, nextTaskId, id);
      var out := PersistTasks(t.tasks);
      var row := TodoRow(t.name, t.description, out);
      ReplacementIds(before, ids, row, old(nextTaskId), nextTaskId);
      ReplaceKeepsWellFormed(rows, nextTodoId, old(nextTaskId), nextTaskId, id, row);
      rows := rows[id := row];
      updated := t;
    }

    /**
     * `deleteById(id)`: the row goes, and its task rows with it (cascade).
     * An absent id is not an error; nothing changes then.
     */
    method DeleteById(id: int)
      requires Valid()
      modifies this
      ensures Valid()
      ensures rows == old(rows) - {id}
      ensures nextTodoId == old(nextTodoId) && nextTaskId == old(nextTaskId)
      ensures id in old(rows) ==>
        forall k, o :: k in TaskIds(old(rows)[id]) && o in rows ==> k !in TaskIds(rows[o])
    {
      rows := rows - {id};
    }
  }
}
