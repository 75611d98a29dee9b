/** `Todo.toDto()` and `List<Todo>.toDto()`. */
module TodoMapper {
  import opened Wrappers
  import opened Dto
  import opened Model
  import TaskMapper

  /** Every task object reachable from a list of todos. */
  ghost function TaskObjects(ts: seq<Todo>): set<Task>
    reads ts
  {
    set i, j | 0 <= i < |ts| && 0 <= j < |ts[i].tasks| :: ts[i].tasks[j]
  }

  /** The wire view of one todo: its fields, and its task list mapped task by task. */
  function ToDto(t: Todo): (d: TodoDto)
    reads t, t.tasks
    ensures d.id == t.id && d.name == t.name && d.description == t.description
    ensures d.tasks.Some?
    ensures |d.tasks.value| == |t.tasks|
    ensures forall i :: 0 <= i < |t.tasks| ==> d.tasks.value[i] == TaskMapper.ToDto(t.tasks[i])
  {
    TodoDto(t.id, t.name, t.description, Some(TaskMapper.ListToDto(t.tasks)))
  }

  /** Element-wise translation of a todo list, in order. */
  function ListToDto(ts: seq<Todo>): (r: seq<TodoDto>)
    reads ts, TaskObjects(ts)
    ensures |r| == |ts|
    ensures forall i :: 0 <= i < |ts| ==> r[i] == ToDto(ts[i])
  {
    if ts == [] then [] else
      assert TaskObjects(ts[1..]) <= TaskObjects(ts) by {
        forall x | x in TaskObjects(ts[1..]) ensures x in TaskObjects(ts) {
          var i, j :| 0 <= i < |ts| - 1 && 0 <= j < |ts[1..][i].tasks| && x == ts[1..][i].tasks[j];
          assert x == ts[i + 1].tasks[j];
        }
      }
      [ToDto(ts[0])] + ListToDto(ts[1..])
  }

  /** The map is element-wise, so it distributes over concatenation. */
  lemma {:induction false} ListToDtoAppend(xs: seq<Todo>, ys: seq<Todo>)
    ensures ListToDto(xs + ys) == ListToDto(xs) + ListToDto(ys)
  {
    var l, a, b := ListToDto(xs + ys), ListToDto(xs), ListToDto(ys);
    assert |l| == |a + b|;
    forall i | 0 <= i < |l| ensures l[i] == (a + b)[i] {
      if i < |xs| { assert (xs + ys)[i] == xs[i]; } else { assert (xs + ys)[i] == ys[i - |xs|]; }
    }
  }
}
