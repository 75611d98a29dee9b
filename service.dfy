/**
 * `TodoService`: the five operations over the todo store, with the
 * "Todo not found" condition as a result value instead of an exception.
 */
module Service {
  import opened Wrappers
  import opened Dto
  import opened Model
  import TaskMapper
  import TodoMapper
  import opened Repository

  /** Outcome of a lookup: the todo, or the NOT_FOUND status with its message. */
  datatype Result<T> = Ok(value: T) | NotFound(message: string)

  const NotFoundMessage: string := "Todo not found"

  /** `todo.tasks ?: emptyList()`: an absent task list counts as empty. */
  function TaskList(tasks: Option<seq<TaskDto>>): (r: seq<TaskDto>)
    ensures tasks.None? ==> r == []
    ensures tasks.Some? ==> r == tasks.value
  {
    tasks.OrElse([])
  }

  /**
   * `tasks.map { Task(it.name, it.description, owner) }`: one new task per
   * wire task, in order, each pointing back at `owner`. Mapping them back
   * gives the wire tasks again.
   */
  method BuildTasks(dtos: seq<TaskDto>, owner: Todo) returns (ts: seq<Task>)
    ensures |ts| == |dtos|
    ensures forall i :: 0 <= i < |ts| ==> fresh(ts[i]) && ts[i].id.None? && ts[i].todo == owner
    ensures forall i, j :: 0 <= i < j < |ts| ==> ts[i] != ts[j]
    ensures TaskMapper.ListToDto(ts) == dtos
  {
    ts := [];
    var i := 0;
    while i < |dtos|
      invariant 0 <= i <= |dtos| && |ts| == i
      invariant forall j :: 0 <= j < i ==> fresh(ts[j]) && ts[j].id.None? && ts[j].todo == owner
      invariant forall j :: 0 <= j < i ==> ts[j].name == dtos[j].name && ts[j].description == dtos[j].description
      invariant forall j, k :: 0 <= j < k < i ==> ts[j] != ts[k]
    {
      var task := new Task(dtos[i].name, dtos[i].description, owner);
      ts := ts + [task];
      i := i + 1;
    }
    TaskMapper.ListToDtoEntries(ts, dtos);
  }

  /** `Todo(todo.name, todo.description).apply { tasks = ... }` of `addTodo`: a new entity for a wire todo. */
  method NewEntity(dto: TodoDto) returns (e: Todo)
    ensures fresh(e) && e.id.None? && e.name == dto.name && e.description == dto.description
    ensures e.Owns() && forall i :: 0 <= i < |e.tasks| ==> e.tasks[i].id.None?
    ensures TaskMapper.ListToDto(e.tasks) == TaskList(dto.tasks)
  {
    e := new Todo(dto.name, dto.description);
    var tasks := BuildTasks(TaskList(dto.tasks), e);
    e.tasks := tasks;
  }

  /**
   * The `apply` block of `updateTodo`: the fetched entity keeps its id and
   * takes name, description and a newly built task list from the wire todo.
   */
  method Overwrite(e: Todo, dto: TodoDto)
    modifies e
    ensures e.id == old(e.id) && e.name == dto.name && e.description == dto.description
    ensures e.Owns() && forall i :: 0 <= i < |e.tasks| ==> fresh(e.tasks[i]) && e.tasks[i].id.None?
    ensures TaskMapper.ListToDto(e.tasks) == TaskList(dto.tasks)
  {
    e.name := dto.name;
    e.description := dto.description;
    var tasks := BuildTasks(TaskList(dto.tasks), e);
    e.tasks := tasks;
  }

  class TodoService {
    const repository: TodoStore

    constructor (repository: TodoStore)
      ensures this.repository == repository
    {
      this.repository := repository;
    }

    /**
     * `getTodos()`: every stored todo exactly once, by ascending id, each as
     * `getTodo` would return it.
     */
    method GetTodos() returns (r: seq<TodoDto>)
      requires repository.Valid()
      ensures |r| == |repository.rows|
      ensures forall i :: 0 <= i < |r| ==>
        r[i].id.Some? && repository.Find(r[i].id.value) == Some(r[i])
      ensures forall i, j :: 0 <= i < j < |r| ==> r[i].id.OrElse(0) < r[j].id.OrElse(0)
      ensures forall k :: k in repository.rows ==> repository.Find(k).value in r
    {
      var entities := repository.FindAll();
      r := TodoMapper.ListToDto(entities);
      var rows, next := repository.rows, repository.nextTodoId;
      ListingFromEntries(rows, 1, next);
      ListingFromOrdered(rows, 1, next);
      ListingFromComplete(rows, 1, next);
      ListingFromCoversStore(rows, 1, next);
    }

    /**
     * `addTodo(todo)`: saves a new todo built from the wire todo. The result
     * is the input with the store-assigned id and an absent task list
     * replaced by the empty one; the store gains exactly that todo, whose
     * tasks are all new.
     */
    method AddTodo(dto: TodoDto) returns (r: TodoDto)
      requires repository.Valid()
      modifies repository
      ensures repository.Valid()
      ensures r == dto.(id := Some(old(repository.nextTodoId)), tasks := Some(TaskList(dto.tasks)))
      ensures old(repository.nextTodoId) !in old(repository.rows)
      ensures repository.nextTodoId == old(repository.nextTodoId) + 1
      ensures repository.rows.Keys == old(repository.rows).Keys + {old(repository.nextTodoId)}
      ensures forall k :: k in old(repository.rows) ==> repository.rows[k] == old(repository.rows)[k]
      ensures repository.Find(old(repository.nextTodoId)) == Some(r)
      ensures forall k :: k in TaskIds(repository.rows[old(repository.nextTodoId)]) ==> old(repository.nextTaskId) <= k
    {
      var entity := NewEntity(dto);
      var saved := repository.Save(entity);
      MirrorsToDto(saved, saved.id.value, repository.rows[saved.id.value]);
      r := TodoMapper.ToDto(saved);
    }

    /** `getTodo(id)`: the stored todo, or NOT_FOUND when the id is absent. */
    method GetTodo(id: int) returns (r: Result<TodoDto>)
      ensures id !in repository.rows ==> r == NotFound(NotFoundMessage)
      ensures id in repository.rows ==> r == Ok(RowDto(id, repository.rows[id]))
    {
      var found := repository.FindById(id);
      if found.None? {
        return NotFound(NotFoundMessage);
      }
      MirrorsToDto(found.value, id, repository.rows[id]);
      r := Ok(TodoMapper.ToDto(found.value));
    }

    /**
     * `updateTodo(id, todoDto)`: NOT_FOUND and no change for an absent id.
     * Otherwise the todo keeps its id, takes name and description from the
     * wire todo, and its whole task list is replaced by new tasks: no task
     * the todo had before is left anywhere in the store. No other todo
     * changes.
     */
    method UpdateTodo(id: int, dto: TodoDto) returns (r: Result<TodoDto>)
      requires repository.Valid()
      modifies repository
      ensures repository.Valid()
      ensures id !in old(repository.rows) ==> r == NotFound(NotFoundMessage) && unchanged(repository)
      ensures id in old(repository.rows) ==>
        && r == Ok(dto.(id := Some(id), tasks := Some(TaskList(dto.tasks))))
        && repository.rows.Keys == old(repository.rows).Keys
        && repository.nextTodoId == old(repository.nextTodoId)
        && (forall k :: k in old(repository.rows) && k != id ==> repository.rows[k] == old(repository.rows)[k])
        && repository.Find(id) == Some(r.value)
        && (forall k :: k in TaskIds(repository.rows[id]) ==> old(repository.nextTaskId) <= k)
        && (forall k, o :: k in TaskIds(old(repository.rows)[id]) && o in repository.rows ==>
              k !in TaskIds(repository.rows[o]))
    {
      var found := repository.FindById(id);
      if found.None? {
        return NotFound(NotFoundMessage);
      }
      var entity := found.value;
      Overwrite(entity, dto);
      ghost var before := repository.rows;
      ghost var ids := TaskEntityIds(entity.tasks);
      var updated := repository.Update(entity);
      OldTasksGone(before, repository.rows, repository.nextTodoId, old(repository.nextTaskId), id, ids);
      MirrorsToDto(updated, id, repository.rows[id]);
      r := Ok(TodoMapper.ToDto(updated));
    }

    /**
     * `deleteTodo(id)`: removes the todo and, with it, its tasks. There is
     * no existence check: deleting an absent id changes nothing.
     */
    method DeleteTodo(id: int)
      requires repository.Valid()
      modifies repository
      ensures repository.Valid()
      ensures repository.rows == old(repository.rows) - {id}
      ensures repository.Find(id) == None
      ensures id in old(repository.rows) ==>
        forall k, o :: k in TaskIds(old(repository.rows)[id]) && o in repository.rows ==>
          k !in TaskIds(repository.rows[o])
    {
      repository.DeleteById(id);
    }
  }
}
