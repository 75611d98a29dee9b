# Todo service — a Dafny model

A model of the core of a small Kotlin/Micronaut CRUD service for todos, each
owning an ordered list of tasks. The model covers the service layer
(`TodoService`), the entity-to-DTO mappers, the two JPA entities with their
ownership rules, and the two wire DTOs with the `@NotBlank` rule. Everything is
proved with Dafny 4.11.

Modules, one per source file or component:

- `Wrappers` (`wrappers.dfy`): `Option`, the Kotlin nullable types, with `OrElse` for `?:`.
- `Dto` (`dto.dfy`): `TaskDto` and `TodoDto` as datatypes, so equality is structural as for Kotlin data
  classes. `tasks: Option<seq<TaskDto>>` may be null, and `NewTodoDto` is the constructor with `tasks`
  omitted. `NotBlank` states `@NotBlank`: some character is not whitespace. Whitespace means a character
  at or below U+0020, the set Java's `String.trim` strips. A lemma shows this agrees with the trim-based
  check `trim().length() > 0`.
- `Model` (`model.dfy`): `Todo` and `Task` as classes with mutable fields. `Task.todo` is the non-null
  back-reference. `Todo.Owns()` is the ownership invariant: every task in the collection points back at
  the todo, and no task object appears twice.
- `TaskMapper`, `TodoMapper` (`task_mapper.dfy`, `todo_mapper.dfy`): the `toDto` extension functions are
  `reads`-framed functions over the entity objects. The list versions are element-wise and recursive.
- `Repository` (`repository.dfy`): the todo store behind `TodoRepository`. The repository is a framework
  interface without code (`src/main/kotlin/com/burakcan/todo/repository/TodoRepository.kt:8`), so the
  store's behaviour is a modelling assumption, stated as contracts:
  - the store keeps rows: a map from todo id to a `TodoRow` that owns its ordered `TaskRow`s;
  - there are two identity generators, both starting at 1;
  - `WellFormed` holds the table constraints: ids lie below their generators, and every task id belongs
    to exactly one todo;
  - `findAll` and `findById` hand out freshly built (detached) entity objects;
  - `save` persists a new todo and writes the generated ids back into the entity and its tasks;
  - `update` merges with orphan removal: a task that carries one of the todo's task ids keeps it, a task
    without an id gets a fresh one, and every other task of the todo is deleted;
  - `deleteById` removes the todo and, with it, its tasks.
- `Service` (`service.dfy`): `TodoService` is a class over the store, one method per operation.
  "Todo not found" is the result `NotFound(message)` instead of an `HttpStatusException`. `BuildTasks`
  is the loop behind `tasks.map { Task(it.name, it.description, this) }`. `UpdateTodo` overwrites the
  fetched entity's `name`, `description` and `tasks` in place before calling `update`, as the source does.
- `Scenarios` (`scenarios.dfy`): client scenarios of the service's promised behaviour, run on an empty
  store using only the contracts. They cover: add, then get; null and omitted task lists; replacing tasks {A, B}
  by {C}; deleting twice.

## Model

| member | source | states |
|---|---|---|
| `Dto.NewTodoDto` | src/main/kotlin/com/burakcan/todo/dto/TodoDto.kt:8-13 | a `TodoDto` built without `tasks` has the empty task list, not null |
| `Dto.NotBlank` | src/main/kotlin/com/burakcan/todo/dto/TodoDto.kt:10 | `@NotBlank`: a name passes exactly when removing its leading whitespace leaves a non-empty string |
| `Dto.NotBlankIffTrimNonEmpty` | src/main/kotlin/com/burakcan/todo/dto/TodoDto.kt:10 | "contains a non-whitespace character" holds exactly when the trimmed name is non-empty |
| `Dto.EmptyNameIsInvalid` | src/main/kotlin/com/burakcan/todo/dto/TodoDto.kt:10 | a `TodoDto` with an empty name fails validation, whatever its other fields |
| `Model.Task.constructor` | src/main/kotlin/com/burakcan/todo/model/Task.kt:7-18 | a new task has no id yet, the given name and description, and the given owning todo |
| `Model.Todo.constructor` | src/main/kotlin/com/burakcan/todo/model/Todo.kt:9-27 | a new todo has no id yet (not persisted), the given name and description, and no tasks |
| `Model.Todo.Owns` | src/main/kotlin/com/burakcan/todo/model/Todo.kt:20-27 | ownership of the one-to-many relation: a todo with no tasks owns its collection, and in an owned collection each task object sits at exactly one position |
| `TaskMapper.ToDto` | src/main/kotlin/com/burakcan/todo/service/mapper/TaskMapper.kt:6-9 | the wire task carries the task's name and description; id and owner do not appear on the wire |
| `TaskMapper.ListToDto` | src/main/kotlin/com/burakcan/todo/service/mapper/TaskMapper.kt:11-13 | the DTO list has one entry per task, in order; entry i has task i's name and description (so the empty list maps to the empty list) |
| `TaskMapper.ToDtoIgnoresIdentity` | src/main/kotlin/com/burakcan/todo/service/mapper/TaskMapper.kt:6-9 | two tasks that differ only in id or owner map to equal DTOs |
| `TaskMapper.ListToDtoAppend` | src/main/kotlin/com/burakcan/todo/service/mapper/TaskMapper.kt:11-13 | mapping a concatenation gives the concatenation of the mappings |
| `TaskMapper.ListToDtoEntries` | src/main/kotlin/com/burakcan/todo/service/mapper/TaskMapper.kt:11-13 | a task list whose names and descriptions agree entry by entry with a DTO list maps to exactly that DTO list |
| `TodoMapper.ToDto` | src/main/kotlin/com/burakcan/todo/service/mapper/TodoMapper.kt:6-11 | id, name and description are copied; `tasks` is never null and holds one `Task.toDto` per task, in order |
| `TodoMapper.ListToDto` | src/main/kotlin/com/burakcan/todo/service/mapper/TodoMapper.kt:13-15 | same length as the input, and entry i is `toDto` of todo i |
| `TodoMapper.ListToDtoAppend` | src/main/kotlin/com/burakcan/todo/service/mapper/TodoMapper.kt:13-15 | mapping a concatenation gives the concatenation of the mappings |
| `Repository.InsertKeepsWellFormed` | src/main/kotlin/com/burakcan/todo/model/Todo.kt:15-26 | adding a todo under the next todo id, with fresh distinct task ids, keeps ids below their generators and every task owned by exactly one todo |
| `Repository.ReplaceKeepsWellFormed` | src/main/kotlin/com/burakcan/todo/model/Todo.kt:20-26 | replacing a todo's row by one whose task ids are its own old ones or fresh keeps the table constraints |
| `Repository.RowTaskIdsBelow` | src/main/kotlin/com/burakcan/todo/model/Task.kt:15-18 | every task id stored under a todo lies between 1 and the task id generator's next value |
| `Repository.ReplacementIds` | src/main/kotlin/com/burakcan/todo/model/Todo.kt:20-26 | after a merge, each of the todo's task ids is an old one of its own or freshly generated; an old id remains exactly when some task of the new collection carries it |
| `Repository.OldTasksGone` | src/main/kotlin/com/burakcan/todo/model/Todo.kt:20-26 | when only one todo's row changed and the new collection carries no ids, none of its old task ids is stored under any todo any more |
| `Repository.ListingFromEntries` | src/main/kotlin/com/burakcan/todo/repository/TodoRepository.kt:8 | every listed entry is the wire view of a stored todo of the id range |
| `Repository.ListingFromOrdered` | src/main/kotlin/com/burakcan/todo/repository/TodoRepository.kt:8 | the listing is in strictly ascending id order, so no todo is listed twice |
| `Repository.ListingFromComplete` | src/main/kotlin/com/burakcan/todo/repository/TodoRepository.kt:8 | the wire view of every stored todo of the range appears in the listing |
| `Repository.ListingFromLength` | src/main/kotlin/com/burakcan/todo/repository/TodoRepository.kt:8 | the listing has as many entries as there are stored ids in the range |
| `Repository.ListingFromCoversStore` | src/main/kotlin/com/burakcan/todo/repository/TodoRepository.kt:8 | when all ids lie in the range, the listing has one entry per stored todo |
| `Repository.MirrorsToDto` | src/main/kotlin/com/burakcan/todo/service/mapper/TodoMapper.kt:6-11 | an entity that mirrors a stored row maps to that row's wire view |
| `Repository.Hydrate` | src/main/kotlin/com/burakcan/todo/repository/TodoRepository.kt:8 | loading a row gives a fresh todo with fresh, distinct tasks; it mirrors the row and owns those tasks |
| `Repository.TodoStore.constructor` | src/main/kotlin/com/burakcan/todo/model/Todo.kt:15-18 | an empty store whose identity generators start at 1 |
| `Repository.TodoStore.Find` | src/main/kotlin/com/burakcan/todo/repository/TodoRepository.kt:8 | there is a view exactly when the id is stored, and it carries that id |
| `Repository.TodoStore.FindAll` | src/main/kotlin/com/burakcan/todo/repository/TodoRepository.kt:8 | the loaded entities map to the store's listing: every stored todo, by ascending id |
| `Repository.TodoStore.FindById` | src/main/kotlin/com/burakcan/todo/repository/TodoRepository.kt:8 | empty exactly when the id is absent; otherwise a fresh entity that mirrors the row and owns its tasks |
| `Repository.TodoStore.PersistTasks` | src/main/kotlin/com/burakcan/todo/model/Task.kt:15-18 | each task keeps its id or gets a fresh generated one, written back into the entity; the resulting task ids are distinct |
| `Repository.TodoStore.Save` | src/main/kotlin/com/burakcan/todo/repository/TodoRepository.kt:8 | a new todo gets the next id, its tasks fresh task ids, and exactly one row is added; the row has the entity's fields and tasks in order; the constraints still hold |
| `Repository.TodoStore.Update` | src/main/kotlin/com/burakcan/todo/model/Todo.kt:20-26 | only the todo's row changes; it takes the entity's fields and tasks in order. An old task id survives exactly when a task in the new collection carries it (orphan removal) |
| `Repository.TodoStore.DeleteById` | src/main/kotlin/com/burakcan/todo/model/Todo.kt:20-26 | the id leaves the store and its task ids leave every row (cascade). An absent id changes nothing |
| `Service.TaskList` | src/main/kotlin/com/burakcan/todo/service/TodoService.kt:20 | a null task list counts as empty; otherwise it is the given list |
| `Service.BuildTasks` | src/main/kotlin/com/burakcan/todo/service/TodoService.kt:20 | one fresh, unpersisted task per wire task, in order, each owned by the given todo; mapping them back gives the wire tasks (round trip) |
| `Service.NewEntity` | src/main/kotlin/com/burakcan/todo/service/TodoService.kt:19-21 | a fresh, unpersisted todo with the wire name and description that owns new, unpersisted tasks mapping back to the wire tasks (null counts as empty) |
| `Service.Overwrite` | src/main/kotlin/com/burakcan/todo/service/TodoService.kt:33-38 | the fetched todo keeps its id, takes the wire name and description, and owns new, unpersisted tasks mapping back to the wire tasks (null counts as empty) |
| `Service.TodoService.constructor` | src/main/kotlin/com/burakcan/todo/service/TodoService.kt:13 | the service works on the repository it is given |
| `Service.TodoService.GetTodos` | src/main/kotlin/com/burakcan/todo/service/TodoService.kt:14-16 | one entry per stored todo, by ascending id, each equal to the stored todo's view; an empty store gives the empty list |
| `Service.TodoService.AddTodo` | src/main/kotlin/com/burakcan/todo/service/TodoService.kt:18-23 | the result is the input with the store-assigned id and null tasks made empty; the store gains exactly this todo with new tasks; fetching the new id returns the result |
| `Service.TodoService.GetTodo` | src/main/kotlin/com/burakcan/todo/service/TodoService.kt:25-28 | NotFound("Todo not found") exactly when the id is absent, otherwise the stored todo's view; it has no `modifies` clause, so the store is unchanged |
| `Service.TodoService.UpdateTodo` | src/main/kotlin/com/burakcan/todo/service/TodoService.kt:30-40 | an absent id gives NotFound and changes nothing. Otherwise the id is kept and name and description come from the input. The task list is replaced by new tasks mirroring the input. No old task remains, and no other todo changes |
| `Service.TodoService.DeleteTodo` | src/main/kotlin/com/burakcan/todo/service/TodoService.kt:42-44 | the id is no longer found and its tasks are gone; deleting an absent id is a no-op, not an error |

## Left out

- HTTP routing, binding and status codes (`TodoController.kt`), and the bootstrap (`Application.kt`),
  are not part of this model. A not-found outcome is the `NotFound` result, not an exception.
- Validation is left out. In the source, `@Valid @Body` makes the framework reject a blank name before
  the service runs, and `TodoService` itself does not check the name. The model follows the code: the
  service methods have no precondition on `name`, and `TodoDto.IsValid` / `NotBlank` state the rule the
  boundary applies. The service does not itself reject blank names before persisting.
- `TaskDto.IsValid` is stated but enforced nowhere, since `tasks` carries no `@Valid`.
- The store's behaviour is assumed, not read from this repository: JPA, Hibernate, SQL, eager fetching,
  transactions and persistence failures (5xx) are not modelled.
  - `findAll` is assumed to list by ascending id; JPA does not promise an order.
  - Task order within a todo on reload is assumed to be insertion order. `tasks` is a plain list with no
    order column, so JPA does not promise this either. `AddTodo`'s and `UpdateTodo`'s "fetching the id
    returns the result" clauses and the scenarios' task-list checks depend on this assumption.
  - `save` is modelled only for new entities: todo and tasks without ids, which is how the service calls it.
  - `update` is modelled only for a stored todo whose tasks either carry one of its own task ids or none.
- Ids are unbounded integers. The 64-bit width of `Long` and overflow of the identity generators are not
  modelled.
- `MutableList` versus read-only lists and `Optional` are representation details: they are `seq` and `Option`.
- The whitespace set of `@NotBlank` is taken as the characters `String.trim` strips (at most U+0020).
  Unicode whitespace above U+0020 is not treated as blank.
- Concurrent requests are not modelled; each operation runs alone.
- The Mockito doubles of the tests are not modelled. The `Scenarios` module instead exercises the
  service's promised behaviour against the modelled store; it does not mirror the test cases one by one.
