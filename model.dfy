/**
 * The persisted entities. Both are mutable objects: the store fills in `id`
 * after persisting, and an update overwrites `name`, `description` and
 * `tasks` of a fetched todo in place.
 */
module Model {
  import opened Wrappers

  /** A sub-item; `todo` is the owning side of the one-to-many relation. */
  class Task {
    var id: Option<int>
    var name: string
    var description: Option<string>
    var todo: Todo

    /** `Task(name, description, todo)`: not yet persisted, so no id. */
    constructor (name: string, description: Option<string>, todo: Todo)
      ensures this.id == None
      ensures this.name == name && this.description == description
      ensures this.todo == todo
    {
      this.id := None;
      this.name := name;
      this.description := description;
      this.todo := todo;
    }
  }

  /** A todo and the ordered list of tasks it owns. */
  class Todo {
    var id: Option<int>
    var name: string
    var description: Option<string>
    var tasks: seq<Task>

    /** `Todo(name, description)`: not yet persisted and without tasks. */
    constructor (name: string, description: Option<string>)
      ensures this.id == None
      ensures this.name == name && this.description == description
      ensures this.tasks == []
    {
      this.id := None;
      this.name := name;
      this.description := description;
      this.tasks := [];
    }

    /**
     * The ownership invariant of the relation: every task in the collection
     * points back at this todo, and no task object appears twice.
     */
    ghost predicate Owns()
      reads this, tasks
      ensures tasks == [] ==> Owns()
      ensures Owns() ==> forall i, j :: 0 <= i < |tasks| && 0 <= j < |tasks| && tasks[i] == tasks[j] ==> i == j
    {
      && (forall i :: 0 <= i < |tasks| ==> tasks[i].todo == this)
      && (forall i, j :: 0 <= i < j < |tasks| ==> tasks[i] != tasks[j])
    }
  }
}
