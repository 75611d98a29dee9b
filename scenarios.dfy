/**
 * Client code that replays the service's test scenarios against an empty
 * store, using nothing but the contracts of the service and the store.
 */
module Scenarios {
  import opened Wrappers
  import opened Dto
  import opened Repository
  import opened Service

  /** Creating a todo with one task, then fetching it back. */
  method AddThenGet()
  {
    var store := new TodoStore();
    var service := new TodoService(store);
    var milk := TaskDto("Milk", None);
    var request := TodoDto(None, "Groceries", Some("Weekly"), Some([milk]));
    var created := service.AddTodo(request);
    assert created == TodoDto(Some(1), "Groceries", Some("Weekly"), Some([milk]));
    var fetched := service.GetTodo(1);
    assert fetched == Ok(created);
    var missing := service.GetTodo(999);
    assert missing == NotFound("Todo not found");
  }

  /** A null task list and an omitted one both give an empty task list. */
  method AddWithoutTasks()
  {
    var store := new TodoStore();
    var service := new TodoService(store);
    var a := service.AddTodo(TodoDto(None, "Test Todo Name", Some("Test Todo Desc"), None));
    var b := service.AddTodo(NewTodoDto(None, "Test Todo Name", Some("Test Todo Desc")));
    assert a.tasks == Some([]) && b.tasks == Some([]);
    assert a.id == Some(1) && b.id == Some(2);
  }

  /** Updating with tasks {C} a todo that had tasks {A, B} leaves exactly {C}. */
  method UpdateReplacesTasks()
  {
    var store := new TodoStore();
    var service := new TodoService(store);
    var ta, tb, tc := TaskDto("A", None), TaskDto("B", None), TaskDto("C", None);
    var created := service.AddTodo(TodoDto(None, "Todo", None, Some([ta, tb])));
    var updated := service.UpdateTodo(1, TodoDto(None, "Todo", Some("x"), Some([tc])));
    assert updated == Ok(TodoDto(Some(1), "Todo", Some("x"), Some([tc])));
    var fetched := service.GetTodo(1);
    assert fetched.Ok? && fetched.value.tasks == Some([tc]);
    var stale := service.UpdateTodo(2, TodoDto(None, "Other", None, None));
    assert stale == NotFound("Todo not found");
  }

  /** Deleting removes the todo; deleting it again is not an error. */
  method DeleteTwice()
  {
    var store := new TodoStore();
    var service := new TodoService(store);
    var created := service.AddTodo(TodoDto(None, "Todo", None, None));
    service.DeleteTodo(1);
    var fetched := service.GetTodo(1);
    assert fetched == NotFound("Todo not found");
    service.DeleteTodo(1);
    var all := service.GetTodos();
    assert all == [];
  }
}
