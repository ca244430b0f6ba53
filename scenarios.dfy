/** Client checks: the behaviour the repository's tests expect of the service,
    derived from the contracts of `Service.TodoService` alone. */
module Scenarios {
  import opened Models
  import opened Whitespace
  import opened Service

  /** Consecutive successful adds on a fresh service return ids 1, 2, 3,
      whatever the (non-blank) texts are. */
  method SequentialIds(x: string, y: string, z: string) returns (a: int, b: int, c: int)
    requires !AllWhitespace(x) && !AllWhitespace(y) && !AllWhitespace(z)
    ensures a == 1 && b == 2 && c == 3
  {
    var service := new TodoService();
    var r1 := service.AddTodo(x);
    var r2 := service.AddTodo(y);
    var r3 := service.AddTodo(z);
    a, b, c := r1.value.id, r2.value.id, r3.value.id;
  }

  /** A deleted id is not handed out again: after adding two records and
      deleting the first, only record 2 is left, and the next add gets id 3. */
  method DeleteKeepsIdsFresh(x: string, y: string, z: string) returns (left: seq<Todo>, c: int)
    requires !AllWhitespace(x) && !AllWhitespace(y) && !AllWhitespace(z)
    ensures left == [Todo(2, Strip(y), false)]
    ensures c == 3
  {
    var service := new TodoService();
    var r1 := service.AddTodo(x);
    var r2 := service.AddTodo(y);
    assert service.store.todos == [Todo(1, Strip(x), false), Todo(2, Strip(y), false)];
    var d := service.DeleteTodo(1);
    assert service.store.todos == [Todo(2, Strip(y), false)];
    left := service.GetTodos();
    var r3 := service.AddTodo(z);
    c := r3.value.id;
  }

  /** Deleting the middle one of three records in a store keeps the other two,
      which are still found by their ids, while the deleted id is not. */
  method DeleteMiddleKeepsOthers(x: string, y: string, z: string)
    returns (n: nat, one: Option<Todo>, two: Option<Todo>, three: Option<Todo>)
    ensures n == 2
    ensures one == Some(Todo(1, x)) && three == Some(Todo(3, z))
    ensures two == None
  {
    var store := new TodoStore();
    var t1 := store.Add(x);
    var t2 := store.Add(y);
    var t3 := store.Add(z);
    assert store.todos == [Todo(1, x), Todo(2, y), Todo(3, z)];
    var deleted := store.Delete(2);
    assert store.todos == [Todo(1, x), Todo(3, z)];
    n := store.Count();
    one := store.GetById(1);
    two := store.GetById(2);
    three := store.GetById(3);
  }

  /** The errors on an empty service: completing or deleting an unknown id is
      not-found, updating with blank text is invalid input even though the id
      does not exist, and add refuses blank text. */
  method ErrorsOnEmptyService(id: int, blank: string)
    returns (complete: Result<Todo>, update: Result<Todo>, delete: Result<bool>, add: Result<Todo>)
    requires AllWhitespace(blank)
    ensures complete == Err(NotFound(id))
    ensures update == Err(InvalidInput)
    ensures delete == Err(NotFound(id))
    ensures add == Err(InvalidInput)
  {
    var service := new TodoService();
    complete := service.CompleteTodo(id);
    update := service.UpdateTodo(id, blank);
    delete := service.DeleteTodo(id);
    add := service.AddTodo(blank);
  }

  /** Updating keeps the id and the flag, and two listings with no change in
      between are equal. */
  method UpdateKeepsId(x: string, y: string) returns (updated: Result<Todo>, first: seq<Todo>, second: seq<Todo>)
    requires !AllWhitespace(x) && !AllWhitespace(y)
    ensures updated == Ok(Todo(1, Strip(y), false))
    ensures first == second == [Todo(1, Strip(y), false)]
  {
    var service := new TodoService();
    var added := service.AddTodo(x);
    updated := service.UpdateTodo(1, y);
    first := service.GetTodos();
    second := service.GetTodos();
  }

  /** The first completion sets the flag; the second is refused. */
  method CompleteTwice(x: string) returns (completed: Result<Todo>, again: Result<Todo>)
    requires !AllWhitespace(x)
    ensures completed == Ok(Todo(1, Strip(x), true))
    ensures again == Err(AlreadyComplete(1))
  {
    var service := new TodoService();
    var added := service.AddTodo(x);
    completed := service.CompleteTodo(1);
    again := service.CompleteTodo(1);
  }

  /** Deleting the only record answers `true` and leaves the list empty. */
  method DeleteOnly(x: string) returns (deleted: Result<bool>, left: seq<Todo>)
    requires !AllWhitespace(x)
    ensures deleted == Ok(true)
    ensures left == []
  {
    var service := new TodoService();
    var added := service.AddTodo(x);
    deleted := service.DeleteTodo(1);
    left := service.GetTodos();
  }
}
