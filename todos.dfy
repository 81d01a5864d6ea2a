/**
 * The values the to-do application works on, and the pure list transforms
 * its root component computes: the filtered view, the "all completed"
 * aggregate, the remaining count, and the new list each handler hands to
 * `setTodos` (a `map`, a `filter` or an append).
 */
module Todos {
  import Builtins

  /** One to-do record, as fetched or as created by the add handler. */
  datatype Todo = Todo(id: int, title: string, completed: bool, userId: int)

  /** The three-way view selector. */
  datatype Filter = All | Active | Completed

  /** The two messages the error notification can show. Their text lives
      in a module that is not part of this model, so they are kept as two
      distinct constants. */
  datatype ErrorMessage = LoadError | TitleError

  datatype Option<T> = None | Some(value: T)

  // ---------------------------------------------------------------------
  // Derived views
  // ---------------------------------------------------------------------

  /** Whether `filter` lets `todo` through: the callback of `filteredTodos`. */
  predicate Shows(filter: Filter, todo: Todo)
  {
    if filter == Active then !todo.completed
    else if filter == Completed then todo.completed
    else true
  }

  /** `Shows` for one filter, as the callback value passed to `filter`. */
  function ShownBy(filter: Filter): (p: Todo -> bool)
    ensures forall todo :: p(todo) == Shows(filter, todo)
  {
    (todo: Todo) => Shows(filter, todo)
  }

  /** The item is not completed. */
  predicate Pending(todo: Todo)
  {
    !todo.completed
  }

  /** The item is completed. */
  predicate Done(todo: Todo)
  {
    todo.completed
  }

  /** The delete handler's callback: the item does not carry `id`. */
  function OtherId(id: int): (p: Todo -> bool)
    ensures forall item :: p(item) == (item.id != id)
  {
    (item: Todo) => item.id != id
  }

  /** `filteredTodos`: the list as the current filter shows it. Every
      shown item passes the filter, every passing item is shown as often as
      it occurs, and `All` shows the list itself. */
  function FilteredTodos(todos: seq<Todo>, filter: Filter): (r: seq<Todo>)
    ensures |r| <= |todos|
    ensures forall i :: 0 <= i < |r| ==> Shows(filter, r[i])
    ensures forall x :: multiset(r)[x] == if Shows(filter, x) then multiset(todos)[x] else 0
    ensures filter == All ==> r == todos
  {
    var r := Builtins.Filter(todos, ShownBy(filter));
    assert filter == All ==> r == todos by {
      if filter == All { Builtins.FilterAllPass(todos, ShownBy(filter)); }
    }
    r
  }

  /** `All` shows the whole list; `Active` exactly the items not completed
      and `Completed` exactly the completed ones, each in list order and
      with multiplicity. */
  lemma FilteredTodosSpec(todos: seq<Todo>, filter: Filter)
    ensures filter == All ==> FilteredTodos(todos, filter) == todos
    ensures filter == Active ==>
      Builtins.IsFilterOf(FilteredTodos(todos, filter), todos, Pending)
    ensures filter == Completed ==>
      Builtins.IsFilterOf(FilteredTodos(todos, filter), todos, Done)
  {
    var p := ShownBy(filter);
    if filter == All {
      Builtins.FilterAllPass(todos, p);
    } else {
      Builtins.FilterIsFilterOf(todos, p);
    }
  }

  /** An item is shown exactly when it is in the list and the filter lets
      it through. */
  lemma FilteredTodosMembers(todos: seq<Todo>, filter: Filter, todo: Todo)
    ensures todo in FilteredTodos(todos, filter) <==> todo in todos && Shows(filter, todo)
  {
    Builtins.FilterMembers(todos, ShownBy(filter), todo);
  }

  /** `allTodosCompleted`: a non-empty list whose every item is completed.
      The empty list is never "all completed". */
  function AllTodosCompleted(todos: seq<Todo>): (r: bool)
    ensures r <==> |todos| > 0 && forall i :: 0 <= i < |todos| ==> todos[i].completed
  {
    |todos| > 0 && Builtins.Every(todos, Done)
  }

  /** The footer's `remainingCount`: the length of the list of items not
      completed, which is the length of the `Active` view. */
  function RemainingCount(todos: seq<Todo>): (r: nat)
    ensures r <= |todos|
    ensures r == |FilteredTodos(todos, Active)|
  {
    Builtins.FilterAgree(todos, Pending, ShownBy(Active));
    |Builtins.Filter(todos, Pending)|
  }

  /** With the `Completed` view, the remaining count accounts for every
      item. */
  lemma RemainingCountViews(todos: seq<Todo>)
    ensures RemainingCount(todos) + |FilteredTodos(todos, Completed)| == |todos|
  {
    Builtins.FilterSplit(todos, Pending, ShownBy(Completed));
  }

  /** Nothing remains exactly when every item is completed; so a list is
      "all completed" exactly when it is non-empty with nothing remaining. */
  lemma RemainingCountZero(todos: seq<Todo>)
    ensures RemainingCount(todos) == 0 <==> forall i :: 0 <= i < |todos| ==> todos[i].completed
    ensures AllTodosCompleted(todos) <==> |todos| > 0 && RemainingCount(todos) == 0
  {
    var p := Pending;
    if forall i :: 0 <= i < |todos| ==> todos[i].completed {
      Builtins.FilterNonePass(todos, p);
    } else {
      var i :| 0 <= i < |todos| && !todos[i].completed;
      Builtins.FilterMembers(todos, p, todos[i]);
    }
  }

  /** The footer is rendered only for a non-empty list. */
  predicate FooterVisible(todos: seq<Todo>)
    ensures FooterVisible(todos) <==> todos != []
  {
    |todos| > 0
  }

  // ---------------------------------------------------------------------
  // The lists the handlers pass to setTodos
  // ---------------------------------------------------------------------

  /** Checkbox handler: the list with `completed` flipped on every item
      whose id is `id`. Ids, titles, owners, length and order are kept. */
  function ToggleById(todos: seq<Todo>, id: int): (r: seq<Todo>)
    ensures |r| == |todos|
    ensures forall i :: 0 <= i < |todos| ==>
      && r[i].id == todos[i].id && r[i].title == todos[i].title && r[i].userId == todos[i].userId
      && (r[i].completed <==> (todos[i].completed <==> todos[i].id != id))
  {
    Builtins.Map(todos, (item: Todo) => if item.id == id then item.(completed := !item.completed) else item)
  }

  /** Toggling the same id twice gives back the original list. */
  lemma ToggleByIdTwice(todos: seq<Todo>, id: int)
    ensures ToggleById(ToggleById(todos, id), id) == todos
  {
    var r := ToggleById(ToggleById(todos, id), id);
    assert forall i :: 0 <= i < |todos| ==> r[i] == todos[i];
  }

  /** Toggling an id no item carries changes nothing. */
  lemma ToggleByAbsentId(todos: seq<Todo>, id: int)
    requires forall i :: 0 <= i < |todos| ==> todos[i].id != id
    ensures ToggleById(todos, id) == todos
  {
    var r := ToggleById(todos, id);
    assert forall i :: 0 <= i < |todos| ==> r[i] == todos[i];
  }

  /** Delete handler: the list without the items whose id is `id`. */
  function RemoveById(todos: seq<Todo>, id: int): (r: seq<Todo>)
    ensures |r| <= |todos|
    ensures forall i :: 0 <= i < |r| ==> r[i].id != id
  {
    Builtins.Filter(todos, OtherId(id))
  }

  /** The survivors are exactly the items of another id, in their old
      relative order and with their old multiplicity. */
  lemma RemoveByIdSpec(todos: seq<Todo>, id: int, todo: Todo)
    ensures Builtins.IsFilterOf(RemoveById(todos, id), todos, OtherId(id))
    ensures todo in RemoveById(todos, id) <==> todo in todos && todo.id != id
  {
    Builtins.FilterIsFilterOf(todos, OtherId(id));
    Builtins.FilterMembers(todos, OtherId(id), todo);
  }

  /** Deleting an id that no item carries changes nothing; deleting twice
      is deleting once. */
  lemma RemoveByIdIdempotent(todos: seq<Todo>, id: int)
    ensures (forall i :: 0 <= i < |todos| ==> todos[i].id != id) ==> RemoveById(todos, id) == todos
    ensures RemoveById(RemoveById(todos, id), id) == RemoveById(todos, id)
  {
    Builtins.FilterIdempotent(todos, OtherId(id));
    if forall i :: 0 <= i < |todos| ==> todos[i].id != id {
      Builtins.FilterAllPass(todos, OtherId(id));
    }
  }

  /** Toggle-all: every item takes the flag `!allTodosCompleted`, computed
      once before the map. Ids, titles, owners, length and order are kept. */
  function ToggleAllItems(todos: seq<Todo>): (r: seq<Todo>)
    ensures |r| == |todos|
    ensures forall i :: 0 <= i < |todos| ==>
      && r[i].id == todos[i].id && r[i].title == todos[i].title && r[i].userId == todos[i].userId
      && r[i].completed == !AllTodosCompleted(todos)
  {
    var completedStatus := !AllTodosCompleted(todos);
    Builtins.Map(todos, (todo: Todo) => todo.(completed := completedStatus))
  }

  /** If the list was not all completed, every item is completed afterwards
      (and a non-empty list is then all completed); if it was, none is. */
  lemma ToggleAllOutcome(todos: seq<Todo>)
    ensures !AllTodosCompleted(todos) ==>
      (forall i :: 0 <= i < |todos| ==> ToggleAllItems(todos)[i].completed)
      && AllTodosCompleted(ToggleAllItems(todos)) == (|todos| > 0)
    ensures AllTodosCompleted(todos) ==>
      RemainingCount(ToggleAllItems(todos)) == |todos|
  {
    var r := ToggleAllItems(todos);
    if AllTodosCompleted(todos) {
      Builtins.FilterAllPass(r, Pending);
    }
  }

  /** Toggle-all pressed twice gives back the original list exactly when
      all items had the same flag: a mixed list comes back all active. */
  lemma {:induction false} ToggleAllTwice(todos: seq<Todo>)
    ensures ToggleAllItems(ToggleAllItems(todos)) == todos <==>
      (forall i :: 0 <= i < |todos| ==> todos[i].completed) ||
      (forall i :: 0 <= i < |todos| ==> !todos[i].completed)
    ensures (exists i :: 0 <= i < |todos| && todos[i].completed) &&
            (exists i :: 0 <= i < |todos| && !todos[i].completed) ==>
      forall i :: 0 <= i < |todos| ==> !ToggleAllItems(ToggleAllItems(todos))[i].completed
  {
    var once := ToggleAllItems(todos);
    var twice := ToggleAllItems(once);
    if |todos| > 0 {
      assert AllTodosCompleted(once) == !AllTodosCompleted(todos);
      if !AllTodosCompleted(todos) {
        assert AllTodosCompleted(once);
      }
      if twice == todos {
        assert forall i :: 0 <= i < |todos| ==> todos[i].completed == twice[i].completed == twice[0].completed;
      } else {
        var k :| 0 <= k < |todos| && twice[k] != todos[k];
      }
    }
  }

  /** What adding a title leads to: the title message and no new item,
      or the new list. */
  datatype AddOutcome = Rejected(error: ErrorMessage) | Appended(todos: seq<Todo>)

  /** `handleAddTodo` after Enter: the input is trimmed; an empty result is
      refused with the title message, anything else becomes one new active
      item of `userId` at the end of the list. */
  function AddTodo(todos: seq<Todo>, input: string, newId: int, userId: int): (r: AddOutcome)
    ensures r.Rejected? <==> Builtins.AllIn(input, Builtins.WhiteSpace)
    ensures r.Rejected? ==> r.error == TitleError
    ensures r.Appended? ==>
      && |r.todos| == |todos| + 1
      && r.todos[..|todos|] == todos
      && r.todos[|todos|] == Todo(newId, Builtins.Trim(input), false, userId)
      && r.todos[|todos|].title != []
  {
    var newTodoTitle := Builtins.Trim(input);
    if newTodoTitle == [] then Rejected(TitleError)
    else Appended(todos + [Todo(newId, newTodoTitle, false, userId)])
  }

  // ---------------------------------------------------------------------
  // Identifiers
  // ---------------------------------------------------------------------

  /** No two items share an id. Nothing in the component enforces this:
      loaded ids come from the server and new ids from the clock. */
  ghost predicate UniqueIds(todos: seq<Todo>)
  {
    forall i, j :: 0 <= i < j < |todos| ==> todos[i].id != todos[j].id
  }

  /** Toggling one item or all of them keeps ids unique: ids do not move. */
  lemma TogglesKeepUniqueIds(todos: seq<Todo>, id: int)
    requires UniqueIds(todos)
    ensures UniqueIds(ToggleById(todos, id))
    ensures UniqueIds(ToggleAllItems(todos))
  {
    var r1 := ToggleById(todos, id);
    var r2 := ToggleAllItems(todos);
    assert forall i :: 0 <= i < |todos| ==> r1[i].id == todos[i].id && r2[i].id == todos[i].id;
  }

  /** Deleting keeps ids unique: survivors are items of the old list. */
  lemma {:induction false} RemoveKeepsUniqueIds(todos: seq<Todo>, id: int)
    requires UniqueIds(todos)
    ensures UniqueIds(RemoveById(todos, id))
    decreases |todos|
  {
    if todos != [] {
      var tail := todos[1..];
      var rest := RemoveById(tail, id);
      assert UniqueIds(tail) by {
        forall i, j | 0 <= i < j < |tail| ensures tail[i].id != tail[j].id {
          assert tail[i] == todos[i + 1] && tail[j] == todos[j + 1];
        }
      }
      RemoveKeepsUniqueIds(tail, id);
      if todos[0].id != id {
        assert RemoveById(todos, id) == [todos[0]] + rest;
        forall j | 0 <= j < |rest| ensures todos[0].id != rest[j].id {
          Builtins.FilterMembers(tail, OtherId(id), rest[j]);
          var m :| 0 <= m < |tail| && tail[m] == rest[j];
          assert todos[m + 1] == rest[j];
        }
        UniqueCons(todos[0], rest);
      }
    }
  }

  /** An item whose id is new in front of a list of unique ids. */
  lemma UniqueCons(todo: Todo, rest: seq<Todo>)
    requires UniqueIds(rest)
    requires forall j :: 0 <= j < |rest| ==> todo.id != rest[j].id
    ensures UniqueIds([todo] + rest)
  {
    var r := [todo] + rest;
    forall i, j | 0 <= i < j < |r| ensures r[i].id != r[j].id {
      assert r[j] == rest[j - 1];
      if i > 0 { assert r[i] == rest[i - 1]; }
    }
  }

  /** Adding keeps ids unique exactly when the new id is not in use; the
      clock-based id of `handleAddTodo` gives no such promise. */
  lemma AddKeepsUniqueIds(todos: seq<Todo>, input: string, newId: int, userId: int)
    requires UniqueIds(todos)
    requires AddTodo(todos, input, newId, userId).Appended?
    ensures UniqueIds(AddTodo(todos, input, newId, userId).todos) <==>
      forall i :: 0 <= i < |todos| ==> todos[i].id != newId
  {
    var r := AddTodo(todos, input, newId, userId).todos;
    if !forall i :: 0 <= i < |todos| ==> todos[i].id != newId {
      var i :| 0 <= i < |todos| && todos[i].id == newId;
      assert r[i].id == r[|todos|].id;
    }
  }
}
