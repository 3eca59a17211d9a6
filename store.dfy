/** The app's global state object and the handlers that change it. Every
    handler that calls saveTodos leaves `saved` equal to the new list; the
    rendering each handler triggers afterwards is View.Render of the new state. */
module Store {
  import opened Wrappers
  import opened JsText
  import opened Todos
  import opened View
  import opened DragDrop

  class TodoState {
    /** state.todos: the list in display order. */
    var todos: seq<Todo>
    /** state.currentFilter */
    var currentFilter: Filter
    /** What local storage holds under the "todos" key: the list saveTodos last wrote. */
    var saved: seq<Todo>

    /** Start-up: the stored list, or the seed list (written back at once) when
        storage has none or an empty one. `stored` is the parsed "todos" value;
        None stands for a missing key or a value that parses to something falsy. */
    constructor (stored: Option<seq<Todo>>, now: string)
      ensures currentFilter == All
      ensures stored.GetOr([]) == [] ==> todos == Seed(now)
      ensures stored.GetOr([]) != [] ==> todos == stored.value
      ensures saved == todos
    {
      var loaded := stored.GetOr([]);
      if |loaded| == 0 {
        loaded := Seed(now);
      }
      todos, saved := loaded, loaded;
      currentFilter := All;
    }

    /** addTodo with the input field's value, the new id (Date.now()) and the
        timestamp: whitespace-only input changes nothing and writes nothing. */
    method AddTodo(input: string, id: int, now: string)
      modifies this
      ensures todos == Add(old(todos), input, id, now)
      ensures saved == if AllWhitespace(input) then old(saved) else todos
      ensures currentFilter == old(currentFilter)
      ensures WellFormed(old(todos)) && !HasId(old(todos), id) ==> WellFormed(todos)
    {
      ghost var before := todos;
      if WellFormed(before) && !HasId(before, id) {
        AddKeepsWellFormed(before, input, id, now);
      }
      TrimEmptyIffWhitespace(input);
      var text := Trim(input);
      if text == [] {
        return;
      }
      todos := [Todo(id, text, false, now)] + todos;
      saved := todos;
      assert todos == Add(before, input, id, now);
    }

    /** toggleTodo: the list is rebuilt and saved even when no item has the id. */
    method ToggleTodo(id: int)
      modifies this
      ensures todos == Toggle(old(todos), id) && saved == todos
      ensures currentFilter == old(currentFilter)
      ensures WellFormed(old(todos)) ==> WellFormed(todos)
    {
      if WellFormed(todos) {
        ToggleKeepsWellFormed(todos, id);
      }
      todos := Toggle(todos, id);
      saved := todos;
    }

    /** deleteTodo */
    method DeleteTodo(id: int)
      modifies this
      ensures todos == Delete(old(todos), id) && saved == todos
      ensures currentFilter == old(currentFilter)
      ensures WellFormed(old(todos)) ==> WellFormed(todos)
    {
      if WellFormed(todos) {
        DeleteKeepsWellFormed(todos, id);
      }
      todos := Delete(todos, id);
      saved := todos;
    }

    /** clearCompletedTodos: saved even when nothing was completed. */
    method ClearCompletedTodos()
      modifies this
      ensures todos == ClearCompleted(old(todos)) && saved == todos
      ensures currentFilter == old(currentFilter)
      ensures WellFormed(old(todos)) ==> WellFormed(todos)
    {
      if WellFormed(todos) {
        ClearCompletedKeepsWellFormed(todos);
      }
      todos := ClearCompleted(todos);
      saved := todos;
    }

    /** setFilter: only the filter changes; nothing is saved. */
    method SetFilter(name: string)
      modifies this
      ensures currentFilter == ParseFilter(name) && FilterName(currentFilter) == name
      ensures todos == old(todos) && saved == old(saved)
    {
      currentFilter := ParseFilter(name);
    }

    /** handleDrop with the positions of the dragged and the target item. The
        same item dropped on itself does nothing; otherwise the list is reordered
        and saved, except that positions outside the list are refused here
        where the script would corrupt the list. */
    method HandleDrop(dragged: int, drop: int)
      modifies this
      ensures dragged == drop || Reorder(old(todos), dragged, drop).Err? ==>
        todos == old(todos) && saved == old(saved)
      ensures dragged != drop && Reorder(old(todos), dragged, drop).Ok? ==>
        todos == Reorder(old(todos), dragged, drop).value && saved == todos
      ensures currentFilter == old(currentFilter)
      ensures WellFormed(old(todos)) ==> WellFormed(todos)
    {
      if dragged != drop {
        match Reorder(todos, dragged, drop)
        case Ok(reordered) =>
          todos := reordered;
          saved := todos;
        case Err(_) =>
      }
    }
  }
}
