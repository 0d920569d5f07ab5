/** The component's state and its event handlers. Each piece of state the
    component keeps with useState is a field; each handler replaces fields with
    values built by the pure operations of TodoList, the way the component calls
    its setters. The sorted view and the summary figures are functions of the
    state. */
module App {
  import opened Text
  import opened TodoList
  import opened Sorting

  class TodoApp {
    var todos: seq<Todo>
    var newTodo: string
    var dueDate: string
    var priority: Priority
    var category: string
    var sortBy: SortKey

    /** Every stored record carries a non-blank text with no blank at either
        end, because addTodo is the only way records are made. */
    ghost predicate Valid()
      reads this
    {
      forall i :: 0 <= i < |todos| ==> todos[i].text != [] && IsTrimmed(todos[i].text)
    }

    /** The state of a freshly mounted component: no records, empty input and
        date fields, medium priority, the "personal" category, sorted by date. */
    constructor ()
      ensures Valid()
      ensures todos == [] && newTodo == "" && dueDate == ""
      ensures priority == Medium && category == "personal" && sortBy == ByDate
    {
      todos := [];
      newTodo := "";
      dueDate := "";
      priority := Medium;
      category := "personal";
      sortBy := ByDate;
    }

    /** The onChange handlers of the form: each replaces one field. */
    method SetNewTodo(value: string)
      modifies this`newTodo
      ensures newTodo == value
    {
      newTodo := value;
    }

    method SetDueDate(value: string)
      modifies this`dueDate
      ensures dueDate == value
    {
      dueDate := value;
    }

    method SetPriority(value: Priority)
      modifies this`priority
      ensures priority == value
    {
      priority := value;
    }

    method SetCategory(value: string)
      modifies this`category
      ensures category == value
    {
      category := value;
    }

    method SetSortBy(value: SortKey)
      modifies this`sortBy
      ensures sortBy == value
    {
      sortBy := value;
    }

    /** addTodo, with `id` the number the component would take from the clock.
        Blank input changes nothing. Otherwise one record is appended after the
        existing ones: the trimmed input, not completed, with the date, priority
        and category of the form; then the input and the date are cleared, and
        priority and category keep their values. */
    method AddTodo(id: int)
      requires Valid()
      modifies this`todos, this`newTodo, this`dueDate
      ensures Valid()
      ensures Trim(old(newTodo)) == [] ==>
        todos == old(todos) && newTodo == old(newTodo) && dueDate == old(dueDate)
      ensures Trim(old(newTodo)) != [] ==>
        && todos == old(todos) + [Todo(id, Trim(old(newTodo)), false, old(dueDate), priority, category)]
        && newTodo == "" && dueDate == ""
      ensures priority == old(priority) && category == old(category) && sortBy == old(sortBy)
    {
      var text := Trim(newTodo);
      if text != [] {
        var added := Todo(id, text, false, dueDate, priority, category);
        assert added.text != [] && IsTrimmed(added.text);
        todos := todos + [added];
        assert todos[|todos| - 1] == added;
        newTodo := "";
        dueDate := "";
      }
    }

    /** toggleTodo: installs the list with `completed` flipped on the records
        carrying `id`; the form is untouched. */
    method ToggleTodo(id: int)
      requires Valid()
      modifies this`todos
      ensures Valid()
      ensures todos == Toggle(old(todos), id)
    {
      todos := Toggle(todos, id);
    }

    /** deleteTodo: installs the list without the records carrying `id`; the
        form is untouched. */
    method DeleteTodo(id: int)
      requires Valid()
      modifies this`todos
      ensures Valid()
      ensures todos == Delete(old(todos), id)
    {
      var kept := Delete(todos, id);
      forall i | 0 <= i < |kept| ensures kept[i].text != [] && IsTrimmed(kept[i].text) {
        assert multiset(kept)[kept[i]] > 0;
        assert kept[i] in todos;
      }
      todos := kept;
    }

    /** sortedTodos: the records in the order the selected key gives; a copy, so
        the stored list keeps its order. `collate` stands for localeCompare. */
    function SortedTodos(collate: (string, string) -> int): (r: seq<Todo>)
      reads this
      ensures |r| == |todos| && multiset(r) == multiset(todos)
    {
      SortedView(todos, sortBy, collate)
    }
  }
}
