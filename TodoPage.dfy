/** The todo-list page's component state and its four response handlers.
    Each handler receives the outcome of its remote call as a parameter and
    returns the notification it would show (None when it shows none); the
    insert and update handlers also return the request they would send. */
module TodoPage {
  import opened Todos

  /** The notification shown when the text to add is blank. */
  const EmptyTextMessage := "Todo text cannot be empty"

  /** The `TodoList` component: the list held in local state, the text of the
      new-todo field, and whether the first load is still pending. */
  class TodoList {
    var todos: seq<Todo>
    var inputValue: string
    var isLoading: bool

    /** Initial state: an empty list, an empty field, loading. */
    constructor ()
      ensures todos == [] && inputValue == "" && isLoading
    {
      todos := [];
      inputValue := "";
      isLoading := true;
    }

    /** The field's change handler: the field now holds `value`. */
    method SetInputValue(value: string)
      modifies this`inputValue
      ensures inputValue == value
      ensures todos == old(todos) && isLoading == old(isLoading)
    {
      inputValue := value;
    }

    /** `getTodos`: loading ends whatever the outcome; returned rows replace
        the list, an error is shown and leaves the list as it was. */
    method GetTodos(reply: Reply<seq<Todo>>) returns (toast: Option<string>)
      modifies this`todos, this`isLoading
      ensures !isLoading
      ensures inputValue == old(inputValue)
      ensures reply.Failed? ==> toast == Some(reply.message) && todos == old(todos)
      ensures reply.Succeeded? ==> toast == None
      ensures reply.Succeeded? && reply.data.Some? ==> todos == reply.data.value
      ensures reply.Succeeded? && reply.data.None? ==> todos == old(todos)
    {
      if reply.Failed? {
        isLoading := false;
        return Some(reply.message);
      }
      if reply.data.Some? {
        todos := reply.data.value;
      }
      isLoading := false;
      toast := None;
    }

    /** `addTodo`: a blank field is refused before any request; otherwise the
        field's text is sent as a new, not completed row, and the created row
        comes back in `reply`. On success the row is appended at the end and
        the field is cleared; on error nothing changes. */
    method AddTodo(reply: Reply<Todo>) returns (request: Option<NewTodo>, toast: Option<string>)
      modifies this`todos, this`inputValue
      ensures isLoading == old(isLoading)
      ensures IsBlank(old(inputValue)) ==>
        request == None && toast == Some(EmptyTextMessage)
        && todos == old(todos) && inputValue == old(inputValue)
      ensures !IsBlank(old(inputValue)) ==>
        request == Some(NewTodo(old(inputValue), false))
      ensures !IsBlank(old(inputValue)) && reply.Failed? ==>
        toast == Some(reply.message) && todos == old(todos) && inputValue == old(inputValue)
      ensures !IsBlank(old(inputValue)) && reply.Succeeded? ==> toast == None
      ensures !IsBlank(old(inputValue)) && reply.Succeeded? && reply.data.Some? ==>
        todos == old(todos) + [reply.data.value] && inputValue == ""
      ensures !IsBlank(old(inputValue)) && reply.Succeeded? && reply.data.None? ==>
        todos == old(todos) && inputValue == old(inputValue)
    {
      TrimEmptyIffBlank(inputValue);
      if Trim(inputValue) == "" {
        return None, Some(EmptyTextMessage);
      }
      request := Some(NewTodo(inputValue, false));
      match reply
      case Failed(message) =>
        toast := Some(message);
      case Succeeded(data) =>
        toast := None;
        if data.Some? {
          todos := todos + [data.value];
          inputValue := "";
        }
    }

    /** `toggleTodoStatus`: the update sets `isCompleted` to the negation of the
        locally known `status`; when rows come back, every entry with that `id`
        becomes the first returned row. An error, or no rows, changes nothing. */
    method ToggleTodoStatus(id: int, status: bool, reply: Reply<seq<Todo>>)
      returns (patch: StatusPatch, toast: Option<string>)
      modifies this`todos
      ensures patch == StatusPatch(id, !status)
      ensures inputValue == old(inputValue) && isLoading == old(isLoading)
      ensures reply.Failed? ==> toast == Some(reply.message)
      ensures reply.Succeeded? ==> toast == None
      ensures HasRows(reply) ==> todos == ReplaceById(old(todos), id, reply.data.value[0])
      ensures !HasRows(reply) ==> todos == old(todos)
    {
      patch := StatusPatch(id, !status);
      match reply
      case Failed(message) =>
        toast := Some(message);
      case Succeeded(data) =>
        toast := None;
        if data.Some? && |data.value| > 0 {
          todos := ReplaceById(todos, id, data.value[0]);
        }
    }

    /** `deleteTodo`: when the delete returns rows, every entry with that `id`
        is dropped and the others keep their order. An error, or no rows,
        changes nothing. */
    method DeleteTodo(id: int, reply: Reply<seq<Todo>>) returns (toast: Option<string>)
      modifies this`todos
      ensures inputValue == old(inputValue) && isLoading == old(isLoading)
      ensures reply.Failed? ==> toast == Some(reply.message)
      ensures reply.Succeeded? ==> toast == None
      ensures HasRows(reply) ==> todos == RemoveById(old(todos), id)
      ensures !HasRows(reply) ==> todos == old(todos)
    {
      match reply
      case Failed(message) =>
        toast := Some(message);
      case Succeeded(data) =>
        toast := None;
        if data.Some? && |data.value| > 0 {
          todos := RemoveById(todos, id);
        }
    }
  }

  /** A client of the component: load one row, toggle it, delete it, then try
      to add a blank todo. Every step follows from the contracts alone. */
  method Scenario(t1: Timestamp)
  {
    var page := new TodoList();
    var milk := Todo(1, t1, "Buy milk", false);
    var toast := page.GetTodos(Succeeded(Some([milk])));
    assert page.todos == [milk] && !page.isLoading && toast == None;

    var done := milk.(isCompleted := true);
    var patch;
    patch, toast := page.ToggleTodoStatus(1, milk.isCompleted, Succeeded(Some([done])));
    assert patch.isCompleted;
    assert page.todos == [done];

    patch, toast := page.ToggleTodoStatus(1, true, Failed("network"));
    assert page.todos == [done] && toast == Some("network");

    toast := page.DeleteTodo(1, Succeeded(Some([done])));
    assert page.todos == [];

    page.SetInputValue("   ");
    var request;
    request, toast := page.AddTodo(Succeeded(Some(milk)));
    assert request == None && toast == Some(EmptyTextMessage);
    assert page.todos == [] && page.inputValue == "   ";
  }
}
