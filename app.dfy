/**
 * The root component: its four pieces of state and the handlers that
 * replace them. Every handler that touches the list hands the new list to
 * `setTodos` whole; here it assigns the matching transform from `Todos`.
 */
module TodoApp {
  import opened Todos
  import Footer

  /** The main section: the loader while loading, else the shown items. */
  datatype MainSection = Loader | Items(shown: seq<Todo>)

  /** What one render shows, reduced to values. */
  datatype Screen = Screen(
    toggleAllActive: bool,
    main: MainSection,
    footer: Option<Footer.FooterView>,
    error: Option<ErrorMessage>)

  class App {
    /** The fixed owner of every item this client creates. */
    const userId: int

    var todos: seq<Todo>
    var filter: Filter
    var error: Option<ErrorMessage>
    var isLoading: bool

    /** The initial `useState` values. */
    constructor (userId: int)
      ensures this.userId == userId
      ensures todos == [] && filter == All && error == None && isLoading
    {
      this.userId := userId;
      todos := [];
      filter := All;
      error := None;
      isLoading := true;
    }

    /** The mount effect, before the request settles. */
    method StartLoad()
      modifies this
      ensures isLoading
      ensures todos == old(todos) && filter == old(filter) && error == old(error)
    {
      isLoading := true;
    }

    /** The request resolved with `data`: it replaces the list, and loading
        ends. */
    method LoadSucceeded(data: seq<Todo>)
      modifies this
      ensures todos == data && !isLoading
      ensures filter == old(filter) && error == old(error)
    {
      todos := data;
      isLoading := false;
    }

    /** The request was rejected: the load message is shown, the list is
        left as it was, and loading ends. */
    method LoadFailed()
      modifies this
      ensures error == Some(LoadError) && !isLoading
      ensures todos == old(todos) && filter == old(filter)
    {
      error := Some(LoadError);
      isLoading := false;
    }

    /** Enter in the new-item field, with the field's text and the id the
        clock gave. A blank title shows the title message and adds nothing;
        otherwise one item is appended and the error is left alone. */
    method HandleAddTodo(input: string, newId: int)
      modifies this
      ensures match AddTodo(old(todos), input, newId, userId)
        case Rejected(e) => error == Some(e) && todos == old(todos)
        case Appended(ts) => todos == ts && error == old(error)
      ensures filter == old(filter) && isLoading == old(isLoading)
    {
      var outcome := AddTodo(todos, input, newId, userId);
      match outcome
      case Rejected(e) =>
        error := Some(e);
      case Appended(ts) =>
        todos := ts;
    }

    /** The notification's close button. */
    method HandleHideError()
      modifies this
      ensures error == None
      ensures todos == old(todos) && filter == old(filter) && isLoading == old(isLoading)
    {
      error := None;
    }

    /** The auto-dismiss timer fired. A timer runs only while a message is
        shown; a change of message cancels it and starts a new one. */
    method ErrorTimeoutFired()
      requires error.Some?
      modifies this
      ensures error == None
      ensures todos == old(todos) && filter == old(filter) && isLoading == old(isLoading)
    {
      error := None;
    }

    /** The checkbox of the item with id `id`. */
    method HandleToggle(id: int)
      modifies this
      ensures todos == ToggleById(old(todos), id)
      ensures filter == old(filter) && error == old(error) && isLoading == old(isLoading)
    {
      todos := ToggleById(todos, id);
    }

    /** The delete button of the item with id `id`. */
    method HandleDelete(id: int)
      modifies this
      ensures todos == RemoveById(old(todos), id)
      ensures filter == old(filter) && error == old(error) && isLoading == old(isLoading)
    {
      todos := RemoveById(todos, id);
    }

    /** The toggle-all button. */
    method HandleToggleAll()
      modifies this
      ensures todos == ToggleAllItems(old(todos))
      ensures filter == old(filter) && error == old(error) && isLoading == old(isLoading)
    {
      todos := ToggleAllItems(todos);
    }

    /** `setFilter`, as the footer calls it. */
    method SetFilter(f: Filter)
      modifies this
      ensures filter == f
      ensures todos == old(todos) && error == old(error) && isLoading == old(isLoading)
    {
      filter := f;
    }

    /** A click on a footer control: a link forwards its filter to
        `setFilter`; a control without a handler changes nothing. */
    method ClickFooterControl(onClick: Option<Footer.Intent>)
      modifies this
      ensures onClick.None? ==> filter == old(filter)
      ensures onClick.Some? ==> filter == onClick.value.filter
      ensures todos == old(todos) && error == old(error) && isLoading == old(isLoading)
    {
      match onClick
      case None =>
      case Some(intent) =>
        SetFilter(intent.filter);
    }

    /** One render of the current state: the toggle-all button is active
        when all items are completed, the loader replaces the list while
        loading, the footer is there only for a non-empty list, and the
        notification carries the current message. */
    function View(): (s: Screen)
      reads this
      ensures s.toggleAllActive <==> |todos| > 0 && forall i :: 0 <= i < |todos| ==> todos[i].completed
      ensures s.main.Loader? <==> isLoading
      ensures s.main.Items? ==> s.main.shown == FilteredTodos(todos, filter)
      ensures s.footer.Some? <==> |todos| > 0
      ensures s.footer.Some? ==>
        s.footer.value == Footer.Render(RemainingCount(todos), filter)
      ensures s.error == error
    {
      Screen(
        AllTodosCompleted(todos),
        if isLoading then Loader else Items(FilteredTodos(todos, filter)),
        if FooterVisible(todos) then Some(Footer.Render(RemainingCount(todos), filter)) else None,
        error)
    }
  }
}
