/** The state of the to-do component (the draft text, the list of entries,
    newest first, and the current filter) and the handlers that replace it. */
module TodoApp {
  import opened Todos

  class App {
    var text: string
    var todos: seq<Todo>
    var filter: Filter

    /** A fresh component: empty draft, no entries, filter "all". */
    constructor ()
      ensures text == "" && todos == [] && filter == All
    {
      text := "";
      todos := [];
      filter := All;
    }

    /** Typing into the input field replaces the draft. */
    method SetText(value: string)
      modifies this
      ensures text == value
      ensures todos == old(todos) && filter == old(filter)
    {
      text := value;
    }

    /** Choosing a filter replaces the filter and nothing else, so choosing
        the same value again changes nothing. */
    method SetFilter(f: Filter)
      modifies this
      ensures filter == f
      ensures text == old(text) && todos == old(todos)
    {
      filter := f;
    }

    /** Submitting the form. An empty draft is ignored; otherwise a new,
        unchecked and live entry with the draft as its text and `now` as its
        id is put in front of the list, and the draft is cleared. A fresh
        `now` keeps the ids distinct. */
    method Submit(now: int)
      modifies this
      ensures filter == old(filter)
      ensures old(text) == "" ==> text == old(text) && todos == old(todos)
      ensures old(text) != "" ==>
        && text == ""
        && |todos| == |old(todos)| + 1
        && todos[0] == Todo(old(text), now, false, false)
        && todos[1..] == old(todos)
      ensures old(UniqueIds(todos)) && now !in old(Ids(todos)) ==> UniqueIds(todos)
    {
      if text == "" {
        return;
      }
      var added := Todo(text, now, false, false);
      UniqueIdsCons(added, todos);
      todos := [added] + todos;
      text := "";
    }

    /** Editing the text of the entries whose id is `id`. */
    method Edit(id: int, value: string)
      modifies this
      ensures todos == EditValue(old(todos), id, value)
      ensures text == old(text) && filter == old(filter)
    {
      todos := EditValue(todos, id, value);
    }

    /** A click on the check box of the entries whose id is `id`; the list
        passes the entry's current `checked`. */
    method Check(id: int, checked: bool)
      modifies this
      ensures todos == SetChecked(old(todos), id, checked)
      ensures text == old(text) && filter == old(filter)
    {
      todos := SetChecked(todos, id, checked);
    }

    /** A click on delete or restore of the entries whose id is `id`; the
        list passes the entry's current `removed`. */
    method Remove(id: int, removed: bool)
      modifies this
      ensures todos == SetRemoved(old(todos), id, removed)
      ensures text == old(text) && filter == old(filter)
    {
      todos := SetRemoved(todos, id, removed);
    }

    /** Emptying the trash drops every removed entry for good. */
    method EmptyTrash()
      modifies this
      ensures todos == Purge(old(todos))
      ensures text == old(text) && filter == old(filter)
    {
      todos := Purge(todos);
    }

    /** The entries the list renders: those the current filter shows, in
        list order. */
    function FilteredTodos(): (r: seq<Todo>)
      reads this
      ensures IsSubsequence(r, todos)
      ensures forall t :: t in r <==> t in todos && Shows(filter, t)
      ensures forall t :: multiset(r)[t] == if Shows(filter, t) then multiset(todos)[t] else 0
      ensures filter == Removed ==> forall t :: t in r <==> t in todos && t.removed
      ensures filter != Removed ==> forall t :: t in r ==> !t.removed
    {
      Visible(todos, filter)
    }
  }

  /** A session from an empty component: add "buy milk", check it, delete it
      and empty the trash, reading the views on the way. */
  method BuyMilkSession(now: int)
  {
    var app := new App();
    app.Submit(now);
    assert app.todos == [];
    app.SetText("buy milk");
    app.Submit(now);
    var milk := Todo("buy milk", now, false, false);
    assert app.todos == [milk] && app.text == "";
    var shown := app.FilteredTodos();
    assert shown == [milk];

    app.Check(now, false);
    var done := milk.(checked := true);
    assert app.todos == [done];
    app.SetFilter(Unchecked);
    shown := app.FilteredTodos();
    assert shown == [];
    app.SetFilter(Checked);
    shown := app.FilteredTodos();
    assert shown == [done];

    app.Remove(now, false);
    var trashed := done.(removed := true);
    assert app.todos == [trashed];
    app.SetFilter(Removed);
    shown := app.FilteredTodos();
    assert shown == [trashed];
    app.SetFilter(All);
    shown := app.FilteredTodos();
    assert shown == [];

    app.EmptyTrash();
    assert app.todos == [];
  }
}
