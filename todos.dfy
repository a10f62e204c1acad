/** The to-do entries of the application and the pure list operations its
    event handlers are built from: the keyed `map` update shared by edit,
    check and remove, the `filter` behind "empty trash", and the filtered
    view chosen by the current filter. */
module Todos {

  /** One to-do entry. The id is a clock reading in the application; here it
      is an unbounded integer chosen by the caller. */
  datatype Todo = Todo(value: string, id: int, checked: bool, removed: bool)

  /** What the list view shows: every live entry, the checked ones, the
      unchecked ones, or the ones in the trash. */
  datatype Filter = All | Checked | Unchecked | Removed

  /** The set of ids that occur in `todos`. */
  function Ids(todos: seq<Todo>): set<int>
  {
    set t | t in todos :: t.id
  }

  /** No two entries of `todos` carry the same id. */
  predicate UniqueIds(todos: seq<Todo>)
  {
    forall i, j :: 0 <= i < j < |todos| ==> todos[i].id != todos[j].id
  }

  /** `a` is `b` with some entries dropped and the others in their original order. */
  predicate IsSubsequence(a: seq<Todo>, b: seq<Todo>)
    decreases |b|
  {
    if a == [] then true
    else if b == [] then false
    else (a[0] == b[0] && IsSubsequence(a[1..], b[1..])) || IsSubsequence(a, b[1..])
  }

  lemma UniqueIdsCons(t: Todo, todos: seq<Todo>)
    ensures UniqueIds([t] + todos) <==> t.id !in Ids(todos) && UniqueIds(todos)
  {
    var s := [t] + todos;
    if UniqueIds(s) {
      forall i, j | 0 <= i < j < |todos| ensures todos[i].id != todos[j].id {
        assert s[i + 1] == todos[i] && s[j + 1] == todos[j];
      }
      forall u | u in todos ensures u.id != t.id {
        var k :| 0 <= k < |todos| && todos[k] == u;
        assert s[0] == t && s[k + 1] == u;
      }
    }
    if t.id !in Ids(todos) && UniqueIds(todos) {
      forall i, j | 0 <= i < j < |s| ensures s[i].id != s[j].id {
        assert s[j] == todos[j - 1];
        if i == 0 {
          assert todos[j - 1] in todos;
        } else {
          assert s[i] == todos[i - 1];
        }
      }
    }
  }

  // ---------------------------------------------------------------------
  // Keyed update: the `map` callback of the edit, check and remove handlers

  /** Every entry whose id is `id` is replaced by `update` of it; the other
      entries stay as they are, in place. */
  function UpdateMatching(todos: seq<Todo>, id: int, update: Todo -> Todo): (r: seq<Todo>)
    ensures |r| == |todos|
    ensures forall i :: 0 <= i < |todos| ==>
      r[i] == if todos[i].id == id then update(todos[i]) else todos[i]
  {
    if todos == [] then []
    else [if todos[0].id == id then update(todos[0]) else todos[0]]
         + UpdateMatching(todos[1..], id, update)
  }

  /** The list after editing: the matching entries get the new text. */
  function EditValue(todos: seq<Todo>, id: int, value: string): (r: seq<Todo>)
    ensures |r| == |todos|
    ensures forall i :: 0 <= i < |todos| ==>
      r[i].id == todos[i].id && r[i].checked == todos[i].checked && r[i].removed == todos[i].removed
    ensures forall i :: 0 <= i < |todos| ==>
      r[i].value == if todos[i].id == id then value else todos[i].value
    ensures id !in Ids(todos) ==> r == todos
  {
    UpdateMatching(todos, id, (t: Todo) => t.(value := value))
  }

  /** The list after a click on a check box: the matching entries get
      `checked` set to the negation of the value the caller passes. */
  function SetChecked(todos: seq<Todo>, id: int, checked: bool): (r: seq<Todo>)
    ensures |r| == |todos|
    ensures forall i :: 0 <= i < |todos| ==>
      r[i].id == todos[i].id && r[i].value == todos[i].value && r[i].removed == todos[i].removed
    ensures forall i :: 0 <= i < |todos| ==>
      r[i].checked == if todos[i].id == id then !checked else todos[i].checked
    ensures id !in Ids(todos) ==> r == todos
  {
    UpdateMatching(todos, id, (t: Todo) => t.(checked := !checked))
  }

  /** The list after a click on delete or restore: the matching entries get
      `removed` set to the negation of the value the caller passes. */
  function SetRemoved(todos: seq<Todo>, id: int, removed: bool): (r: seq<Todo>)
    ensures |r| == |todos|
    ensures forall i :: 0 <= i < |todos| ==>
      r[i].id == todos[i].id && r[i].value == todos[i].value && r[i].checked == todos[i].checked
    ensures forall i :: 0 <= i < |todos| ==>
      r[i].removed == if todos[i].id == id then !removed else todos[i].removed
    ensures id !in Ids(todos) ==> r == todos
  {
    UpdateMatching(todos, id, (t: Todo) => t.(removed := !removed))
  }

  /** Checking twice, the second time with the value the first one set,
      restores the list, provided every matching entry had the value passed
      the first time. */
  lemma CheckTwiceRestores(todos: seq<Todo>, id: int, checked: bool)
    requires forall i :: 0 <= i < |todos| && todos[i].id == id ==> todos[i].checked == checked
    ensures SetChecked(SetChecked(todos, id, checked), id, !checked) == todos
  {
    var r := SetChecked(SetChecked(todos, id, checked), id, !checked);
    forall i | 0 <= i < |todos| ensures r[i] == todos[i] {
      assert r[i].checked == todos[i].checked;
    }
  }

  /** The same for delete followed by restore. */
  lemma RemoveTwiceRestores(todos: seq<Todo>, id: int, removed: bool)
    requires forall i :: 0 <= i < |todos| && todos[i].id == id ==> todos[i].removed == removed
    ensures SetRemoved(SetRemoved(todos, id, removed), id, !removed) == todos
  {
    var r := SetRemoved(SetRemoved(todos, id, removed), id, !removed);
    forall i | 0 <= i < |todos| ensures r[i] == todos[i] {
      assert r[i].removed == todos[i].removed;
    }
  }

  /** The list view calls the check handler with an entry's own id and
      current `checked`. With distinct ids that flips exactly that entry,
      and a second click from the list restores the original list. */
  lemma CheckFromListFlips(todos: seq<Todo>, i: int)
    requires UniqueIds(todos) && 0 <= i < |todos|
    ensures var once := SetChecked(todos, todos[i].id, todos[i].checked);
      && once[i].checked == !todos[i].checked
      && (forall j :: 0 <= j < |todos| && j != i ==> once[j] == todos[j])
      && SetChecked(once, once[i].id, once[i].checked) == todos
  {
    var once := SetChecked(todos, todos[i].id, todos[i].checked);
    forall j | 0 <= j < |todos| && todos[j].id == todos[i].id
      ensures todos[j].checked == todos[i].checked
    {
      assert !(j < i) && !(i < j);
    }
    forall j | 0 <= j < |todos| && j != i ensures once[j] == todos[j] {
      assert todos[j].id != todos[i].id;
    }
    CheckTwiceRestores(todos, todos[i].id, todos[i].checked);
  }

  /** The same for the delete/restore button of the list view. */
  lemma RemoveFromListFlips(todos: seq<Todo>, i: int)
    requires UniqueIds(todos) && 0 <= i < |todos|
    ensures var once := SetRemoved(todos, todos[i].id, todos[i].removed);
      && once[i].removed == !todos[i].removed
      && (forall j :: 0 <= j < |todos| && j != i ==> once[j] == todos[j])
      && SetRemoved(once, once[i].id, once[i].removed) == todos
  {
    var once := SetRemoved(todos, todos[i].id, todos[i].removed);
    forall j | 0 <= j < |todos| && todos[j].id == todos[i].id
      ensures todos[j].removed == todos[i].removed
    {
      assert !(j < i) && !(i < j);
    }
    forall j | 0 <= j < |todos| && j != i ensures once[j] == todos[j] {
      assert todos[j].id != todos[i].id;
    }
    RemoveTwiceRestores(todos, todos[i].id, todos[i].removed);
  }

  // ---------------------------------------------------------------------
  // Selection: the `filter` behind "empty trash" and the list view

  /** The entries of `todos` that satisfy `keep`, in their original order. */
  function Select(todos: seq<Todo>, keep: Todo -> bool): (r: seq<Todo>)
    ensures |r| <= |todos|
    ensures forall t :: t in r <==> t in todos && keep(t)
    ensures forall t :: multiset(r)[t] == if keep(t) then multiset(todos)[t] else 0
  {
    if todos == [] then []
    else
      assert todos == [todos[0]] + todos[1..];
      if keep(todos[0]) then [todos[0]] + Select(todos[1..], keep)
      else Select(todos[1..], keep)
  }

  lemma {:induction false} SelectIsSubsequence(todos: seq<Todo>, keep: Todo -> bool)
    ensures IsSubsequence(Select(todos, keep), todos)
    decreases |todos|
  {
    if todos != [] {
      SelectIsSubsequence(todos[1..], keep);
      var r := Select(todos, keep);
      if keep(todos[0]) {
        assert r[0] == todos[0] && r[1..] == Select(todos[1..], keep);
      } else {
        assert r == Select(todos[1..], keep);
      }
    }
  }

  lemma {:induction false} SelectAllKept(todos: seq<Todo>, keep: Todo -> bool)
    requires forall t :: t in todos ==> keep(t)
    ensures Select(todos, keep) == todos
    decreases |todos|
  {
    if todos != [] {
      assert todos[0] in todos;
      SelectAllKept(todos[1..], keep);
      assert todos == [todos[0]] + todos[1..];
    }
  }

  lemma {:induction false} SelectKeepsUniqueIds(todos: seq<Todo>, keep: Todo -> bool)
    requires UniqueIds(todos)
    ensures UniqueIds(Select(todos, keep))
    decreases |todos|
  {
    if todos != [] {
      assert todos == [todos[0]] + todos[1..];
      UniqueIdsCons(todos[0], todos[1..]);
      SelectKeepsUniqueIds(todos[1..], keep);
      if keep(todos[0]) {
        var rest := Select(todos[1..], keep);
        assert Ids(rest) <= Ids(todos[1..]);
        UniqueIdsCons(todos[0], rest);
      }
    }
  }

  /** The entry survives "empty trash". */
  predicate Live(t: Todo)
  {
    !t.removed
  }

  /** The list after "empty trash": exactly the entries not in the trash, in
      their original order. */
  function Purge(todos: seq<Todo>): (r: seq<Todo>)
    ensures |r| <= |todos|
    ensures forall t :: t in r <==> t in todos && !t.removed
    ensures forall t :: multiset(r)[t] == if t.removed then 0 else multiset(todos)[t]
    ensures IsSubsequence(r, todos)
    ensures UniqueIds(todos) ==> UniqueIds(r)
  {
    SelectIsSubsequence(todos, Live);
    if UniqueIds(todos) then SelectKeepsUniqueIds(todos, Live); Select(todos, Live)
    else Select(todos, Live)
  }

  /** Emptying the trash a second time changes nothing. */
  lemma PurgeIdempotent(todos: seq<Todo>)
    ensures Purge(Purge(todos)) == Purge(todos)
  {
    SelectAllKept(Purge(todos), Live);
  }

  /** Whether the list view under filter `f` shows entry `t`. */
  predicate Shows(f: Filter, t: Todo)
  {
    match f
    case All => !t.removed
    case Checked => t.checked && !t.removed
    case Unchecked => !t.checked && !t.removed
    case Removed => t.removed
  }

  /** The entries the list view shows under filter `f`, in list order. */
  function Visible(todos: seq<Todo>, f: Filter): (r: seq<Todo>)
    ensures IsSubsequence(r, todos)
    ensures forall t :: t in r <==> t in todos && Shows(f, t)
    ensures forall t :: multiset(r)[t] == if Shows(f, t) then multiset(todos)[t] else 0
    ensures f == Removed ==> forall t :: t in r <==> t in todos && t.removed
    ensures f != Removed ==> forall t :: t in r ==> !t.removed
  {
    SelectIsSubsequence(todos, t => Shows(f, t));
    Select(todos, t => Shows(f, t))
  }

  /** After "empty trash" the trash view is empty and the "all" view is the
      whole list. */
  lemma PurgeEmptiesTrash(todos: seq<Todo>)
    ensures Visible(Purge(todos), Removed) == []
    ensures Visible(Purge(todos), All) == Purge(todos)
  {
    var p := Purge(todos);
    if Visible(p, Removed) != [] {
      assert Visible(p, Removed)[0] in Visible(p, Removed);
    }
    SelectAllKept(p, t => Shows(All, t));
  }

  predicate IsChecked(t: Todo)
  {
    t.checked
  }

  predicate IsUnchecked(t: Todo)
  {
    !t.checked
  }

  lemma SelectCons(t: Todo, todos: seq<Todo>, keep: Todo -> bool)
    ensures Select([t] + todos, keep) == if keep(t) then [t] + Select(todos, keep) else Select(todos, keep)
  {
  }

  /** The "checked" view is the checked part of the "all" view, in the same order. */
  lemma {:induction false} CheckedViewWithinAll(todos: seq<Todo>)
    ensures Visible(todos, Checked) == Select(Visible(todos, All), IsChecked)
    decreases |todos|
  {
    if todos != [] {
      var t, rest := todos[0], todos[1..];
      CheckedViewWithinAll(rest);
      if !t.removed {
        assert Visible(todos, All) == [t] + Visible(rest, All);
        SelectCons(t, Visible(rest, All), IsChecked);
      }
    }
  }

  /** The "unchecked" view is the unchecked part of the "all" view, in the same order. */
  lemma {:induction false} UncheckedViewWithinAll(todos: seq<Todo>)
    ensures Visible(todos, Unchecked) == Select(Visible(todos, All), IsUnchecked)
    decreases |todos|
  {
    if todos != [] {
      var t, rest := todos[0], todos[1..];
      UncheckedViewWithinAll(rest);
      if !t.removed {
        assert Visible(todos, All) == [t] + Visible(rest, All);
        SelectCons(t, Visible(rest, All), IsUnchecked);
      }
    }
  }

  /** The "checked" and "unchecked" views split the "all" view: each is the
      (un)checked part of it in the same order, and between them they hold
      every entry of it exactly once. */
  lemma CheckedViewsPartitionAll(todos: seq<Todo>)
    ensures Visible(todos, Checked) == Select(Visible(todos, All), IsChecked)
    ensures Visible(todos, Unchecked) == Select(Visible(todos, All), IsUnchecked)
    ensures multiset(Visible(todos, All))
         == multiset(Visible(todos, Checked)) + multiset(Visible(todos, Unchecked))
    ensures |Visible(todos, All)| == |Visible(todos, Checked)| + |Visible(todos, Unchecked)|
  {
    CheckedViewWithinAll(todos);
    UncheckedViewWithinAll(todos);
    var all, c, u := Visible(todos, All), Visible(todos, Checked), Visible(todos, Unchecked);
    forall t: Todo ensures multiset(all)[t] == (multiset(c) + multiset(u))[t] {
      assert multiset(c)[t] == if t.checked then multiset(all)[t] else 0;
      assert multiset(u)[t] == if t.checked then 0 else multiset(all)[t];
    }
    assert multiset(all) == multiset(c) + multiset(u);
    assert |multiset(all)| == |all|;
  }

  /** Every entry is shown either in the "all" view or in the trash view. */
  lemma {:induction false} AllAndTrashCoverList(todos: seq<Todo>)
    ensures |Visible(todos, All)| + |Visible(todos, Removed)| == |todos|
    decreases |todos|
  {
    if todos != [] {
      AllAndTrashCoverList(todos[1..]);
    }
  }
}
