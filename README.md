# To-do list bookkeeping, modelled in Dafny

This project models the `App` component of a small React to-do application:
its three pieces of state and the handlers that replace them:

- the draft `text`,
- the list `todos`, newest first,
- the view `filter`.

Each entry is a `Todo` with a text (`value`), an `id`, a `checked` flag and a
`removed` flag (soft delete). The handlers do the following:

- **submit**: puts a new entry in front of the list, unless the draft is empty.
- **edit**: changes the text of the entries with a given id.
- **check**: sets `checked` on the entries with a given id.
- **remove/restore**: sets `removed` on the entries with a given id.
- **empty trash**: drops every removed entry.
- **set text / set filter**: replace the draft or the filter.

The list the component renders is the part of `todos` that the current
filter shows.

The project has two modules:

- `Todos` (`todos.dfy`) holds the pure part. It has the `Todo` and `Filter`
  datatypes, the keyed update that the edit, check and remove handlers share,
  the selection behind "empty trash" and the filtered view, and the lemmas
  about them.
- `TodoApp` (`app.dfy`) holds the class `App`. Its fields are `text`, `todos`
  and `filter`, and its methods are the handlers. Each method states its whole
  new state. `Edit`, `Check`, `Remove` and `EmptyTrash` state it in terms of
  the `Todos` functions; `SetText`, `SetFilter` and `Submit` state it
  directly. `BuyMilkSession` is a client of
  `App`. It starts from an empty component, then adds, checks, deletes and
  purges one entry, and asserts what each view shows along the way.

The id of a new entry is a clock reading in the application. Here it is the
parameter `now` of `Submit`. The application does not guarantee that ids are
distinct, so nothing in the model requires it. Instead, `Submit` promises to
keep ids distinct when `now` is fresh, and `Purge` keeps them distinct.

The check and remove handlers do not flip the stored flag. They set it to the
negation of the value the caller passes, on every entry whose id matches. The
list view passes the entry's own current value, and only that call is a
flip. The comment on the check handler (src/App.tsx:68) calls it an
inversion, but the code negates the passed value, and the model follows the
code. An id that is not in the list leaves the list unchanged.

## Model

| member | source | states |
|---|---|---|
| `Todos.UpdateMatching` | src/App.tsx:58-63 | the list keeps its length; every entry whose id matches is replaced by the update of it; every other entry stays the same and in place |
| `Todos.EditValue` | src/App.tsx:56-66 | length, order and each entry's id, checked and removed are preserved; matching entries get the new text and the others keep theirs; an unknown id leaves the list unchanged |
| `Todos.SetChecked` | src/App.tsx:69-78 | matching entries get `checked == !c` for the passed `c`; the other entries and all other fields are unchanged; an unknown id leaves the list unchanged |
| `Todos.SetRemoved` | src/App.tsx:81-90 | matching entries get `removed == !r` for the passed `r`; the other entries and all other fields are unchanged; an unknown id leaves the list unchanged |
| `Todos.CheckTwiceRestores` | src/App.tsx:69-77 | if every matching entry has `checked == c`, checking with `c` and then with `!c` gives back the original list |
| `Todos.RemoveTwiceRestores` | src/App.tsx:81-89 | if every matching entry has `removed == r`, removing with `r` and then with `!r` gives back the original list |
| `Todos.CheckFromListFlips` | src/App.tsx:153-157 | with distinct ids, the list's call `Check(t.id, t.checked)` flips exactly entry `t`, and a second such click restores the list |
| `Todos.RemoveFromListFlips` | src/App.tsx:164 | with distinct ids, the list's call `Remove(t.id, t.removed)` flips exactly entry `t`, and a second such click restores the list |
| `Todos.Select` | src/App.tsx:94 | the result is no longer than the input; an entry is in it exactly when it is in the input and satisfies the predicate; each kept entry occurs as often as in the input, each dropped one not at all |
| `Todos.SelectIsSubsequence` | src/App.tsx:94 | a selection keeps the relative order of the input (it is a subsequence of it) |
| `Todos.Purge` | src/App.tsx:93-96 | "empty trash" keeps exactly the entries that are not removed, as often as they occur and in their original order; the list does not grow; distinct ids stay distinct |
| `Todos.PurgeIdempotent` | src/App.tsx:93-95 | emptying the trash twice gives the same list as emptying it once |
| `Todos.PurgeEmptiesTrash` | src/App.tsx:93-108 | after emptying the trash the "removed" view is empty and the "all" view is the whole list |
| `Todos.Visible` | src/App.tsx:99-112 | the view is a subsequence of the list; an entry is in it exactly when the filter shows it, as often as it occurs in the list; under "removed" it holds exactly the removed entries; under every other filter it holds no removed entry |
| `Todos.CheckedViewWithinAll` | src/App.tsx:101-104 | the "checked" view is the checked part of the "all" view, in the same order |
| `Todos.UncheckedViewWithinAll` | src/App.tsx:101-106 | the "unchecked" view is the unchecked part of the "all" view, in the same order |
| `Todos.CheckedViewsPartitionAll` | src/App.tsx:99-106 | the "checked" and "unchecked" views partition the "all" view: as order-preserving selections of it, and as multisets whose sum is the "all" view, so their lengths add up |
| `Todos.AllAndTrashCoverList` | src/App.tsx:101-108 | the lengths of the "all" view and the "removed" view add up to the length of the list |
| `TodoApp.App.constructor` | src/App.tsx:25-27 | a new component has an empty draft, no entries and the filter "all" |
| `TodoApp.App.SetText` | src/App.tsx:138 | typing replaces the draft and changes nothing else |
| `TodoApp.App.SetFilter` | src/App.tsx:118 | choosing a filter replaces the filter and nothing else, so choosing the same value twice equals choosing it once |
| `TodoApp.App.Submit` | src/App.tsx:30-53 | an empty draft leaves draft and list unchanged; otherwise the list grows by one, its head is an unchecked, live entry with the old draft as text and `now` as id, its tail is the old list, and the draft is cleared; a fresh `now` keeps ids distinct; the filter is unchanged |
| `TodoApp.App.Edit` | src/App.tsx:56-66 | the new list is `EditValue` of the old one; draft and filter are unchanged |
| `TodoApp.App.Check` | src/App.tsx:69-78 | the new list is `SetChecked` of the old one; draft and filter are unchanged |
| `TodoApp.App.Remove` | src/App.tsx:81-90 | the new list is `SetRemoved` of the old one; draft and filter are unchanged |
| `TodoApp.App.EmptyTrash` | src/App.tsx:93-96 | the new list is `Purge` of the old one; draft and filter are unchanged |
| `TodoApp.App.FilteredTodos` | src/App.tsx:99-112 | the rendered list is a subsequence of `todos` with exactly the entries the current filter shows, each as often as in `todos`; under "removed" these are the removed entries, and under any other filter none is removed |

## Left out

- Rendering is not modelled. This covers the Material-UI components, the
  `Select` change handler's cast of the event value, and the form events with
  their `preventDefault` (src/App.tsx:114-171). They are presentation and
  library calls with no list logic.
- The UI enablement rules are not modelled: the input disabled under
  "checked", the per-entry controls disabled, and the empty-trash button
  disabled when nothing is removed. They are rendering policy, not state
  transitions.
- src/index.tsx is not part of this model. It is a static form with no
  state.
- The clock `new Date().getTime()` is not modelled. The new id is passed in
  as `now`. Two submits in the same millisecond would get the same id in the
  application; the model does not exclude that either.
- In-place mutation is not modelled. The `map` callbacks assign to the
  existing entry objects, so the previous array shares the changed entries.
  The model uses value semantics, so it does not capture that aliasing. The
  contracts speak only about the resulting list.
- The `default` branch of the filter switch is not modelled. It cannot be
  reached once the filter is one of the four values, which the `Filter`
  datatype guarantees.
- Ids are unbounded integers, while the application stores them as
  JavaScript numbers (doubles). Clock readings fit them exactly, so nothing
  is lost in practice.
- Strings are sequences of characters. The only test the application makes
  on them is the empty-string check of the draft, and the model keeps it:
  a draft of only spaces is accepted.
