# Password → message pair store

A model of the single React component `App` in `src/App.jsx`. The user
stores `{pw, msg}` records in an ordered list and then reveals a message by
typing its password. The model covers the list itself and the form that
edits it:

- saving the form (append, or replace the record being edited),
- first-match reveal by exact password,
- delete by index after a confirmation,
- the edit/cancel state machine (`editingIndex` is -1 or the edited index),
- the substring filter that produces the list view,
- the decision to replace the list on import.

Two modules:

- `PairStore` (`pair_store.dfy`) holds the pure parts of the component as
  functions over `seq<Pair>`:
  - `String.prototype.includes` as `Includes`;
  - `pairs.find` as `FirstMatch` and `RevealText`;
  - `pairs.filter` as `Visible`, a view whose rows carry the record's index
    in `pairs`;
  - `splice(i, 1)` as `RemoveAt`;
  - lemmas relating these to independent definitions.
- `AppComponent` (`app.dfy`) holds the class `App`. Its fields are the
  component's `useState` slots, and its methods are the event handlers.
  - Each `setX` is modelled as an immediate assignment.
  - A `confirm` answer is passed in as a boolean.
  - An `alert` is returned as its text and changes no state.

The list view's edit and delete buttons call `pairs.indexOf(p)` on a record
object taken from the filtered list. Records are distinct objects, so this
gives the record's own index. The model gives each `Entry` of the view that
index directly. `DeleteFromView` proves that deleting through row `k`
removes exactly that row from the view.

The behaviour described below follows the code.

- Reveal returns the FIRST record with the queried password. After
  appending a record whose password already occurs earlier, revealing that
  password still shows the earlier record's message (`RevealAfterAppend`).
- The component keeps a `filter` state, but nothing ever calls
  `setFilter`. The filter therefore stays `""`, and the list view is always
  the whole list (`VisibleEmptyFilter`, `EmptyFilterShowsAll`). The filter
  function is still modelled for any filter string.
- Records carry only `pw` and `msg`. This version of the component has no
  `category` field.
- Neither `handleDelete` nor import resets `editingIndex`. An edit in
  progress can therefore name a different record afterwards, or an index
  past the end of the list. `StaleEditSession` in `app.dfy` walks through
  this.

## Model

| member | source | states |
|---|---|---|
| `PairStore.IncludesIffOccurs` | src/App.jsx:97 | The recursive substring search used by the filter holds exactly when the needle occurs at some position of the string. |
| `PairStore.FirstMatch` | src/App.jsx:49 | `find` by exact `pw` equality returns an index whose password equals the query, and no earlier record has that password. It returns nothing exactly when no record has that password. |
| `PairStore.RevealText` | src/App.jsx:49-54 | If no record has the password, the result is `"Eşleşen mesaj bulunamadı."`. Otherwise it is the first matching record's message, or `"(mesaj boş)"` when that message is empty. The result is never empty. |
| `PairStore.RevealAfterAppend` | src/App.jsx:49-51 | After appending a record, its password reveals its message (or the placeholder) when no earlier record shares the password. Otherwise the reveal is unchanged: the first match wins. |
| `PairStore.RevealStableUnderAppend` | src/App.jsx:49 | Appending never changes the reveal of a password that already matches a record. |
| `PairStore.Visible` | src/App.jsx:95-98 | Each row of the view holds an in-range index, the record at that index and a record that passes the filter. Rows keep list order, with strictly increasing indices. |
| `PairStore.VisibleComplete` | src/App.jsx:95-98 | A record passes the filter if and only if some row of the view carries its index. |
| `PairStore.VisibleEmptyFilter` | src/App.jsx:96 | With an empty filter, the view has one row per record, and row `k` is record `k` at index `k`. |
| `PairStore.EmptyFilterShowsAll` | src/App.jsx:96 | With an empty filter, the records of the view are the whole list, in order. |
| `PairStore.VisibleRecords` | src/App.jsx:95-98 | The view without its indices equals the front-to-back reference `filter` (`FilterPairs`). |
| `PairStore.RemoveAt` | src/App.jsx:65-66 | `splice(i, 1)` shortens the list by one. Records before `i` are kept, and records after `i` shift down by one. |
| `PairStore.DeleteFromView` | src/App.jsx:170-171 | Deleting the record behind row `k` of the view leaves a view whose records are the old view's records without row `k`. |
| `AppComponent.App.constructor` | src/App.jsx:6-12 | The initial state: an empty list, empty form and inputs, no reveal message, `editingIndex == -1`, and an empty filter. |
| `AppComponent.App.SetPasswordInput` | src/App.jsx:112 | The reveal input takes the typed value. |
| `AppComponent.App.SetNewPw` | src/App.jsx:133 | The form's password field takes the typed value. |
| `AppComponent.App.SetNewMsg` | src/App.jsx:139 | The form's message field takes the typed value. |
| `AppComponent.App.SubmitNew` | src/App.jsx:31-45 | With an empty password, the method returns the "Parola boş olamaz." alert and changes nothing. When adding, `{newPw, newMsg}` is appended. When editing, only the edited index is replaced, the length is kept, and `editingIndex` becomes -1 (Idle). After any save, the form is empty. |
| `AppComponent.App.TryReveal` | src/App.jsx:47-55 | `revealMessage` becomes `RevealText` of the list and the typed password. Nothing else changes. |
| `AppComponent.App.Edit` | src/App.jsx:57-61 | Enters `Editing(i)` and fills the form from record `i`. The list is unchanged. |
| `AppComponent.App.Delete` | src/App.jsx:63-68 | A declined confirmation changes nothing. A confirmed one sets the list to `RemoveAt(pairs, i)`. `editingIndex` is untouched. |
| `AppComponent.App.Cancel` | src/App.jsx:145-152 | Back to Idle (`editingIndex == -1`) with an empty form. The list is unchanged. |
| `AppComponent.App.EditRow` | src/App.jsx:170 | The edit button of row `k` edits the record that row shows, at its original index. |
| `AppComponent.App.DeleteRow` | src/App.jsx:171 | The delete button of row `k` removes the record at that row's original index. The new view shows every other row's record, in order. |
| `AppComponent.App.Import` | src/App.jsx:83-90 | A parsed array replaces the list. Any other JSON value gives the format alert, and a parse failure gives the parse alert with its reason. In both failure cases the list is unchanged. |

## Left out

- Loading from and saving to `localStorage`, including `console.error` logging (src/App.jsx:14-29), is left out because it is browser storage I/O.
- `exportJSON` (src/App.jsx:70-79) is left out: it only builds a Blob, an object URL and a download link.
- `FileReader` and `JSON.parse` inside `importJSON` are foreign, asynchronous library calls. `Import` takes their outcome as a `Parsed` value.
- The import round trip (export, then import, gives the same list) is not modelled, because both halves are JSON library calls that the model leaves out.
- An imported array is modelled as a sequence of `Pair`. Elements that are not `{pw, msg}` objects are not represented. A `null` element would make reveal's `find` (src/App.jsx:49) and the row rendering (src/App.jsx:166) throw when they read `p.pw`. Because the filter is always empty, its callback returns before reading `p.pw` (src/App.jsx:96), so an object without `pw` never throws there.
- React's asynchronous `useState` updates and batching are not modelled: each `setX` is an immediate assignment.
- JSX rendering and styling are left out, apart from which handler each control calls.
- AppComponent.App.SubmitNew: requires the edited index to be in range. The source does not guarantee this after a delete or an import. In that case JavaScript's `copy[editingIndex] = item` would extend the array, possibly with holes, and this is not modelled.
- AppComponent.App.Edit: requires `0 <= i < |pairs|`. Its only callers pass `pairs.indexOf` of a listed record, which is always in range.
- AppComponent.App.Delete: requires `0 <= i < |pairs|` for the same reason. `splice` with `-1` or a too-large index is not modelled.
- AppComponent.App.Cancel: requires `editingIndex >= 0`, because the cancel button is rendered only while editing (src/App.jsx:145).
