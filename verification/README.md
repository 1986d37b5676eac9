# RenderList list edits, in Dafny

A model of the list-editing core of the form-render list renderer
(`packages/form-render/src/core/RenderChildren/RenderList.js`). A list field of
a schema-driven form is rendered from the array found in the shared form store
at the list's data path. The user edits it with five operations: add, copy,
delete, move up and move down. Each edit writes a whole list back to the store.
Which of four layouts is mounted depends on the schema's `widget` string. The
table-with-drawer layout (`DefaultList`) also keeps a small drawer state and
marks table rows that have validation errors.

Files:

- `options.dfy`: `Option`, for values that may be `undefined`.
- `js_text.dfy` (module `JsText`): the JavaScript string operations the code
  relies on. These are the decimal text of an index inside a template literal
  and `String.prototype.indexOf`, each with its reference meaning (a decimal
  parser, a substring predicate).
- `list_edits.dfy` (module `ListEdits`): list items and the lists that addItem,
  copyItem, deleteItem, moveItemUp and moveItemDown leave behind, as functions
  of the displayed list, with the lemmas that relate them.
- `form_store.dfy` (module `FormStore`): the store class. Its form data maps a
  path to a value. A list value is an array object, so a reader shares the
  store's array. Its two effects are `onItemChange` and `removeErrorField`.
- `render_list.dfy` (module `RenderList`): one render of the component as a
  class `ListEditor`. It holds the store, the data path and `displayList`,
  together with the five edits. moveItemUp and moveItemDown swap slots in the
  displayed array itself, which is the store's own array whenever the store
  held one.
- `layout.dfy` (module `Layout`): the widget lookup and the layout `switch`.
- `default_list.dfy` (module `DefaultListView`): the drawer state class and the
  `rowClassName` error predicate.

Items are modelled as `Empty` (the object `{}`), `Undefined` (the value
`undefined`), `Null` (the value `null`), `Other(tag)` (any other value, known
only by its identity) and `Hole`. A hole is a slot of a JavaScript array that was never assigned; stored
lists can have them (the comment at line 41 says so). Reading a hole, or
spreading the array, gives `undefined`, but `filter` skips the slot altogether.
So addItem and copyItem turn every hole into `undefined`, deleteItem drops every
hole, and a move turns a hole in either of the two swapped slots into
`undefined`. `Compact(list)` is the sequence of slots that `filter` visits,
that is the list with its holes dropped, in order. `DeleteItemList(list, idx)`
is the filter at line 67 itself: it walks the slots, skips holes and drops
position `idx`. Neither carries a contract of its own; what they compute is
stated by the lemmas about them (`CompactDense`, `DeleteItemListCompact`,
`DeleteItemListDense`, `DeleteItemListMultiset`). List indices are `nat`, because every caller passes the index of a
rendered row.

## Model

| member | source | states |
|---|---|---|
| `RenderList.ListEditor.constructor` | packages/form-render/src/core/RenderChildren/RenderList.js:39-45 | `displayList` is the very array stored at the data path when the stored value is an array; otherwise it is a fresh one-element list `[{}]` |
| `RenderList.ListEditor.AddItem` | packages/form-render/src/core/RenderChildren/RenderList.js:47-52 | stores a fresh array holding the displayed list plus `{}`; only that path changes; returns the old length, which is the index of the new `{}` |
| `ListEdits.AddItemList` | packages/form-render/src/core/RenderChildren/RenderList.js:48 | the list written by addItem is one longer, has no holes, reads the old slots at their positions (a hole as `undefined`) and ends with `{}` |
| `RenderList.ListEditor.CopyItem` | packages/form-render/src/core/RenderChildren/RenderList.js:54-62 | stores a fresh array equal to `CopyItemList` of the displayed list; only that path changes |
| `ListEdits.CopyItemList` | packages/form-render/src/core/RenderChildren/RenderList.js:55-60 | the result has no holes and is one longer; for `idx` in range the slots read before `idx` keep their positions, positions `idx` and `idx+1` both hold the item read at `idx`, later slots shift right by one, and the multiset is the spread list's plus one copy of that item; for `idx` past the end (`slice` clamps, `list[idx]` is undefined) it is the spread list with `undefined` appended |
| `RenderList.ListEditor.DeleteItem` | packages/form-render/src/core/RenderChildren/RenderList.js:64-70 | stores a fresh array equal to `DeleteItemList` of the displayed list and removes the error name `dataPath[idx]` |
| `ListEdits.Spread` | packages/form-render/src/core/RenderChildren/RenderList.js:48 | spreading keeps the length, leaves no hole, reads every slot (a hole as `undefined`), and is the identity on a list without holes |
| `ListEdits.ItemAt` | packages/form-render/src/core/RenderChildren/RenderList.js:55 | `displayList[idx]` never yields a hole: a hole reads as `undefined`, and so does an index past the end |
| `ListEdits.CompactDense` | packages/form-render/src/core/RenderChildren/RenderList.js:67 | the slots `filter` visits, holes dropped, form a list without holes that is no longer than the original, and equal to it when it had no holes |
| `ListEdits.DeleteItemListCompact` | packages/form-render/src/core/RenderChildren/RenderList.js:67 | the index filter keeps the assigned slots before `idx` followed by those after it, and every assigned slot when `idx` is past the end |
| `ListEdits.DeleteItemListDense` | packages/form-render/src/core/RenderChildren/RenderList.js:67 | on a list without holes the index filter yields `list[..idx] + list[idx+1..]` for `idx` in range and the unchanged list otherwise |
| `ListEdits.DeleteSkipsHoles` | packages/form-render/src/core/RenderChildren/RenderList.js:67 | deleting the first item of `[a, <hole>, c]` leaves `[c]`: the hole is dropped too |
| `ListEdits.Filled` | packages/form-render/src/core/RenderChildren/RenderList.js:66 | filling keeps the length, leaves no hole, puts `null` where a hole was and keeps every assigned slot |
| `ListEdits.DeleteItemFilled` | packages/form-render/src/core/RenderChildren/RenderList.js:66-67 | with holes filled by `null`, deleting in range gives a list one shorter in which the slots before `idx` keep their places and every later slot moves up by exactly one; out of range it is the filled list |
| `ListEdits.DeleteItemFilledAgreesWhenDense` | packages/form-render/src/core/RenderChildren/RenderList.js:66-67 | on a list without holes the filter at line 67 gives exactly the filled delete |
| `ListEdits.DeleteFilledKeepsPlaces` | packages/form-render/src/core/RenderChildren/RenderList.js:66-67 | with holes filled, deleting the first of `[a, <hole>, c]` gives `[null, c]` |
| `ListEdits.DeleteItemListMultiset` | packages/form-render/src/core/RenderChildren/RenderList.js:67 | deleting in range removes exactly one occurrence of the deleted item from the assigned slots (none when it is a hole); on a list without holes the list shortens by one |
| `ListEdits.DeleteUndoesAdd` | packages/form-render/src/core/RenderChildren/RenderList.js:47-70 | deleting the index that addItem returned restores the spread list, which is the list itself when it has no holes |
| `ListEdits.DeleteUndoesCopy` | packages/form-render/src/core/RenderChildren/RenderList.js:54-70 | after copyItem(idx), deleting position `idx` or `idx+1` restores the spread list, which is the list itself when it has no holes |
| `RenderList.ListEditor.MoveItemUp` | packages/form-render/src/core/RenderChildren/RenderList.js:73-81 | at idx 0 nothing changes; otherwise the displayed array is swapped in place to `MovedUp` of its old contents and that same array is stored at the path |
| `ListEdits.MovedUp` | packages/form-render/src/core/RenderChildren/RenderList.js:74-79 | same length; identity at idx 0; otherwise positions `idx-1` and `idx` exchange the values read from them and all others are unchanged; same multiset on a list without holes |
| `RenderList.ListEditor.MoveItemDown` | packages/form-render/src/core/RenderChildren/RenderList.js:83-91 | nothing changes when idx is at or past the last position; otherwise the displayed array is swapped in place to `MovedDown` of its old contents and that same array is stored |
| `ListEdits.MovedDown` | packages/form-render/src/core/RenderChildren/RenderList.js:84-89 | same length; identity when `idx >= length-1`; otherwise positions `idx` and `idx+1` exchange the values read from them and all others are unchanged; same multiset on a list without holes |
| `ListEdits.MoveUpUndoesMoveDown` | packages/form-render/src/core/RenderChildren/RenderList.js:73-91 | moveItemDown(i) followed by moveItemUp(i+1) restores the list, except that a hole in either slot now reads `undefined` |
| `ListEdits.MoveDownUndoesMoveUp` | packages/form-render/src/core/RenderChildren/RenderList.js:73-91 | moveItemUp(i) followed by moveItemDown(i-1) restores the list, except that a hole in either slot now reads `undefined` |
| `FormStore.Store.OnItemChange` | packages/form-render/src/core/RenderChildren/RenderList.js:50 | the given array becomes the value at the path, and no other path changes |
| `FormStore.Store.RemoveErrorField` | packages/form-render/src/core/RenderChildren/RenderList.js:69 | the removed name is recorded |
| `JsText.NatToString` | packages/form-render/src/core/RenderChildren/RenderList.js:69 | the text of an index inside a template literal is non-empty, all digits, `0` for zero and without a leading zero otherwise |
| `JsText.ParseNatToString` | packages/form-render/src/core/RenderChildren/RenderList.js:69 | reading the decimal text back gives the index |
| `JsText.NatToStringInjective` | packages/form-render/src/core/RenderChildren/RenderList.js:69 | distinct indices have distinct texts |
| `RenderList.ErrorName` | packages/form-render/src/core/RenderChildren/RenderList.js:69 | an error name `dataPath[idx]` is the path, `[`, exactly the decimal text of `idx` (no leading zero), `]`; the digits read back as `idx` |
| `RenderList.ErrorNameInjective` | packages/form-render/src/core/RenderChildren/RenderList.js:69 | different rows of one list have different error names |
| `JsText.IndexOfFrom` | packages/form-render/src/core/RenderChildren/RenderList.js:328 | `indexOf` from a start position within the string is -1 exactly when the substring occurs nowhere at or after it; otherwise it is the first such occurrence |
| `JsText.IndexOf` | packages/form-render/src/core/RenderChildren/RenderList.js:328 | `indexOf(sub) > -1` exactly when the string contains `sub`, at the first occurrence |
| `Layout.RenderWidget` | packages/form-render/src/core/RenderChildren/RenderList.js:29-32 | the widget is the schema's own `widget` (absent included) whenever the entry and its schema exist, `'list'` when the lookup throws, and any widget other than `'list'` comes from the schema |
| `Layout.SelectLayout` | packages/form-render/src/core/RenderChildren/RenderList.js:110-121 | `'list1'` gives Simple, `'list2'` Table, `'list3'` Default, and every other widget (`'list0'`, the fallback `'list'`, anything else, none) gives Card, in both directions |
| `Layout.UnreadableSchemaShowsCards` | packages/form-render/src/core/RenderChildren/RenderList.js:29-32 | when the schema entry or its schema is missing (the lookup throws and `'list'` is used), or the schema names no widget, the Card layout is mounted |
| `DefaultListView.Drawer.constructor` | packages/form-render/src/core/RenderChildren/RenderList.js:202-205 | the drawer starts closed with current index -1 |
| `DefaultListView.Drawer.OpenDrawer` | packages/form-render/src/core/RenderChildren/RenderList.js:280-285 | the drawer is open on the given index |
| `DefaultListView.Drawer.CloseDrawer` | packages/form-render/src/core/RenderChildren/RenderList.js:287-292 | the drawer is closed with index -1, whatever it was before |
| `DefaultListView.Drawer.HandleAdd` | packages/form-render/src/core/RenderChildren/RenderList.js:294-297 | the list is stored with `{}` appended, and the drawer is open on the old list length, which is where that `{}` sits |
| `DefaultListView.FindError` | packages/form-render/src/core/RenderChildren/RenderList.js:327-329 | `find` gives nothing exactly when no error name contains the needle; otherwise it gives the first error whose name does |
| `DefaultListView.RowClassName` | packages/form-render/src/core/RenderChildren/RenderList.js:325-331 | a row gets `fr-row-error` exactly when some error name contains `dataPath[index]`, and `''` otherwise |
| `DefaultListView.NestedErrorMarksRow` | packages/form-render/src/core/RenderChildren/RenderList.js:325-331 | an error on the row, or on any field whose name embeds the row's name, marks the row |
| `DefaultListView.ErrorNameOccurrence` | packages/form-render/src/core/RenderChildren/RenderList.js:328 | the error name of row `i` can occur inside that of row `j` of the same list only at position 0, and then `i == j` |
| `DefaultListView.ErrorNameOccurrenceBeforeSuffix` | packages/form-render/src/core/RenderChildren/RenderList.js:328 | the error name of row `i` can occur inside the error name of row `j` followed by text without `]` only when `i == j` |
| `DefaultListView.SiblingErrorNamesDisjoint` | packages/form-render/src/core/RenderChildren/RenderList.js:328 | the error name of one row, or of a field of it whose remaining name has no `]`, never contains the error name of another row of the same list |
| `DefaultListView.SiblingErrorLeavesRowUnmarked` | packages/form-render/src/core/RenderChildren/RenderList.js:325-331 | an error on row `j`, or on a field of row `j` whose remaining name has no `]`, never marks a different row `i` |
| `DefaultListView.NestedListErrorMarksOtherRow` | packages/form-render/src/core/RenderChildren/RenderList.js:325-331 | an error on row `j` of a list nested in row `i`, at a path ending with the outer path, marks row `j` of the outer list as well as row `i` |
| `DefaultListView.RowClassNameByPrefix` | packages/form-render/src/core/RenderChildren/RenderList.js:328 | with the prefix test, a row gets `fr-row-error` exactly when some error name starts with `dataPath[index]`, and `''` otherwise |
| `DefaultListView.PrefixErrorMarksRow` | packages/form-render/src/core/RenderChildren/RenderList.js:325-331 | with the prefix test, an error on the row or on anything nested in it marks the row |
| `DefaultListView.OtherRowErrorLeavesRowUnmarked` | packages/form-render/src/core/RenderChildren/RenderList.js:325-331 | with the prefix test, an error on row `j` or on anything nested in it, nested lists included, never marks a different row `i` |
| `DefaultListView.NestedListErrorMarksOwnRowOnly` | packages/form-render/src/core/RenderChildren/RenderList.js:325-331 | with the prefix test, the error of a list nested in row `i` marks row `i` and not row `j` |

## Findings

| source | as written | input that shows it | evidently intended | confidence | as-written member | corrected member |
|---|---|---|---|---|---|---|
| packages/form-render/src/core/RenderChildren/RenderList.js:328 | a row is marked when some error name contains `dataPath[index]` anywhere (`indexOf(...) > -1`) | `errorFields = [{name: 'list[1].sublist[2].name'}]`, `dataPath = 'list'`: rows 1 and 2 of `list` are both marked, since `sublist[2]` ends in `list[2]` | a row is marked when some error name starts with `dataPath[index]` (`indexOf(...) === 0`), so only row 1 is marked | medium, not executed | `DefaultListView.NestedListErrorMarksOtherRow` | `DefaultListView.RowClassNameByPrefix` |
| packages/form-render/src/core/RenderChildren/RenderList.js:66-67 | deleteItem filters the slots, and `filter` skips holes, so every hole is dropped along with position `idx` and later items move up by more than one place | list `[a, <hole>, c]`, `deleteItem(0)`: the result is `[c]`, so `c` moves from position 2 to 0 | the remark at line 66: holes are filled with `null` before deleting, giving `[null, c]`, one shorter, with each later item one place up | medium, not executed | `ListEdits.DeleteSkipsHoles` | `ListEdits.DeleteItemFilled` |

`DeleteItemList` keeps the filter as written and is what `ListEditor.DeleteItem`
stores; `DeleteItemFilled` is the delete the remark at line 66 asks for, and
`DeleteItemFilledAgreesWhenDense` shows the two agree on lists without holes.
`RowClassName` keeps the substring test as written. `RowClassNameByPrefix` is
the prefix test; `PrefixErrorMarksRow`, `OtherRowErrorLeavesRowUnmarked` and
`NestedListErrorMarksOwnRowOnly` state the intended row marking about it.

## Left out

- Rendering: the JSX, the antd widgets, the icons, CSS classes and inline styles of all four layouts. These are presentation only.
- The recursive `Core` child renderer, and the `useStore`/`useSet` hooks. Their code is not part of this model. The store is reduced to a map from data path to value plus its two effects. `removeErrorField` is modelled as recording the name; what the store then does with its error list is not modelled.
- lodash `get`, `getDataPath`, `getKeyFromPath` and `getDisplayValue` are not part of this model. `get(formData, dataPath)` is a lookup in the store's map. `dataPath` is always a string, so the branch where `getDataPath` returns a non-string is not modelled.
- `RenderList.ListEditor.MoveItemUp` requires `idx == 0 || idx < length`. In JavaScript, assigning past the end of an array grows it with holes, and Dafny arrays have a fixed length. Every caller passes the index of a rendered row, so that case never arises.
- Negative indices are not modelled: every index is `nat`, because each caller passes a row index.
- Table pagination and the mapping from a page-relative row index to a list index. `DefaultList`'s delete action passes the table's row index rather than `$idx`, and its move buttons are commented out (lines 269-274).
- `TableList`'s delete action refers to an undefined `idx`, so it has no behaviour to model.
- Column construction, titles, required markers and the per-cell error lookup by exact name (lines 220-249, 352-380). These are presentation only.
- The `flatten` map itself being undefined is not modelled; a missing entry or a missing schema is.
- The `error` text of an entry of `errorFields` is not modelled; only its `name` is used by the row predicate.
- Items are opaque: the spread `{...item, $idx}` in `DefaultList`'s data source and the contents of an item are not modelled.
- `JsText.IndexOfFrom` requires the start position to lie within the string; JavaScript clamps a larger start to the length, but the row predicate only calls `indexOf` without a start position.
- String positions count characters (Unicode scalar values), while JavaScript counts UTF-16 code units. Only the test `> -1` is used at line 328, so this does not change which rows are marked.
- At lines 327-328 JavaScript throws a TypeError when `errorFields` is undefined or an entry has no string `name`. The model takes `errorFields` to be a sequence of entries that each have a name.
