# todoosie: the todo-list state layer, in Dafny

This project models the `useTodos` hook of todoosie (`src/hooks/useTodos.ts`),
the one piece of the application with behaviour of its own. The hook keeps the
signed-in user's list of `Todo` records. It reconciles the realtime change feed
into that list, and it runs the user's actions optimistically: each action
changes the list first, sends a write to the remote store, and reverts the
change if the write fails. It also derives the filtered view and the
active/completed counts.

Every list updater the hook passes to `setTodos` is a pure function here. The
hook's state cells become the fields of a class, `Store.TodoStore`.

- `TodoTypes`: the `Todo` record and the `Filter` selector (`src/types/todo.ts`).
- `Strings`: ECMAScript `String.prototype.trim`, over the WhiteSpace and
  LineTerminator characters of ECMAScript.
- `Sequences`: `Array.prototype.filter` (`Keep`), specified against the
  order-preserving subsequence relation.
- `TodoList`: the id-keyed building blocks `some`, `find`, a `map` by id and a
  `filter` by id, and the unique-id invariant.
- `ChangeFeed`: the INSERT/UPDATE/DELETE handler.
- `Actions`: `addTodo`, `toggleTodo`, `editTodo`, `deleteTodo` and
  `clearCompleted`. Each action except `addTodo` is split into an optimistic
  step and a revert. The step returns the new list, the remote write it issues
  (`Write`) and the pre-image it captured (`Undo`). `Revert` is the updater run
  when the write fails.
- `Views`: `filteredTodos`, `activeCount` and `completedCount`.
- `Store`: the class. `BeginToggle`, `BeginEdit`, `BeginDelete` and
  `BeginClearCompleted` are the optimistic halves, and `Settle(undo, writeOk)`
  is the second half. A caller may deliver change-feed events with `OnChange`
  between the two, as happens in the running application.
  `ToggleTodo`, `EditTodo`, `DeleteTodo` and `ClearCompleted` run both halves
  with no event in between.

Each remote write is modelled as its outcome: a boolean `writeOk`, or, for the
insert and the initial query, an `Option` holding the returned rows (`None` is
an error).

Where the code and the documented intent differ, the model follows the code:
- A failed `deleteTodo` or `clearCompleted` does not restore the list exactly.
  The removed items are put back at the front, so only the same items come back
  (`DeleteRollback`, `ClearRollback`). `DeleteRollbackMayReorder` shows a list
  that comes back in a different order.
- `editTodo` on an unknown id still sends the update. Its optimistic step
  changes nothing, and it has nothing to revert.
- `deleteTodo` on an unknown id still sends the deletion.
- `addTodo` merges every row the store returns whose id is absent, not just a
  single row.
- A failed initial query leaves the list as it was, rather than empty.

## Model

| member | source | states |
|---|---|---|
| `Strings.Trim` | src/hooks/useTodos.ts:153 | `text.trim()` is a slice of the text with only white space cut off on either side and no white space left at either end |
| `Strings.TrimEmptyIff` | src/hooks/useTodos.ts:78 | `text.trim() === ''` holds exactly when every character of the text is white space |
| `Strings.TrimIdempotent` | src/hooks/useTodos.ts:85 | trimming the trimmed title again changes nothing |
| `TodoList.HasId` | src/hooks/useTodos.ts:35 | `some` by id holds exactly when some index of the list holds an item with that id |
| `TodoList.Ids` | src/hooks/useTodos.ts:178 | `map(todo => todo.id)` keeps the length and gives, at each index, the id of the item there |
| `TodoList.SameIdSameItem` | src/hooks/useTodos.ts:193 | in a list with unique ids, two items of the list with the same id are the same item |
| `TodoList.Find` | src/hooks/useTodos.ts:104 | `find` returns nothing exactly when no item has the id, and otherwise an item of the list with that id |
| `TodoList.FindUnique` | src/hooks/useTodos.ts:129 | in a list with unique ids, `find` returns the one item with the id |
| `TodoList.MapById` | src/hooks/useTodos.ts:42-44 | the map by id keeps the length, leaves every item with another id in place, and rewrites every item with the id |
| `TodoList.MapByIdKeepsIds` | src/hooks/useTodos.ts:109-111 | a rewrite that keeps the id of the items it touches keeps every id in place, and so keeps ids unique |
| `TodoList.MapByIdAbsent` | src/hooks/useTodos.ts:156-158 | rewriting the items of an id no item has leaves the list unchanged |
| `TodoList.RemoveById` | src/hooks/useTodos.ts:132 | the filter by id keeps exactly the items with another id, leaves no item with the id, and keeps ids unique |
| `TodoList.RemoveByIdIsSubsequence` | src/hooks/useTodos.ts:47 | removal by id keeps the other items in their relative order |
| `TodoList.RemoveByIdAbsent` | src/hooks/useTodos.ts:47 | removing an id no item has leaves the list unchanged |
| `TodoList.KeepKeepsUnique` | src/hooks/useTodos.ts:183 | any filter of a list with unique ids has unique ids |
| `TodoList.UniqueAppend` | src/hooks/useTodos.ts:97 | two lists with unique ids and no id in common concatenate to a list with unique ids |
| `Sequences.Keep` | src/hooks/useTodos.ts:197-206 | `filter` keeps exactly the elements that pass, and never lengthens the list |
| `Sequences.KeepIsSubsequence` | src/hooks/useTodos.ts:197-206 | the result of `filter` is an order-preserving subsequence of its input |
| `Sequences.KeepAppend` | src/hooks/useTodos.ts:197-206 | `filter` distributes over concatenation |
| `Sequences.KeepPartition` | src/hooks/useTodos.ts:208-209 | the elements that pass and the elements that fail together form a permutation of the input |
| `ChangeFeed.Apply` | src/hooks/useTodos.ts:31-48 | an insertion adds the row's id, an update keeps the length and the ids, a deletion removes exactly the event's id, and each event keeps ids unique |
| `ChangeFeed.InsertPrependsIffAbsent` | src/hooks/useTodos.ts:33-38 | an INSERT prepends the row when its id is absent and otherwise leaves the list unchanged |
| `ChangeFeed.InsertIdempotent` | src/hooks/useTodos.ts:31-39 | delivering the same INSERT twice equals delivering it once |
| `ChangeFeed.UpdateReplacesInPlace` | src/hooks/useTodos.ts:40-44 | an UPDATE keeps the length, replaces exactly the items with the event's id in place, and is a no-op when no item has it |
| `ChangeFeed.UpdateIdempotent` | src/hooks/useTodos.ts:40-44 | delivering the same UPDATE twice equals delivering it once |
| `ChangeFeed.DeleteRemovesExactly` | src/hooks/useTodos.ts:45-47 | a DELETE removes exactly the items with the event's id, keeps the rest in relative order, and is a no-op when no item has the id |
| `ChangeFeed.DeleteIdempotent` | src/hooks/useTodos.ts:45-47 | delivering the same DELETE twice equals delivering it once |
| `Actions.SetCompleted` | src/hooks/useTodos.ts:109-111 | setting the completion flag by id keeps every id in place and keeps ids unique |
| `Actions.SetTitle` | src/hooks/useTodos.ts:156-158 | setting the title by id keeps every id in place and keeps ids unique |
| `Actions.SetCompletedRestores` | src/hooks/useTodos.ts:121-123 | setting back the flag that every item with the id had undoes any flag change by id |
| `Actions.SetTitleRestores` | src/hooks/useTodos.ts:169-171 | setting back the title that every item with the id had undoes any title change by id |
| `Actions.Revert` | src/hooks/useTodos.ts:121-123 | the revert of a toggle or an edit keeps every id in place and so keeps ids unique; a reinsert puts the captured items in front of the current list, and keeps ids unique when the items' ids are unique and absent from the current list |
| `Actions.AddRequest` | src/hooks/useTodos.ts:77-89 | an insert is sent exactly when the text is not all white space and a user is signed in; its title is the trimmed text, non-empty and without white space at either end, owned by that user |
| `Actions.MergeInserted` | src/hooks/useTodos.ts:95-98 | on success the returned rows whose id is absent are prepended, in the order returned (a subsequence of the reply), the old list follows unchanged, the ids become the old ids plus the returned ones, and unique ids stay unique |
| `Actions.MergeIdempotent` | src/hooks/useTodos.ts:95-98 | merging the same reply twice equals merging it once |
| `Actions.MergeOneIsFeedInsert` | src/hooks/useTodos.ts:94-98 | for a single returned row, the add updater is the feed's INSERT updater |
| `Actions.AddRaceConverges` | src/hooks/useTodos.ts:94 | the insert reply and the feed's INSERT of the same row reach the same list in either order, with the row present once |
| `Actions.ToggleStep` | src/hooks/useTodos.ts:103-116 | an unknown id is a no-op with no write; otherwise only the item with the id changes, its flag is negated, that new flag is sent, and ids stay unique |
| `Actions.ToggleRollback` | src/hooks/useTodos.ts:118-124 | with unique ids, a toggle followed by its revert gives back the original list |
| `Actions.EditStep` | src/hooks/useTodos.ts:148-163 | text that is all white space is a no-op with no write; otherwise the trimmed, non-empty title is sent and set on the items with the id only, other items and all ids stay in place, and an unknown id leaves the list and the undo empty |
| `Actions.EditRollback` | src/hooks/useTodos.ts:165-173 | with unique ids, an edit followed by its revert gives back the original list |
| `Actions.DeleteStep` | src/hooks/useTodos.ts:127-137 | the deletion of the id is always sent; exactly the items with the id are removed; the undo holds the one item found, or nothing when the id is unknown |
| `Actions.KeepIdIsFound` | src/hooks/useTodos.ts:129 | in a list with unique ids, the items with a present id are exactly the one `find` returns |
| `Actions.DeleteRollback` | src/hooks/useTodos.ts:139-145 | with unique ids, a delete followed by its revert gives back the same items, as a multiset, with ids still unique |
| `Actions.DeleteRollbackMayReorder` | src/hooks/useTodos.ts:143 | some list with unique ids does not come back in its original order after a failed delete |
| `Actions.ClearStep` | src/hooks/useTodos.ts:176-188 | with no completed item it is a no-op with no write; otherwise exactly the active items remain and the ids of the completed items are sent |
| `Actions.ClearKeepsOrder` | src/hooks/useTodos.ts:183 | clearing keeps the active items in their relative order |
| `Actions.ClearRollback` | src/hooks/useTodos.ts:190-194 | a clear followed by its revert gives back the same items, the restored completed items keep their original relative order, and unique ids stay unique |
| `Views.Matches` | src/hooks/useTodos.ts:198-205 | every item matches `all`; an item matches `completed` exactly when it is completed and `active` exactly when it is not |
| `Views.View` | src/hooks/useTodos.ts:197-206 | the `all` view is the list itself; every view holds exactly the items matching its filter, as an order-preserving subsequence |
| `Views.ViewAppend` | src/hooks/useTodos.ts:197-206 | the view of a concatenation is the concatenation of the views |
| `Views.ActiveCount` | src/hooks/useTodos.ts:208 | `activeCount` is the length of the `active` view |
| `Views.CompletedCount` | src/hooks/useTodos.ts:209 | `completedCount` is the length of the `completed` view |
| `Views.CountsSum` | src/hooks/useTodos.ts:208-209 | `activeCount + completedCount` equals the length of the list |
| `Views.ViewsPartition` | src/hooks/useTodos.ts:197-209 | the `active` and `completed` views together form a permutation of the list |
| `Store.TodoStore.constructor` | src/hooks/useTodos.ts:8-9 | the hook starts with an empty list and the `all` filter |
| `Store.TodoStore.SetFilter` | src/hooks/useTodos.ts:9 | `setFilter` replaces the filter and nothing else |
| `Store.TodoStore.Load` | src/hooks/useTodos.ts:59-75 | with no user or a failed query the list is unchanged; otherwise it becomes the returned rows |
| `Store.TodoStore.OnChange` | src/hooks/useTodos.ts:28-49 | a feed event applies its updater to the list and keeps ids unique |
| `Store.TodoStore.AddTodo` | src/hooks/useTodos.ts:77-101 | sends the request of `AddRequest`, merges a successful reply, leaves the list unchanged on error, and keeps ids unique |
| `Store.TodoStore.BeginToggle` | src/hooks/useTodos.ts:103-116 | the optimistic half of `toggleTodo` sets the list, the write and the undo of `ToggleStep` |
| `Store.TodoStore.BeginEdit` | src/hooks/useTodos.ts:148-163 | the optimistic half of `editTodo` sets the list, the write and the undo of `EditStep` |
| `Store.TodoStore.BeginDelete` | src/hooks/useTodos.ts:127-137 | the optimistic half of `deleteTodo` sets the list, the write and the undo of `DeleteStep` |
| `Store.TodoStore.BeginClearCompleted` | src/hooks/useTodos.ts:176-188 | the optimistic half of `clearCompleted` sets the list, the write and the undo of `ClearStep` |
| `Store.TodoStore.Settle` | src/hooks/useTodos.ts:118-124 | a successful write leaves the list as it is; a failed one applies the captured revert to the current list, which keeps every id in place for a toggle or edit, and keeps ids unique for a reinsert of unique items whose ids are absent from the current list |
| `Store.TodoStore.ToggleTodo` | src/hooks/useTodos.ts:103-125 | with unique ids, a failed toggle leaves the list exactly as before |
| `Store.TodoStore.EditTodo` | src/hooks/useTodos.ts:148-174 | with unique ids, a failed edit leaves the list exactly as before |
| `Store.TodoStore.DeleteTodo` | src/hooks/useTodos.ts:127-146 | always sends the deletion; a failed delete leaves the list without the item plus the found item in front, which is the same items as a multiset; ids stay unique |
| `Store.TodoStore.ClearCompleted` | src/hooks/useTodos.ts:176-195 | a failed clear leaves the active items with the completed ones in front, in list order, which is the same items as a multiset; unique ids stay unique |
| `Store.TodoStore.Visible` | src/hooks/useTodos.ts:197-206 | the list handed to the view holds exactly the items matching the current filter, in list order |
| `Store.TodoStore.Counts` | src/hooks/useTodos.ts:208-209 | the two counts are the lengths of the `active` and `completed` views, and they sum to the length of the list |

## Left out

- The remote store, the client library and the realtime channel are left out: client creation, queries, inserts, updates, deletes, and subscribing to and unsubscribing from the channel (`src/lib/supabase.ts`, src/hooks/useTodos.ts:18-26, 51-55, 63-67). Each is network I/O through a foreign library. A write is modelled as its outcome, and the feed as `ChangeFeed.Event` values that the caller delivers.
- The server-side ordering of the initial query by `created_at` is not modelled. `Store.TodoStore.Load` takes the rows in the order the store returns them.
- The `loading` flag and the `console` logging are left out. Neither affects the list.
- Concurrency is not modelled as such. Write replies and feed events can interleave, and the action functions read a possibly stale `todos` from their closure (src/hooks/useTodos.ts:104, 129, 152, 177). Each action is instead modelled as an optimistic step and a separate `Settle`, and the caller may deliver feed events between them. Within one step, the pre-image and the updated list are taken from the same list.
- A reply with `data === null` is modelled as an empty row list. It has the same effect.
- `TodoList.Find`: does not state that `find` returns the FIRST item with the id. The model's `Find` does return the first one. The contract only says the item has the id, and that it is the one item when ids are unique. Every property above is stated under unique ids.
- Reordering and `position` are not modelled: the hook has no reorder code, and `position` is only carried as a field.
- The sign-in gate and the React components are not part of this model. They are authentication and presentation. Their own trim guards repeat the hook's guards.
- Strings are sequences of Unicode scalar values, while ECMAScript strings are sequences of UTF-16 code units. So a string with a lone surrogate cannot be represented. `Strings.Trim` agrees with `trim()` on every well-formed string, because every character `trim()` removes is in the Basic Multilingual Plane.
- `src/utils/localStorage.ts` is not part of this model. It is a browser-storage wrapper that nothing in the hook uses.
