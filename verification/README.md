# appendGrid row engine in Dafny

A model of the row-identity and ordering engine of `GridCore`, the grid
component of appendGrid (`src/lib/ag-core.js`). The DOM is left out. What
remains is a small state record, `RowStore.Grid`:

- `counter`: the `uniqueIndex` counter. It holds the last row identity handed out.
- `rowOrder`: the sequence of row identities in display order.
- `labels`: the text of each row's `_RowNum_` cell, from identity to its 1-based row number.
- `cells`: the value held by the control of each (column name, row identity).
- `columns` and `hideRowNumColumn`: the configuration.

Every public operation is a pure function from this record to a new one:

- `insertRow`, `removeRow`, `moveUpRow`, `moveDownRow`, `sortSequence`, `findRowIndex`.
- `loadData` and the constructor's initial fill.
- `setCtrlValue`, `getCtrlValue`, `getRowValue`.
- `rowButtonActions`.

A call that throws before it changes anything is modelled as a `Failure`, or as the unchanged grid.

Modules:

- `Wrappers`: `Option` and `Result`.
- `CellStore`: JavaScript values (`Data`), column kinds, and the per-type coercions of the cell value adapter. It also holds `getRowValue` and the population of a new row's controls.
- `RowStore`: the grid record and the grid invariant `Valid`. `Valid` means `rowOrder` is duplicate-free, every identity is at most the counter, controls exist only for live rows, and `label[rowOrder[i]] == i + 1` with no stray labels (no labels at all when the row-number column is hidden). A second invariant, `CellsComplete`, says every live row owns a control for each non-custom column. This module also holds `findRowIndex` and `sortSequence`.
- `InsertRows`: `insertRow`, which resolves the anchor, runs the allocation loop, populates the new rows' controls, and resyncs the labels after a positional insert.
- `RemoveRows`: `removeRow`, including the `beforeRowRemove` veto, `force`, and the tail-pop path.
- `MoveRows`: `moveUpRow` and `moveDownRow`.
- `GridOps`: `loadData`, the constructor's fill and `rowButtonActions`. It also covers arbitrary sequences of calls (`Apply`, `Run`).

Three behaviours of the code are easy to miss, and the model keeps them:

- **A multi-row insert at a position reverses the rows.** The insert index is never advanced inside the loop, so every new row is spliced in at the same place (lines 296-307). The rows end up newest first, and `addedRows` is N copies of that position (`InsertRows.InsertRowAtPosition`).
- **An unknown caller identity keeps the passed index.** When `callerUniqueIndex` is not found, the `rowIndex` that was passed is used as it is, so the insert is positional whenever that index is given (lines 250-258, `InsertRows.ResolveAnchor`). An index beyond the end is not clamped once for the whole call: each `splice` clamps it to the length at that moment, so the first new rows are appended and, once the grid has grown past the index, the later ones land at it in front of earlier new rows, while `addedRows` repeats the index as passed (`RowStore.InsertAtFacts`).
- **Identities are reused after a reload.** `loadData` resets the counter to 0 before appending (lines 203-208), so identity 1 is handed out again. Between reloads an identity that has left the grid never comes back (`GridOps.RetiredStaysRetired` versus `GridOps.LoadReusesIdentity`).

## Model

| member | source | states |
|---|---|---|
| CellStore.SetCtrlValue | src/lib/ag-core.js:809-830 | fails exactly when a non-custom column's control is missing; a custom column (with or without setter) leaves the store untouched; otherwise only the control (name, id) changes and no control appears or disappears |
| CellStore.GetCtrlValue | src/lib/ag-core.js:836-859 | throws exactly for a custom column without `customGetter`; a control that cannot be located reads as `null`; a checkbox reads as 1 or 0 |
| CellStore.SetThenGet | src/lib/ag-core.js:809-859 | a write followed by a read of the same control gives the reference view `ReadBack`: a checkbox reads 1 unless the value was `null` or 0 (so `undefined` reads as checked); any other column reads the value, or `''` for a falsy one |
| CellStore.StoredReadsBack | src/lib/ag-core.js:821-857 | a control holding what a write of `d` left there reads back as `ReadBack(d)` |
| CellStore.WriteColumnsKeys | src/lib/ag-core.js:341-535 | populating a new row adds exactly one control per non-custom column of that row and nothing else |
| CellStore.WriteColumnsFrame | src/lib/ag-core.js:341-535 | populating row `id` leaves every control of every other row unchanged |
| CellStore.WriteColumnsValues | src/lib/ag-core.js:412-418 | with distinct column names, each non-custom control of the new row holds the coerced record field, else the coerced column default, else the control's empty state |
| CellStore.CollectRow | src/lib/ag-core.js:861-866 | the row read fails exactly when some custom column has no getter; otherwise it adds one key per column and leaves other keys of the accumulator alone |
| CellStore.GetRowValue | src/lib/ag-core.js:861-888 | the keys are exactly `name + suffix` for each column, with suffix `''` or `'_' + loopIndex`; with distinct names each key holds that column's `getCtrlValue`; it throws exactly when some custom column has no getter |
| RowStore.FindRowIndex | src/lib/ag-core.js:890-897 | returns the first position holding the identity, or null exactly when the identity is absent |
| RowStore.FindInNoDup | src/lib/ag-core.js:890-897 | in a duplicate-free `rowOrder` the position found for `rowOrder[k]` is k |
| RowStore.InsertAtFacts | src/lib/ag-core.js:297 | `splice(p, 0, x)` adds exactly x, at p clamped to the length, and shifts the tail by one |
| RowStore.RemoveAtIsWithout | src/lib/ag-core.js:635 | in a duplicate-free `rowOrder`, `splice(t, 1)` equals the reference "sequence without identity rowOrder[t]" |
| RowStore.RelabelFacts | src/lib/ag-core.js:906-908 | the renumbering loop labels every row from `z` on with its 1-based rank and leaves every other label alone |
| RowStore.SortSequence | src/lib/ag-core.js:903-911 | `sortSequence` changes only labels, and nothing at all when the row-number column is hidden |
| RowStore.SortSequenceLabels | src/lib/ag-core.js:903-911 | `sortSequence(start)` gives each row at position z >= start the label z+1, keeps earlier rows' labels, and adds labels only for live rows |
| RowStore.SortSequenceSyncs | src/lib/ag-core.js:903-911 | when the rows above `start` are already labelled correctly, `sortSequence(start)` restores the full label invariant |
| InsertRows.ResolveAnchor | src/lib/ag-core.js:250-269 | a caller identity that is found gives the insert position z (its first occurrence) with parent z-1, or null at z=0; an unknown caller keeps the passed index; an index at or past the end appends; an index inside inserts there with parent index-1; no anchor appends with parent length-1 |
| InsertRows.InsertMany | src/lib/ag-core.js:283-317 | the allocation part of the loop advances the counter by exactly N and records one `addedRows` entry per row; the controls are left to the population pass |
| InsertRows.OrderAfterAllocates | src/lib/ag-core.js:292-310 | as multisets, the loop adds exactly the identities old+1..old+N to `rowOrder` |
| InsertRows.InsertRow | src/lib/ag-core.js:236-618 | `insertRow` advances the counter by the number of rows and returns one `addedRows` entry per row |
| InsertRows.InsertRowAllocates | src/lib/ag-core.js:283-310 | inserting N rows advances the counter by exactly N and adds exactly the identities old+1..old+N to `rowOrder` |
| InsertRows.InsertRowKeepsValid | src/lib/ag-core.js:236-618 | `insertRow` preserves the grid invariant: no duplicates, identities bounded by the counter, controls only for live rows, `label[rowOrder[i]] == i + 1` |
| InsertRows.InsertRowAppend | src/lib/ag-core.js:309-317 | an append of N rows keeps the existing rows as a prefix, pushes old+1..old+N in order, and reports `addedRows` = oldLen..oldLen+N-1 |
| InsertRows.InsertRowAtPosition | src/lib/ag-core.js:296-307 | a positional insert at p keeps the rows before p, puts the new identities at p..p+N-1 newest first, shifts the old rows from p by N, and reports N copies of p |
| InsertRows.InsertBeforeCaller | src/lib/ag-core.js:250-258 | inserting one row with a caller identity puts the new row directly in front of the caller, which moves down by one |
| InsertRows.InsertRowCells | src/lib/ag-core.js:341-419 | with distinct column names, the control of the j-th new row (identity old+1+j) for each non-custom column holds the initial value from the j-th source: the record's field, else the column default, else the empty state |
| InsertRows.InsertRowKeepsCells | src/lib/ag-core.js:283-419 | `insertRow` leaves every control of the rows already in the grid as it was |
| InsertRows.InsertRowKeepsComplete | src/lib/ag-core.js:283-419 | after `insertRow` every live row, old or new, owns a control for each non-custom column |
| RemoveRows.RemoveTarget | src/lib/ag-core.js:624-631 | an identity that is found selects its position; otherwise the passed index, or the tail path when there is none |
| RemoveRows.RemoveRow | src/lib/ag-core.js:620-698 | `removeRow` never changes the counter; a veto (hook answers false, not forced) leaves the grid unchanged, as does a removal from an empty grid |
| RemoveRows.RemoveRowShrinks | src/lib/ag-core.js:635-667 | `removeRow` removes at most one identity and never adds one |
| RemoveRows.RemoveRowKeepsValid | src/lib/ag-core.js:620-698 | `removeRow` preserves the grid invariant, with a resync from the removal point on the index path and no resync on the tail path |
| RemoveRows.RemoveRowKeepsComplete | src/lib/ag-core.js:620-682 | after `removeRow` every live row still owns a control for each non-custom column |
| RemoveRows.RemoveByIdentity | src/lib/ag-core.js:624-648 | removing a live identity removes exactly that identity, keeps the others in order, drops its controls and keeps every other control with its value |
| RemoveRows.RemoveByIndex | src/lib/ag-core.js:632-648 | removing by an index in range removes exactly the identity at that index and its controls, and keeps every other control with its value |
| RemoveRows.RemoveTailPops | src/lib/ag-core.js:624-668 | with no index, and no identity or one that is not found, an approved removal pops the last row: it leaves `rowOrder` with its label and its controls, and every other control is kept |
| MoveRows.SwapPermutes | src/lib/ag-core.js:735-736 | exchanging neighbours keeps the multiset and the members of `rowOrder` and keeps it duplicate-free |
| MoveRows.MoveUpRow | src/lib/ag-core.js:700-755 | `moveUpRow` permutes `rowOrder` and leaves the counter and the controls unchanged |
| MoveRows.MoveDownRow | src/lib/ag-core.js:757-807 | `moveDownRow` permutes `rowOrder` and leaves the counter and the controls unchanged |
| MoveRows.MoveUpSwaps | src/lib/ag-core.js:703-742 | moving up the row at k > 0 exchanges positions k-1 and k only, and the two rows trade labels k and k+1; the first row does not move |
| MoveRows.MoveDownSwaps | src/lib/ag-core.js:760-794 | moving down the row at k exchanges positions k and k+1 only, and the two rows trade labels; the last row does not move |
| MoveRows.MoveUpByIndex | src/lib/ag-core.js:703-736 | moving up by an index k with 0 < k < length exchanges exactly the rows at k-1 and k with their labels, whatever identity is passed |
| MoveRows.MoveDownByIndex | src/lib/ag-core.js:760-789 | moving down by an index k before the last exchanges exactly the rows at k and k+1 with their labels, whatever identity is passed |
| MoveRows.MoveUnknownIsNoop | src/lib/ag-core.js:703-709 | with an index that is unusable for the direction (none, the first row for up, the last row or beyond for down) and an identity that is absent or not in the grid, neither move changes anything |
| MoveRows.SwapKeepsValid | src/lib/ag-core.js:735-742 | a neighbour swap with label exchange preserves the grid invariant |
| MoveRows.MoveUpKeepsValid | src/lib/ag-core.js:700-755 | `moveUpRow` preserves the grid invariant |
| MoveRows.MoveDownKeepsValid | src/lib/ag-core.js:757-807 | `moveDownRow` preserves the grid invariant |
| MoveRows.MoveKeepsComplete | src/lib/ag-core.js:700-807 | both moves keep every live row supplied with a control for each non-custom column |
| MoveRows.MoveDownThenUpRestores | src/lib/ag-core.js:757-807 | moving a row other than the last down and then up again restores the grid exactly |
| GridOps.LoadData | src/lib/ag-core.js:194-234 | an empty record list is rejected with an error; otherwise the configuration is kept and the counter ends at the number of records |
| GridOps.Apply | src/lib/ag-core.js:194-925 | a rejected load leaves the grid unchanged; a value write keeps `rowOrder`, the counter and the set of controls |
| GridOps.LoadDataOrder | src/lib/ag-core.js:203-208 | a load numbers its rows 1..N afresh, whatever was there before |
| GridOps.LoadDataValid | src/lib/ag-core.js:194-214 | a load leaves a grid that satisfies the invariant |
| GridOps.LoadThenRead | src/lib/ag-core.js:208-214 | after a load, row j+1 reads back, per column, the coerced field of record j with that column's name; the read throws exactly when some custom column has no getter |
| GridOps.Init | src/lib/ag-core.js:175-182 | the constructor's fill fails exactly when `initData` is an empty array |
| GridOps.InitShape | src/lib/ag-core.js:175-182 | a constructed grid satisfies the invariant and numbers its rows 1..N |
| GridOps.RowButtonActions | src/lib/ag-core.js:913-925 | the insert button advances the counter by one and adds exactly one row, the fresh identity; the other buttons keep the counter; an unknown action changes nothing |
| GridOps.InsertButtonPlaces | src/lib/ag-core.js:913-917 | the insert button of a live row puts the new row directly in front of that row, which moves down by one |
| GridOps.ButtonKeepsValid | src/lib/ag-core.js:913-925 | every row button preserves the grid invariant |
| GridOps.ApplyKeepsValid | src/lib/ag-core.js:194-925 | every public call preserves the grid invariant |
| GridOps.RunKeepsValid | src/lib/ag-core.js:194-925 | every sequence of calls preserves the grid invariant |
| GridOps.LoadDataComplete | src/lib/ag-core.js:194-214 | after a load every row owns a control for each non-custom column |
| GridOps.InitComplete | src/lib/ag-core.js:175-182 | a constructed grid gives every row a control for each non-custom column |
| GridOps.ButtonKeepsComplete | src/lib/ag-core.js:913-925 | every row button keeps every live row supplied with its controls |
| GridOps.ApplyKeepsComplete | src/lib/ag-core.js:194-925 | every public call keeps every live row supplied with its controls |
| GridOps.RunKeepsComplete | src/lib/ag-core.js:194-925 | every sequence of calls keeps both invariants |
| GridOps.SetValueLands | src/lib/ag-core.js:809-859 | in a grid whose live rows have their controls, `setCtrlValue` on a live row succeeds and the control then reads back `ReadBack` of the value |
| GridOps.ApplyAllocatesFresh | src/lib/ag-core.js:292-293 | short of a reload, a call never lowers the counter and only ever adds identities above the old counter |
| GridOps.RetiredStaysRetired | src/lib/ag-core.js:292-293 | short of a reload, an identity that was handed out and has left the grid never comes back |
| GridOps.LoadReusesIdentity | src/lib/ag-core.js:204-208 | a reload hands out identity 1 again, whatever the counter stood at |

## Left out

- DOM construction, styling, wrappers, button layout, sub-panels and every commented-out block are left out. They do not touch the row state.
- Row-button click wiring and focus are left out. This is the `blur()`/`focus()` after a move. The focus code looks up `_moveUp_<id>`, but the buttons are created with the id `_$moveUp_<id>` (line 444), so that call fails after the state change. The model keeps the state change.
- The `beforeRowRemove` hook, `customGetter`, `customSetter`, `customBuilder` and `nameFormatter` are foreign callbacks. The hook is an input, its answer (`Option<bool>`, None when there is no hook). Custom accessors are modelled only by whether they exist. A getter's result is an opaque `Foreign(column, id)`.
- `Util.isNumeric` and `Util.isEmpty` are not part of this model. Positions and identities are `Option<nat>`, where None means absent and 0 counts as present. Negative indices, and non-numeric values the caller might pass, are left out.
- `moveUpRow`/`moveDownRow` with the row-number column hidden are only partly modelled. The source swaps `rowOrder` and then fails on the missing label cell. The model keeps the swapped `rowOrder` and the labels unchanged (there are none).
- A `removeRow` index past the end is only partly modelled. `splice` removes nothing and the DOM removal then throws before `sortSequence`, so the model leaves the grid unchanged.
- Control values are not converted to strings. A control's `value` property turns numbers into text, which the model does not do. Floating-point numbers and `NaN` are not represented, because `Data.Num` holds an integer.
- Hidden columns are populated after the visible ones in the source. With distinct column names the order does not matter, so the model populates in schema order.
- Controls are populated after the allocation loop rather than inside it. Each row's controls depend only on its identity and its source, and each write touches only that row's keys, so the resulting store is the same.
- The records of `loadData` are JavaScript objects, modelled as `map<string, Data>`. A missing key reads as `undefined`. Non-array records are out of scope.
- `isDataLoaded`, the nulling of `initData` after the constructor's load, and the `after*` events are left out. They do not affect the row state.
- An `initRows` setting that is not a number is modelled as 0.
- The 64-bit-safe integer range of the counter is not modelled: `counter` is an unbounded `nat`.
- The ag-util module and the UI framework modules are not part of this model.
- MoveRows.MoveDownThenUpRestores: requires the row not to be the last one. The last row does not move down but does move up, so the round trip does not hold for it.
- GridOps.LoadThenRead: is stated for columns with distinct names. With duplicate names, the later column's write wins in the source and the key is shared in `getRowValue`.
