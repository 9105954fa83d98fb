# O_Etiqueter: assignment grid, conflict check and label batch

O_Etiqueter labels the vials filled from an oceanographic rosette. The operator
fills a table with one row per sampling depth. Column 0 holds the depth label,
column 1 an observation, and each configured variable (oxygen, salinity, ...)
has one column holding the bottle number used for it at that depth. The widget
colours every bottle red when the same number sits at two depths and green
otherwise. It enables the print button only when no bottle is red. On print, it
turns every assigned cell into one label per replica, reverses the whole list
and sends it to a label printer as one newline-joined payload.

This project models that core in Dafny, in six modules:

- `Wrappers`: `Option` (a table cell with or without an item) and `Result` (a
  print request that fails with a Python `NameError`).
- `Text`: the Python string operations the core relies on. These are `%i`/`%s`
  formatting of integers, ASCII `upper()`, the slice `s[:n]`, `reversed` and
  `'\n'.join`.
- `Grid`: rows and cells as values, `none2String`, the selection guard, the
  preset-depth filter and the cell-write relation of a bulk assign.
- `Validator`: `checkBottles` as specification functions and as the loops of
  the source (`CollectBottles`, `ColourBottles`, `FindRows`), plus lemmas on
  how adding, removing and assigning affect conflicts.
- `Labels`: the label list `printLabels` builds, the methods that build it,
  and the payload. The label template `createLabel` is a parameter
  `render: LabelRecord -> string`.
- `Etiqueter`: a class holding the table rows and the print button state. Its
  methods are the widget's slots `addRow2Table`, `removeRowFromTable`,
  `populateTable`, `assignBottle`, `checkBottles` and `printLabels`.

The table view owns the current row and the selection, so the methods take
them as parameters. A cell read past the last row reads as empty, as an
invalid Qt model index does. Both row loops of the source run to
`rowCount() + 1`, and the model keeps that extra index.

In these places the code behaves differently from what one might expect, and
the model follows the code:

- An empty grid emits no readiness signal, because the emit sits inside the
  loop over bottles. The print button therefore keeps its previous state: it
  is disabled at start, and it stays enabled if every bottle is cleared after
  a successful check (`Etiqueter.Etiqueter.CheckBottles`).
- Preset depths are kept in configuration order. They come out ascending
  only when the configuration lists them ascending
  (`Grid.DepthsBelowAscending`).
- No error is raised for a missing depth label. Every row gets a depth item
  when it is added, so a label always has a depth text.
- A replica count of 0 or less yields one label, as for 1. That is the
  `else` branch at o_etiqueter.py:336.
- The print button gates printing. `printLabels` itself does not check it, and
  nor does `PrintLabels`.

## Model

| member | source | states |
|---|---|---|
| `Grid.None2String` | o_etiqueter.py:243-251 | a missing value reads as ""; the text is empty exactly when there is no item or an empty one |
| `Grid.NewRow` | o_etiqueter.py:388-397 | a new row has one bottle cell per variable, all without an item |
| `Grid.CheckSelection` | o_etiqueter.py:189-200 | the kept selection always stays within one row; it equals the input exactly when the input stays within one row, and is empty otherwise |
| `Grid.SingleRowIffSameRow` | o_etiqueter.py:196-200 | "at most one row in the row set" is the same as "every two selected cells share a row" |
| `Grid.CheckSelectionIdempotent` | o_etiqueter.py:196-200 | checking a selection that was already checked changes nothing |
| `Grid.DepthsBelow` | o_etiqueter.py:358 | a depth is kept exactly when it is a preset strictly below the station's maximum |
| `Grid.DepthsBelowNone` | o_etiqueter.py:358 | when no preset is below the maximum, no depth is kept |
| `Grid.DepthsBelowAscending` | o_etiqueter.py:354-359 | with ascending presets, the kept depths are the prefix of presets before the first one that reaches the maximum |
| `Grid.DepthsBelowAppend` | o_etiqueter.py:358 | the filter of a concatenation is the concatenation of the filters, so every kept preset keeps its place and its multiplicity |
| `Grid.DepthsBelowSingle` | o_etiqueter.py:358 | a single preset is kept exactly when it lies strictly below the maximum |
| `Grid.StationDepthsExample` | o_etiqueter.py:354-360 | maximum 100 with presets 5, 25, 50, 75, 100, 125 keeps 5, 25, 50, 75 (strict `<`), labelled "5 m" ... "75 m" |
| `Grid.DepthLabel` | o_etiqueter.py:360 | `'%i m'` ends in " m", starts with a minus sign exactly for a negative depth, and for a depth of 0 or more its number part reads back as the depth |
| `Grid.DepthLabelInjective` | o_etiqueter.py:360 | distinct preset depths get distinct `'%i m'` labels |
| `Grid.ButtonValue` | o_etiqueter.py:368-370 | the NO button writes "", any other button its own text |
| `Text.IntToString` | o_etiqueter.py:360 | `%i` puts a minus sign exactly before negative numbers, then the decimal digits |
| `Text.IntToStringInjective` | o_etiqueter.py:360 | distinct integers format differently |
| `Text.NatToString` | o_etiqueter.py:333 | the replica number formats as a non-empty string of decimal digits |
| `Text.ParseNatToString` | o_etiqueter.py:333 | reading the formatted replica number back gives the number |
| `Text.NatToStringInjective` | o_etiqueter.py:333 | distinct replica numbers format differently |
| `Text.Upper` | o_etiqueter.py:332 | upper-casing keeps the length of the name |
| `Text.Prefix` | o_etiqueter.py:332 | `s[:n]` is a prefix of s, of length n or all of s when s is shorter |
| `Text.Reverse` | o_etiqueter.py:342 | reversing keeps the number of labels |
| `Text.ReverseAt` | o_etiqueter.py:342 | position i of the reversed list holds the label i places from the end |
| `Text.ReverseReverse` | o_etiqueter.py:342 | reversing twice restores the list |
| `Text.Join` | o_etiqueter.py:342 | joining no parts gives ""; the result starts with the first part and ends with the last |
| `Text.JoinLength` | o_etiqueter.py:342 | the joined payload holds every document and exactly one separator between each two |
| `Text.JoinStartsWithFirst` | o_etiqueter.py:342 | the joined payload starts with its first document, followed by the separator when more follow |
| `Validator.ColumnBottlesMembership` | o_etiqueter.py:214-218 | a value is collected from one column exactly when it is non-empty and some row of that column holds it |
| `Validator.CollectedBottlesMembership` | o_etiqueter.py:213-218 | the same over the first c variable columns |
| `Validator.BottlesMembership` | o_etiqueter.py:210-218 | the checked bottles are exactly the non-empty values of the variable columns (columns >= 2), read through none2String |
| `Validator.CollectBottles` | o_etiqueter.py:210-218 | the nested loop collects exactly those bottles, each once |
| `Validator.FindRows` | o_etiqueter.py:228-229 | the rows found for a bottle are exactly the rows holding it in a variable column |
| `Validator.ColourBottles` | o_etiqueter.py:226-241 | every bottle gets red when its row set has more than one element and green otherwise; the last emission is absent for no bottles, else "none is red" |
| `Validator.Validate` | o_etiqueter.py:202-241 | the outcome of `checkBottles`: the bottles in use, each one's colour, and the readiness value last emitted (none when no bottle is assigned) |
| `Validator.ConflictedIffTwoRows` | o_etiqueter.py:229-236 | a bottle is in conflict exactly when two different rows hold it, in whichever variable columns |
| `Validator.NoBottleNoSignal` | o_etiqueter.py:226-241 | with no bottle assigned nothing is checked and no readiness value is emitted |
| `Validator.AddRowKeepsVerdict` | o_etiqueter.py:388-397 | appending a row changes neither the bottles in use nor the rows each occurs in |
| `Validator.RemoveRowNoNewConflict` | o_etiqueter.py:402 | removing a row adds no bottle and creates no conflict |
| `Validator.AssignWithinOneRowKeepsAllOk` | o_etiqueter.py:362-382 | a bulk assign within one row, of a bottle that no other row holds (or of NO), keeps a conflict-free grid conflict-free |
| `Validator.TwoRowAssignConflicts` | o_etiqueter.py:189-200 | without the row guard, one bulk assign over two rows puts one bottle at two depths |
| `Validator.AsWrittenIsStricter` | o_etiqueter.py:228-231 | searching every column flags at least the conflicts of the variable columns, and exactly those when no depth or observation reads as the bottle |
| `Validator.FoundRows` | o_etiqueter.py:228-229 | the rows `findItems` as written reports: a superset of the rows holding the bottle in a variable column, and only real rows |
| `Validator.DepthCellCountedAsWritten` | o_etiqueter.py:228-231 | a bare depth "5" makes bottle 5, used at one depth, red when every column is searched |
| `Labels.Copies` | o_etiqueter.py:330-339 | a cell yields its replica count of labels when that count is above one, and exactly one when it is one, zero or negative |
| `Labels.Designators` | o_etiqueter.py:330-337 | a variable has as many designators as labels per cell |
| `Labels.DesignatorsDistinct` | o_etiqueter.py:331-333 | the r replica designators `NAME[:4]/1` ... `NAME[:4]/r` are pairwise distinct |
| `Labels.CellLabels` | o_etiqueter.py:326-339 | an unassigned cell yields no label, an assigned one as many as its variable has copies |
| `Labels.CellLabelsMembership` | o_etiqueter.py:329-339 | a label belongs to a cell exactly when the cell is assigned and the label carries its bottle, depth, observation and one of the variable's designators |
| `Labels.AppendCellLabels` | o_etiqueter.py:322-339 | one pass of the row loop appends exactly the cell's labels |
| `Labels.AppendColumnLabels` | o_etiqueter.py:320-339 | the row loop over `range(0, rows + 1)` appends the variable's labels in row order |
| `Labels.GenerateLabels` | o_etiqueter.py:312-339 | the loops build exactly the specified list: variables in order, then rows in order, then replicas 1 .. r |
| `Labels.ColumnLabelsCount` | o_etiqueter.py:320-339 | one variable yields copies times assigned rows labels |
| `Labels.AssignedBelowPastLastRow` | o_etiqueter.py:320 | the extra index past the last row contributes no assigned cell |
| `Labels.LabelCount` | o_etiqueter.py:314-339 | the list length is the sum over variables of copies times assigned rows |
| `Labels.ColumnLabelsMembership` | o_etiqueter.py:320-339 | a label belongs to a variable's part exactly when it is a label of one of its cells |
| `Labels.LabelsUpToMembership` | o_etiqueter.py:316-339 | a label belongs to the list exactly when it is a label of a real cell of one of the variables |
| `Labels.GeneratedMembership` | o_etiqueter.py:316-339 | a label is generated exactly when it carries the fields of an assigned cell and one of its variable's designators |
| `Labels.Generated` | o_etiqueter.py:312-339 | `labelList` after both loops; it holds copies times assigned rows labels, summed over the variables |
| `Labels.Rendered` | o_etiqueter.py:334-338 | one document per label, through the template |
| `Labels.Payload` | o_etiqueter.py:342 | the reversed, newline-joined documents: empty for no labels, otherwise starting with the last label generated and ending with the first |
| `Labels.PayloadOrder` | o_etiqueter.py:341-342 | the payload lists the labels last-generated first; an empty list gives an empty payload |
| `Labels.BotleStopsEveryPrint` | o_etiqueter.py:329 | as written, any grid with an assigned bottle has labels due, yet the request fails with NameError botle |
| `Labels.PrintAsWritten` | o_etiqueter.py:329 | as written, a request fails with NameError botle exactly when a variable is configured, and the only request that goes through sends an empty payload |
| `Labels.DetphStopsReplicaPrint` | o_etiqueter.py:331-335 | one bottle for a three-replica variable is due three labels OXYG/1 .. OXYG/3 at its depth, and line 334 as written fails instead |
| `Labels.PrintDetphAsWritten` | o_etiqueter.py:334 | with line 329 repaired, a request fails with NameError detph exactly when some variable with more than one replica has an assigned cell; without such a variable it goes through |
| `Labels.TwoRowsReversed` | o_etiqueter.py:316-342 | two assigned rows at 5 m and 25 m give labels in row order, SALINI designators, sent in reverse order |
| `Etiqueter.Etiqueter.constructor` | o_etiqueter.py:128-158 | the table starts empty with one bottle column per variable, and printing disabled |
| `Etiqueter.Etiqueter.AddRow` | o_etiqueter.py:384-397 | one more row, last, with the given depth (or "") in column 0 and nothing else set; earlier rows unchanged |
| `Etiqueter.Etiqueter.RemoveCurrentRow` | o_etiqueter.py:399-402 | exactly the current row is dropped and the others keep their order; no current row leaves the table unchanged |
| `Etiqueter.Etiqueter.Populate` | o_etiqueter.py:350-360 | the table is emptied; for a selected station it holds one fresh row per preset depth below the maximum, in preset order, labelled `'%i m'`; no station leaves it empty |
| `Etiqueter.Etiqueter.CheckBottles` | o_etiqueter.py:184-187 | the table stays well formed; each bottle in use gets its colour; the print button takes the emitted verdict, and keeps its state when no bottle is assigned |
| `Etiqueter.Etiqueter.AssignBottle` | o_etiqueter.py:362-382 | every selected cell in a column > 1 gets the button text (NO as ""); columns 0-1, unselected cells and the row count are unchanged; then the bottles are re-checked |
| `Etiqueter.Etiqueter.PrintLabels` | o_etiqueter.py:308-342 | the payload is the template applied to the generated labels, reversed and joined with newlines; the table is not changed |

## Left out

- Qt widget and delegate code is not modelled: `TableCellDelegate`, styles,
  tooltips, header set-up, signal wiring, the About dialog and `show()` are
  presentation. Colours are returned as a status per bottle, not stored on
  table items.
- Editing a cell through the combo-box delegate is not modelled. It is part of
  the Qt delegate code, and the model's rows may hold any text in any cell.
- Because signal wiring is left out, `checkBottles` runs only where the source
  calls it directly (after `assignBottle`, and on `CheckBottles`), not on every
  current-cell change.
- Loading the configuration and the `exit()` on failure are not modelled. The
  variables, stations, preset depths and session fields are given values.
- The socket connect, send and close are network I/O. `PrintLabels` returns
  the payload the socket would receive, and the UTF-8 encoding is not modelled.
- The body of the ZPL-II template and the `datetime.now()` timestamp are not
  modelled. They are a printer format plus a clock read, so `createLabel` is
  the `render` parameter.
- `Text.Upper`: maps only ASCII letters, because Unicode case mapping is out of
  scope.
- The console debug output at o_etiqueter.py:230 and 371 is not modelled.
- `Validator.ColourBottles` visits the bottles in the order they were first
  collected. Python's set iteration order is unspecified, and no result
  depends on it.
- How Qt moves the current row and the selection when rows are inserted or
  removed is not modelled. Both are view state, passed in by the caller.

## Findings

| source | as written | input that shows it | evidently intended | confidence | as-written member | corrected member |
|---|---|---|---|---|---|---|
| o_etiqueter.py:329 | the skip test reads the undefined name `botle` | one variable and any row: the first pass of the row loop raises NameError, so nothing is ever sent | test `bottle` | high, not executed | `Labels.BotleStopsEveryPrint` | `Labels.GenerateLabels` |
| o_etiqueter.py:334 | the replica branch passes the undefined name `detph` | Oxygen with 3 replicas and bottle 1 at 5 m | pass `depth` | high, not executed | `Labels.DetphStopsReplicaPrint` | `Labels.GenerateLabels` |
| o_etiqueter.py:228 | `findItems` matches the text of every column, depth and observation included | depth typed as "5" in one row, bottle 5 in another: bottle 5 turns red and printing is disabled | look for the bottle in the variable columns only | medium, not executed | `Validator.DepthCellCountedAsWritten` | `Validator.FindRows` |

The as-written behaviour is modelled by `Labels.PrintAsWritten` (line 329),
`Labels.PrintDetphAsWritten` (line 334, with line 329 repaired) and
`Validator.FoundRows` (line 228). The class uses the corrected definitions.
