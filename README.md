# Arrival roster — a Dafny model

This project models the attendance roster kept by the "БЕТА-прибытие" Tkinter program. The
program comes in two near-identical variants, `app.py` and `Qwen_python.py`. Both keep the same
state:

- the shift start `start_time`, `None` until the timer is started;
- the dict `self.rows`, which maps a Treeview handle to the record `{fio, arrival, fact, status}`;
- the Treeview itself, whose rows carry the display values
  `(num, pos, fio, arr, fact, late, status)` and a colour tag, in display order.

On that state the program starts the timer and adds, imports, deletes and clears people. It
marks arrivals with their lateness, edits cells, re-sorts by name and renumbers, counts and
exports, and saves and loads its state.

The modules follow the program's structure:

| module | file | what it holds |
|---|---|---|
| `Base` | base.dfy | `Option`, `Result`, distinctness, removing elements from a sequence |
| `Digits` | digits.dfy | decimal text of naturals, zero padding (`%02d`), reading digits back |
| `Text` | text.dfy | `str.strip`, `str.lower` on the scripts listed under "Left out", string order, substring search (`in`) |
| `Clock` | clock.dfy | `H:MM:SS`-style texts, reading them back, `strftime("%H:%M")` and `("%H:%M:%S")` |
| `Roster` | roster.dfy | the entities (record, display values, offsets, statuses, tags), `parse_hours`, the lateness rule, `apply_color`'s classification |
| `Tally` | tally.dfy | `update_counters`' counts and percentages, `export_excel`'s rows and horizon percent |
| `Ordering` | ordering.dfy | `sort_table`'s stable sort by lower-cased name, `update_numbers`' numbering |
| `Persist` | persist.dfy | the record `save_data` writes and `load_data` reads |
| `Table` | table.dfy | class `Table` with the shared state and every operation whose code is the same in both variants |
| `App` | app.dfy | what only `app.py` does: `HH:MM` lateness, `mark_arrival`, `commit_combo`/`commit_text`, `add_row_values`, the chart counts, the search bar |
| `Qwen` | qwen.dfy | what only `Qwen_python.py` does: `str(timedelta)` lateness, `on_double`, `update_row_from_right`, `add_row`, `search_dialog` |

Modelling choices:

- A timestamp (`Time`) is a natural number of microseconds since `datetime.min`. `datetime.now()`
  is a parameter `now`.
- The five `ARRIVAL_TIMES` labels are the enum `Offset`, worth 60, 90, 120, 150 and 180 minutes.
  `parse_hours` is a lookup of those labels, returning `None` where `float()` would raise.
- A status combobox that was never set holds `""`; that value is the extra status `Unset`.
- The class `Table.Table` has these fields:
  - `start`;
  - `keys`: the insertion order of `self.rows`, which is the order of `.values()` and `.items()`;
  - `rows`: `self.rows`;
  - `order`: `tree.get_children()`;
  - `items`: the values and tag of each Treeview row;
  - `next`: the handle the next `tree.insert` hands out.
- `Valid()` says that the records and the Treeview rows are the same handles, each listed once,
  all already issued. Every operation keeps it. `Synced()` says that every row's name, offset
  and status cells equal its record's. Every operation keeps it too.
- The variant modules call the shared class's methods. The variant's own lateness text for zero
  (`"00:00"` or `"0:00:00"`) is the parameter `zero` of `apply_color`.
- Confirmation dialogs are inputs:
  - a `bool` where one question is asked;
  - `ask: nat -> bool` for `add_row`'s duplicate prompts, where `ask(k)` is the reply to the k-th
    prompt.
- The import's first column is a `seq<Option<string>>`, with `None` for an empty cell. The save
  file is the datatype `SaveRecord`.

Where the roster's specification and the code disagree, the model follows the code:

- `import_excel` makes no duplicate check at all; it does not apply `add_row`'s check per name.
- A lateness text is written only when an arrival is marked. Editing the offset or the status
  afterwards does not recompute it (`commit_combo`, `update_row_from_right`). Restarting the
  timer does not recompute it either.
- The two variants keep their own lateness precision: whole minutes in `app.py`, microseconds
  in `Qwen_python.py`. They also colour differently: `app.py` colours a row late only from one
  full minute, while `Qwen_python.py` colours it late for any positive lateness.
- `add_row` in `Qwen_python.py` can raise after it has changed the Treeview. See "Findings".

## Model

| member | source | states |
|---|---|---|
| Roster.ParseHours | app.py:17-18 | on what a combobox can hold, the result names the offset whose label is the text, and it is `None` (the ValueError) exactly when the text is no label |
| Roster.ParseHoursLabel | app.py:11-18 | each of the five `ARRIVAL_TIMES` labels parses back to its own offset |
| Roster.Lateness | app.py:547-550 | the lateness is zero exactly when `now` is at or before `start + offset`; otherwise `now` is the deadline plus the lateness, so the lateness is never negative |
| Roster.LatenessMonotone | app.py:547-550 | arriving later never gives a smaller lateness |
| Roster.Classify | app.py:706-716 | the tag is "other" exactly for a non-Present status; "late" exactly for Present with a late text that is neither blank nor the zero text; "ontime" exactly for Present, blank or zero late text, and a fact |
| Clock.HourMinute | app.py:546 | `strftime("%H:%M")` is five characters that read back as the hour of the day and the minute of the hour |
| Clock.HourMinuteSecond | Qwen_python.py:340 | `strftime("%H:%M:%S")` is eight characters that read back as hour, minute and second |
| Clock.ReadPair | app.py:252 | two zero-padded fields joined by ":" read back as the same two numbers |
| Clock.ReadTriple | Qwen_python.py:345 | three padded fields joined by ":" read back as the same three numbers |
| Digits.ParsePadded | app.py:252 | a `%0wd` text reads back as the number it was printed from |
| Text.Strip | app.py:695 | the stripped text is no longer than the input, neither begins nor ends with whitespace, and is empty exactly when the input is all whitespace |
| Text.StripIdempotent | app.py:695 | stripping twice is stripping once |
| Text.Lower | app.py:720 | lower-casing keeps the length and maps each character to its lower-case form: the capitals of Basic Latin, Latin-1, Latin Extended-A, Greek and Cyrillic become small letters, and every other character is kept |
| Text.LexLeTotal | app.py:720 | any two sort keys are ordered one way or the other |
| Text.LexLeTransitive | app.py:720 | the sort-key order is transitive |
| Text.ContainsAt | app.py:808-809 | `q in name` holds exactly when `q` occurs at some position of `name` |
| App.FormatTimedelta | app.py:248-252 | the text reads back as two numbers, with minutes below 60 and 60·hours + minutes equal to the whole minutes of the duration; it is "00:00" exactly for less than a minute |
| App.ZeroPair | app.py:250-252 | two `%02d` fields read "00:00" exactly when both are zero |
| App.WholeMinutes | app.py:249-251 | the whole minutes split into hours and minutes below 60, both zero exactly below one minute |
| App.MarkedItem | app.py:544-552 | the marked row shows the arrival's `HH:MM` and the formatted lateness; it is coloured late exactly when the lateness reaches one minute, on time otherwise |
| App.MarkArrival | app.py:531-554 | without a start, with a fact already set, or for a non-Present person, nothing changes; otherwise only that record's fact becomes `now` and only that row's fact, late and colour change; the display order and the other rows stay |
| App.MarkPresent | app.py:544-552 | past the guards: that record's fact and that row's cells and colour, nothing else |
| App.Commit | app.py:676-686 | the chosen combobox cell takes the value; an offset or status also goes to the record; the number, name, fact and late cells and the record's name and fact stay; agreement between the row and its record is kept |
| App.CommitCombo | app.py:676-689 | a deleted row changes nothing; otherwise only that row and record change, as Commit says, and the row is recoloured from its unchanged late text |
| App.Rename | app.py:698-700 | the name cell and the record's name become the new name; nothing else changes |
| App.CommitText | app.py:691-704 | a deleted row or a blank text changes nothing; otherwise the stripped name goes to the cell and the record, and the table is re-sorted by name and numbered 1..n |
| App.AddRowValues | app.py:386-405 | nothing is added exactly when the name is empty or some duplicate prompt is refused; otherwise exactly one new row and record (fact empty, offset and status as given) under a fresh handle, then sorted and numbered 1..n |
| App.LateOnTime | app.py:753-760 | every arrived person is counted in exactly one of the late and on-time bars |
| App.Chart | app.py:752-768 | both bars are empty before the start; after it they add up to the arrived count |
| App.Matches | app.py:808-809 | the matches are exactly the displayed rows whose lower-cased name contains the lower-cased query |
| App.MatchesInOrder | app.py:808-809 | the matches keep the display order of `tree.get_children()`: any two of them stand in the Treeview in the same order; and when the display lists each row once, so do the matches |
| App.MatchesFirst | app.py:808-814 | the first match is the topmost displayed row that matches |
| App.SearchFromEntry | app.py:802-816 | a blank query does nothing; a match is selected exactly when some row matches, and it is the topmost match, with the index reset to 0; without a match the index stays |
| App.SearchNext | app.py:818-825 | with no matches it searches afresh; otherwise the index moves to the next match, wrapping from the last to the first, and that match is selected exactly when it is still in the Treeview (a deleted one is not: `selection_set` fails) |
| App.PressesCycle | app.py:818-825 | k presses move the index k places round the match list |
| App.SearchReturns | app.py:818-825 | as many presses as there are matches return to the starting state |
| Qwen.ZeroText | Qwen_python.py:372 | "0:00:00" is what `%d:%02d:%02d` prints for zero seconds, and it reads back as three zeros |
| Qwen.HoursMinutesSecondsZero | Qwen_python.py:345 | only zero seconds print as "0:00:00" |
| Qwen.TimedeltaZero | Qwen_python.py:341-345 | the day, clock and fraction parts together read "0:00:00" exactly for a zero duration |
| Qwen.TimedeltaStr | Qwen_python.py:345 | `str(timedelta)` is "0:00:00" exactly for zero and never blank; below a day and on a whole second it is just `H:MM:SS` |
| Qwen.TimedeltaRead | Qwen_python.py:345 | below a day and on a whole second the text reads back as hours, minutes and seconds that make up the duration |
| Qwen.ArrivedItem | Qwen_python.py:338-346 | the marked row shows `HH:MM:SS` and `str(lateness)`; it is late exactly for a positive lateness and on time exactly when the arrival is at or before the deadline |
| Qwen.OnDouble | Qwen_python.py:331-348 | a click on no row, or without a start, on a person already arrived or not present, changes nothing; otherwise only that record's fact becomes `now` and only that row's fact, late cell and colour change; the table stays valid and synced, and the display order stays |
| Qwen.Arrive | Qwen_python.py:331-348 | without a start, with a fact set, or for a non-Present person, nothing changes; otherwise only that record's fact and that row's cells and colour change |
| Qwen.MarkPresent | Qwen_python.py:338-346 | past the guards: that record's fact and that row's cells and colour, nothing else |
| Qwen.FromRight | Qwen_python.py:356-362 | the four panel fields overwrite the row and the record; the number, fact and late cells and the record's fact stay; afterwards the row agrees with its record |
| Qwen.UpdateRowFromRight | Qwen_python.py:350-365 | without a current row, or once it is deleted, nothing changes; otherwise only that row and record change, in place, with no re-sort |
| Qwen.AddRow | Qwen_python.py:253-274 | corrected add_row: blank name, refused duplicate, or unset offset adds nothing, each with its own outcome; otherwise one row and one record under a fresh handle, then sorted and numbered; every displayed row keeps a record |
| Qwen.AddRowAsWritten | Qwen_python.py:261-269 | as written, the Treeview row is always inserted, and the record is added exactly when `parse_hours` does not raise |
| Qwen.AddRowOrphan | Qwen_python.py:261-269 | with the offset combobox unset, add_row as written raises and leaves a displayed row that has no record |
| Qwen.SearchDialog | Qwen_python.py:413-421 | an empty query selects nothing; otherwise a row is selected exactly when some row matches, and it is the topmost match |
| Table.Table.Open | app.py:21-44 | without a save file the table is empty with no start; otherwise the start and the records are those saved, the rows are the saved values, coloured, sorted by name and numbered 1..n; a save written in sync loads synced |
| Table.Table.StartTimer | app.py:381-384 | the start becomes `now`, on a restart too; the rows and the Treeview stay |
| Table.Table.Append | app.py:393-401 | one new record and one new last Treeview row under a handle not used before; nothing else changes |
| Table.Table.SortTable | app.py:718-722 | the display order becomes the stable sort of the old order by lower-cased name; rows and records stay |
| Table.Table.UpdateNumbers | app.py:724-726 | the row at display position j gets number j + 1; nothing else changes |
| Table.Table.ApplyColor | app.py:706-716 | only that row's tag changes, to the Classify of its record and late cell |
| Table.Table.Rewrite | app.py:545-551 | one record and one row's cells are replaced in place; the table stays valid, and synced when they agree |
| Table.Table.RewriteColored | app.py:545-552 | one record and one row are replaced and the row recoloured from them; nothing else changes |
| Table.Table.ConfirmAdd | app.py:389-392 | the add proceeds exactly when every prompt, one per record with the same lower-cased name, is answered yes |
| Table.Table.Add | app.py:393-403 | one new record and row under a fresh handle, then sort_table and update_numbers |
| Table.Table.DeleteRow | app.py:475-483 | with no selection nothing changes; otherwise only the first selected row leaves the records, the dict order and the display, and the rest are renumbered |
| Table.Table.Remove | app.py:479-480 | exactly that handle leaves the records, the dict order, the display and the Treeview |
| Table.Table.DeleteSelectedRows | app.py:352-363 | with no selection or no confirmation nothing changes; otherwise exactly the selected rows go and the rest are renumbered |
| Table.Table.RemoveEach | app.py:358-360 | exactly the selected handles leave all four collections, the rest keep their order |
| Table.Table.DeleteAllTable | app.py:365-379 | an empty table is reported and unchanged; with a confirmation every row and record goes, the start stays |
| Table.Table.ImportExcel | app.py:485-514 | an empty sheet changes nothing; otherwise every stripped non-blank name becomes a new row (Unknown, 1 hour, Present, no fact) with no duplicate check, the count is the number of such names, then the table is sorted and numbered |
| Table.Table.InsertNames | app.py:493-507 | the imported names become records and rows under successive fresh handles, in column order |
| Table.Table.Reorder | app.py:508-509 | sort_table followed by update_numbers |
| Table.Table.ClearData | app.py:516-529 | without a confirmation nothing changes; with it the start is reset, every record loses its fact and becomes Present, every row's fact and late cells blank, status Present and tag removed; the row set, names, offsets, positions and order stay |
| Table.UpdateRow | app.py:545-551 | rewriting one row and record in place keeps the table valid, and synced when they agree |
| Table.AppendNames | app.py:494-507 | the import loop appends the k-th imported name under handle `next + k` to the dict order, the display, the records and the Treeview |
| Table.NamesStripped | app.py:494-497 | every imported name is non-blank and already stripped; all cells yield a name exactly when none is empty or blank |
| Table.ImportedAt | app.py:498-506 | the k-th imported name is the record and the row under handle `lo + k` |
| Table.ImportKeepsValid | app.py:494-507 | appending imported names under fresh handles keeps the table valid and synced |
| Table.MoveEach | app.py:721-722 | moving each handle of the sorted list to the end in turn yields exactly the sorted list |
| Table.NumberEach | app.py:725-726 | the enumerate loop yields the numbering Renumber specifies |
| Table.SortKeeps | app.py:718-722 | sorting the display keeps the table valid |
| Table.RenumberSynced | app.py:724-726 | numbering keeps the table valid and synced |
| Table.ClearEach | app.py:519-525 | the clear loop yields every record and row cleared |
| Table.ClearedAgree | app.py:519-525 | cleared rows agree with cleared records whenever they agreed before |
| Table.DeleteFromTree | app.py:373-375 | deleting every key of `self.rows` from the Treeview empties the display |
| Table.RemoveAll | app.py:358-360 | the delete loop takes exactly the selected handles out of all four collections |
| Table.RemoveConsistent | app.py:358-360 | removing handles keeps the table valid and synced |
| Table.LoadRows | app.py:886-895 | the load loop puts the k-th saved row under handle k, in the records and in the Treeview |
| Table.LoadedConsistent | app.py:886-895 | a loaded table is valid, and synced when the saved cells agree with the saved fields |
| Table.AskEach | app.py:389-392 | the duplicate loop proceeds exactly when every prompt up to the number of duplicates is answered yes |
| Tally.RecsOf | app.py:772 | `self.rows.values()` has one record per key |
| Tally.Count | app.py:770-775 | the total is the number of records, arrived ≤ present, and present + sick + trip ≤ total |
| Tally.CountPartition | app.py:771-774 | when every status is one of the three, present + sick + trip = total |
| Tally.ArrivalPercent | app.py:776 | the arrival percent is arrived / present · 100 when someone is present and 0 otherwise, so it lies in [0, 100] |
| Tally.Share | app.py:778-779 | `pct(n)` lies in [0, 100], is 0 for an empty list, and otherwise is n / total · 100 |
| Tally.Ratio | app.py:845 | n / d · 100 lies in [0, 100] and times d gives n · 100 |
| Tally.LineOf | app.py:836-840 | an exported row is the row's values without "num"; without a fact, the fact cell is "Еще не прибыл" and the late cell blank |
| Tally.Lines | app.py:835-840 | one exported row per record, in dict order |
| Tally.WindowCount | app.py:841-844 | the people who arrived within the horizon are at most the people who arrived |
| Tally.HorizonPercent | app.py:841-845 | the export percent is the present people who arrived within the horizon, divided by the present people, times 100; it is 0 when nobody is present and lies in [0, 100] |
| Tally.Export | app.py:827-845 | the export is refused exactly when the timer was never started; otherwise its rows and its percent |
| Tally.HorizonBelowArrival | app.py:841-845 | the export percent never exceeds the arrival percent |
| Tally.WindowCountMonotone | app.py:834-844 | a longer horizon never counts fewer arrivals |
| Tally.HorizonMonotone | app.py:834-845 | a longer horizon never lowers the export percent |
| Ordering.SortPermutation | app.py:719-720 | the sorted order is a permutation of the old one |
| Ordering.SortSorted | app.py:720 | the sorted order ascends by lower-cased name |
| Ordering.SortStable | app.py:720 | rows with equal keys keep their relative order (Python's stable sort) |
| Ordering.SortDistinct | app.py:719-722 | sorting keeps the handles distinct and the same set |
| Ordering.Renumber | app.py:724-726 | numbering keeps the set of rows and everything but the number cell, and leaves rows not displayed alone |
| Ordering.RenumberNumbers | app.py:725-726 | the row at display position j is numbered j + 1 |
| Ordering.Reordered | app.py:718-726 | after sort_table and update_numbers the display ascends by name and is numbered 1..n from the top |
| Persist.SavedRows | app.py:868-875 | one saved row per record in dict order: the row's values plus the record's fact, arrival and status |
| Persist.Iota | app.py:886-888 | a fresh Treeview hands out the handles 0, 1, ..., n − 1 |
| Persist.SaveAfterLoad | app.py:865-895 | loading a save file and saving it again writes the same record |
| Persist.LoadAfterSave | app.py:865-894 | saving and loading restores the start and, row by row in dict order, the displayed values and the record, its name read from `values[2]` |

## Left out

- The GUI: widgets and styling, editors and pop-up selectors, selection restoring, mouse and
  scroll plumbing, and the chart's geometry (only its counts are modelled). These are
  `setup_style`, `create_widgets`, `open_selector`, `start_combo_edit`, `start_text_edit`,
  `destroy_editor`, `open_add_dialog`, `open_export_menu`, the selection and click handlers,
  `fast_scroll` and `on_close`.
- `copy_rows` and `cut_rows`: the clipboard is never read back.
- Dialogs: each confirmation is an input, and every notice (`showinfo`, `showerror`) is dropped.
  `search_dialog`'s `askstring` is its query parameter, with a cancelled dialog as an empty query.
  The "table already empty" notice is `DeleteAllTable`'s result.
- `search_dialog` in `app.py` only focuses the entry field, so it has no state to model.
- `on_select`: it sets the current row (`Qwen.UpdateRowFromRight`'s parameter `current`) and
  fills the right-hand panel, which is the `Panel` parameter.
- File I/O: pandas `read_excel`/`to_excel` and the JSON file. Only these are modelled: the
  imported first column, the exported rows and percent, and the save record. The `try`/`except`
  around the import and the file-existence test of `load_data` are outside the model; a missing
  save file is `None`.
- Text formatting: percentages are `real`s, and their `:.1f` text is not modelled. The same goes
  for the timer label's `strftime` and the export file's header and date line.
- `datetime.now()` is a parameter. The model's clock has no time zone and no leap seconds.
- `parse_hours` on arbitrary text: `float()` of other strings, and `timedelta(hours=...)` on a
  float, are replaced by the five labels and their whole minutes.
- `update_counters` and `save_data` after each operation: their results are the functions
  `Tally.Count`/`Tally.Share` and `Table.Table.Save` of the new state, not separate steps.
- Qwen.FromRight: assumes the panel's offset is one of the five labels. `on_select` fills it
  from the selected row, so it always is; an offset text that `float()` rejects is not modelled
  for this path.
- Qwen.OnDouble: requires the row under the pointer to have a record. On an orphan row left by
  `add_row` as written, the program raises KeyError instead, as the finding below shows.
- Qwen.TimedeltaStr: beyond the zero case and the whole-second case below a day, its text (days,
  microseconds) is defined but not read back.
- Persist.SavedRows: every cell is saved as the string it was written with. The program reads
  the cells back through `tree.item(i)["values"]`, and `tkinter.ttk` converts each value that
  `int()` accepts to an `int`. A name made only of digits, such as "007", is therefore saved as
  the number 7. The same conversion feeds `on_select`'s right-hand panel in `Qwen_python.py`,
  which the model takes as the `Panel` parameter.
- Persist.LoadAfterSave: the exact round trip holds for the model's string cells, so it covers
  names that `int()` rejects. For a digit-only name, loading gives the displayed cell "7" and a
  record whose `fio` is the int 7, and the next `add_row` then raises AttributeError on
  `r["fio"].lower()` (app.py:390, Qwen_python.py:258). That failure is not modelled.
- Tally.Lines: exports the string cells. The program exports the int-converted values, so a
  digit-only name appears in the spreadsheet as a number, without its leading zeros.
- App.SearchNext: when the next match was deleted after the search, the program's
  `selection_set` raises TclError after the index has moved. The model moves the index the same
  way and selects nothing (`selected` is `None`), but it does not model the error report itself.
- Text.Lower: covers only the capitals of Basic Latin, Latin-1, Latin Extended-A, Greek
  (U+0391 to U+03A9) and Cyrillic (U+0400 to U+04FF). Python's `str.lower` also lowers the other
  scripts' capitals (Latin Extended-B and beyond, accented Greek capitals, Armenian, Georgian,
  fullwidth forms and more). Those stay unchanged here, so two names that differ only in such a
  capital compare different in the duplicate check, the sort key and the search, where Python
  finds them equal. Two cases are left out because they do not map one character to one
  character: Greek capital sigma, whose lower form depends on its position in the word, and
  U+0130 (İ), whose lower form is two code points. The model keeps both unchanged.

## Findings

| source | as written | input that shows it | evidently intended | confidence | as-written member | corrected member |
|---|---|---|---|---|---|---|
| Qwen_python.py:261-269 | `add_row` inserts the Treeview row before calling `parse_hours(self.arr_cb.get())`; when that raises, the row stays displayed without an entry in `self.rows` | a name typed while the offset combobox was never chosen (`arr_cb.get() == ""`); the next double click or panel edit on that row raises KeyError | validate the offset before inserting, so that a refused add leaves the table unchanged | not executed | Qwen.AddRowAsWritten, Qwen.AddRowOrphan | Qwen.AddRow |
