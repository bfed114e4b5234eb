# ux3270 in Dafny

ux3270 is a Python library for IBM 3270-style terminal user interfaces.

- A *panel* (`Screen`) holds input fields and static text. It lets the user edit one field at a time and moves between fields with Tab and Shift+Tab. Enter submits the panel after validation, and F3 or Ctrl+C cancels it.
- A *form* and a *menu* are built on top of panels.
- Four *dialogs* read raw keys from the terminal:
  - a paging *table*;
  - a *selection list* that takes an `S` mark or Enter;
  - a *work-with list*, in which one-character action codes are typed against rows;
  - a *tabular entry* grid of editable cells.
- An older generation of the same API (`ux3270/` and `ux3270_ui/`) has simpler key handling.

The model keeps the library's own structure:

- Every object whose fields `show` updates (a panel's fields, a table's `current_row`, a work-with list's action inputs, a tabular entry's values and error message) is a Dafny `class`. Its methods carry `modifies` clauses.
- Every loop of the source (key loops, field searches, validation sweeps, width computations, result collection) is a `method` with a `while` or `for` loop. The loop is proved against a specification function.
- What the keys do is written as pure functions: the decoders of escape sequences, one editing step, one navigation step and the outcome of an ending key. Lemmas state their properties:
  - round trips of the key decoders;
  - bounds kept by the cursor and the page;
  - undo pairs for the editor;
  - soundness and completeness of the collected action requests;
  - the first-failure order of validation.

The keyboard is a `seq<char>` given to `show`. Each decoder says how many characters a key used. When the input ends before a dialog would return, its outcome is `InputEnded`, where the program would wait for more keys. Terminal drawing is left out.

Module layout, one file each:

| module | source |
|---|---|
| `Common` | shared helpers: ASCII character classes and decimal rendering |
| `Dialog` | what the dialogs share: keys, page sizes, paging, list cursor, column widths |
| `Fields` | `ux3270/field.py` |
| `Editor` | the field editor of `src/ux3270/panel/screen.py` |
| `Panel` | `src/ux3270/panel/screen.py` |
| `Form` | `src/ux3270/dialog/form.py` |
| `Menu` | `src/ux3270/dialog/menu.py` |
| `Table` | `src/ux3270/dialog/table.py` |
| `SelectionList` | `src/ux3270/dialog/selection_list.py` |
| `WorkWithList` | `src/ux3270/dialog/work_with_list.py` |
| `TabularEntry` | `src/ux3270/dialog/tabular_entry.py` |
| `LegacyScreen` | `ux3270/screen.py` |
| `LegacyForm` | `ux3270_ui/form.py` |
| `LegacyMenu` | `ux3270_ui/menu.py` |
| `LegacyTable` | `ux3270_ui/table.py` |

## Model

| member | source | states |
|---|---|---|
| Common.Upper | src/ux3270/dialog/menu.py:187-193 | `str.upper` on one character: a lower-case ASCII letter becomes its capital and any other character is kept |
| Common.UpperStr | src/ux3270/panel/screen.py:42-43 | `str.upper` keeps the length and upper-cases each character in place |
| Common.UpperStrIdempotent | src/ux3270/panel/screen.py:42-43 | upper-casing twice is upper-casing once |
| Common.DigitChar | src/ux3270/panel/screen.py:412 | a decimal digit character has the value of the digit it stands for |
| Common.NatToString | src/ux3270/panel/screen.py:412 | `str(n)` of a count is a non-empty digit string with no leading zero unless it is "0" |
| Common.NatToStringRoundTrip | src/ux3270/panel/screen.py:412 | reading the digits of `str(n)` gives back n |
| Common.NatToStringInjective | src/ux3270/panel/screen.py:412 | different indexes give different `field_N` suffixes |
| Common.PrefixGrows | src/ux3270/dialog/table.py:200-222 | a key read from the rest of a stream joins the prefix read so far |
| Dialog.Name | src/ux3270/dialog/table.py:155-186 | the string `_read_key` returns: the character itself for a plain key, a name of two letters or more for an escape sequence |
| Dialog.NameInjective | src/ux3270/dialog/table.py:155-186 | no two keys return the same string |
| Dialog.Encode | src/ux3270/dialog/table.py:155-186 | a plain key is sent as itself; a function or cursor key is sent as an ESC sequence of 2 to 5 characters |
| Dialog.PageSize | src/ux3270/dialog/table.py:75-77 | `max(1, height - header - footer)`: at least one row, otherwise exactly what is left of the screen |
| Dialog.PageBackTop | src/ux3270/dialog/table.py:212-215 | F7 moves the top back by one page and stops at 0, so it is strictly earlier when it was not already 0 |
| Dialog.PageForwardToLastRow | src/ux3270/dialog/table.py:216-222 | F8 moves one page forward only when rows lie beyond the page, and the top stays on an existing row |
| Dialog.PageForwardToFullPage | src/ux3270/dialog/selection_list.py:356-360 | F8 moves forward by at most one page, and the new page is still full |
| Dialog.MoveUp | src/ux3270/dialog/selection_list.py:339-343 | Up selects the previous row, scrolling by one row only at the top line, and does nothing on row 0 |
| Dialog.MoveDown | src/ux3270/dialog/selection_list.py:345-349 | Down selects the next row, scrolling by one row only at the bottom line, stops at the last row and keeps the cursor on the page |
| Dialog.DictColumnWidths | src/ux3270/dialog/selection_list.py:100-112 | each width is at least the header and every row's value under that key, and equals one of them |
| Dialog.ListColumnWidths | src/ux3270/dialog/table.py:54-64 | each width is at least the header and every row's cell in that column, and equals one of them |
| Editor.DecodeEditKey | src/ux3270/panel/screen.py:228-297 | a decoded key uses between 1 and the remaining characters; a printable key is one character; only fewer than 6 remaining characters can leave a key incomplete |
| Editor.DecodeEditKeyUsesOnlyItsKey | src/ux3270/panel/screen.py:237-288 | decoding reads only the characters of the key itself, whatever surrounds them |
| Editor.DecodeEditKeyRoundTrip | src/ux3270/panel/screen.py:231-297 | decoding the terminal sequence of every key gives back that key and its length |
| Editor.TypeChar | src/ux3270/panel/screen.py:297-314 | typing keeps the cursor inside the value and keeps the insert mode |
| Editor.TypeCharPlaces | src/ux3270/panel/screen.py:297-314 | insert mode inserts at the cursor while there is room; overwrite replaces the character under the cursor or appends at the end; a NUMERIC field refuses non-digits; in insert mode a full field refuses every character |
| Editor.TypeCharBounds | src/ux3270/panel/screen.py:297-314 | typing never grows a value past the field length and keeps a NUMERIC value all digits |
| Editor.EditStep | src/ux3270/panel/screen.py:231-314 | control leaves the field exactly on Enter, Tab, Shift+Tab, F3 and Ctrl+C; otherwise the cursor stays inside the value |
| Editor.EditStepActions | src/ux3270/panel/screen.py:231-296 | Enter submits, Tab goes to the next field, Shift+Tab to the previous one, and F3 and Ctrl+C cancel |
| Editor.EditStepMoves | src/ux3270/panel/screen.py:244-294 | only Insert flips the insert mode; the cursor keys keep the value; Left and Right step one place and stop at the ends; Home and End go to the ends; Ctrl+E erases to the end; Backspace at 0, Delete at the end and unknown keys change nothing |
| Editor.EditStepDeletes | src/ux3270/panel/screen.py:272-292 | Backspace removes the character before the cursor and Delete the one under it, shifting the rest left, when there is one |
| Editor.EditStepBounds | src/ux3270/panel/screen.py:268-314 | no key grows a value past the field length, and a NUMERIC value stays all digits |
| Editor.BackspaceUndoesInsert | src/ux3270/panel/screen.py:289-314 | Backspace right after an inserted character restores the value and the cursor |
| Editor.LeftDeleteUndoesInsert | src/ux3270/panel/screen.py:244-314 | Left then Delete right after an inserted character restores the value and the cursor |
| Editor.EditRunKeepsCursor | src/ux3270/panel/screen.py:215-314 | over any input the cursor stays inside the value, and a key that leaves the field used at least one character |
| Editor.EditRunKeepsBounds | src/ux3270/panel/screen.py:215-314 | over any input the value stays within the field length and a NUMERIC value stays digits |
| Editor.EditLoop | src/ux3270/panel/screen.py:212-314 | the key loop of `get_input` computes exactly the run of editing steps |
| Fields.Field.constructor | ux3270/field.py:23-55 | a new field keeps its attributes and starts with its default as value |
| Fields.Field.Validate | ux3270/field.py:67-80 | valid exactly when not required-and-empty and not rejected by the validator; the messages are "is required" first, then "has invalid value" |
| Fields.Field.LabelCol | ux3270/field.py:82-91 | the label ends two characters (": ") before the field; an unlabelled field starts at its own column |
| Form.NextRow | src/ux3270/dialog/form.py:63-73 | each item goes two rows below the previous one, below every earlier item |
| Form.Form.constructor | src/ux3270/dialog/form.py:23-37 | the form's panel gets the upper-cased title and panel id, with no fields and the body starting at row 3; the panel starts with no error message |
| Form.Form.AddField | src/ux3270/dialog/form.py:39-74 | the field goes on the current row at the field column with all its attributes, and the next item goes two rows lower; the static text and the error message are kept |
| Form.Form.AddText | src/ux3270/dialog/form.py:76-88 | the text goes on the current row at the label column, and the next item goes two rows lower; the fields and the error message are kept |
| Form.Form.Show | src/ux3270/dialog/form.py:90-97 | the panel's run: with an editable field the values and the finish are those of `PanelRun`; a submitted form holds every field's value, all valid; READONLY values and shapes are kept; the static text is kept, and the message line is left clear after a run |
| LegacyForm.LegacyForm.constructor | ux3270_ui/form.py:14-25 | the form's screen gets the upper-cased title, with no fields and the body at row 2; the screen starts with no error message |
| LegacyForm.LegacyForm.AddField | ux3270_ui/form.py:27-62 | the field goes on the current row with all its attributes, and the next item goes two rows lower; the static text and the error message are kept |
| LegacyForm.LegacyForm.AddText | ux3270_ui/form.py:64-76 | the text goes on the current row, and the next item goes two rows lower; the fields and the error message are kept |
| LegacyForm.LegacyForm.Show | ux3270_ui/form.py:78-85 | the screen's run: with an editable field the values and the finish are those of `LegacyPanelRun`; all values on submit, all valid; READONLY values and shapes are kept; the static text is kept, and the message line is left clear after a run |
| LegacyMenu.LegacyMenu.constructor | ux3270_ui/menu.py:33-41 | a new menu has no items and has run no action |
| LegacyMenu.LegacyMenu.AddItem | ux3270_ui/menu.py:43-56 | the item is appended in order |
| LegacyMenu.LegacyMenu.Show | ux3270_ui/menu.py:79-111 | keys before the last one neither quit nor match, and when the input runs out none of them does; x, X or Ctrl+C quits; otherwise the upper-cased key runs the action of the first matching item, exactly once |
| LegacyMenu.QuitsExactly | ux3270_ui/menu.py:99-100 | the quitting characters are exactly x, X and Ctrl+C |
| LegacyScreen.DecodeLegacyKey | ux3270/screen.py:189-225 | a key uses between 1 and the remaining characters and is one the older editor knows; only an input ending inside an ESC sequence leaves it incomplete |
| LegacyScreen.DecodeLegacyKeyRoundTrip | ux3270/screen.py:192-225 | decoding the sequence of each known key gives back that key and its length |
| LegacyScreen.DecodeLegacyLongF3 | ux3270/screen.py:204-208 | ESC [ 1 3 followed by any fifth character is F3 |
| LegacyScreen.LegacyStep | ux3270/screen.py:192-225 | Enter, Tab, Shift+Tab, F3 and Ctrl+C leave with submit, next, previous or cancel; editing never changes the insert mode, keeps a cursor at the end there, stays within the length and keeps NUMERIC values all digits |
| LegacyScreen.LegacyStepEdits | ux3270/screen.py:214-225 | a printable character is inserted at the cursor while there is room; a full field or a non-digit in a NUMERIC field changes nothing; Backspace removes the character before the cursor |
| LegacyScreen.LegacyRunKeepsCursor | ux3270/screen.py:173-225 | the cursor starts at the end and stays there over any input, and leaving uses at least one character |
| LegacyScreen.LegacyRunKeepsBounds | ux3270/screen.py:173-225 | over any input the value stays within the length and NUMERIC values stay digits |
| LegacyScreen.LegacyLoop | ux3270/screen.py:173-225 | the key loop computes exactly the run of steps |
| LegacyScreen.LegacyVisitField | ux3270/screen.py:150-229 | one older session starts in insert mode at the end of the value; CANCEL and the end of the input store nothing; leaving uses at least one character |
| LegacyScreen.LegacyRunInsertMode | ux3270/screen.py:173-225 | the older editor never changes the insert mode |
| LegacyScreen.LegacyPassStep | ux3270/screen.py:258-312 | a pass continues only on an editable field and further into the input, and a submit finishes only with every value valid |
| LegacyScreen.LegacyPanelRun | ux3270/screen.py:258-314 | the older loop always finishes, and a submit only with every value valid |
| LegacyScreen.LegacyPassStepKeeps | ux3270/screen.py:258-312 | a pass keeps every value's length and NUMERIC bounds and never changes a READONLY field |
| LegacyScreen.LegacyPanelRunKeeps | ux3270/screen.py:258-314 | the whole loop keeps every value's bounds and never changes a READONLY field |
| LegacyScreen.LegacyScreen.constructor | ux3270/screen.py:28-38 | the title is upper-cased, with no fields, no text and no error |
| LegacyScreen.LegacyScreen.AddField | ux3270/screen.py:40-51 | appends the field and changes nothing else |
| LegacyScreen.LegacyScreen.AddText | ux3270/screen.py:53-66 | sets the text at its position and changes nothing else |
| LegacyScreen.LegacyScreen.GetInput | ux3270/screen.py:150-229 | a READONLY field returns its value untouched; otherwise the value is the run's result on submit, next or previous, and is unchanged on cancel |
| LegacyScreen.LegacyScreen.EditFocused | ux3270/screen.py:262-263 | `get_input` on the focused field is the visit: each field's value, the action and the input position are exactly what `LegacyVisitField` gives from the values before |
| LegacyScreen.LegacyScreen.ShowAllReadOnly | ux3270/screen.py:251-255 | with no editable field the results are returned at once; the fields, the static text and the error message are kept |
| LegacyScreen.LegacyScreen.Pass | ux3270/screen.py:258-312 | one pass of the loop is `LegacyPassStep` on the values before: the new values are its, a continuing pass goes to its focus and position, and a finishing one ends as it says; a submit returns valid results; the static text is kept, and a finishing pass leaves no error message |
| LegacyScreen.LegacyScreen.ClearAndRender | ux3270/screen.py:259-260 | the error message is cleared before each render; the fields and the static text are kept |
| LegacyScreen.LegacyScreen.Act | ux3270/screen.py:265-312 | NEXT and PREV move to the next and previous editable fields, wrapping; CANCEL and the end of input finish; SUBMIT finishes with the results when every field is valid and otherwise keeps the focus — exactly as `AfterVisit` says; the static text is kept, and finishing leaves no error message |
| LegacyScreen.LegacyScreen.SubmitPass | ux3270/screen.py:300-312 | submit returns the results when every field is valid, and otherwise stays on the field; the static text is kept, and a finishing submit leaves the message as it was |
| LegacyScreen.LegacyScreen.Show | ux3270/screen.py:231-317 | no fields gives no outcome; with an editable field, the values and the way it finishes are those of `LegacyPanelRun` from the first editable field; a submitted result holds every value with all fields valid; READONLY values and shapes are kept; the static text is kept; the error message is clear after a run and unchanged otherwise |
| LegacyScreen.LegacyScreen.RunPasses | ux3270/screen.py:258-314 | the loop of passes ends as `LegacyPanelRun` says, with its values; the static text is kept and the error message ends clear |
| LegacyTable.RowCount | ux3270_ui/table.py:112-114 | "ROWS n" is shown exactly when there are rows, and n reads back as their number |
| LegacyTable.KeyLength | ux3270_ui/table.py:128-135 | the closing key uses one character, or an ESC plus up to two more |
| LegacyTable.LegacyTable.constructor | ux3270_ui/table.py:22-33 | the title is upper-cased and the columns are kept, with no rows |
| LegacyTable.LegacyTable.AddRow | ux3270_ui/table.py:35-46 | appends the row |
| LegacyTable.LegacyTable.CalculateWidths | ux3270_ui/table.py:48-58 | with columns, each width is the widest of its header and cells; without columns nothing is computed |
| LegacyTable.LegacyTable.Show | ux3270_ui/table.py:121-139 | the widths are computed, the rows are kept, and one key is consumed; without columns the widths are kept |
| Menu.DecodeKey | src/ux3270/dialog/menu.py:133-160 | a key is F3, ESC or the character read, and uses between 1 and the remaining characters; only a cut-off ESC sequence is incomplete |
| Menu.DecodeKeyRoundTrip | src/ux3270/dialog/menu.py:133-160 | decoding F3, ESC or any plain character gives it back with its length |
| Menu.KeysRead | src/ux3270/dialog/menu.py:133-160 | reading one more key keeps the keys read a prefix of what the input decodes to |
| Menu.KeysUnfold | src/ux3270/dialog/menu.py:133-160 | the decoded keys from a position are the key there followed by the keys after it |
| Menu.NextKey | src/ux3270/dialog/menu.py:133-160 | `_read_key`: no key exactly when every key of the input has been read; otherwise one more key of the decoded input, using at least one character |
| Menu.ExitsExactly | src/ux3270/dialog/menu.py:183-184 | the exit keys are exactly F3, x, X and Ctrl+C |
| Menu.FindItem | src/ux3270/dialog/menu.py:187-193 | finds the first item whose upper-cased key matches, or reports that none does |
| Menu.Placement | src/ux3270/dialog/menu.py:120-123 | items are drawn one per row from row 3 at column 2, below the instruction |
| Menu.Menu.constructor | src/ux3270/dialog/menu.py:45-58 | the title and panel id are upper-cased, with no items |
| Menu.Menu.AddItem | src/ux3270/dialog/menu.py:60-73 | appends the item |
| Menu.Menu.Show | src/ux3270/dialog/menu.py:162-197 | the keys read are the start of what the input decodes to, all of it when the input runs out; keys before the last neither exit nor match; an exit key exits; a matching key runs the first matching item's action exactly once and returns the key |
| Menu.ReadChoice | src/ux3270/dialog/menu.py:165-197 | the loop reads the decoded input until a key exits or matches an item; the match is the first item with that key |
| Menu.EndedBy | src/ux3270/dialog/menu.py:165-197 | the key that ends the loop is the last one read, and none before it exits or matches |
| Panel.TitleCol | src/ux3270/panel/screen.py:122 | the title is centred, with its left margin at most one less than its right one, and goes to column 0 when it is too wide |
| Panel.FirstEditable | src/ux3270/panel/screen.py:333-338 | focus starts on the first editable field, or past the end when there is none |
| Panel.NextFieldIndex | src/ux3270/panel/screen.py:354-367 | NEXT goes to the nearest editable field after the current one, wrapping to the first one |
| Panel.PrevFieldIndex | src/ux3270/panel/screen.py:369-382 | PREV goes to the nearest editable field before the current one, wrapping to the last one |
| Panel.FirstEditableFrom | src/ux3270/panel/screen.py:333-338 | the first editable field from a position, every field before it READONLY, or the end |
| Panel.LastEditableBefore | src/ux3270/panel/screen.py:369-382 | the last editable field before a position, every field between READONLY, or -1 |
| Panel.NextIndex | src/ux3270/panel/screen.py:354-367 | NEXT always lands on an editable field |
| Panel.PrevIndex | src/ux3270/panel/screen.py:369-382 | PREV always lands on an editable field |
| Panel.FirstInvalid | src/ux3270/panel/screen.py:389-401 | finds the first field that fails validation, or reports that all pass |
| Panel.FirstIndex | src/ux3270/panel/screen.py:412 | `fields.index(field)`: the first position holding that field |
| Panel.UnlabelledKeysDistinct | src/ux3270/panel/screen.py:412 | two different unlabelled fields get different `field_N` keys |
| Panel.ResultsMapKeys | src/ux3270/panel/screen.py:408-414 | the results hold exactly one key per field |
| Panel.ResultsMapValue | src/ux3270/panel/screen.py:408-414 | a later field with the same key overwrites; the last one's value stays |
| Panel.GetResults | src/ux3270/panel/screen.py:408-414 | the loop builds the map of every field's key, each bound to its last field's value |
| Panel.Values | src/ux3270/panel/screen.py:408-414 | the fields' values in order |
| Panel.SetValue | src/ux3270/panel/screen.py:181-318 | storing a value into a field object changes exactly the positions that hold that object |
| Panel.AllValidIsValuesValid | src/ux3270/panel/screen.py:389-401 | the fields validate exactly when every field accepts its current value |
| Panel.VisitField | src/ux3270/panel/screen.py:181-318 | one session starts at the end of the value with the shared insert mode; CANCEL and the end of the input store nothing; leaving uses at least one character |
| Panel.AfterVisit | src/ux3270/panel/screen.py:354-401 | NEXT and PREV land on editable fields; only a submit with every value valid finishes as submitted |
| Panel.PassStep | src/ux3270/panel/screen.py:346-401 | a pass continues only on an editable field and further into the input, and a submit finishes only with every value valid |
| Panel.PanelRun | src/ux3270/panel/screen.py:346-401 | the loop always finishes, and a submit only with every value valid |
| Panel.ShapeKeptTrans | src/ux3270/panel/screen.py:181-318 | keeping a value's bounds composes over successive edits |
| Panel.PassStepKeeps | src/ux3270/panel/screen.py:346-401 | a pass keeps every value's length and NUMERIC bounds and never changes a READONLY field |
| Panel.PanelRunKeeps | src/ux3270/panel/screen.py:346-401 | the whole loop keeps every value's bounds and never changes a READONLY field |
| Panel.Keyboard.constructor | src/ux3270/panel/screen.py:179 | the shared insert mode starts off |
| Panel.Screen.constructor | src/ux3270/panel/screen.py:33-47 | the title and panel id are upper-cased, with no fields, text or error |
| Panel.Screen.AddField | src/ux3270/panel/screen.py:49-60 | appends the field and changes nothing else |
| Panel.Screen.AddText | src/ux3270/panel/screen.py:62-75 | sets the text at its position and changes nothing else |
| Panel.Screen.GetInput | src/ux3270/panel/screen.py:181-318 | a READONLY field returns its value untouched; otherwise the value is the run's result unless cancelled, the insert mode carries over, and values stay within the length and NUMERIC values stay digits |
| Panel.Screen.EditFocused | src/ux3270/panel/screen.py:351-352 | `get_input` on the focused field is the visit: each field's value, the insert mode, the action and the input position are exactly what `VisitField` gives from the values before |
| Panel.Screen.ShowAllReadOnly | src/ux3270/panel/screen.py:340-344 | with no editable field the results are returned at once; the fields, the static text and the error message are kept |
| Panel.Screen.Pass | src/ux3270/panel/screen.py:346-401 | one pass of the loop is `PassStep` on the values before: the new values and insert mode are its, a continuing pass goes to its focus and position, and a finishing one ends as it says; the next focus is editable and a submit returns valid results; the static text is kept, and a finishing pass leaves no error message |
| Panel.Screen.ClearAndRender | src/ux3270/panel/screen.py:348-349 | the error message is cleared before each render; the fields and the static text are kept |
| Panel.Screen.Act | src/ux3270/panel/screen.py:354-401 | NEXT and PREV move to the next and previous editable fields, wrapping; CANCEL and the end of input finish; SUBMIT finishes with the results when every field is valid and otherwise keeps the focus — exactly as `AfterVisit` says; the static text is kept, and finishing leaves no error message |
| Panel.Screen.SubmitPass | src/ux3270/panel/screen.py:389-401 | submit returns the results when every field is valid, and otherwise stays on the field; the static text is kept, and a finishing submit leaves the message as it was |
| Panel.Screen.Show | src/ux3270/panel/screen.py:320-406 | no fields gives no outcome; with an editable field, the values, the insert mode and the way it finishes are those of `PanelRun` from the first editable field; a submitted result holds every value with all fields valid; READONLY values and shapes are kept; the static text is kept; the error message is clear after a run and unchanged otherwise |
| Panel.Screen.RunPasses | src/ux3270/panel/screen.py:346-401 | the loop of passes ends as `PanelRun` says, with its values and insert mode; the static text is kept and the error message ends clear |
| SelectionList.DecodeKey | src/ux3270/dialog/selection_list.py:246-283 | a key is a named key or the character read, and uses between 1 and the remaining characters; only a cut-off ESC sequence is incomplete |
| SelectionList.DecodeKeyRoundTrip | src/ux3270/dialog/selection_list.py:246-283 | decoding each named key's sequence, or a plain character, gives it back with its length |
| SelectionList.KeysRead | src/ux3270/dialog/selection_list.py:246-283 | reading one more key keeps the keys read a prefix of what the input decodes to |
| SelectionList.KeysUnfold | src/ux3270/dialog/selection_list.py:246-283 | the decoded keys from a position are the key there followed by the keys after it |
| SelectionList.NextKey | src/ux3270/dialog/selection_list.py:246-283 | `_read_key`: no key exactly when every key of the input has been read; otherwise one more key of the decoded input, using at least one character |
| SelectionList.ToggleS | src/ux3270/dialog/selection_list.py:362-370 | S marks the row exactly when it was not marked, and leaves at most one mark |
| SelectionList.ToggleSKeepsMarksOk | src/ux3270/dialog/selection_list.py:362-370 | marks stay on existing rows, with at most one of them |
| SelectionList.ToggleSTwice | src/ux3270/dialog/selection_list.py:362-370 | toggling twice restores a marked row, and clears every mark otherwise |
| SelectionList.IsSExactly | src/ux3270/dialog/selection_list.py:362 | only s and S toggle a mark |
| SelectionList.MoveCursor | src/ux3270/dialog/selection_list.py:339-360 | Up and Down step one row; F7 and PgUp, F8 and PgDn page with the cursor at the top, and only when there is a page to go to; the cursor stays on the page |
| SelectionList.Navigate | src/ux3270/dialog/selection_list.py:339-370 | movement keys keep the marks; S toggles the mark under the cursor; other keys change nothing |
| SelectionList.NavigateAll | src/ux3270/dialog/selection_list.py:305-370 | any sequence of keys keeps the cursor on the page and the marks valid |
| SelectionList.NavigateAllAppend | src/ux3270/dialog/selection_list.py:305-370 | one more key is one more step |
| SelectionList.Chosen | src/ux3270/dialog/selection_list.py:326-337 | Enter picks the S-marked row if there is one, and otherwise the row under the cursor |
| SelectionList.MarksEmptyOrS | src/ux3270/dialog/selection_list.py:326-337 | the action column is empty or holds one S mark |
| SelectionList.ReadKeys | src/ux3270/dialog/selection_list.py:305-370 | the keys read are the start of what the input decodes to, all of it when it runs out; the loop navigates with every key until one finishes |
| SelectionList.FinishedBy | src/ux3270/dialog/selection_list.py:305-337 | the key that ends the loop is the last one read, and none before it finishes |
| SelectionList.Finish | src/ux3270/dialog/selection_list.py:312-337 | an ending key has an outcome; Enter's selection is one of the rows |
| SelectionList.Run | src/ux3270/dialog/selection_list.py:295-377 | the keys read are those the input decodes to up to the one that ends the run, which ends as F3, F6 or Enter says, with the callback called at most once |
| SelectionList.SelectionList.constructor | src/ux3270/dialog/selection_list.py:35-54 | the title and panel id are upper-cased, with no rows and no callback |
| SelectionList.SelectionList.SetAddCallback | src/ux3270/dialog/selection_list.py:56-72 | a callback is installed |
| SelectionList.SelectionList.AddRow | src/ux3270/dialog/selection_list.py:74-85 | appends the row |
| SelectionList.SelectionList.AddRows | src/ux3270/dialog/selection_list.py:87-98 | appends the rows in order |
| SelectionList.SelectionList.CalculateWidths | src/ux3270/dialog/selection_list.py:100-112 | with columns, the widths are the widest header or value |
| SelectionList.SelectionList.Show | src/ux3270/dialog/selection_list.py:285-377 | an empty list returns None at once; otherwise the widths are computed, and the outcome and the new top row are those of the run over the decoded input |
| SelectionList.SelectionList.Settle | src/ux3270/dialog/selection_list.py:339-360 | stores the run's top row and callback count |
| Table.DecodeKey | src/ux3270/dialog/table.py:155-186 | a key is F3, F7, F8, ESC or the character read; only a cut-off ESC sequence is incomplete |
| Table.DecodeKeyRoundTrip | src/ux3270/dialog/table.py:155-186 | decoding each key's sequence gives it back with its length |
| Table.KeysRead | src/ux3270/dialog/table.py:155-186 | reading one more key keeps the keys read a prefix of what the input decodes to |
| Table.KeysUnfold | src/ux3270/dialog/table.py:155-186 | the decoded keys from a position are the key there followed by the keys after it |
| Table.NextKey | src/ux3270/dialog/table.py:155-186 | `_read_key`: no key exactly when every key of the input has been read; otherwise one more key of the decoded input, using at least one character |
| Table.ScrollStep | src/ux3270/dialog/table.py:212-222 | F7, k and K page back; F8, j and J page forward; every other key keeps the top |
| Table.Hints | src/ux3270/dialog/table.py:144-151 | F3 comes first and Enter last; F7=Up shows exactly when paging back is possible, and F8=Down exactly when paging forward is possible |
| Table.Count | src/ux3270/dialog/table.py:127-137 | no count for no rows; "ROWS n" when everything fits; otherwise "ROW first TO last OF n" for the visible range |
| Table.Table.constructor | src/ux3270/dialog/table.py:27-39 | the title is upper-cased, with no rows and the top at 0 |
| Table.Table.AddRow | src/ux3270/dialog/table.py:41-52 | appends the row |
| Table.Table.CalculateWidths | src/ux3270/dialog/table.py:54-64 | with columns, the widths are the widest header or cell |
| Table.Table.Show | src/ux3270/dialog/table.py:188-227 | the widths are computed; the keys read are the start of what the input decodes to; only the last closes the table (F3, Enter, q, Q, Ctrl+C), and the top row is the fold of the paging keys before it |
| Table.ReadUntilClosed | src/ux3270/dialog/table.py:200-222 | the loop reads the decoded input until a key closes the table; only the last key read closes it, and all the input is read when none does |
| Table.ScrollAllAppend | src/ux3270/dialog/table.py:200-222 | one more key is one more scroll step |
| Table.ScrollAllStaysInTable | src/ux3270/dialog/table.py:200-222 | after any keys the top row is still a row of the table, or 0 |
| TabularEntry.DecodeKey | src/ux3270/dialog/tabular_entry.py:276-326 | a key is a named key or the character read; only a cut-off ESC sequence is incomplete |
| TabularEntry.DecodeKeyRoundTrip | src/ux3270/dialog/tabular_entry.py:276-326 | decoding each named key's sequence gives it back with its length |
| TabularEntry.ShiftTabIsEsc | src/ux3270/dialog/tabular_entry.py:276-326 | ESC [ Z decodes as ESC, never as Shift+Tab |
| TabularEntry.KeysRead | src/ux3270/dialog/tabular_entry.py:276-326 | reading one more key keeps the keys read a prefix of what the input decodes to |
| TabularEntry.KeysUnfold | src/ux3270/dialog/tabular_entry.py:276-326 | the decoded keys from a position are the key there followed by the keys after it |
| TabularEntry.NextKey | src/ux3270/dialog/tabular_entry.py:276-326 | `_read_key`: no key exactly when every key of the input has been read; otherwise one more key of the decoded input, using at least one character |
| TabularEntry.EditCols | src/ux3270/dialog/tabular_entry.py:146-148 | exactly the editable columns, in increasing order |
| TabularEntry.RowCells | src/ux3270/dialog/tabular_entry.py:146-148 | one cell per editable column of the row |
| TabularEntry.RowCellsAppend | src/ux3270/dialog/tabular_entry.py:146-148 | one more editable column adds one cell at the end |
| TabularEntry.CellsInRange | src/ux3270/dialog/tabular_entry.py:142-150 | every cell is in the row range and in an editable column |
| TabularEntry.CellsComplete | src/ux3270/dialog/tabular_entry.py:142-150 | every editable column of every row in range has a cell |
| TabularEntry.CellsOrdered | src/ux3270/dialog/tabular_entry.py:142-150 | cells come in row-major order |
| TabularEntry.PageCells | src/ux3270/dialog/tabular_entry.py:142-150 | the page's cells are on the page and on existing rows, and there is one when the table has an editable column |
| TabularEntry.EditableCells | src/ux3270/dialog/tabular_entry.py:142-150 | the loop builds exactly the cells of the visible rows |
| TabularEntry.AddRowCells | src/ux3270/dialog/tabular_entry.py:146-148 | the inner loop appends one row's cells |
| TabularEntry.EditColsSnoc | src/ux3270/dialog/tabular_entry.py:146-148 | one more column adds its index when it is editable |
| TabularEntry.ColStartIncreasing | src/ux3270/dialog/tabular_entry.py:152-159 | every later column starts at least a width plus 3 further right |
| TabularEntry.ColPosition | src/ux3270/dialog/tabular_entry.py:152-159 | the loop gives the start of the column: 2 plus each earlier width plus 3 |
| TabularEntry.RowValues | src/ux3270/dialog/tabular_entry.py:113-118 | a new row's values hold exactly its editable columns, defaulting to "" |
| TabularEntry.Undotted | src/ux3270/dialog/tabular_entry.py:349 | removing dots and dashes leaves neither, and never lengthens the string |
| TabularEntry.CellErrorSpec | src/ux3270/dialog/tabular_entry.py:337-355 | a value passes exactly when it is not required-and-blank, is numeric in a NUMERIC column, and is accepted by the validator; blank values are only checked for required |
| TabularEntry.RowError | src/ux3270/dialog/tabular_entry.py:337-355 | a failing column is found only at or after the starting one |
| TabularEntry.RowErrorNone | src/ux3270/dialog/tabular_entry.py:337-355 | a row has no error exactly when every cell passes |
| TabularEntry.RowErrorSome | src/ux3270/dialog/tabular_entry.py:337-355 | the error found fails with its message, and every earlier column passes |
| TabularEntry.FirstError | src/ux3270/dialog/tabular_entry.py:336-357 | the failing cell found is in range |
| TabularEntry.FirstErrorNone | src/ux3270/dialog/tabular_entry.py:336-357 | no error exactly when every row passes |
| TabularEntry.FirstErrorSome | src/ux3270/dialog/tabular_entry.py:336-357 | the first failure in row-major order, with its message |
| TabularEntry.Validate | src/ux3270/dialog/tabular_entry.py:328-357 | the nested loops return exactly the first failure |
| TabularEntry.Merged | src/ux3270/dialog/tabular_entry.py:444 | each returned row is its data merged with its edits, the edits winning |
| TabularEntry.TypeInCell | src/ux3270/dialog/tabular_entry.py:526-541 | insert mode inserts while shorter than the width; overwrite replaces or appends while the cursor is inside the width; otherwise nothing |
| TabularEntry.EditCell | src/ux3270/dialog/tabular_entry.py:494-541 | the cursor stays in the value; only a stored edit changes it; only Insert flips the mode |
| TabularEntry.EditCellMoves | src/ux3270/dialog/tabular_entry.py:494-510 | cursor keys and Insert never write; Home and End go to the ends |
| TabularEntry.EditCellErases | src/ux3270/dialog/tabular_entry.py:511-524 | Ctrl+E keeps the text before the cursor; Backspace and Delete remove one character exactly when there is one |
| TabularEntry.EditCellTypes | src/ux3270/dialog/tabular_entry.py:526-541 | a printable character is stored exactly when the column accepts it; no edit grows past the width; NUMERIC cells keep only digits, dots and minus signs |
| TabularEntry.Clamp | src/ux3270/dialog/tabular_entry.py:389-401 | the focus is pulled back onto the page's cells and the cursor into the value; a valid focus is unchanged |
| TabularEntry.FindCell | src/ux3270/dialog/tabular_entry.py:426-439 | finds the first cell of the row in the given columns, or reports that none is there |
| TabularEntry.MoveVertical | src/ux3270/dialog/tabular_entry.py:468-492 | Up and Down go to the same column on the adjacent row when it is on the page, and clear the error |
| TabularEntry.NextCell | src/ux3270/dialog/tabular_entry.py:446-456 | Tab goes to the next cell, stopping at the last one, and clears the error |
| TabularEntry.EnterFailed | src/ux3270/dialog/tabular_entry.py:421-441 | a failed Enter shows the message and focuses the failing cell when it is on the page |
| TabularEntry.EditStep | src/ux3270/dialog/tabular_entry.py:494-541 | an editing key stores the cell's new value in its row under its column's name |
| TabularEntry.Step | src/ux3270/dialog/tabular_entry.py:387-556 | one loop pass keeps the state well formed |
| TabularEntry.StepFocused | src/ux3270/dialog/tabular_entry.py:387-556 | after every key the focus is on the page |
| TabularEntry.StepView | src/ux3270/dialog/tabular_entry.py:543-556 | F7 and F8 page with the focus at the first cell; other keys keep the page |
| TabularEntry.StepKeepsTop | src/ux3270/dialog/tabular_entry.py:418-541 | keys other than F7 and F8 never scroll |
| TabularEntry.StepValues | src/ux3270/dialog/tabular_entry.py:418-556 | only erasing and typing keys change the values |
| TabularEntry.StepModes | src/ux3270/dialog/tabular_entry.py:446-510 | Up, Down and Tab clear the error; only Insert flips the mode |
| TabularEntry.StepAll | src/ux3270/dialog/tabular_entry.py:387-556 | any keys keep the state well formed |
| TabularEntry.StepAllFocused | src/ux3270/dialog/tabular_entry.py:389-404 | after any keys the clamp at the loop top changes nothing |
| TabularEntry.NoneEndsExtend | src/ux3270/dialog/tabular_entry.py:387-556 | a key that does not end `show` extends the run of keys that did not |
| TabularEntry.ShowsEnded | src/ux3270/dialog/tabular_entry.py:387-556 | a run of keys none of which ends `show` is a run that the input's end ends |
| TabularEntry.ShowsEndedBy | src/ux3270/dialog/tabular_entry.py:418-441 | a run ended by its last key ends with Cancelled on F3 or Ctrl+C and otherwise with the merged rows |
| TabularEntry.Run | src/ux3270/dialog/tabular_entry.py:379-561 | the keys read are the start of what the input decodes to; the loop ends on F3 or Ctrl+C with None, on a valid Enter with the merged rows, or when the input runs out |
| TabularEntry.TabularEntry.constructor | src/ux3270/dialog/tabular_entry.py:62-79 | the title and panel id are upper-cased, with no columns, rows or error |
| TabularEntry.TabularEntry.AddColumn | src/ux3270/dialog/tabular_entry.py:81-100 | appends the column |
| TabularEntry.TabularEntry.AddRow | src/ux3270/dialog/tabular_entry.py:102-119 | appends the row and its initial values |
| TabularEntry.TabularEntry.Show | src/ux3270/dialog/tabular_entry.py:359-561 | no rows gives []; no editable cell gives the rows at once; otherwise the run's outcome, top row, values and error over the decoded input |
| TabularEntry.TabularEntry.Settle | src/ux3270/dialog/tabular_entry.py:543-556 | stores the run's top row, values and error |
| WorkWithList.DecodeKey | src/ux3270/dialog/work_with_list.py:246-277 | a key is a named key or the character read; only a cut-off ESC sequence is incomplete |
| WorkWithList.DecodeKeyRoundTrip | src/ux3270/dialog/work_with_list.py:246-277 | decoding each named key's sequence gives it back with its length |
| WorkWithList.KeysRead | src/ux3270/dialog/work_with_list.py:246-277 | reading one more key keeps the keys read a prefix of what the input decodes to |
| WorkWithList.KeysUnfold | src/ux3270/dialog/work_with_list.py:246-277 | the decoded keys from a position are the key there followed by the keys after it |
| WorkWithList.NextKey | src/ux3270/dialog/work_with_list.py:246-277 | `_read_key`: no key exactly when every key of the input has been read; otherwise one more key of the decoded input, using at least one character |
| WorkWithList.RequestsEmpty | src/ux3270/dialog/work_with_list.py:357-368 | Enter collects nothing exactly when no row asks for a defined action |
| WorkWithList.RequestsSound | src/ux3270/dialog/work_with_list.py:357-368 | each request is an upper-cased defined code with its row |
| WorkWithList.RequestsComplete | src/ux3270/dialog/work_with_list.py:357-368 | every row with a defined code is requested |
| WorkWithList.RequestsMembers | src/ux3270/dialog/work_with_list.py:357-368 | a request is collected exactly when its row asks for it |
| WorkWithList.CollectActions | src/ux3270/dialog/work_with_list.py:359-364 | the loop collects the requests in row order |
| WorkWithList.TabAsWritten | src/ux3270/dialog/work_with_list.py:348-355 | Tab as written: like Down, except at the bottom line, where the cursor jumps to the first line |
| WorkWithList.TabAsWrittenMovesBack | src/ux3270/dialog/work_with_list.py:348-355 | with 3 rows to a page and 5 rows, Tab on row 2 selects row 1, where Down selects row 3 |
| WorkWithList.TabAsWrittenMovesBackAlways | src/ux3270/dialog/work_with_list.py:348-355 | on every page of three rows or more, Tab at the bottom line selects an earlier row |
| WorkWithList.MoveCursor | src/ux3270/dialog/work_with_list.py:320-355 | the cursor stays on the page and on an existing row |
| WorkWithList.MoveCursorMoves | src/ux3270/dialog/work_with_list.py:320-355 | F7 and F8 page with the cursor at the top; Up steps back; Down and Tab step forward; other keys and impossible pages change nothing |
| WorkWithList.Step | src/ux3270/dialog/work_with_list.py:320-384 | typing stores the upper-cased code and advances; Backspace clears the code; other keys only move |
| WorkWithList.StepAll | src/ux3270/dialog/work_with_list.py:300-384 | any keys keep the state well formed |
| WorkWithList.StepAllAppend | src/ux3270/dialog/work_with_list.py:300-384 | one more key is one more step |
| WorkWithList.Outcome | src/ux3270/dialog/work_with_list.py:310-368 | an ending key has an outcome, and Enter's requests are sound |
| WorkWithList.NoneEndsExtend | src/ux3270/dialog/work_with_list.py:300-384 | a key that does not end `show` extends the run |
| WorkWithList.ShowsEnded | src/ux3270/dialog/work_with_list.py:300-384 | a run of keys none of which ends `show` is a run that the input's end ends |
| WorkWithList.ShowsEndedBy | src/ux3270/dialog/work_with_list.py:310-368 | a run ended by its last key has that key's outcome, with the callback run once for F6 |
| WorkWithList.Run | src/ux3270/dialog/work_with_list.py:300-387 | the keys read are the start of what the input decodes to; the loop ends on F3, Ctrl+C, F6 or a productive Enter, or when the input runs out, with the callback called at most once |
| WorkWithList.WorkWithList.constructor | src/ux3270/dialog/work_with_list.py:40-59 | the title and panel id are upper-cased, with the default instruction, and no rows or actions |
| WorkWithList.WorkWithList.AddAction | src/ux3270/dialog/work_with_list.py:61-73 | the code is upper-cased and stored with its description |
| WorkWithList.WorkWithList.SetAddCallback | src/ux3270/dialog/work_with_list.py:75-87 | a callback is installed |
| WorkWithList.WorkWithList.AddRow | src/ux3270/dialog/work_with_list.py:89-101 | appends the row with an empty action field |
| WorkWithList.WorkWithList.RefreshData | src/ux3270/dialog/work_with_list.py:389-398 | replaces the rows, clears every action field and returns to the top |
| WorkWithList.WorkWithList.CalculateWidths | src/ux3270/dialog/work_with_list.py:103-115 | the widths are the widest header or value |
| WorkWithList.WorkWithList.Show | src/ux3270/dialog/work_with_list.py:279-387 | the outcome, top row, action fields and callback count are those of the run over the decoded input |
| WorkWithList.WorkWithList.Settle | src/ux3270/dialog/work_with_list.py:320-384 | stores the run's top row, action fields and callback count |

## Left out

- Terminal I/O is not modelled: drawing, colours, cursor positioning, raw mode and terminal size. The height is a parameter, and the key stream is a `seq<char>`.
- `src/ux3270/panel/field.py` and `colors.py` are not part of this model. The panel's fields use the `Field` of `ux3270/field.py`.
- End of input: when the keys run out before a dialog returns, the outcome is `InputEnded`. At that point the program would wait for more keys, or read "" and loop.
- Callbacks are modelled without their effects:
  - Menu actions are logged as the index of the item whose action ran.
  - The F6 "add" callback is a parameter (its result) plus a call counter.
  - Validators are total functions on strings.
- `KeyboardInterrupt` (`src/ux3270/panel/screen.py:403-406`) is not modelled, because it is asynchronous.
- `Menu.run` and the older `Menu.run` are not modelled. They only repeat `show` until it exits.
- A panel whose fields are all READONLY waits for one `input()` before returning. That wait is not modelled.
- The order in which the selection list scans its `actions` dict on Enter is not modelled. It holds at most one mark, so the order does not matter.
- Four branches of tabular entry's `show` cannot be reached, and are modelled as dead branches (`assert false`):
  - the Enter jump to an error row off the page: the error cell is only searched among the page's cells;
  - the scroll in Tab: the focus never leaves the page;
  - the Shift+Tab branch: `_read_key` returns ESC for ESC [ Z;
  - `if not cells: break` in the loop.
- The `ValueError` that `show` raises on a panel with no fields is modelled as the outcome `NoFields`.
- Values are kept as strings. `str()` of arbitrary row values is not modelled.
- `isprintable`, `isdigit`, `upper` and `strip` are modelled on ASCII only.
- The tabular entry's insert mode is local to one `show`, as in the source. The panel's class-level insert mode is a `Keyboard` object shared by the screens.
- TabularEntry.ColStartIncreasing: holds only for non-negative column widths. Python accepts negative widths, but they make no layout sense.
- Password fields are echoed as `*` on the screen only. Display is not modelled, so a password field edits like a text field.
- Table.Count describes the count line by its numbers, not by its text.
- WorkWithList.MoveCursor: Tab is the corrected one (a step down, as `MoveDown`), so `Step`, `Run` and `Show` follow the intended behaviour of `src/ux3270/dialog/work_with_list.py:348-355` and not the code as written; the code as written is `TabAsWritten`, see "## Findings".

## Findings

| source | as written | input that shows it | evidently intended | confidence | as-written member | corrected member |
|---|---|---|---|---|---|---|
| src/ux3270/dialog/work_with_list.py:348-355 | Tab on the bottom line of a page scrolls by one row and puts the cursor on the first line, so it selects an earlier row | 3 rows to a page, 5 rows, cursor on row 2 (top 0, line 2): Tab selects row 1 | Tab moves to the next row, as its comment says and as Down and the auto-advance after typing do | not executed | WorkWithList.TabAsWrittenMovesBack | WorkWithList.MoveCursorMoves |
