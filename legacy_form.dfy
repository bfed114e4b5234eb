/** The form builder of ux3270_ui/form.py, on the older panel of
    ux3270/screen.py: the same two-row stacking, starting on row 2. */
module LegacyForm {
  import opened Common
  import opened Fields
  import opened Panel
  import opened LegacyScreen
  import opened Form

  const LEGACY_BODY_ROW: int := 2

  class LegacyForm {
    const title: string
    const screen: LegacyScreen
    var currentRow: int
    /** The row of every field and text added so far, in order. */
    ghost var itemRows: seq<int>

    ghost predicate Valid()
      reads this
    {
      Stacked(itemRows, LEGACY_BODY_ROW) && currentRow == NextRow(itemRows, LEGACY_BODY_ROW)
    }

    /** The form keeps the title exactly as given; only the panel upper-cases it. */
    constructor (title: string)
      ensures this.title == title && screen.title == UpperStr(title)
      ensures screen.fields == [] && screen.staticText == map[] && fresh(screen)
      ensures screen.errorMessage == "" && !screen.errorShown
      ensures currentRow == LEGACY_BODY_ROW && itemRows == [] && Valid()
    {
      this.title := title;
      screen := new LegacyScreen(title);
      currentRow := LEGACY_BODY_ROW;
      itemRows := [];
    }

    /** `add_field`: a new field on the current row at column 20, carrying
        exactly the given attributes; the next item goes two rows lower. */
    method AddField(labelText: string, length: nat, fieldType: FieldType, defaultValue: string,
                    required: bool, validator: Option<Validator>) returns (field: Field)
      requires Valid()
      modifies this, screen
      ensures Valid() && itemRows == old(itemRows) + [old(currentRow)]
      ensures currentRow == old(currentRow) + 2
      ensures fresh(field) && screen.fields == old(screen.fields) + [field]
      ensures field.row == old(currentRow) && field.col == FIELD_COL
      ensures field.labelText == labelText && field.length == length && field.fieldType == fieldType
      ensures field.defaultValue == defaultValue && field.value == defaultValue
      ensures field.required == required && field.validator == validator
      ensures screen.staticText == old(screen.staticText)
      ensures screen.errorMessage == old(screen.errorMessage) && screen.errorShown == old(screen.errorShown)
    {
      field := new Field(currentRow, FIELD_COL, length, fieldType, labelText, defaultValue, required, validator);
      screen.AddField(field);
      itemRows := itemRows + [currentRow];
      currentRow := currentRow + 2;
    }

    /** `add_text`: the text on the current row at column 2; the next item
        goes two rows lower. */
    method AddText(text: string)
      requires Valid()
      modifies this, screen
      ensures Valid() && itemRows == old(itemRows) + [old(currentRow)]
      ensures currentRow == old(currentRow) + 2
      ensures screen.staticText == old(screen.staticText)[(old(currentRow), LABEL_COL) := text]
      ensures screen.fields == old(screen.fields)
      ensures screen.errorMessage == old(screen.errorMessage) && screen.errorShown == old(screen.errorShown)
    {
      screen.AddText(currentRow, LABEL_COL, text);
      itemRows := itemRows + [currentRow];
      currentRow := currentRow + 2;
    }

    /** `show` is the older panel's `show`. */
    method Show(input: seq<char>) returns (outcome: ShowOutcome)
      modifies screen, screen.fields
      ensures screen.fields == old(screen.fields) && screen.staticText == old(screen.staticText)
      ensures outcome == NoFields <==> |screen.fields| == 0
      ensures HasEditable(screen.fields) ==> screen.errorMessage == ""
      ensures !HasEditable(screen.fields) ==> screen.errorMessage == old(screen.errorMessage)
      ensures outcome.Submitted? ==> IsResultsOf(screen.fields, outcome.results)
      ensures outcome.Submitted? && HasEditable(screen.fields) ==> AllValid(screen.fields)
      ensures HasEditable(screen.fields) ==>
                var run := LegacyPanelRun(screen.fields, old(Values(screen.fields)),
                                          FirstEditableFrom(screen.fields, 0), input, 0);
                Values(screen.fields) == run.values && FinishedAs(run.finish, outcome)
      ensures ReadOnlyKept(screen.fields, old(Values(screen.fields)))
      ensures ShapesKept(screen.fields, old(Values(screen.fields)))
    {
      outcome := screen.Show(input);
    }
  }
}
