/** The form builder of src/ux3270/dialog/form.py: fields and text lines
    stacked two rows apart under the panel chrome, labels at column 2 and
    input fields at column 20. */
module Form {
  import opened Common
  import opened Fields
  import opened Panel

  // BODY_START_ROW of the form: below the title, instruction and a blank row.
  const FORM_BODY_ROW: int := 3
  const LABEL_COL: int := 2
  const FIELD_COL: int := 20

  /** Item i of a form that starts at `start` sits on row start + 2i, so item
      rows strictly increase and leave one blank row between items. */
  predicate Stacked(rows: seq<int>, start: int) {
    forall i :: 0 <= i < |rows| ==> rows[i] == start + 2 * i
  }

  /** The next free row after the items already placed. */
  function NextRow(rows: seq<int>, start: int): (r: int)
    requires Stacked(rows, start)
    ensures forall i :: 0 <= i < |rows| ==> rows[i] < r
    ensures r - start == 2 * |rows|
    ensures Stacked(rows + [r], start)
  {
    start + 2 * |rows|
  }

  class Form {
    const title: string
    const screen: Screen
    var currentRow: int
    /** The row of every field and text added so far, in order. */
    ghost var itemRows: seq<int>

    ghost predicate Valid()
      reads this
    {
      Stacked(itemRows, FORM_BODY_ROW) && currentRow == NextRow(itemRows, FORM_BODY_ROW)
    }

    /** The title is upper-cased here and again by the panel, which changes
        nothing the second time. */
    constructor (title: string, panelId: string, instruction: string, keyboard: Keyboard)
      ensures this.title == UpperStr(title) && screen.title == this.title
      ensures screen.panelId == UpperStr(panelId) && screen.instruction == instruction
      ensures screen.keyboard == keyboard && screen.fields == [] && screen.staticText == map[]
      ensures fresh(screen)
      ensures screen.errorMessage == "" && !screen.errorShown
      ensures currentRow == FORM_BODY_ROW && itemRows == [] && Valid()
    {
      this.title := UpperStr(title);
      UpperStrIdempotent(title);
      screen := new Screen(UpperStr(title), panelId, instruction, keyboard);
      currentRow := FORM_BODY_ROW;
      itemRows := [];
    }

    /** `add_field`: a new field on the current row at column 20, carrying
        exactly the given attributes, appended to the panel; the next item
        goes two rows lower. */
    method AddField(labelText: string, length: nat, fieldType: FieldType, defaultValue: string,
                    required: bool, validator: Option<Validator>) returns (field: Field)
      requires Valid()
      modifies this, screen
      ensures Valid() && itemRows == old(itemRows) + [old(currentRow)]
      ensures currentRow == old(currentRow) + 2
      ensures fresh(field) && screen.fields == old(screen.fields) + [field]
      ensures field.row == old(currentRow) && field.col == FIELD_COL
      ensures field.labelText == labelText && field.length == length && field.fieldType == fieldType
      ensures field.defaultValue == defaultValue && field.value == defaultValue
      ensures field.required == required && field.validator == validator
      ensures screen.staticText == old(screen.staticText)
      ensures screen.errorMessage == old(screen.errorMessage) && screen.errorShown == old(screen.errorShown)
    {
      field := new Field(currentRow, FIELD_COL, length, fieldType, labelText, defaultValue, required, validator);
      screen.AddField(field);
      itemRows := itemRows + [currentRow];
      currentRow := currentRow + 2;
    }

    /** `add_text`: the text on the current row at column 2; the next item
        goes two rows lower. */
    method AddText(text: string)
      requires Valid()
      modifies this, screen
      ensures Valid() && itemRows == old(itemRows) + [old(currentRow)]
      ensures currentRow == old(currentRow) + 2
      ensures screen.staticText == old(screen.staticText)[(old(currentRow), LABEL_COL) := text]
      ensures screen.fields == old(screen.fields)
      ensures screen.errorMessage == old(screen.errorMessage) && screen.errorShown == old(screen.errorShown)
    {
      screen.AddText(currentRow, LABEL_COL, text);
      itemRows := itemRows + [currentRow];
      currentRow := currentRow + 2;
    }

    /** `show` is the panel's `show`. */
    method Show(input: seq<char>) returns (outcome: ShowOutcome)
      modifies screen, screen.keyboard, screen.fields
      ensures screen.fields == old(screen.fields) && screen.staticText == old(screen.staticText)
      ensures outcome == NoFields <==> |screen.fields| == 0
      ensures HasEditable(screen.fields) ==> screen.errorMessage == ""
      ensures !HasEditable(screen.fields) ==> screen.errorMessage == old(screen.errorMessage)
      ensures outcome.Submitted? ==> IsResultsOf(screen.fields, outcome.results)
      ensures outcome.Submitted? && HasEditable(screen.fields) ==> AllValid(screen.fields)
      ensures HasEditable(screen.fields) ==>
                var run := PanelRun(screen.fields, old(Values(screen.fields)), old(screen.keyboard.insertMode),
                                    FirstEditableFrom(screen.fields, 0), input, 0);
                && Values(screen.fields) == run.values && screen.keyboard.insertMode == run.insert
                && FinishedAs(run.finish, outcome)
      ensures ReadOnlyKept(screen.fields, old(Values(screen.fields)))
      ensures ShapesKept(screen.fields, old(Values(screen.fields)))
    {
      outcome := screen.Show(input);
    }
  }
}
