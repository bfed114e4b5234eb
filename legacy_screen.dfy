/** The older panel of ux3270/screen.py. Its `show`, focus movement,
    validation and `_get_results` are those of the newer panel (module Panel);
    its `get_input` is simpler: insert-only typing at the cursor, Backspace,
    and a shorter list of escape sequences, with no cursor movement. */
module LegacyScreen {
  import opened Common
  import opened Fields
  import opened Editor
  import opened Panel

  /** The escape handling of the older `get_input`: `ESC [ Z` is Shift+Tab,
      `ESC [ 1 3 x` and `ESC O R` are F3; every other sequence is swallowed
      (`ESC [ 1 x` after four characters, `ESC [ x` and `ESC O x` after
      three, `ESC x` after two). */
  function DecodeLegacyKey(input: seq<char>, p: nat): (r: Option<(EditKey, nat)>)
    requires p <= |input|
    ensures r.Some? ==> 1 <= r.value.1 <= |input| - p
    ensures r.Some? ==> r.value.0 in {Enter, Tab, BackTab, F3, CtrlC, Backspace, Ignored} || r.value.0.Printable?
    ensures r.Some? && r.value.0.Printable? ==> r.value.1 == 1 && IsPrintable(r.value.0.c)
    ensures r.None? ==> |input| - p < 5 && (p == |input| || input[p] == ESC)
  {
    var n := |input| - p;
    if p == |input| then None
    else if input[p] == CR || input[p] == LF then Some((Enter, 1))
    else if input[p] == TAB then Some((Tab, 1))
    else if input[p] == ESC then
      if n < 2 then None
      else if input[p + 1] == '[' then
        if n < 3 then None
        else if input[p + 2] == 'Z' then Some((BackTab, 3))
        else if input[p + 2] == '1' then
          if n < 4 then None
          else if input[p + 3] == '3' then (if n < 5 then None else Some((F3, 5)))
          else Some((Ignored, 4))
        else Some((Ignored, 3))
      else if input[p + 1] == 'O' then
        if n < 3 then None
        else if input[p + 2] == 'R' then Some((F3, 3))
        else Some((Ignored, 3))
      else Some((Ignored, 2))
    else if input[p] == DEL || input[p] == BS then Some((Backspace, 1))
    else if input[p] == CTRL_C then Some((CtrlC, 1))
    else if IsPrintable(input[p]) then Some((Printable(input[p]), 1))
    else Some((Ignored, 1))
  }

  /** The terminal sequence of each key the older editor tells apart. */
  function EncodeLegacyKey(k: EditKey): (s: seq<char>)
    requires k in {Enter, Tab, BackTab, F3, CtrlC, Backspace} || k.Printable?
  {
    match k
    case Enter => [CR]
    case Tab => [TAB]
    case BackTab => [ESC, '[', 'Z']
    case F3 => [ESC, 'O', 'R']
    case CtrlC => [CTRL_C]
    case Backspace => [DEL]
    case Printable(c) => [c]
  }

  /** Each key comes back from its terminal sequence, wherever it stands in
      the input and whatever follows it. */
  lemma DecodeLegacyKeyRoundTrip(k: EditKey, before: seq<char>, rest: seq<char>)
    requires k in {Enter, Tab, BackTab, F3, CtrlC, Backspace} || (k.Printable? && IsPrintable(k.c))
    ensures DecodeLegacyKey(before + EncodeLegacyKey(k) + rest, |before|) == Some((k, |EncodeLegacyKey(k)|))
  {
    var s := before + EncodeLegacyKey(k) + rest;
    assert forall i :: 0 <= i < |EncodeLegacyKey(k)| ==> s[|before| + i] == EncodeLegacyKey(k)[i];
  }

  /** The longer F3 sequence `ESC [ 1 3 x` is read whatever its fifth
      character is. */
  lemma DecodeLegacyLongF3(c: char, before: seq<char>, rest: seq<char>)
    ensures DecodeLegacyKey(before + [ESC, '[', '1', '3', c] + rest, |before|) == Some((F3, 5))
  {
    var s := before + [ESC, '[', '1', '3', c] + rest;
    assert s[|before|] == ESC && s[|before| + 1] == '[' && s[|before| + 2] == '1' && s[|before| + 3] == '3';
  }

  /** One key of the older `get_input`. Enter, Tab and Shift+Tab leave with
      SUBMIT, NEXT and PREV, F3 and Ctrl+C with CANCEL. Typing inserts at the
      cursor, and only a printable character while the value is shorter than
      the field (a NUMERIC field takes digits only); Backspace removes the
      character before the cursor. There is no overwrite mode. */
  function LegacyStep(st: EditorState, key: EditKey, length: nat, numeric: bool): (r: StepResult)
    requires CursorInRange(st)
    ensures r.Leave? <==> key in {Enter, Tab, BackTab, F3, CtrlC}
    ensures r.Leave? ==> r.action == match key
                                       case Enter => Submit
                                       case Tab => Next
                                       case BackTab => Prev
                                       case _ => Cancel
    ensures r.Editing? ==> CursorInRange(r.state) && r.state.insertMode == st.insertMode
    ensures r.Editing? && st.cursor == |st.value| ==> r.state.cursor == |r.state.value|
    ensures r.Editing? && |st.value| <= length ==> |r.state.value| <= length
    ensures r.Editing? && numeric && AllDigits(st.value) ==> AllDigits(r.state.value)
  {
    match key
    case Enter => Leave(Submit)
    case Tab => Leave(Next)
    case BackTab => Leave(Prev)
    case F3 => Leave(Cancel)
    case CtrlC => Leave(Cancel)
    case Backspace =>
      if st.cursor > 0 then
        Editing(st.(value := st.value[..st.cursor - 1] + st.value[st.cursor..], cursor := st.cursor - 1))
      else Editing(st)
    case Printable(c) =>
      if |st.value| < length && (!numeric || IsDigit(c)) then
        Editing(st.(value := st.value[..st.cursor] + [c] + st.value[st.cursor..], cursor := st.cursor + 1))
      else Editing(st)
    case _ => Editing(st)
  }

  /** A printable character is inserted at the cursor while the field has
      room (and, in a NUMERIC field, it is a digit), otherwise nothing
      changes; Backspace removes the character before the cursor. */
  lemma LegacyStepEdits(st: EditorState, key: EditKey, length: nat, numeric: bool)
    requires CursorInRange(st)
    ensures var r := LegacyStep(st, key, length, numeric);
      && (key.Printable? && |st.value| < length && (!numeric || IsDigit(key.c)) ==>
            r.state.value == st.value[..st.cursor] + [key.c] + st.value[st.cursor..] && r.state.cursor == st.cursor + 1)
      && (key.Printable? && (|st.value| >= length || (numeric && !IsDigit(key.c))) ==> r == Editing(st))
      && (key == Backspace && st.cursor > 0 ==>
            r.state.value == st.value[..st.cursor - 1] + st.value[st.cursor..] && r.state.cursor == st.cursor - 1)
      && (key == Backspace && st.cursor == 0 ==> r == Editing(st))
  {
  }

  /** The older `get_input` loop over the whole input. */
  function LegacyRun(st: EditorState, input: seq<char>, pos: nat, length: nat, numeric: bool): RunResult
    requires pos <= |input| && CursorInRange(st)
    decreases |input| - pos
  {
    match DecodeLegacyKey(input, pos)
    case None => RunResult(st, None, pos)
    case Some((key, n)) =>
      match LegacyStep(st, key, length, numeric)
      case Leave(a) => RunResult(st, Some(a), pos + n)
      case Editing(st') => LegacyRun(st', input, pos + n, length, numeric)
  }

  /** Having no cursor keys, the older editor keeps the cursor at the end of
      the value for the whole session, so typing always appends; the run
      consumes input and a key that leaves has been consumed. */
  lemma {:induction false} LegacyRunKeepsCursor(st: EditorState, input: seq<char>, pos: nat, length: nat, numeric: bool)
    requires pos <= |input| && st.cursor == |st.value|
    ensures var r := LegacyRun(st, input, pos, length, numeric);
            && r.state.cursor == |r.state.value|
            && pos <= r.next <= |input|
            && (r.action.Some? ==> pos < r.next)
    decreases |input| - pos
  {
    var d := DecodeLegacyKey(input, pos);
    if d.Some? {
      var key, n := d.value.0, d.value.1;
      var step := LegacyStep(st, key, length, numeric);
      if step.Editing? {
        LegacyRunKeepsCursor(step.state, input, pos + n, length, numeric);
        assert LegacyRun(st, input, pos, length, numeric) == LegacyRun(step.state, input, pos + n, length, numeric);
      } else {
        assert LegacyRun(st, input, pos, length, numeric) == RunResult(st, Some(step.action), pos + n);
      }
    }
  }

  /** The value never outgrows its field and a NUMERIC value stays all digits. */
  lemma {:induction false} LegacyRunKeepsBounds(st: EditorState, input: seq<char>, pos: nat, length: nat, numeric: bool)
    requires pos <= |input| && CursorInRange(st)
    ensures var r := LegacyRun(st, input, pos, length, numeric);
            && (|st.value| <= length ==> |r.state.value| <= length)
            && (numeric && AllDigits(st.value) ==> AllDigits(r.state.value))
    decreases |input| - pos
  {
    var d := DecodeLegacyKey(input, pos);
    if d.Some? {
      var key, n := d.value.0, d.value.1;
      var step := LegacyStep(st, key, length, numeric);
      if step.Editing? {
        LegacyRunKeepsBounds(step.state, input, pos + n, length, numeric);
        assert LegacyRun(st, input, pos, length, numeric) == LegacyRun(step.state, input, pos + n, length, numeric);
      }
    }
  }

  /** The key loop of the older `get_input`, computing the session
      `LegacyRun` describes. */
  method LegacyLoop(start: EditorState, input: seq<char>, pos: nat, length: nat, numeric: bool)
    returns (r: RunResult)
    requires pos <= |input| && CursorInRange(start)
    ensures r == LegacyRun(start, input, pos, length, numeric)
  {
    var st := start;
    var next := pos;
    while true
      invariant next <= |input| && CursorInRange(st)
      invariant LegacyRun(start, input, pos, length, numeric) == LegacyRun(st, input, next, length, numeric)
      decreases |input| - next
    {
      var decoded := DecodeLegacyKey(input, next);
      if decoded.None? {
        return RunResult(st, None, next);
      }
      var (key, used) := decoded.value;
      var step := LegacyStep(st, key, length, numeric);
      if step.Leave? {
        return RunResult(st, Some(step.action), next + used);
      }
      assert LegacyRun(st, input, next, length, numeric) == LegacyRun(step.state, input, next + used, length, numeric);
      st, next := step.state, next + used;
    }
  }

  /** The older `get_input` on field `idx` when the panel holds `vals`: the
      session starts in insert mode with the cursor at the end of the value,
      and the edited value is stored unless it ended with CANCEL or with the
      input. */
  function LegacyVisitField(fields: seq<Field>, vals: seq<string>, idx: nat, input: seq<char>, pos: nat): (v: Visit)
    requires |vals| == |fields| && idx < |fields| && pos <= |input|
    ensures |v.values| == |fields| && pos <= v.next <= |input| && v.insert
    ensures v.action.Some? ==> pos < v.next
    ensures v.action.None? || v.action == Some(Cancel) ==> v.values == vals
  {
    var start := EditorState(vals[idx], |vals[idx]|, true);
    var numeric := fields[idx].fieldType == Numeric;
    var r := LegacyRun(start, input, pos, fields[idx].length, numeric);
    LegacyRunKeepsCursor(start, input, pos, fields[idx].length, numeric);
    LegacyRunInsertMode(start, input, pos, fields[idx].length, numeric);
    var stored := r.action.Some? && r.action.value != Cancel;
    Visit(r.action, r.next, if stored then SetValue(fields, vals, idx, r.state.value) else vals, true)
  }

  /** The older editor never leaves insert mode. */
  lemma {:induction false} LegacyRunInsertMode(st: EditorState, input: seq<char>, pos: nat, length: nat, numeric: bool)
    requires pos <= |input| && CursorInRange(st)
    ensures LegacyRun(st, input, pos, length, numeric).state.insertMode == st.insertMode
    decreases |input| - pos
  {
    var d := DecodeLegacyKey(input, pos);
    if d.Some? {
      var key, n := d.value.0, d.value.1;
      var step := LegacyStep(st, key, length, numeric);
      if step.Editing? {
        LegacyRunInsertMode(step.state, input, pos + n, length, numeric);
        assert LegacyRun(st, input, pos, length, numeric) == LegacyRun(step.state, input, pos + n, length, numeric);
      }
    }
  }

  /** One pass of the older `show` on the values: a visit, then the same
      handling of the action as the newer panel's. */
  function LegacyPassStep(fields: seq<Field>, vals: seq<string>, idx: nat, input: seq<char>, pos: nat): (s: PassResult)
    requires |vals| == |fields| && idx < |fields| && Editable(fields[idx]) && pos <= |input|
    ensures |s.values| == |fields|
    ensures s.Go? ==> s.idx < |fields| && Editable(fields[s.idx]) && pos < s.pos <= |input|
    ensures s.Stop? && s.finish == BySubmit ==> ValuesValid(fields, s.values)
  {
    AfterVisit(fields, idx, LegacyVisitField(fields, vals, idx, input, pos))
  }

  /** The whole older `show` loop on the values. */
  function LegacyPanelRun(fields: seq<Field>, vals: seq<string>, idx: nat, input: seq<char>, pos: nat): (s: PassResult)
    requires |vals| == |fields| && idx < |fields| && Editable(fields[idx]) && pos <= |input|
    ensures s.Stop? && |s.values| == |fields|
    ensures s.finish == BySubmit ==> ValuesValid(fields, s.values)
    decreases |input| - pos
  {
    var s := LegacyPassStep(fields, vals, idx, input, pos);
    if s.Stop? then s else LegacyPanelRun(fields, s.values, s.idx, input, s.pos)
  }

  /** An older pass never breaks a value's shape and never changes a
      READONLY field. */
  lemma LegacyPassStepKeeps(fields: seq<Field>, before: seq<string>, vals: seq<string>, idx: nat,
                            input: seq<char>, pos: nat)
    requires |vals| == |fields| && idx < |fields| && Editable(fields[idx]) && pos <= |input|
    requires |before| == |fields| && Consistent(fields, before)
    requires ShapesKeptIn(fields, before, vals) && ReadOnlyKeptIn(fields, before, vals)
    ensures var s := LegacyPassStep(fields, vals, idx, input, pos);
            ShapesKeptIn(fields, before, s.values) && ReadOnlyKeptIn(fields, before, s.values)
  {
    var f := fields[idx];
    var start := EditorState(vals[idx], |vals[idx]|, true);
    var numeric := f.fieldType == Numeric;
    var r := LegacyRun(start, input, pos, f.length, numeric);
    LegacyRunKeepsBounds(start, input, pos, f.length, numeric);
    var s := LegacyPassStep(fields, vals, idx, input, pos);
    forall i | 0 <= i < |fields|
      ensures ShapeKept(fields[i].length, fields[i].fieldType == Numeric, before[i], s.values[i])
    {
      if fields[i] == f && s.values != vals {
        assert s.values[i] == r.state.value;
        ShapeKeptTrans(f.length, numeric, before[i], vals[idx], r.state.value);
      }
    }
  }

  /** Over the whole older `show` loop no value loses its shape and no
      READONLY field changes. */
  lemma {:induction false} LegacyPanelRunKeeps(fields: seq<Field>, before: seq<string>, vals: seq<string>,
                                               idx: nat, input: seq<char>, pos: nat)
    requires |vals| == |fields| && idx < |fields| && Editable(fields[idx]) && pos <= |input|
    requires |before| == |fields| && Consistent(fields, before)
    requires ShapesKeptIn(fields, before, vals) && ReadOnlyKeptIn(fields, before, vals)
    ensures var s := LegacyPanelRun(fields, vals, idx, input, pos);
            ShapesKeptIn(fields, before, s.values) && ReadOnlyKeptIn(fields, before, s.values)
    decreases |input| - pos
  {
    LegacyPassStepKeeps(fields, before, vals, idx, input, pos);
    var s := LegacyPassStep(fields, vals, idx, input, pos);
    if s.Go? {
      LegacyPanelRunKeeps(fields, before, s.values, s.idx, input, s.pos);
    }
  }

  class LegacyScreen {
    const title: string
    var fields: seq<Field>
    var staticText: map<(int, int), string>
    var errorMessage: string
    /** Whether some render has put a non-empty message on the message line. */
    ghost var errorShown: bool

    /** The title is stored upper-cased. */
    constructor (title: string)
      ensures this.title == UpperStr(title)
      ensures fields == [] && staticText == map[] && errorMessage == "" && !errorShown
    {
      this.title := UpperStr(title);
      fields := [];
      staticText := map[];
      errorMessage := "";
      errorShown := false;
    }

    method AddField(field: Field)
      modifies this
      ensures fields == old(fields) + [field]
      ensures staticText == old(staticText) && errorMessage == old(errorMessage)
      ensures errorShown == old(errorShown)
    {
      fields := fields + [field];
    }

    method AddText(row: int, col: int, text: string)
      modifies this
      ensures staticText == old(staticText)[(row, col) := text]
      ensures fields == old(fields) && errorMessage == old(errorMessage)
      ensures errorShown == old(errorShown)
    {
      staticText := staticText[(row, col) := text];
    }

    /** The older `get_input`: SUBMIT, NEXT and PREV write the value back;
        CANCEL and the end of the input leave the field as it was. */
    method GetInput(field: Field, input: seq<char>, pos: nat) returns (exit: EditorExit, next: nat)
      requires pos <= |input|
      modifies field
      ensures field.fieldType == ReadOnly ==>
                exit == ReadOnlyValue(old(field.value)) && next == pos && field.value == old(field.value)
      ensures field.fieldType != ReadOnly ==>
                var r := LegacyRun(EditorState(old(field.value), |old(field.value)|, true),
                                   input, pos, field.length, field.fieldType == Numeric);
                && next == r.next
                && exit == (if r.action.Some? then Action(r.action.value) else OutOfInput)
                && field.value == (if r.action.Some? && r.action.value != Cancel then r.state.value
                                   else old(field.value))
      ensures pos <= next <= |input| && (exit.Action? ==> pos < next)
      ensures ValueKeepsShape(field, old(field.value))
    {
      if field.fieldType == ReadOnly {
        return ReadOnlyValue(field.value), pos;
      }
      var start := EditorState(field.value, |field.value|, true);
      var r := LegacyLoop(start, input, pos, field.length, field.fieldType == Numeric);
      LegacyRunKeepsCursor(start, input, pos, field.length, field.fieldType == Numeric);
      LegacyRunKeepsBounds(start, input, pos, field.length, field.fieldType == Numeric);
      next := r.next;
      if r.action.None? {
        exit := OutOfInput;
      } else {
        if r.action.value != Cancel {
          field.value := r.state.value;
        }
        exit := Action(r.action.value);
      }
    }

    /** One visit of the focus: only that field object's value can change,
        as `LegacyVisitField` describes. */
    method EditFocused(idx: nat, input: seq<char>, pos: nat) returns (exit: EditorExit, next: nat)
      requires idx < |fields| && Editable(fields[idx]) && pos <= |input|
      modifies fields[idx]
      ensures pos <= next <= |input| && (exit.Action? ==> pos < next)
      ensures var v := LegacyVisitField(fields, old(Values(fields)), idx, input, pos);
              && Values(fields) == v.values && next == v.next
              && exit == (if v.action.Some? then Action(v.action.value) else OutOfInput)
    {
      ghost var vals := Values(fields);
      exit, next := GetInput(fields[idx], input, pos);
      ghost var v := LegacyVisitField(fields, vals, idx, input, pos);
      assert Values(fields) == v.values by {
        forall i | 0 <= i < |fields|
          ensures fields[i].value == v.values[i]
        {
          if fields[i] != fields[idx] {
            assert fields[i].value == old(fields[i].value);
          }
        }
      }
    }

    /** A panel with nothing to edit is rendered once, message line and
        all, and its values are returned as they are. */
    method ShowAllReadOnly() returns (results: map<string, string>)
      modifies this
      ensures fields == old(fields) && errorMessage == old(errorMessage) && staticText == old(staticText)
      ensures errorShown == (old(errorShown) || errorMessage != "")
      ensures IsResultsOf(fields, results)
    {
      errorShown := errorShown || errorMessage != "";
      results := GetResults(fields);
    }

    /** One pass of the older `show` loop, with the same rules as the newer
        panel's: the message is cleared before the render, NEXT and PREV
        move the focus with wrap-around, SUBMIT finishes only when every
        field validates. */
    method Pass(idx: nat, input: seq<char>, pos: nat) returns (r: PassEnd)
      requires idx < |fields| && Editable(fields[idx]) && pos <= |input|
      modifies this, fields
      ensures fields == old(fields) && errorShown == old(errorShown) && staticText == old(staticText)
      ensures r.Continue? ==> r.idx < |fields| && Editable(fields[r.idx]) && pos < r.pos <= |input|
      ensures r.Continue? && errorMessage != "" ==> r.idx == idx && !AllValid(fields)
      ensures r.Finished? ==> r.outcome == Cancelled || r.outcome == InputEnded || r.outcome.Submitted?
      ensures r.Finished? && r.outcome.Submitted? ==> IsResultsOf(fields, r.outcome.results) && AllValid(fields)
      ensures r.Finished? ==> errorMessage == ""
      ensures var s := LegacyPassStep(fields, old(Values(fields)), idx, input, pos);
              && Values(fields) == s.values
              && (s.Go? ==> r == Continue(s.idx, s.pos))
              && (s.Stop? ==> r.Finished? && FinishedAs(s.finish, r.outcome))
    {
      ghost var vals := Values(fields);
      ClearAndRender();
      var exit, next := EditFocused(idx, input, pos);
      ghost var v := LegacyVisitField(fields, vals, idx, input, pos);
      assert v == Visit(if exit.Action? then Some(exit.action) else None, next, Values(fields), true);
      assert LegacyPassStep(fields, vals, idx, input, pos) == AfterVisit(fields, idx, v);
      r := Act(idx, exit, next);
    }

    /** The start of a pass: the message line is cleared before the render,
        so the render shows no message. */
    method ClearAndRender()
      modifies this
      ensures fields == old(fields) && errorMessage == "" && errorShown == old(errorShown) && staticText == old(staticText)
    {
      errorMessage := "";
      errorShown := errorShown || errorMessage != "";
    }

    /** The second half of a pass: act on how the editor returned. */
    method Act(idx: nat, exit: EditorExit, next: nat) returns (r: PassEnd)
      requires idx < |fields| && Editable(fields[idx]) && !exit.ReadOnlyValue? && errorMessage == ""
      modifies this
      ensures fields == old(fields) && errorShown == old(errorShown) && staticText == old(staticText)
      ensures r.Continue? ==> r.idx < |fields| && Editable(fields[r.idx]) && r.pos == next
      ensures r.Continue? && errorMessage != "" ==> r.idx == idx && !AllValid(fields)
      ensures r.Finished? ==> r.outcome == Cancelled || r.outcome == InputEnded || r.outcome.Submitted?
      ensures r.Finished? && r.outcome.Submitted? ==> IsResultsOf(fields, r.outcome.results) && AllValid(fields)
      ensures r.Finished? ==> errorMessage == ""
      ensures var s := AfterVisit(fields, idx, Visit(if exit.Action? then Some(exit.action) else None,
                                                     next, Values(fields), true));
              && (s.Go? ==> r == Continue(s.idx, s.pos))
              && (s.Stop? ==> r.Finished? && FinishedAs(s.finish, r.outcome))
    {
      AllValidIsValuesValid(fields);
      if !exit.Action? {
        return Finished(InputEnded);
      }
      match exit.action
      case Next =>
        var to := NextFieldIndex(fields, idx);
        return Continue(to, next);
      case Prev =>
        var to := PrevFieldIndex(fields, idx);
        return Continue(to, next);
      case Cancel =>
        return Finished(Cancelled);
      case Submit =>
        r := SubmitPass(idx, next);
    }

    /** SUBMIT: the results when every field validates; otherwise the focus
        stays where it was and the first failure's message is kept. */
    method SubmitPass(idx: nat, next: nat) returns (r: PassEnd)
      modifies this
      ensures fields == old(fields) && errorShown == old(errorShown) && staticText == old(staticText)
      ensures r.Continue? ==> r == Continue(idx, next) && !AllValid(fields)
      ensures r.Finished? ==> r.outcome.Submitted? && IsResultsOf(fields, r.outcome.results) && AllValid(fields)
      ensures r.Finished? ==> errorMessage == old(errorMessage)
    {
      var bad := FirstInvalid(fields);
      if bad.None? {
        var results := GetResults(fields);
        return Finished(Submitted(results));
      }
      errorMessage := fields[bad.value].Validate().1;
      return Continue(idx, next);
    }

    /** The older `show`: the same outcomes as the newer panel's, and the
        run `LegacyPanelRun` describes from the values it started with. */
    method Show(input: seq<char>) returns (outcome: ShowOutcome)
      modifies this, fields
      ensures fields == old(fields) && staticText == old(staticText)
      ensures HasEditable(fields) ==> errorMessage == ""
      ensures !HasEditable(fields) ==> errorMessage == old(errorMessage)
      ensures outcome == NoFields <==> |fields| == 0
      ensures outcome.Submitted? ==> IsResultsOf(fields, outcome.results)
      ensures outcome.Submitted? && HasEditable(fields) ==> AllValid(fields)
      ensures !HasEditable(fields) ==> forall i :: 0 <= i < |fields| ==> fields[i].value == old(fields[i].value)
      ensures HasEditable(fields) ==>
                var run := LegacyPanelRun(fields, old(Values(fields)), FirstEditableFrom(fields, 0), input, 0);
                Values(fields) == run.values && FinishedAs(run.finish, outcome)
      ensures ReadOnlyKept(fields, old(Values(fields)))
      ensures ShapesKept(fields, old(Values(fields)))
      ensures HasEditable(fields) ==> errorShown == old(errorShown)
    {
      ghost var before := Values(fields);
      if |fields| == 0 {
        return NoFields;
      }
      var idx: nat := FirstEditable(fields);
      if idx == |fields| {
        var results := ShowAllReadOnly();
        return Submitted(results);
      }
      LegacyPanelRunKeeps(fields, before, before, idx, input, 0);
      outcome := RunPasses(idx, input);
    }

    /** The older `show` loop proper, from the first editable field `first`. */
    method RunPasses(first: nat, input: seq<char>) returns (outcome: ShowOutcome)
      requires first < |fields| && Editable(fields[first])
      modifies this, fields
      ensures fields == old(fields) && errorShown == old(errorShown) && staticText == old(staticText)
      ensures var run := LegacyPanelRun(fields, old(Values(fields)), first, input, 0);
              Values(fields) == run.values && FinishedAs(run.finish, outcome)
      ensures outcome.Submitted? ==> IsResultsOf(fields, outcome.results) && AllValid(fields)
      ensures errorMessage == ""
    {
      ghost var run := LegacyPanelRun(fields, Values(fields), first, input, 0);
      var idx: nat, pos: nat := first, 0;
      while true
        invariant fields == old(fields) && errorShown == old(errorShown) && staticText == old(staticText)
        invariant pos <= |input| && idx < |fields| && Editable(fields[idx])
        invariant run == LegacyPanelRun(fields, Values(fields), idx, input, pos)
        decreases |input| - pos
      {
        ghost var vals := Values(fields);
        var r := Pass(idx, input, pos);
        ghost var s := LegacyPassStep(fields, vals, idx, input, pos);
        if r.Finished? {
          return r.outcome;
        }
        idx, pos := r.idx, r.pos;
      }
    }
  }
}
