/** The single-field editor of `Screen.get_input` (src/ux3270/panel/screen.py):
    how the raw input is split into keys, and what each key does to the
    value, the cursor and the shared insert-mode flag. */
module Editor {
  import opened Common

  /** The keys the editor tells apart. */
  datatype EditKey =
    | Enter | Tab | BackTab | F3 | CtrlC
    | Left | Right | Home | End
    | EraseEof | InsertKey | DeleteKey | Backspace
    | Printable(c: char)
    | Ignored

  /** What the editor reports to the panel when it gives up control. */
  datatype PanelAction = Submit | Next | Prev | Cancel

  /** Reads the key starting at position p of the input and says how many
      characters it used; None when the input ends inside a key. An unrecognised escape
      sequence is swallowed whole as `Ignored`. */
  function DecodeEditKey(input: seq<char>, p: nat): (r: Option<(EditKey, nat)>)
    requires p <= |input|
    ensures r.Some? ==> 1 <= r.value.1 <= |input| - p
    ensures r.Some? && r.value.0.Printable? ==> r.value.1 == 1 && IsPrintable(r.value.0.c)
    ensures r.None? ==> |input| - p < 6
  {
    var n := |input| - p;
    if p == |input| then None
    else if input[p] == CR || input[p] == LF then Some((Enter, 1))
    else if input[p] == TAB then Some((Tab, 1))
    else if input[p] == ESC then
      if n < 2 then None
      else if input[p + 1] == '[' then
        if n < 3 then None
        else if input[p + 2] == 'Z' then Some((BackTab, 3))
        else if input[p + 2] == 'D' then Some((Left, 3))
        else if input[p + 2] == 'C' then Some((Right, 3))
        else if input[p + 2] == 'H' then Some((Home, 3))
        else if input[p + 2] == 'F' then Some((End, 3))
        else if input[p + 2] == '1' then
          if n < 4 then None
          else if input[p + 3] == '~' then Some((Home, 4))
          else if input[p + 3] == '3' then (if n < 5 then None else Some((F3, 5)))
          else if input[p + 3] == ';' then
            if n < 6 then None
            else if input[p + 4] == '2' && input[p + 5] == 'F' then Some((EraseEof, 6))
            else Some((Ignored, 6))
          else Some((Ignored, 4))
        else if input[p + 2] == '2' || input[p + 2] == '3' || input[p + 2] == '4' then
          if n < 4 then None
          else if input[p + 3] != '~' then Some((Ignored, 4))
          else if input[p + 2] == '2' then Some((InsertKey, 4))
          else if input[p + 2] == '3' then Some((DeleteKey, 4))
          else Some((End, 4))
        else Some((Ignored, 3))
      else if input[p + 1] == 'O' then
        if n < 3 then None
        else if input[p + 2] == 'R' then Some((F3, 3))
        else if input[p + 2] == 'H' then Some((Home, 3))
        else if input[p + 2] == 'F' then Some((End, 3))
        else Some((Ignored, 3))
      else Some((Ignored, 2))
    else if input[p] == DEL || input[p] == BS then Some((Backspace, 1))
    else if input[p] == CTRL_E then Some((EraseEof, 1))
    else if input[p] == CTRL_C then Some((CtrlC, 1))
    else if IsPrintable(input[p]) then Some((Printable(input[p]), 1))
    else Some((Ignored, 1))
  }

  /** A decoded key depends only on the characters it used: the same
      characters anywhere else, whatever surrounds them, decode the same. */
  lemma DecodeEditKeyUsesOnlyItsKey(input: seq<char>, p: nat, other: seq<char>, q: nat)
    requires p <= |input| && DecodeEditKey(input, p).Some?
    requires q + DecodeEditKey(input, p).value.1 <= |other|
    requires other[q..q + DecodeEditKey(input, p).value.1] == input[p..p + DecodeEditKey(input, p).value.1]
    ensures DecodeEditKey(other, q) == DecodeEditKey(input, p)
  {
    var n := DecodeEditKey(input, p).value.1;
    forall j | q <= j < q + n
      ensures other[j] == input[p + (j - q)]
    {
      assert other[j] == other[q..q + n][j - q];
    }
  }

  /** The terminal sequence of each key the editor tells apart. */
  function EncodeEditKey(k: EditKey): (s: seq<char>)
    requires k != Ignored
  {
    match k
    case Enter => [CR]
    case Tab => [TAB]
    case BackTab => [ESC, '[', 'Z']
    case F3 => [ESC, '[', '1', '3', '~']
    case CtrlC => [CTRL_C]
    case Left => [ESC, '[', 'D']
    case Right => [ESC, '[', 'C']
    case Home => [ESC, '[', 'H']
    case End => [ESC, '[', 'F']
    case EraseEof => [CTRL_E]
    case InsertKey => [ESC, '[', '2', '~']
    case DeleteKey => [ESC, '[', '3', '~']
    case Backspace => [DEL]
    case Printable(c) => [c]
  }

  /** Each key comes back from its terminal sequence, wherever it stands in
      the input and whatever follows it. */
  lemma DecodeEditKeyRoundTrip(k: EditKey, before: seq<char>, rest: seq<char>)
    requires k != Ignored && (k.Printable? ==> IsPrintable(k.c))
    ensures DecodeEditKey(before + EncodeEditKey(k) + rest, |before|) == Some((k, |EncodeEditKey(k)|))
  {
    var s := before + EncodeEditKey(k) + rest;
    assert forall i :: 0 <= i < |EncodeEditKey(k)| ==> s[|before| + i] == EncodeEditKey(k)[i];
  }

  /** The editor's local state: the value being edited, the cursor, and the
      insert-mode flag that all fields share. */
  datatype EditorState = EditorState(value: string, cursor: nat, insertMode: bool)

  predicate CursorInRange(st: EditorState) {
    st.cursor <= |st.value|
  }

  datatype StepResult = Editing(state: EditorState) | Leave(action: PanelAction)

  /** Typing a printable character. A NUMERIC field takes digits only. Insert
      mode inserts while the value is shorter than the field; overwrite mode
      replaces the character under the cursor, or appends while there is room. */
  function TypeChar(st: EditorState, c: char, length: nat, numeric: bool): (r: EditorState)
    requires CursorInRange(st)
    ensures CursorInRange(r) && r.insertMode == st.insertMode
  {
    if numeric && !IsDigit(c) then st
    else if st.insertMode then
      if |st.value| < length then
        st.(value := st.value[..st.cursor] + [c] + st.value[st.cursor..], cursor := st.cursor + 1)
      else st
    else if st.cursor < |st.value| then
      st.(value := st.value[..st.cursor] + [c] + st.value[st.cursor + 1..], cursor := st.cursor + 1)
    else if |st.value| < length then
      st.(value := st.value + [c], cursor := st.cursor + 1)
    else st
  }

  /** A refused or unplaceable character changes nothing; an inserted one
      lands at the cursor, an overwriting one replaces the character under
      it (or is appended at the end while there is room). */
  lemma TypeCharPlaces(st: EditorState, c: char, length: nat, numeric: bool)
    requires CursorInRange(st)
    ensures var r := TypeChar(st, c, length, numeric);
      && (numeric && !IsDigit(c) ==> r == st)
      && (st.insertMode && |st.value| < length && (!numeric || IsDigit(c)) ==>
            r.value == st.value[..st.cursor] + [c] + st.value[st.cursor..] && r.cursor == st.cursor + 1)
      && (st.insertMode && |st.value| >= length ==> r == st)
      && (!st.insertMode && st.cursor < |st.value| && (!numeric || IsDigit(c)) ==>
            |r.value| == |st.value| && r.value[st.cursor] == c && r.cursor == st.cursor + 1 &&
            forall i :: 0 <= i < |st.value| && i != st.cursor ==> r.value[i] == st.value[i])
      && (!st.insertMode && st.cursor == |st.value| && |st.value| < length && (!numeric || IsDigit(c)) ==>
            r.value == st.value + [c] && r.cursor == st.cursor + 1)
  {
  }

  /** Typing never makes a value longer than the field unless it already
      was, and a NUMERIC value of digits stays all digits. */
  lemma TypeCharBounds(st: EditorState, c: char, length: nat, numeric: bool)
    requires CursorInRange(st)
    ensures var r := TypeChar(st, c, length, numeric);
      && |r.value| <= Max(|st.value|, length)
      && (|st.value| <= length ==> |r.value| <= length)
      && (numeric && AllDigits(st.value) ==> AllDigits(r.value))
  {
    var r := TypeChar(st, c, length, numeric);
    if numeric && AllDigits(st.value) && r != st {
      assert forall i :: 0 <= i < |r.value| ==> r.value[i] == c || r.value[i] in st.value;
    }
  }

  /** One key of `get_input`. Enter, Tab and Shift+Tab leave with SUBMIT, NEXT
      and PREV (the caller writes the value back); F3 and Ctrl+C leave with
      CANCEL (nothing is written back). Every other key edits or moves. */
  function EditStep(st: EditorState, key: EditKey, length: nat, numeric: bool): (r: StepResult)
    requires CursorInRange(st)
    ensures r.Leave? <==> key in {Enter, Tab, BackTab, F3, CtrlC}
    ensures r.Editing? ==> CursorInRange(r.state)
  {
    match key
    case Enter => Leave(Submit)
    case Tab => Leave(Next)
    case BackTab => Leave(Prev)
    case F3 => Leave(Cancel)
    case CtrlC => Leave(Cancel)
    case Left => Editing(if st.cursor > 0 then st.(cursor := st.cursor - 1) else st)
    case Right => Editing(if st.cursor < |st.value| then st.(cursor := st.cursor + 1) else st)
    case Home => Editing(st.(cursor := 0))
    case End => Editing(st.(cursor := |st.value|))
    case EraseEof => Editing(st.(value := st.value[..st.cursor]))
    case InsertKey => Editing(st.(insertMode := !st.insertMode))
    case DeleteKey =>
      if st.cursor < |st.value| then
        Editing(st.(value := st.value[..st.cursor] + st.value[st.cursor + 1..]))
      else Editing(st)
    case Backspace =>
      if st.cursor > 0 then
        Editing(st.(value := st.value[..st.cursor - 1] + st.value[st.cursor..], cursor := st.cursor - 1))
      else Editing(st)
    case Printable(c) => Editing(TypeChar(st, c, length, numeric))
    case Ignored => Editing(st)
  }

  /** The keys that leave the field report SUBMIT for Enter, NEXT for Tab,
      PREV for Shift+Tab and CANCEL for F3 and Ctrl+C. */
  lemma EditStepActions(st: EditorState, key: EditKey, length: nat, numeric: bool)
    requires CursorInRange(st)
    ensures var r := EditStep(st, key, length, numeric);
            r.Leave? ==> r.action == match key
                                       case Enter => Submit
                                       case Tab => Next
                                       case BackTab => Prev
                                       case _ => Cancel
  {
  }

  /** The cursor keys keep the value, Left and Right move one column while
      they can, Home and End go to its ends, Erase EOF cuts it at the cursor,
      only Insert flips the mode, and Backspace at the start, Delete at the
      end and unknown keys change nothing. */
  lemma EditStepMoves(st: EditorState, key: EditKey, length: nat, numeric: bool)
    requires CursorInRange(st)
    ensures var r := EditStep(st, key, length, numeric);
      && (r.Editing? ==> (r.state.insertMode != st.insertMode <==> key == InsertKey))
      && (key in {Left, Right, Home, End} ==> r.Editing? && r.state.value == st.value)
      && (key == Left ==> r.state.cursor == if st.cursor > 0 then st.cursor - 1 else 0)
      && (key == Right ==> r.state.cursor == if st.cursor < |st.value| then st.cursor + 1 else st.cursor)
      && (key == Home ==> r.state.cursor == 0)
      && (key == End ==> r.state.cursor == |st.value|)
      && (key == EraseEof ==> r.state.value == st.value[..st.cursor] && r.state.cursor == st.cursor)
      && (key == Backspace && st.cursor == 0 ==> r == Editing(st))
      && (key == DeleteKey && st.cursor == |st.value| ==> r == Editing(st))
      && (key == Ignored ==> r == Editing(st))
  {
  }

  /** Backspace removes the character before the cursor and moves onto its
      place; Delete removes the character under the cursor, which stays. */
  lemma EditStepDeletes(st: EditorState, key: EditKey, length: nat, numeric: bool)
    requires CursorInRange(st)
    ensures var r := EditStep(st, key, length, numeric);
      && (key == Backspace && st.cursor > 0 ==>
            && r.Editing? && |r.state.value| == |st.value| - 1 && r.state.cursor == st.cursor - 1
            && (forall i :: 0 <= i < st.cursor - 1 ==> r.state.value[i] == st.value[i])
            && (forall i :: st.cursor - 1 <= i < |r.state.value| ==> r.state.value[i] == st.value[i + 1]))
      && (key == DeleteKey && st.cursor < |st.value| ==>
            && r.Editing? && |r.state.value| == |st.value| - 1 && r.state.cursor == st.cursor
            && (forall i :: 0 <= i < st.cursor ==> r.state.value[i] == st.value[i])
            && (forall i :: st.cursor <= i < |r.state.value| ==> r.state.value[i] == st.value[i + 1]))
  {
  }

  /** No key makes a value longer than the field unless it already was, and
      a NUMERIC value of digits stays all digits. */
  lemma EditStepBounds(st: EditorState, key: EditKey, length: nat, numeric: bool)
    requires CursorInRange(st)
    ensures var r := EditStep(st, key, length, numeric);
      && (r.Editing? ==> |r.state.value| <= Max(|st.value|, length))
      && (r.Editing? && |st.value| <= length ==> |r.state.value| <= length)
      && (r.Editing? && numeric && AllDigits(st.value) ==> AllDigits(r.state.value))
  {
    if key.Printable? {
      TypeCharBounds(st, key.c, length, numeric);
    }
  }

  /** Backspace undoes a character typed in insert mode. */
  lemma BackspaceUndoesInsert(st: EditorState, c: char, length: nat, numeric: bool)
    requires CursorInRange(st) && st.insertMode && |st.value| < length
    requires !numeric || IsDigit(c)
    ensures var typed := EditStep(st, Printable(c), length, numeric);
            typed.Editing? && EditStep(typed.state, Backspace, length, numeric) == Editing(st)
  {
    TypeCharPlaces(st, c, length, numeric);
    var t := TypeChar(st, c, length, numeric);
    assert t.value[..t.cursor - 1] + t.value[t.cursor..] == st.value;
  }

  /** Delete, after Left, undoes a character typed in insert mode. */
  lemma LeftDeleteUndoesInsert(st: EditorState, c: char, length: nat, numeric: bool)
    requires CursorInRange(st) && st.insertMode && |st.value| < length
    requires !numeric || IsDigit(c)
    ensures var typed := EditStep(st, Printable(c), length, numeric).state;
            var back := EditStep(typed, Left, length, numeric).state;
            EditStep(back, DeleteKey, length, numeric) == Editing(st)
  {
    TypeCharPlaces(st, c, length, numeric);
    var t := TypeChar(st, c, length, numeric);
    assert t.value[..st.cursor] + t.value[st.cursor + 1..] == st.value;
  }

  /** What a whole editing session ends with: the editor state when it gave
      up control, the action (None when the input ran out first), and the
      position of the first unread character. */
  datatype RunResult = RunResult(state: EditorState, action: Option<PanelAction>, next: nat)

  /** The `get_input` loop: apply keys until one of them leaves the field. */
  function EditRun(st: EditorState, input: seq<char>, pos: nat, length: nat, numeric: bool): RunResult
    requires pos <= |input| && CursorInRange(st)
    decreases |input| - pos
  {
    match DecodeEditKey(input, pos)
    case None => RunResult(st, None, pos)
    case Some((key, n)) =>
      match EditStep(st, key, length, numeric)
      case Leave(a) => RunResult(st, Some(a), pos + n)
      case Editing(st') => EditRun(st', input, pos + n, length, numeric)
  }

  /** Over a whole session the cursor stays inside the value, and a session
      that ends with an action has used at least one character. */
  lemma {:induction false} EditRunKeepsCursor(st: EditorState, input: seq<char>, pos: nat, length: nat, numeric: bool)
    requires pos <= |input| && CursorInRange(st)
    ensures var r := EditRun(st, input, pos, length, numeric);
            && CursorInRange(r.state)
            && pos <= r.next <= |input|
            && (r.action.Some? ==> pos < r.next)
    decreases |input| - pos
  {
    var d := DecodeEditKey(input, pos);
    if d.Some? {
      var key, n := d.value.0, d.value.1;
      var step := EditStep(st, key, length, numeric);
      if step.Editing? {
        EditRunKeepsCursor(step.state, input, pos + n, length, numeric);
        assert EditRun(st, input, pos, length, numeric) == EditRun(step.state, input, pos + n, length, numeric);
      }
    }
  }

  /** Over a whole session a value that fitted its field still fits, none
      grows past the field unless it already was longer, and a numeric value
      stays all digits. */
  lemma {:induction false} EditRunKeepsBounds(st: EditorState, input: seq<char>, pos: nat, length: nat, numeric: bool)
    requires pos <= |input| && CursorInRange(st)
    ensures var r := EditRun(st, input, pos, length, numeric);
            && |r.state.value| <= Max(|st.value|, length)
            && (|st.value| <= length ==> |r.state.value| <= length)
            && (numeric && AllDigits(st.value) ==> AllDigits(r.state.value))
    decreases |input| - pos
  {
    var d := DecodeEditKey(input, pos);
    if d.Some? {
      var key, n := d.value.0, d.value.1;
      var step := EditStep(st, key, length, numeric);
      if step.Editing? {
        EditStepBounds(st, key, length, numeric);
        EditRunKeepsBounds(step.state, input, pos + n, length, numeric);
        assert EditRun(st, input, pos, length, numeric) == EditRun(step.state, input, pos + n, length, numeric);
      }
    }
  }

  /** The key loop of `get_input`, step by step: decode a key, apply it, and
      stop at the first key that leaves the field or where the input ends. It
      computes exactly the session `EditRun` describes. */
  method EditLoop(start: EditorState, input: seq<char>, pos: nat, length: nat, numeric: bool)
    returns (r: RunResult)
    requires pos <= |input| && CursorInRange(start)
    ensures r == EditRun(start, input, pos, length, numeric)
  {
    var st := start;
    var next := pos;
    while true
      invariant next <= |input| && CursorInRange(st)
      invariant EditRun(start, input, pos, length, numeric) == EditRun(st, input, next, length, numeric)
      decreases |input| - next
    {
      var decoded := DecodeEditKey(input, next);
      if decoded.None? {
        return RunResult(st, None, next);
      }
      var (key, used) := decoded.value;
      var step := EditStep(st, key, length, numeric);
      if step.Leave? {
        return RunResult(st, Some(step.action), next + used);
      }
      assert EditRun(st, input, next, length, numeric) == EditRun(step.state, input, next + used, length, numeric);
      st, next := step.state, next + used;
    }
  }
}
