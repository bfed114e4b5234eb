/** The panel of src/ux3270/panel/screen.py: an ordered list of fields plus
    static text, driven by the `show` loop that hands each editable field to
    the editor and acts on what the editor reports. The focus, validation and
    result loops are shared with the older ux3270/screen.py, which has the same
    `show` and `_get_results`. */
module Panel {
  import opened Common
  import opened Fields
  import opened Editor

  /** Column of a title centred on a line of the given width (never left of 0).
      A title that fits gets margins that differ by at most one column, the
      extra column going to the right. */
  function TitleCol(width: int, title: string): (c: int)
    ensures c >= 0
    ensures |title| <= width ==> c + |title| <= width && c <= width - c - |title| <= c + 1
    ensures |title| >= width ==> c == 0
  {
    Max(0, (width - |title|) / 2)
  }

  predicate Editable(f: Field) {
    f.fieldType != ReadOnly
  }

  predicate HasEditable(fields: seq<Field>) {
    exists k :: 0 <= k < |fields| && Editable(fields[k])
  }

  /** The first editable index from `i` on, or `|fields|` when there is none. */
  function FirstEditableFrom(fields: seq<Field>, i: nat): (j: nat)
    requires i <= |fields|
    ensures i <= j <= |fields| && (j < |fields| ==> Editable(fields[j]))
    ensures forall k :: i <= k < j ==> !Editable(fields[k])
    decreases |fields| - i
  {
    if i == |fields| || Editable(fields[i]) then i else FirstEditableFrom(fields, i + 1)
  }

  /** The last editable index before `i`, or -1 when there is none. */
  function LastEditableBefore(fields: seq<Field>, i: nat): (j: int)
    requires i <= |fields|
    ensures -1 <= j < i && (j >= 0 ==> Editable(fields[j]))
    ensures forall k :: j < k < i ==> !Editable(fields[k])
  {
    if i == 0 then -1 else if Editable(fields[i - 1]) then i - 1 else LastEditableBefore(fields, i - 1)
  }

  /** Where NEXT moves the focus: the next editable field, wrapping round. */
  function NextIndex(fields: seq<Field>, current: nat): (next: nat)
    requires current < |fields| && Editable(fields[current])
    ensures next < |fields| && Editable(fields[next])
  {
    var j := FirstEditableFrom(fields, current + 1);
    if j < |fields| then j else FirstEditableFrom(fields, 0)
  }

  /** Where PREV moves the focus: the previous editable field, wrapping round. */
  function PrevIndex(fields: seq<Field>, current: nat): (prev: nat)
    requires current < |fields| && Editable(fields[current])
    ensures prev < |fields| && Editable(fields[prev])
  {
    var j := LastEditableBefore(fields, current);
    if j >= 0 then j else LastEditableBefore(fields, |fields|)
  }

  /** The initial skip over READONLY fields: the first editable index, or
      `|fields|` when every field is READONLY. */
  method FirstEditable(fields: seq<Field>) returns (idx: nat)
    ensures idx <= |fields|
    ensures forall k :: 0 <= k < idx ==> !Editable(fields[k])
    ensures idx < |fields| ==> Editable(fields[idx])
    ensures idx == |fields| <==> !HasEditable(fields)
    ensures idx == FirstEditableFrom(fields, 0)
  {
    idx := 0;
    while idx < |fields| && fields[idx].fieldType == ReadOnly
      invariant idx <= |fields|
      invariant forall k :: 0 <= k < idx ==> !Editable(fields[k])
      invariant FirstEditableFrom(fields, 0) == FirstEditableFrom(fields, idx)
    {
      idx := idx + 1;
    }
  }

  /** NEXT: the first editable field after the current one, wrapping round to
      the first editable field of the panel. READONLY fields are never landed on. */
  method NextFieldIndex(fields: seq<Field>, current: nat) returns (next: nat)
    requires current < |fields| && Editable(fields[current])
    ensures next < |fields| && Editable(fields[next])
    ensures (exists k :: current < k < |fields| && Editable(fields[k])) ==>
              current < next && forall k :: current < k < next ==> !Editable(fields[k])
    ensures (forall k :: current < k < |fields| ==> !Editable(fields[k])) ==>
              next <= current && forall k :: 0 <= k < next ==> !Editable(fields[k])
    ensures next == NextIndex(fields, current)
  {
    var i := current + 1;
    while i < |fields|
      invariant current < i <= |fields|
      invariant forall k :: current < k < i ==> !Editable(fields[k])
      invariant FirstEditableFrom(fields, current + 1) == FirstEditableFrom(fields, i)
    {
      if fields[i].fieldType != ReadOnly {
        return i;
      }
      i := i + 1;
    }
    next := 0;
    while next < |fields| && fields[next].fieldType == ReadOnly
      invariant next <= current
      invariant forall k :: 0 <= k < next ==> !Editable(fields[k])
      invariant FirstEditableFrom(fields, 0) == FirstEditableFrom(fields, next)
    {
      next := next + 1;
    }
  }

  /** PREV: the last editable field before the current one, wrapping round to
      the last editable field of the panel. */
  method PrevFieldIndex(fields: seq<Field>, current: nat) returns (prev: nat)
    requires current < |fields| && Editable(fields[current])
    ensures prev < |fields| && Editable(fields[prev])
    ensures (exists k :: 0 <= k < current && Editable(fields[k])) ==>
              prev < current && forall k :: prev < k < current ==> !Editable(fields[k])
    ensures (forall k :: 0 <= k < current ==> !Editable(fields[k])) ==>
              current <= prev && forall k :: prev < k < |fields| ==> !Editable(fields[k])
    ensures prev == PrevIndex(fields, current)
  {
    var i: int := current - 1;
    while i >= 0
      invariant -1 <= i < current
      invariant forall k :: i < k < current ==> !Editable(fields[k])
      invariant LastEditableBefore(fields, current) == LastEditableBefore(fields, i + 1)
    {
      if fields[i].fieldType != ReadOnly {
        return i;
      }
      i := i - 1;
    }
    var j: int := |fields| - 1;
    while j >= 0 && fields[j].fieldType == ReadOnly
      invariant current <= j < |fields|
      invariant forall k :: j < k < |fields| ==> !Editable(fields[k])
      invariant LastEditableBefore(fields, |fields|) == LastEditableBefore(fields, j + 1)
    {
      j := j - 1;
    }
    prev := j;
  }

  predicate AllValid(fields: seq<Field>)
    reads fields
  {
    forall i :: 0 <= i < |fields| ==> fields[i].Validate().0
  }

  /** The SUBMIT check: fields are validated in declaration order and the
      first failure stops it. */
  method FirstInvalid(fields: seq<Field>) returns (bad: Option<nat>)
    ensures bad.None? <==> AllValid(fields)
    ensures bad.Some? ==> bad.value < |fields| && !fields[bad.value].Validate().0 &&
                          forall k :: 0 <= k < bad.value ==> fields[k].Validate().0
  {
    var i := 0;
    while i < |fields|
      invariant i <= |fields|
      invariant forall k :: 0 <= k < i ==> fields[k].Validate().0
    {
      var (isValid, _) := fields[i].Validate();
      if !isValid {
        return Some(i);
      }
      i := i + 1;
    }
    return None;
  }

  /** `self.fields.index(field)`: the first position holding this very field. */
  function FirstIndex(fields: seq<Field>, f: Field): (j: nat)
    requires f in fields
    ensures j < |fields| && fields[j] == f
    ensures forall k :: 0 <= k < j ==> fields[k] != f
  {
    if fields[0] == f then 0 else 1 + FirstIndex(fields[1..], f)
  }

  /** The result key of field i: its label, or `field_<index>` when it has none. */
  function ResultKey(fields: seq<Field>, i: nat): string
    requires i < |fields|
  {
    if fields[i].labelText != "" then fields[i].labelText
    else "field_" + NatToString(FirstIndex(fields, fields[i]))
  }

  /** Two different unlabelled fields never share a result key. */
  lemma UnlabelledKeysDistinct(fields: seq<Field>, i: nat, j: nat)
    requires i < |fields| && j < |fields| && fields[i] != fields[j]
    requires fields[i].labelText == "" && fields[j].labelText == ""
    ensures ResultKey(fields, i) != ResultKey(fields, j)
  {
    var a, b := FirstIndex(fields, fields[i]), FirstIndex(fields, fields[j]);
    if ResultKey(fields, i) == ResultKey(fields, j) {
      var pre := "field_";
      assert ResultKey(fields, i)[|pre|..] == NatToString(a);
      assert ResultKey(fields, j)[|pre|..] == NatToString(b);
      NatToStringInjective(a, b);
      assert false;
    }
  }

  /** No field after k and before `upTo` has k's result key. */
  predicate LastWithKey(fields: seq<Field>, k: nat, upTo: nat)
    requires k < |fields| && upTo <= |fields|
    reads fields
  {
    forall j {:trigger ResultKey(fields, j)} :: k < j < upTo ==> ResultKey(fields, j) != ResultKey(fields, k)
  }

  /** The result keys of the first `upTo` fields. */
  ghost function ResultKeys(fields: seq<Field>, upTo: nat): set<string>
    requires upTo <= |fields|
    reads fields
  {
    set k | 0 <= k < upTo :: ResultKey(fields, k)
  }

  /** A map is the panel's result: one entry per field key, and each field
      whose key no later field reuses maps to its current value. */
  ghost predicate IsResultsOf(fields: seq<Field>, r: map<string, string>)
    reads fields
  {
    && r.Keys == ResultKeys(fields, |fields|)
    && (forall k {:trigger LastWithKey(fields, k, |fields|)} :: 0 <= k < |fields| && LastWithKey(fields, k, |fields|)
          ==> r[ResultKey(fields, k)] == fields[k].value)
  }

  /** The map `_get_results` has built after its first `upTo` fields: each
      field in turn sets its key to its value. */
  function ResultsMap(fields: seq<Field>, upTo: nat): map<string, string>
    requires upTo <= |fields|
    reads fields
  {
    if upTo == 0 then map[]
    else ResultsMap(fields, upTo - 1)[ResultKey(fields, upTo - 1) := fields[upTo - 1].value]
  }

  /** The map built from the first `upTo` fields has exactly their keys. */
  lemma {:induction false} ResultsMapKeys(fields: seq<Field>, upTo: nat)
    requires upTo <= |fields|
    ensures ResultsMap(fields, upTo).Keys == ResultKeys(fields, upTo)
  {
    if upTo > 0 {
      ResultsMapKeys(fields, upTo - 1);
      var key := ResultKey(fields, upTo - 1);
      forall key' | key' in ResultKeys(fields, upTo)
        ensures key' in ResultKeys(fields, upTo - 1) + {key}
      {
        var k :| 0 <= k < upTo && ResultKey(fields, k) == key';
        if k < upTo - 1 {
          assert key' in ResultKeys(fields, upTo - 1);
        }
      }
      forall key' | key' in ResultKeys(fields, upTo - 1)
        ensures key' in ResultKeys(fields, upTo)
      {
        var k :| 0 <= k < upTo - 1 && ResultKey(fields, k) == key';
      }
      assert key in ResultKeys(fields, upTo);
    }
  }

  /** Later fields overwrite earlier ones: a field whose key no later one of
      the first `upTo` reuses keeps its value in the map. */
  lemma {:induction false} ResultsMapValue(fields: seq<Field>, upTo: nat, k: nat)
    requires k < upTo <= |fields| && LastWithKey(fields, k, upTo)
    ensures ResultKey(fields, k) in ResultsMap(fields, upTo)
    ensures ResultsMap(fields, upTo)[ResultKey(fields, k)] == fields[k].value
  {
    if k < upTo - 1 {
      assert ResultKey(fields, upTo - 1) != ResultKey(fields, k);
      assert LastWithKey(fields, k, upTo - 1);
      ResultsMapValue(fields, upTo - 1, k);
    }
  }

  /** `_get_results`: later fields overwrite earlier ones with the same key. */
  method GetResults(fields: seq<Field>) returns (results: map<string, string>)
    ensures results == ResultsMap(fields, |fields|)
    ensures IsResultsOf(fields, results)
  {
    results := map[];
    for i := 0 to |fields|
      invariant results == ResultsMap(fields, i)
    {
      var field := fields[i];
      var key := if field.labelText != "" then field.labelText
                 else "field_" + NatToString(FirstIndex(fields, field));
      assert key == ResultKey(fields, i);
      results := results[key := field.value];
    }
    ResultsMapKeys(fields, |fields|);
    forall k | 0 <= k < |fields| && LastWithKey(fields, k, |fields|)
      ensures results[ResultKey(fields, k)] == fields[k].value
    {
      ResultsMapValue(fields, |fields|, k);
    }
  }

  /** What editing never breaks in a value: one that fitted its field still
      fits, and a numeric field's all-digit value stays all digits. */
  predicate ValueKeepsShape(f: Field, before: string)
    reads f
  {
    ShapeKept(f.length, f.fieldType == Numeric, before, f.value)
  }

  predicate ShapeKept(length: nat, numeric: bool, before: string, after: string) {
    && (|before| <= length ==> |after| <= length)
    && (numeric && AllDigits(before) ==> AllDigits(after))
  }

  /** The values of the fields, in order. */
  function Values(fields: seq<Field>): (vs: seq<string>)
    reads fields
    ensures |vs| == |fields| && forall i :: 0 <= i < |fields| ==> vs[i] == fields[i].value
  {
    if fields == [] then [] else [fields[0].value] + Values(fields[1..])
  }

  /** Every field kept its shape since the values were `before`. */
  predicate ShapesKept(fields: seq<Field>, before: seq<string>)
    reads fields
  {
    && |before| == |fields|
    && forall i :: 0 <= i < |fields| ==> ValueKeepsShape(fields[i], before[i])
  }

  /** No READONLY field changed since the values were `before`. */
  predicate ReadOnlyKept(fields: seq<Field>, before: seq<string>)
    reads fields
  {
    && |before| == |fields|
    && forall i :: 0 <= i < |fields| && !Editable(fields[i]) ==> fields[i].value == before[i]
  }

  /** The values after field `idx` takes value `v`. A field object listed
      more than once changes at every position it holds. */
  function SetValue(fields: seq<Field>, vals: seq<string>, idx: nat, v: string): (r: seq<string>)
    requires |vals| == |fields| && idx < |fields|
    ensures |r| == |fields| && r[idx] == v
    ensures forall i :: 0 <= i < |fields| && fields[i] != fields[idx] ==> r[i] == vals[i]
    ensures forall i :: 0 <= i < |fields| && fields[i] == fields[idx] ==> r[i] == v
  {
    seq(|vals|, i requires 0 <= i < |vals| => if fields[i] == fields[idx] then v else vals[i])
  }

  /** Every field would accept its value in `vals`. */
  predicate ValuesValid(fields: seq<Field>, vals: seq<string>)
    requires |vals| == |fields|
  {
    forall i :: 0 <= i < |fields| ==> fields[i].Accepts(vals[i])
  }

  /** The fields validate exactly when they accept their current values. */
  lemma AllValidIsValuesValid(fields: seq<Field>)
    ensures AllValid(fields) <==> ValuesValid(fields, Values(fields))
  {
  }

  /** What one visit of the focus ends with: the editor's action (None when
      the input ran out), the next input position, the values of the panel
      and the insert flag. */
  datatype Visit = Visit(action: Option<PanelAction>, next: nat, values: seq<string>, insert: bool)

  /** `get_input` on field `idx` when the panel holds `vals` and the insert
      flag is `insert`: the session starts with the cursor at the end of the
      value, and the edited value is stored unless the session ended with
      CANCEL or with the input. */
  function VisitField(fields: seq<Field>, vals: seq<string>, insert: bool, idx: nat,
                      input: seq<char>, pos: nat): (v: Visit)
    requires |vals| == |fields| && idx < |fields| && pos <= |input|
    ensures |v.values| == |fields| && pos <= v.next <= |input|
    ensures v.action.Some? ==> pos < v.next
    ensures v.action.None? || v.action == Some(Cancel) ==> v.values == vals
  {
    var start := EditorState(vals[idx], |vals[idx]|, insert);
    var numeric := fields[idx].fieldType == Numeric;
    var r := EditRun(start, input, pos, fields[idx].length, numeric);
    EditRunKeepsCursor(start, input, pos, fields[idx].length, numeric);
    var stored := r.action.Some? && r.action.value != Cancel;
    Visit(r.action, r.next, if stored then SetValue(fields, vals, idx, r.state.value) else vals,
          r.state.insertMode)
  }

  /** How `show` can finish once it has fields to edit. */
  datatype Finish = BySubmit | ByCancel | ByEndOfInput

  /** One pass of `show` on the values alone: go on with new values, insert
      flag, focus and input position, or finish. */
  datatype PassResult =
    | Go(values: seq<string>, insert: bool, idx: nat, pos: nat)
    | Stop(finish: Finish, values: seq<string>, insert: bool)

  /** A pass acts on the editor's action: NEXT and PREV move the focus,
      CANCEL and the end of the input finish, and SUBMIT finishes when every
      field accepts its value and otherwise keeps the focus. */
  function AfterVisit(fields: seq<Field>, idx: nat, v: Visit): (s: PassResult)
    requires |v.values| == |fields| && idx < |fields| && Editable(fields[idx])
    ensures s.values == v.values && s.insert == v.insert
    ensures s.Go? ==> s.idx < |fields| && Editable(fields[s.idx]) && s.pos == v.next && v.action.Some?
    ensures s.Stop? && s.finish == BySubmit ==> ValuesValid(fields, s.values)
  {
    match v.action
    case None => Stop(ByEndOfInput, v.values, v.insert)
    case Some(Cancel) => Stop(ByCancel, v.values, v.insert)
    case Some(Next) => Go(v.values, v.insert, NextIndex(fields, idx), v.next)
    case Some(Prev) => Go(v.values, v.insert, PrevIndex(fields, idx), v.next)
    case Some(Submit) =>
      if ValuesValid(fields, v.values) then Stop(BySubmit, v.values, v.insert)
      else Go(v.values, v.insert, idx, v.next)
  }

  /** One pass: a visit of the focused field, then the action it ended with. */
  function PassStep(fields: seq<Field>, vals: seq<string>, insert: bool, idx: nat,
                    input: seq<char>, pos: nat): (s: PassResult)
    requires |vals| == |fields| && idx < |fields| && Editable(fields[idx]) && pos <= |input|
    ensures |s.values| == |fields|
    ensures s.Go? ==> s.idx < |fields| && Editable(fields[s.idx]) && pos < s.pos <= |input|
    ensures s.Stop? && s.finish == BySubmit ==> ValuesValid(fields, s.values)
  {
    AfterVisit(fields, idx, VisitField(fields, vals, insert, idx, input, pos))
  }

  /** The whole `show` loop on the values: passes until one finishes. */
  function PanelRun(fields: seq<Field>, vals: seq<string>, insert: bool, idx: nat,
                    input: seq<char>, pos: nat): (s: PassResult)
    requires |vals| == |fields| && idx < |fields| && Editable(fields[idx]) && pos <= |input|
    ensures s.Stop? && |s.values| == |fields|
    ensures s.finish == BySubmit ==> ValuesValid(fields, s.values)
    decreases |input| - pos
  {
    var s := PassStep(fields, vals, insert, idx, input, pos);
    if s.Stop? then s else PanelRun(fields, s.values, s.insert, s.idx, input, s.pos)
  }

  /** Every value in `after` kept the shape of its counterpart in `before`. */
  predicate ShapesKeptIn(fields: seq<Field>, before: seq<string>, after: seq<string>)
    requires |before| == |fields| && |after| == |fields|
  {
    forall i :: 0 <= i < |fields| ==>
      ShapeKept(fields[i].length, fields[i].fieldType == Numeric, before[i], after[i])
  }

  /** No READONLY field's value differs between `before` and `after`. */
  predicate ReadOnlyKeptIn(fields: seq<Field>, before: seq<string>, after: seq<string>)
    requires |before| == |fields| && |after| == |fields|
  {
    forall i :: 0 <= i < |fields| && !Editable(fields[i]) ==> after[i] == before[i]
  }

  /** A field object listed twice has one value at both positions. */
  predicate Consistent(fields: seq<Field>, vals: seq<string>)
    requires |vals| == |fields|
  {
    forall i, j :: 0 <= i < |fields| && 0 <= j < |fields| && fields[i] == fields[j] ==> vals[i] == vals[j]
  }

  lemma ShapeKeptTrans(length: nat, numeric: bool, a: string, b: string, c: string)
    requires ShapeKept(length, numeric, a, b) && ShapeKept(length, numeric, b, c)
    ensures ShapeKept(length, numeric, a, c)
  {
  }

  /** A pass never breaks a value's shape and never changes a READONLY
      field: the one value it stores is an edit of an editable field's. */
  lemma PassStepKeeps(fields: seq<Field>, before: seq<string>, vals: seq<string>, insert: bool, idx: nat,
                      input: seq<char>, pos: nat)
    requires |vals| == |fields| && idx < |fields| && Editable(fields[idx]) && pos <= |input|
    requires |before| == |fields| && Consistent(fields, before)
    requires ShapesKeptIn(fields, before, vals) && ReadOnlyKeptIn(fields, before, vals)
    ensures var s := PassStep(fields, vals, insert, idx, input, pos);
            ShapesKeptIn(fields, before, s.values) && ReadOnlyKeptIn(fields, before, s.values)
  {
    var f := fields[idx];
    var start := EditorState(vals[idx], |vals[idx]|, insert);
    var numeric := f.fieldType == Numeric;
    var r := EditRun(start, input, pos, f.length, numeric);
    EditRunKeepsBounds(start, input, pos, f.length, numeric);
    var s := PassStep(fields, vals, insert, idx, input, pos);
    forall i | 0 <= i < |fields|
      ensures ShapeKept(fields[i].length, fields[i].fieldType == Numeric, before[i], s.values[i])
    {
      if fields[i] == f && s.values != vals {
        assert s.values[i] == r.state.value;
        ShapeKeptTrans(f.length, numeric, before[i], vals[idx], r.state.value);
      }
    }
  }

  /** Over the whole `show` loop no value loses its shape and no READONLY
      field changes. */
  lemma {:induction false} PanelRunKeeps(fields: seq<Field>, before: seq<string>, vals: seq<string>, insert: bool,
                                         idx: nat, input: seq<char>, pos: nat)
    requires |vals| == |fields| && idx < |fields| && Editable(fields[idx]) && pos <= |input|
    requires |before| == |fields| && Consistent(fields, before)
    requires ShapesKeptIn(fields, before, vals) && ReadOnlyKeptIn(fields, before, vals)
    ensures var s := PanelRun(fields, vals, insert, idx, input, pos);
            ShapesKeptIn(fields, before, s.values) && ReadOnlyKeptIn(fields, before, s.values)
    decreases |input| - pos
  {
    PassStepKeeps(fields, before, vals, insert, idx, input, pos);
    var s := PassStep(fields, vals, insert, idx, input, pos);
    if s.Go? {
      PanelRunKeeps(fields, before, s.values, s.insert, s.idx, input, s.pos);
    }
  }

  /** The outcome of `show` that a finish stands for. */
  predicate FinishedAs(finish: Finish, outcome: ShowOutcome) {
    match finish
    case BySubmit => outcome.Submitted?
    case ByCancel => outcome == Cancelled
    case ByEndOfInput => outcome == InputEnded
  }

  /** The insert/overwrite flag. The source keeps it in a class attribute of
      Screen, so one flag is shared by every field of every panel; here the
      panels share one object instead. */
  class Keyboard {
    var insertMode: bool

    constructor ()
      ensures !insertMode
    {
      insertMode := false;
    }
  }

  /** How `get_input` returns: with a panel action, with the value of a
      READONLY field (which it does not edit), or because the input ran out. */
  datatype EditorExit = Action(action: PanelAction) | ReadOnlyValue(value: string) | OutOfInput

  /** How `show` returns: the result map, None (cancelled), the ValueError
      for a panel without fields, or the end of the input. */
  datatype ShowOutcome = Submitted(results: map<string, string>) | Cancelled | NoFields | InputEnded

  /** How one pass of the `show` loop ends: with the next focus and input
      position, or with the outcome of `show`. */
  datatype PassEnd = Continue(idx: nat, pos: nat) | Finished(outcome: ShowOutcome)

  class Screen {
    const title: string
    const panelId: string
    const instruction: string
    const keyboard: Keyboard
    var fields: seq<Field>
    var staticText: map<(int, int), string>
    var errorMessage: string
    /** Whether some render has put a non-empty message on the message line. */
    ghost var errorShown: bool

    /** Title and panel id are stored upper-cased. */
    constructor (title: string, panelId: string, instruction: string, keyboard: Keyboard)
      ensures this.title == UpperStr(title) && this.panelId == UpperStr(panelId)
      ensures this.instruction == instruction && this.keyboard == keyboard
      ensures fields == [] && staticText == map[] && errorMessage == "" && !errorShown
    {
      this.title := UpperStr(title);
      this.panelId := UpperStr(panelId);
      this.instruction := instruction;
      this.keyboard := keyboard;
      fields := [];
      staticText := map[];
      errorMessage := "";
      errorShown := false;
    }

    method AddField(field: Field)
      modifies this
      ensures fields == old(fields) + [field]
      ensures staticText == old(staticText) && errorMessage == old(errorMessage)
      ensures errorShown == old(errorShown)
    {
      fields := fields + [field];
    }

    /** Static text is keyed by its position; a second text at the same
        position replaces the first. */
    method AddText(row: int, col: int, text: string)
      modifies this
      ensures staticText == old(staticText)[(row, col) := text]
      ensures fields == old(fields) && errorMessage == old(errorMessage)
      ensures errorShown == old(errorShown)
    {
      staticText := staticText[(row, col) := text];
    }

    /** `get_input`: edit one field until a key leaves it. The cursor starts
        at the end of the value. SUBMIT, NEXT and PREV write the edited value
        back into the field; CANCEL and running out of input leave it as it
        was. The insert flag stays as the keys left it, for the next field. */
    method GetInput(field: Field, input: seq<char>, pos: nat) returns (exit: EditorExit, next: nat)
      requires pos <= |input|
      modifies field, keyboard
      ensures field.fieldType == ReadOnly ==>
                exit == ReadOnlyValue(old(field.value)) && next == pos &&
                field.value == old(field.value) && keyboard.insertMode == old(keyboard.insertMode)
      ensures field.fieldType != ReadOnly ==>
                var r := EditRun(EditorState(old(field.value), |old(field.value)|, old(keyboard.insertMode)),
                                 input, pos, field.length, field.fieldType == Numeric);
                && next == r.next
                && keyboard.insertMode == r.state.insertMode
                && exit == (if r.action.Some? then Action(r.action.value) else OutOfInput)
                && field.value == (if r.action.Some? && r.action.value != Cancel then r.state.value
                                   else old(field.value))
      ensures pos <= next <= |input| && (exit.Action? ==> pos < next)
      ensures |old(field.value)| <= field.length ==> |field.value| <= field.length
      ensures field.fieldType == Numeric && AllDigits(old(field.value)) ==> AllDigits(field.value)
    {
      if field.fieldType == ReadOnly {
        return ReadOnlyValue(field.value), pos;
      }
      var start := EditorState(field.value, |field.value|, keyboard.insertMode);
      var r := EditLoop(start, input, pos, field.length, field.fieldType == Numeric);
      EditRunKeepsCursor(start, input, pos, field.length, field.fieldType == Numeric);
      EditRunKeepsBounds(start, input, pos, field.length, field.fieldType == Numeric);
      keyboard.insertMode := r.state.insertMode;
      next := r.next;
      if r.action.None? {
        exit := OutOfInput;
      } else {
        if r.action.value != Cancel {
          field.value := r.state.value;
        }
        exit := Action(r.action.value);
      }
    }

    /** One visit of the focus: `get_input` on field `idx`. Only that field
        object's value can change (at every position that lists it), as
        `VisitField` describes. */
    method EditFocused(idx: nat, input: seq<char>, pos: nat) returns (exit: EditorExit, next: nat)
      requires idx < |fields| && Editable(fields[idx]) && pos <= |input|
      modifies fields[idx], keyboard
      ensures pos <= next <= |input| && (exit.Action? ==> pos < next)
      ensures var v := VisitField(fields, old(Values(fields)), old(keyboard.insertMode), idx, input, pos);
              && Values(fields) == v.values && keyboard.insertMode == v.insert && next == v.next
              && exit == (if v.action.Some? then Action(v.action.value) else OutOfInput)
    {
      ghost var vals := Values(fields);
      exit, next := GetInput(fields[idx], input, pos);
      ghost var v := VisitField(fields, vals, old(keyboard.insertMode), idx, input, pos);
      assert Values(fields) == v.values by {
        forall i | 0 <= i < |fields|
          ensures fields[i].value == v.values[i]
        {
          if fields[i] != fields[idx] {
            assert fields[i].value == old(fields[i].value);
          }
        }
      }
    }

    /** A panel with nothing to edit is rendered once, message line and
        all, and its values are returned as they are. */
    method ShowAllReadOnly() returns (results: map<string, string>)
      modifies this
      ensures fields == old(fields) && errorMessage == old(errorMessage) && staticText == old(staticText)
      ensures errorShown == (old(errorShown) || errorMessage != "")
      ensures IsResultsOf(fields, results)
    {
      errorShown := errorShown || errorMessage != "";
      results := GetResults(fields);
    }

    /** One pass of the `show` loop: clear the message line, render, let the
        focused field be edited, and act on the editor's action. NEXT and
        PREV move the focus; CANCEL finishes; SUBMIT finishes with the
        results when every field validates and otherwise keeps the focus
        with the first failure's message, which the next pass clears before
        its render. */
    method Pass(idx: nat, input: seq<char>, pos: nat) returns (r: PassEnd)
      requires idx < |fields| && Editable(fields[idx]) && pos <= |input|
      modifies this, keyboard, fields
      ensures fields == old(fields) && errorShown == old(errorShown) && staticText == old(staticText)
      ensures r.Continue? ==> r.idx < |fields| && Editable(fields[r.idx]) && pos < r.pos <= |input|
      ensures r.Continue? && errorMessage != "" ==> r.idx == idx && !AllValid(fields)
      ensures r.Finished? ==> r.outcome == Cancelled || r.outcome == InputEnded || r.outcome.Submitted?
      ensures r.Finished? && r.outcome.Submitted? ==> IsResultsOf(fields, r.outcome.results) && AllValid(fields)
      ensures r.Finished? ==> errorMessage == ""
      ensures var s := PassStep(fields, old(Values(fields)), old(keyboard.insertMode), idx, input, pos);
              && Values(fields) == s.values && keyboard.insertMode == s.insert
              && (s.Go? ==> r == Continue(s.idx, s.pos))
              && (s.Stop? ==> r.Finished? && FinishedAs(s.finish, r.outcome))
    {
      ghost var vals, insert := Values(fields), keyboard.insertMode;
      ClearAndRender();
      var exit, next := EditFocused(idx, input, pos);
      ghost var v := VisitField(fields, vals, insert, idx, input, pos);
      assert v == Visit(if exit.Action? then Some(exit.action) else None, next, Values(fields), keyboard.insertMode);
      assert PassStep(fields, vals, insert, idx, input, pos) == AfterVisit(fields, idx, v);
      r := Act(idx, exit, next, keyboard.insertMode);
    }

    /** The start of a pass: the message line is cleared before the render,
        so the render shows no message. */
    method ClearAndRender()
      modifies this
      ensures fields == old(fields) && errorMessage == "" && errorShown == old(errorShown) && staticText == old(staticText)
    {
      errorMessage := "";
      errorShown := errorShown || errorMessage != "";
    }

    /** The second half of a pass: act on how the editor returned. */
    method Act(idx: nat, exit: EditorExit, next: nat, ghost insert: bool) returns (r: PassEnd)
      requires idx < |fields| && Editable(fields[idx]) && !exit.ReadOnlyValue? && errorMessage == ""
      modifies this
      ensures fields == old(fields) && errorShown == old(errorShown) && staticText == old(staticText)
      ensures r.Continue? ==> r.idx < |fields| && Editable(fields[r.idx]) && r.pos == next
      ensures r.Continue? && errorMessage != "" ==> r.idx == idx && !AllValid(fields)
      ensures r.Finished? ==> r.outcome == Cancelled || r.outcome == InputEnded || r.outcome.Submitted?
      ensures r.Finished? && r.outcome.Submitted? ==> IsResultsOf(fields, r.outcome.results) && AllValid(fields)
      ensures r.Finished? ==> errorMessage == ""
      ensures var s := AfterVisit(fields, idx, Visit(if exit.Action? then Some(exit.action) else None,
                                                     next, Values(fields), insert));
              && (s.Go? ==> r == Continue(s.idx, s.pos))
              && (s.Stop? ==> r.Finished? && FinishedAs(s.finish, r.outcome))
    {
      AllValidIsValuesValid(fields);
      if !exit.Action? {
        return Finished(InputEnded);
      }
      match exit.action
      case Next =>
        var to := NextFieldIndex(fields, idx);
        return Continue(to, next);
      case Prev =>
        var to := PrevFieldIndex(fields, idx);
        return Continue(to, next);
      case Cancel =>
        return Finished(Cancelled);
      case Submit =>
        r := SubmitPass(idx, next);
    }

    /** SUBMIT: the results when every field validates; otherwise the focus
        stays where it was and the first failure's message is kept for the
        next render. */
    method SubmitPass(idx: nat, next: nat) returns (r: PassEnd)
      modifies this
      ensures fields == old(fields) && errorShown == old(errorShown) && staticText == old(staticText)
      ensures r.Continue? ==> r == Continue(idx, next) && !AllValid(fields)
      ensures r.Finished? ==> r.outcome.Submitted? && IsResultsOf(fields, r.outcome.results) && AllValid(fields)
      ensures r.Finished? ==> errorMessage == old(errorMessage)
    {
      var bad := FirstInvalid(fields);
      if bad.None? {
        var results := GetResults(fields);
        return Finished(Submitted(results));
      }
      errorMessage := fields[bad.value].Validate().1;
      return Continue(idx, next);
    }

    /** `show`: focus the first editable field and run passes until one
        finishes, which is the run `PanelRun` describes from the values and
        insert flag `show` started with. No render of a panel with an
        editable field ever shows an error message. A panel whose fields are
        all READONLY is rendered once and its values returned; a panel
        without fields is an error. */
    method Show(input: seq<char>) returns (outcome: ShowOutcome)
      modifies this, keyboard, fields
      ensures fields == old(fields) && staticText == old(staticText)
      ensures HasEditable(fields) ==> errorMessage == ""
      ensures !HasEditable(fields) ==> errorMessage == old(errorMessage)
      ensures outcome == NoFields <==> |fields| == 0
      ensures outcome.Submitted? ==> IsResultsOf(fields, outcome.results)
      ensures outcome.Submitted? && HasEditable(fields) ==> AllValid(fields)
      ensures !HasEditable(fields) ==> forall i :: 0 <= i < |fields| ==> fields[i].value == old(fields[i].value)
      ensures HasEditable(fields) ==>
                var run := PanelRun(fields, old(Values(fields)), old(keyboard.insertMode),
                                    FirstEditableFrom(fields, 0), input, 0);
                && Values(fields) == run.values && keyboard.insertMode == run.insert
                && FinishedAs(run.finish, outcome)
      ensures ReadOnlyKept(fields, old(Values(fields)))
      ensures ShapesKept(fields, old(Values(fields)))
      ensures HasEditable(fields) ==> errorShown == old(errorShown)
    {
      ghost var before := Values(fields);
      if |fields| == 0 {
        return NoFields;
      }
      var idx: nat := FirstEditable(fields);
      if idx == |fields| {
        var results := ShowAllReadOnly();
        return Submitted(results);
      }
      PanelRunKeeps(fields, before, before, keyboard.insertMode, idx, input, 0);
      outcome := RunPasses(idx, input);
    }

    /** The `show` loop proper, from the first editable field `first`. */
    method RunPasses(first: nat, input: seq<char>) returns (outcome: ShowOutcome)
      requires first < |fields| && Editable(fields[first])
      modifies this, keyboard, fields
      ensures fields == old(fields) && errorShown == old(errorShown) && staticText == old(staticText)
      ensures var run := PanelRun(fields, old(Values(fields)), old(keyboard.insertMode), first, input, 0);
              && Values(fields) == run.values && keyboard.insertMode == run.insert
              && FinishedAs(run.finish, outcome)
      ensures outcome.Submitted? ==> IsResultsOf(fields, outcome.results) && AllValid(fields)
      ensures errorMessage == ""
    {
      ghost var run := PanelRun(fields, Values(fields), keyboard.insertMode, first, input, 0);
      var idx: nat, pos: nat := first, 0;
      while true
        invariant fields == old(fields) && errorShown == old(errorShown) && staticText == old(staticText)
        invariant pos <= |input| && idx < |fields| && Editable(fields[idx])
        invariant run == PanelRun(fields, Values(fields), keyboard.insertMode, idx, input, pos)
        decreases |input| - pos
      {
        ghost var vals, insert := Values(fields), keyboard.insertMode;
        var r := Pass(idx, input, pos);
        ghost var s := PassStep(fields, vals, insert, idx, input, pos);
        if r.Finished? {
          return r.outcome;
        }
        idx, pos := r.idx, r.pos;
      }
    }
  }
}
