/** The work-with list of src/ux3270/dialog/work_with_list.py: a paged list
    with a one-character action field on every row. The user types action
    codes on any number of rows and presses Enter to have them all
    processed at once. */
module WorkWithList {
  import opened Common
  import opened Dialog

  // Title, instruction, blank, action legend, blank, column header,
  // separator; message, separator, keys.
  const HEADER_LINES: nat := 7
  const FOOTER_LINES: nat := 3

  /** `_read_key`: `ESC [ A/B` are Up/Down; `ESC [ 1 x y` is read whole and
      gives F3, F6, F7 or F8 for x = 3, 7, 8, 9; `ESC O R/Q` are F3 and F6;
      every other escape sequence gives ESC. */
  function DecodeKey(s: seq<char>): (r: Option<(Key, nat)>)
    ensures r.Some? ==> 1 <= r.value.1 <= |s|
    ensures r.Some? ==> r.value.0 == Up || r.value.0 == Down || r.value.0 == F3 || r.value.0 == F6
                        || r.value.0 == F7 || r.value.0 == F8 || r.value.0 == Esc
                        || r.value.0 == Ch(s[0])
    ensures r.Some? && r.value.0.Ch? ==> r.value.1 == 1 && s[0] != ESC
    ensures r.None? ==> |s| < 5 && (|s| == 0 || s[0] == ESC)
  {
    if |s| == 0 then None
    else if s[0] != ESC then Some((Ch(s[0]), 1))
    else if |s| < 2 then None
    else if s[1] == '[' then
      if |s| < 3 then None
      else if s[2] == 'A' then Some((Up, 3))
      else if s[2] == 'B' then Some((Down, 3))
      else if s[2] == '1' then
        if |s| < 5 then None
        else if s[3] == '3' then Some((F3, 5))
        else if s[3] == '7' then Some((F6, 5))
        else if s[3] == '8' then Some((F7, 5))
        else if s[3] == '9' then Some((F8, 5))
        else Some((Esc, 5))
      else Some((Esc, 3))
    else if s[1] == 'O' then
      if |s| < 3 then None
      else if s[2] == 'R' then Some((F3, 3))
      else if s[2] == 'Q' then Some((F6, 3))
      else Some((Esc, 3))
    else Some((Esc, 2))
  }

  /** The keys the input decodes to from `pos` on, read until the rest no
      longer decodes to a whole key. */
  function Keys(input: seq<char>, pos: nat): seq<Key>
    requires pos <= |input|
    decreases |input| - pos
  {
    var d := DecodeKey(input[pos..]);
    if d.None? then [] else [d.value.0] + Keys(input, pos + d.value.1)
  }

  /** Reading one more key, which ends at `next`, keeps `seen` a prefix of
      what the input decodes to. */
  lemma KeysRead(input: seq<char>, pos: nat, next: nat, seen: seq<Key>, k: Key)
    requires pos <= |input| && DecodeKey(input[pos..]).Some?
    requires k == DecodeKey(input[pos..]).value.0 && next == pos + DecodeKey(input[pos..]).value.1
    requires Keys(input, 0) == seen + Keys(input, pos)
    ensures next <= |input| && Keys(input, 0) == seen + [k] + Keys(input, next)
    ensures seen + [k] <= Keys(input, 0)
  {
    KeysUnfold(input, pos, next, k);
    PrefixGrows(Keys(input, 0), seen, k, Keys(input, next));
  }

  lemma KeysUnfold(input: seq<char>, pos: nat, next: nat, k: Key)
    requires pos <= |input| && DecodeKey(input[pos..]).Some?
    requires k == DecodeKey(input[pos..]).value.0 && next == pos + DecodeKey(input[pos..]).value.1
    ensures next <= |input| && Keys(input, pos) == [k] + Keys(input, next)
  {
  }

  /** Reads the key at `pos`: None when the rest of the input no longer
      decodes to a whole key, so that every key the input holds has been read. */
  method NextKey(input: seq<char>, pos: nat, ghost seen: seq<Key>) returns (key: Option<Key>, next: nat)
    requires pos <= |input| && Keys(input, 0) == seen + Keys(input, pos)
    ensures key.None? ==> Keys(input, 0) == seen
    ensures key.Some? ==> pos < next <= |input| && Keys(input, 0) == seen + [key.value] + Keys(input, next)
  {
    var decoded := DecodeKey(input[pos..]);
    if decoded.None? {
      return None, pos;
    }
    var (k, used) := decoded.value;
    next := pos + used;
    KeysRead(input, pos, next, seen, k);
    key := Some(k);
  }

  /** The keys the list understands come back from their terminal sequences,
      whatever follows them. */
  lemma DecodeKeyRoundTrip(k: Key, rest: seq<char>)
    requires k in {Up, Down, F3, F6, F7, F8, Esc} || (k.Ch? && k.c != ESC)
    ensures DecodeKey(Encode(k) + rest) == Some((k, |Encode(k)|))
  {
    var s := Encode(k) + rest;
    assert forall i :: 0 <= i < |Encode(k)| ==> s[i] == Encode(k)[i];
  }

  /** Every action field is empty or holds one upper-cased printable
      character. */
  predicate ActionsOk(inputs: seq<string>) {
    forall i :: 0 <= i < |inputs| ==>
      inputs[i] == "" || (|inputs[i]| == 1 && IsPrintable(inputs[i][0]) && Upper(inputs[i][0]) == inputs[i][0])
  }

  /** What Enter hands back for one row. */
  datatype ActionRequest = ActionRequest(action: string, row: map<string, string>)

  /** A row takes part when its action field is non-empty and, upper-cased,
      is one of the defined codes. */
  predicate Wanted(input: string, codes: set<string>) {
    input != "" && UpperStr(input) in codes
  }

  /** The requests Enter collects, in row order. */
  function Requests(inputs: seq<string>, rows: seq<map<string, string>>, codes: set<string>): seq<ActionRequest>
    requires |inputs| == |rows|
  {
    if inputs == [] then []
    else
      var k := |inputs| - 1;
      Requests(inputs[..k], rows[..k], codes)
      + (if Wanted(inputs[k], codes) then [ActionRequest(UpperStr(inputs[k]), rows[k])] else [])
  }

  /** Enter finds nothing to do exactly when no row asks for a defined
      action. */
  lemma {:induction false} RequestsEmpty(inputs: seq<string>, rows: seq<map<string, string>>, codes: set<string>)
    requires |inputs| == |rows|
    ensures Requests(inputs, rows, codes) == [] <==> forall i :: 0 <= i < |inputs| ==> !Wanted(inputs[i], codes)
  {
    if inputs != [] {
      var k := |inputs| - 1;
      RequestsEmpty(inputs[..k], rows[..k], codes);
      assert forall i :: 0 <= i < k ==> inputs[..k][i] == inputs[i];
    }
  }

  /** Every collected request comes from a row that asks for a defined
      action, and carries that row and the upper-cased code. */
  lemma {:induction false} RequestsSound(inputs: seq<string>, rows: seq<map<string, string>>, codes: set<string>,
                                         req: ActionRequest)
    requires |inputs| == |rows| && req in Requests(inputs, rows, codes)
    ensures exists i :: 0 <= i < |inputs| && Wanted(inputs[i], codes)
                        && req == ActionRequest(UpperStr(inputs[i]), rows[i])
  {
    var k := |inputs| - 1;
    if req in Requests(inputs[..k], rows[..k], codes) {
      RequestsSound(inputs[..k], rows[..k], codes, req);
      var i :| 0 <= i < k && Wanted(inputs[..k][i], codes)
               && req == ActionRequest(UpperStr(inputs[..k][i]), rows[..k][i]);
      assert inputs[..k][i] == inputs[i] && rows[..k][i] == rows[i];
    } else {
      assert Wanted(inputs[k], codes) && req == ActionRequest(UpperStr(inputs[k]), rows[k]);
    }
  }

  /** Every row that asks for a defined action is collected. */
  lemma {:induction false} RequestsComplete(inputs: seq<string>, rows: seq<map<string, string>>, codes: set<string>,
                                            i: nat)
    requires |inputs| == |rows| && i < |inputs| && Wanted(inputs[i], codes)
    ensures ActionRequest(UpperStr(inputs[i]), rows[i]) in Requests(inputs, rows, codes)
  {
    var k := |inputs| - 1;
    if i < k {
      RequestsComplete(inputs[..k], rows[..k], codes, i);
      assert inputs[..k][i] == inputs[i] && rows[..k][i] == rows[i];
    }
  }

  /** A request is in the result exactly when some row asks for a defined
      action, and it carries that row and the upper-cased code. */
  lemma RequestsMembers(inputs: seq<string>, rows: seq<map<string, string>>, codes: set<string>,
                        req: ActionRequest)
    requires |inputs| == |rows|
    ensures req in Requests(inputs, rows, codes) <==>
              exists i :: 0 <= i < |inputs| && Wanted(inputs[i], codes)
                          && req == ActionRequest(UpperStr(inputs[i]), rows[i])
  {
    if req in Requests(inputs, rows, codes) {
      RequestsSound(inputs, rows, codes, req);
    }
    if exists i :: 0 <= i < |inputs| && Wanted(inputs[i], codes)
                   && req == ActionRequest(UpperStr(inputs[i]), rows[i]) {
      var i :| 0 <= i < |inputs| && Wanted(inputs[i], codes)
               && req == ActionRequest(UpperStr(inputs[i]), rows[i]);
      RequestsComplete(inputs, rows, codes, i);
    }
  }

  /** The Enter loop of `show`: one request per row that asks for a defined
      action, in row order. */
  method CollectActions(inputs: seq<string>, rows: seq<map<string, string>>, codes: set<string>)
    returns (results: seq<ActionRequest>)
    requires |inputs| == |rows|
    ensures results == Requests(inputs, rows, codes)
  {
    results := [];
    for i := 0 to |inputs|
      invariant results == Requests(inputs[..i], rows[..i], codes)
    {
      assert inputs[..i + 1][..i] == inputs[..i] && rows[..i + 1][..i] == rows[..i];
      if inputs[i] != "" && UpperStr(inputs[i]) in codes {
        results := results + [ActionRequest(UpperStr(inputs[i]), rows[i])];
      }
    }
    assert inputs[..|inputs|] == inputs && rows[..|rows|] == rows;
  }

  /** Tab as the source has it: at the bottom line of the page the view
      scrolls by one row but the cursor goes back to the first line. */
  function TabAsWritten(c: ListCursor, ps: nat, n: nat): (r: ListCursor)
    requires ps >= 1 && CursorOk(c, ps, n)
    ensures CursorOk(r, ps, n)
    ensures r == MoveDown(c, ps, n) || (c.line == ps - 1 && r == ListCursor(c.top + 1, 0))
  {
    if Abs(c) + 1 < n then
      if c.line < ps - 1 then c.(line := c.line + 1)
      else if c.top + ps < n then ListCursor(c.top + 1, 0)
      else c
    else c
  }

  /** With three rows to a page, Tab on the last line of the first page of
      five rows selects row 1 instead of row 3. */
  lemma TabAsWrittenMovesBack()
    ensures Abs(TabAsWritten(ListCursor(0, 2), 3, 5)) == 1
    ensures Abs(MoveDown(ListCursor(0, 2), 3, 5)) == 3
  {
  }

  /** On every page of three rows or more, Tab at the bottom line with rows
      below selects an earlier row. */
  lemma TabAsWrittenMovesBackAlways(c: ListCursor, ps: nat, n: nat)
    requires ps >= 3 && CursorOk(c, ps, n) && c.line == ps - 1 && c.top + ps < n
    ensures Abs(TabAsWritten(c, ps, n)) < Abs(c)
  {
  }

  /** The position and action fields inside `show`. */
  datatype WorkState = WorkState(cursor: ListCursor, inputs: seq<string>)

  predicate WorkOk(s: WorkState, ps: nat, n: nat) {
    CursorOk(s.cursor, ps, n) && |s.inputs| == n && ActionsOk(s.inputs)
  }

  /** Typing a printable character enters an action code. */
  predicate Types(k: Key) {
    k.Ch? && IsPrintable(k.c)
  }

  /** Backspace and Delete clear the action field. */
  predicate Erases(k: Key) {
    k == Ch(DEL) || k == Ch(BS)
  }

  /** The cursor keys: F7 and F8 page (when there is a page in that
      direction) and put the cursor on the first line; Up and Down move by
      one row; Tab moves to the next row as Down does. Other keys leave the
      cursor alone. */
  function MoveCursor(c: ListCursor, k: Key, ps: nat, n: nat): (r: ListCursor)
    requires ps >= 1 && CursorOk(c, ps, n)
    ensures CursorOk(r, ps, n)
  {
    match k
    case F7 => if c.top > 0 then ListCursor(PageBackTop(c.top, ps), 0) else c
    case F8 => if c.top + ps < n then ListCursor(PageForwardToLastRow(c.top, ps, n), 0) else c
    case Up => MoveUp(c)
    case Down => MoveDown(c, ps, n)
    case Ch(ch) => if ch == TAB then MoveDown(c, ps, n) else c
    case _ => c
  }

  /** Where each key puts the cursor: F7 goes a page back and F8 a page on
      (to the first line) when there is a page that way, Up selects the
      previous row and Down and Tab the next one, and every other key leaves
      the cursor where it is. */
  lemma MoveCursorMoves(c: ListCursor, k: Key, ps: nat, n: nat)
    requires ps >= 1 && CursorOk(c, ps, n)
    ensures var r := MoveCursor(c, k, ps, n);
      && (k == F7 && c.top > 0 ==> r == ListCursor(PageBackTop(c.top, ps), 0))
      && (k == F8 && c.top + ps < n ==> r == ListCursor(c.top + ps, 0))
      && (k == Up ==> Abs(r) == Max(0, Abs(c) - 1))
      && ((k == Down || k == Ch(TAB)) && n > 0 ==> Abs(r) == Min(Abs(c) + 1, n - 1))
      && (k != F7 && k != F8 && k != Up && k != Down && k != Ch(TAB) ==> r == c)
      && (k == F7 && c.top == 0 ==> r == c)
      && (k == F8 && c.top + ps >= n ==> r == c)
  {
    if k == F7 {
    } else if k == F8 {
    } else if k == Up {
    } else if k == Down || k == Ch(TAB) {
    } else {
      assert MoveCursor(c, k, ps, n) == c;
    }
  }

  /** A key that does not end `show`. A printable character becomes the
      selected row's action (upper-cased) and the cursor moves on as with
      Down; Backspace clears the selected row's action; the cursor keys move;
      everything else, Enter with nothing to process included, is ignored.
      An empty list has no action field to type into. */
  function Step(s: WorkState, k: Key, ps: nat, n: nat): (r: WorkState)
    requires ps >= 1 && WorkOk(s, ps, n)
    ensures WorkOk(r, ps, n)
    ensures Types(k) && n > 0 ==> r.inputs == s.inputs[Abs(s.cursor) := [Upper(k.c)]]
                                  && r.cursor == MoveDown(s.cursor, ps, n)
    ensures Erases(k) && n > 0 ==> r.inputs == s.inputs[Abs(s.cursor) := ""] && r.cursor == s.cursor
    ensures !(Types(k) || Erases(k)) ==> r.inputs == s.inputs && r.cursor == MoveCursor(s.cursor, k, ps, n)
    ensures (Types(k) || Erases(k)) && n == 0 ==> r == s
  {
    if (Types(k) || Erases(k)) && n == 0 then s
    else if Types(k) then
      WorkState(MoveDown(s.cursor, ps, n), s.inputs[Abs(s.cursor) := [Upper(k.c)]])
    else if Erases(k) then
      s.(inputs := s.inputs[Abs(s.cursor) := ""])
    else
      s.(cursor := MoveCursor(s.cursor, k, ps, n))
  }

  /** The state after a run of keys none of which ends `show`. */
  function StepAll(s: WorkState, keys: seq<Key>, ps: nat, n: nat): (r: WorkState)
    requires ps >= 1 && WorkOk(s, ps, n)
    ensures WorkOk(r, ps, n)
    decreases |keys|
  {
    if keys == [] then s else StepAll(Step(s, keys[0], ps, n), keys[1..], ps, n)
  }

  lemma {:induction false} StepAllAppend(s: WorkState, keys: seq<Key>, k: Key, ps: nat, n: nat)
    requires ps >= 1 && WorkOk(s, ps, n)
    ensures StepAll(s, keys + [k], ps, n) == Step(StepAll(s, keys, ps, n), k, ps, n)
    decreases |keys|
  {
    if keys != [] {
      assert (keys + [k])[1..] == keys[1..] + [k];
      StepAllAppend(Step(s, keys[0], ps, n), keys[1..], k, ps, n);
    }
  }

  /** The keys that end `show` in state `s`: F3, Ctrl+C, F6 when there is a
      callback, and Enter when some row asks for a defined action. */
  predicate Ends(k: Key, s: WorkState, rows: seq<map<string, string>>, codes: set<string>, hasCallback: bool)
    requires |s.inputs| == |rows|
  {
    || k == F3 || k == Ch(CTRL_C)
    || (k == F6 && hasCallback)
    || ((k == Ch(CR) || k == Ch(LF)) && Requests(s.inputs, rows, codes) != [])
  }

  /** `None` (F3, Ctrl+C), the empty list returned after the F6 callback,
      or the requests Enter collected. */
  datatype WorkOutcome = Requested(requests: seq<ActionRequest>) | Cancelled | Added | InputEnded

  /** The outcome of a key that ends `show`. */
  function Outcome(k: Key, s: WorkState, rows: seq<map<string, string>>, codes: set<string>): (o: WorkOutcome)
    requires |s.inputs| == |rows|
    ensures !o.InputEnded?
    ensures o.Requested? ==> forall req :: req in o.requests ==>
              exists i :: 0 <= i < |rows| && Wanted(s.inputs[i], codes)
                          && req == ActionRequest(UpperStr(s.inputs[i]), rows[i])
  {
    if k == F3 || k == Ch(CTRL_C) then Cancelled
    else if k == F6 then Added
    else
      var reqs := Requests(s.inputs, rows, codes);
      assert forall req :: req in reqs ==>
               exists i :: 0 <= i < |rows| && Wanted(s.inputs[i], codes)
                           && req == ActionRequest(UpperStr(s.inputs[i]), rows[i]) by {
        forall req | req in reqs
          ensures exists i :: 0 <= i < |rows| && Wanted(s.inputs[i], codes)
                              && req == ActionRequest(UpperStr(s.inputs[i]), rows[i])
        {
          RequestsMembers(s.inputs, rows, codes, req);
        }
      }
      Requested(reqs)
  }

  /** No key of `keys` before position `upTo` ends `show` in the state the
      keys before it left. */
  ghost predicate NoneEnds(start: WorkState, keys: seq<Key>, upTo: nat, ps: nat, rows: seq<map<string, string>>,
                           codes: set<string>, hasCallback: bool)
    requires ps >= 1 && WorkOk(start, ps, |rows|) && upTo <= |keys|
  {
    forall i :: 0 <= i < upTo ==> !Ends(keys[i], StepAll(start, keys[..i], ps, |rows|), rows, codes, hasCallback)
  }

  /** A key that does not end `show` extends a run of keys none of which
      did; the run so far is also the prefix of the longer one. */
  lemma NoneEndsExtend(start: WorkState, seen: seq<Key>, key: Key, ps: nat, rows: seq<map<string, string>>,
                       codes: set<string>, hasCallback: bool)
    requires ps >= 1 && WorkOk(start, ps, |rows|)
    requires NoneEnds(start, seen, |seen|, ps, rows, codes, hasCallback)
    ensures (seen + [key])[..|seen|] == seen
    ensures NoneEnds(start, seen + [key], |seen|, ps, rows, codes, hasCallback)
    ensures !Ends(key, StepAll(start, seen, ps, |rows|), rows, codes, hasCallback) ==>
              NoneEnds(start, seen + [key], |seen| + 1, ps, rows, codes, hasCallback)
  {
    assert forall i :: 0 <= i <= |seen| ==> (seen + [key])[..i] == seen[..i];
  }

  /** One run of `show` from `start`: `seen` is the keys read, `top` and
      `inputs` the first visible row and the action fields afterwards,
      `calls` how often the F6
      callback ran. All keys but the last leave the list open and act as
      `Step` says. If the input ran out, no key ended it. Otherwise the last
      key ends it and gives `Outcome`. */
  ghost predicate Shows(start: WorkState, ps: nat, rows: seq<map<string, string>>, codes: set<string>,
                        hasCallback: bool, seen: seq<Key>, outcome: WorkOutcome, top: nat, inputs: seq<string>,
                        calls: int)
    requires ps >= 1 && WorkOk(start, ps, |rows|)
  {
    if outcome.InputEnded? then
      && NoneEnds(start, seen, |seen|, ps, rows, codes, hasCallback)
      && var final := StepAll(start, seen, ps, |rows|);
         && top == final.cursor.top && inputs == final.inputs
         && calls == 0
    else
      && |seen| > 0
      && NoneEnds(start, seen, |seen| - 1, ps, rows, codes, hasCallback)
      && var last := StepAll(start, seen[..|seen| - 1], ps, |rows|);
         && Ends(seen[|seen| - 1], last, rows, codes, hasCallback)
         && top == last.cursor.top && inputs == last.inputs
         && outcome == Outcome(seen[|seen| - 1], last, rows, codes)
         && calls == (if seen[|seen| - 1] == F6 then 1 else 0)
  }

  /** A run whose keys none ends and whose input has run out. */
  lemma ShowsEnded(start: WorkState, ps: nat, rows: seq<map<string, string>>, codes: set<string>,
                   hasCallback: bool, seen: seq<Key>, st: WorkState)
    requires ps >= 1 && WorkOk(start, ps, |rows|)
    requires NoneEnds(start, seen, |seen|, ps, rows, codes, hasCallback) && st == StepAll(start, seen, ps, |rows|)
    ensures Shows(start, ps, rows, codes, hasCallback, seen, InputEnded, st.cursor.top, st.inputs, 0)
  {
  }

  /** A run ended by its last key, which acts in the state the others left. */
  lemma ShowsEndedBy(start: WorkState, ps: nat, rows: seq<map<string, string>>, codes: set<string>,
                     hasCallback: bool, seen: seq<Key>, key: Key, st: WorkState)
    requires ps >= 1 && WorkOk(start, ps, |rows|)
    requires NoneEnds(start, seen + [key], |seen|, ps, rows, codes, hasCallback)
    requires st == StepAll(start, seen, ps, |rows|) && (seen + [key])[..|seen|] == seen
    requires Ends(key, st, rows, codes, hasCallback)
    ensures Shows(start, ps, rows, codes, hasCallback, seen + [key], Outcome(key, st, rows, codes),
                  st.cursor.top, st.inputs, if key == F6 then 1 else 0)
  {
  }

  /** The key loop of `show`, on values: keys are read and applied until one
      ends `show` or the input runs out. */
  method Run(input: seq<char>, start: WorkState, ps: nat, rows: seq<map<string, string>>, codes: set<string>,
             hasCallback: bool)
    returns (outcome: WorkOutcome, seen: seq<Key>, final: WorkState, calls: nat)
    requires ps >= 1 && WorkOk(start, ps, |rows|)
    ensures WorkOk(final, ps, |rows|) && calls <= 1
    ensures seen <= Keys(input, 0) && (outcome.InputEnded? ==> seen == Keys(input, 0))
    ensures Shows(start, ps, rows, codes, hasCallback, seen, outcome, final.cursor.top, final.inputs, calls)
  {
    var st := start;
    seen := [];
    var pos := 0;
    while true
      invariant pos <= |input| && WorkOk(st, ps, |rows|)
      invariant st == StepAll(start, seen, ps, |rows|)
      invariant NoneEnds(start, seen, |seen|, ps, rows, codes, hasCallback)
      invariant Keys(input, 0) == seen + Keys(input, pos)
      decreases |input| - pos
    {
      var read, next := NextKey(input, pos, seen);
      if read.None? {
        ShowsEnded(start, ps, rows, codes, hasCallback, seen, st);
        return InputEnded, seen, st, 0;
      }
      var key := read.value;
      pos := next;
      NoneEndsExtend(start, seen, key, ps, rows, codes, hasCallback);
      if key == F3 || key == Ch(CTRL_C) {
        ShowsEndedBy(start, ps, rows, codes, hasCallback, seen, key, st);
        return Cancelled, seen + [key], st, 0;
      }
      if key == F6 && hasCallback {
        ShowsEndedBy(start, ps, rows, codes, hasCallback, seen, key, st);
        return Added, seen + [key], st, 1;
      }
      if key == Ch(CR) || key == Ch(LF) {
        var reqs := CollectActions(st.inputs, rows, codes);
        if reqs != [] {
          ShowsEndedBy(start, ps, rows, codes, hasCallback, seen, key, st);
          return Requested(reqs), seen + [key], st, 0;
        }
      }
      StepAllAppend(start, seen, key, ps, |rows|);
      st := Step(st, key, ps, |rows|);
      seen := seen + [key];
    }
  }

  class WorkWithList {
    const title: string
    const panelId: string
    const instruction: string
    const columns: seq<string>
    var rows: seq<map<string, string>>
    /** The defined action codes, upper-cased, with their descriptions. */
    var actions: map<string, string>
    var hasCallback: bool
    var currentRow: nat
    /** The action field of every row. */
    var actionInputs: seq<string>
    /** How often the F6 callback has run. */
    ghost var callbackCalls: nat

    /** The first visible row is a row of the list (or 0), and there is one
        action field per row. */
    predicate Valid()
      reads this
    {
      && (currentRow == 0 || currentRow < |rows|)
      && |actionInputs| == |rows|
      && ActionsOk(actionInputs)
    }

    /** Title and panel id are stored upper-cased; an empty instruction is
        replaced by the standard one. */
    constructor (title: string, columns: seq<string>, panelId: string, instruction: string)
      ensures this.title == UpperStr(title) && this.panelId == UpperStr(panelId)
      ensures this.instruction == (if instruction == "" then "Type action code, press Enter to process." else instruction)
      ensures this.columns == columns
      ensures rows == [] && actions == map[] && actionInputs == [] && currentRow == 0
      ensures !hasCallback && callbackCalls == 0
      ensures Valid()
    {
      this.title := UpperStr(title);
      this.panelId := UpperStr(panelId);
      this.instruction := if instruction == "" then "Type action code, press Enter to process." else instruction;
      this.columns := columns;
      rows := [];
      actions := map[];
      hasCallback := false;
      currentRow := 0;
      actionInputs := [];
      callbackCalls := 0;
    }

    /** The code is stored upper-cased; defining it again replaces its
        description. */
    method AddAction(code: string, description: string)
      modifies this
      ensures actions == old(actions)[UpperStr(code) := description]
      ensures rows == old(rows) && actionInputs == old(actionInputs) && currentRow == old(currentRow)
      ensures hasCallback == old(hasCallback) && callbackCalls == old(callbackCalls)
    {
      actions := actions[UpperStr(code) := description];
    }

    method SetAddCallback()
      modifies this
      ensures hasCallback && rows == old(rows) && actions == old(actions)
      ensures actionInputs == old(actionInputs) && currentRow == old(currentRow)
      ensures callbackCalls == old(callbackCalls)
    {
      hasCallback := true;
    }

    /** A new row comes with an empty action field. */
    method AddRow(values: map<string, string>)
      requires Valid()
      modifies this
      ensures Valid() && rows == old(rows) + [values] && actionInputs == old(actionInputs) + [""]
      ensures actions == old(actions) && currentRow == old(currentRow)
      ensures hasCallback == old(hasCallback) && callbackCalls == old(callbackCalls)
    {
      rows := rows + [values];
      actionInputs := actionInputs + [""];
    }

    /** `refresh_data`: new rows, every action field empty, the view back at
        the top. */
    method RefreshData(newRows: seq<map<string, string>>)
      modifies this
      ensures Valid() && rows == newRows && currentRow == 0
      ensures |actionInputs| == |newRows| && forall i :: 0 <= i < |actionInputs| ==> actionInputs[i] == ""
      ensures actions == old(actions) && hasCallback == old(hasCallback) && callbackCalls == old(callbackCalls)
    {
      rows := newRows;
      actionInputs := seq(|newRows|, _ => "");
      currentRow := 0;
    }

    /** `_calculate_widths`: the header's width or the longest value a row
        holds under that column. */
    method CalculateWidths() returns (widths: seq<nat>)
      ensures IsDictWidths(widths, columns, rows)
    {
      widths := DictColumnWidths(columns, rows);
    }

    /** `show`. The list starts at the remembered first visible row with the
        cursor on the first line and the action fields as they were, and
        reads the keys the input decodes to as `Shows` says. The view and the action fields stay as
        the keys left them, whatever the outcome. */
    method Show(input: seq<char>, height: int) returns (outcome: WorkOutcome, ghost seen: seq<Key>)
      requires Valid()
      modifies this
      ensures Valid() && rows == old(rows) && actions == old(actions) && hasCallback == old(hasCallback)
      ensures callbackCalls >= old(callbackCalls)
      ensures seen <= Keys(input, 0) && (outcome.InputEnded? ==> seen == Keys(input, 0))
      ensures Shows(WorkState(ListCursor(old(currentRow), 0), old(actionInputs)),
                    PageSize(height, HEADER_LINES + FOOTER_LINES), rows, actions.Keys, hasCallback,
                    seen, outcome, currentRow, actionInputs, callbackCalls - old(callbackCalls))
    {
      var ps := PageSize(height, HEADER_LINES + FOOTER_LINES);
      var start := WorkState(ListCursor(currentRow, 0), actionInputs);
      var final, calls;
      outcome, seen, final, calls := Run(input, start, ps, rows, actions.Keys, hasCallback);
      Settle(final.cursor.top, final.inputs, calls);
    }

    /** Where `show` leaves the list: the first visible row and the action
        fields, and the callback count raised by the calls made. */
    method Settle(top: nat, inputs: seq<string>, calls: nat)
      requires (top == 0 || top < |rows|) && |inputs| == |rows| && ActionsOk(inputs)
      modifies this
      ensures Valid() && currentRow == top && actionInputs == inputs
      ensures callbackCalls == old(callbackCalls) + calls
      ensures rows == old(rows) && actions == old(actions) && hasCallback == old(hasCallback)
    {
      currentRow, actionInputs, callbackCalls := top, inputs, callbackCalls + calls;
    }
  }
}
