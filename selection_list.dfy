/** The selection list of src/ux3270/dialog/selection_list.py: a paged list
    of rows in which the user marks one row with S (or just puts the cursor
    on it) and presses Enter. */
module SelectionList {
  import opened Common
  import opened Dialog

  // Title, instruction, blank, column header, separator; message, separator, keys.
  const HEADER_LINES: nat := 5
  const FOOTER_LINES: nat := 3

  /** `_read_key`: `ESC [ A/B` are Up/Down; `ESC [ 1 x y` is read whole and
      gives F3, F6, F7 or F8 for x = 3, 7, 8, 9; `ESC [ 5 x` and `ESC [ 6 x`
      are PgUp and PgDn; `ESC O R/Q` are F3 and F6; every other escape
      sequence gives ESC. */
  function DecodeKey(s: seq<char>): (r: Option<(Key, nat)>)
    ensures r.Some? ==> 1 <= r.value.1 <= |s|
    ensures r.Some? ==> r.value.0 == Up || r.value.0 == Down || r.value.0 == F3 || r.value.0 == F6
                        || r.value.0 == F7 || r.value.0 == F8 || r.value.0 == PgUp
                        || r.value.0 == PgDn || r.value.0 == Esc || r.value.0 == Ch(s[0])
    ensures r.Some? && r.value.0.Ch? ==> r.value.1 == 1 && s[0] != ESC
    ensures r.None? ==> |s| < 5 && (|s| == 0 || s[0] == ESC)
  {
    if |s| == 0 then None
    else if s[0] != ESC then Some((Ch(s[0]), 1))
    else if |s| < 2 then None
    else if s[1] == '[' then
      if |s| < 3 then None
      else if s[2] == 'A' then Some((Up, 3))
      else if s[2] == 'B' then Some((Down, 3))
      else if s[2] == '1' then
        if |s| < 5 then None
        else if s[3] == '3' then Some((F3, 5))
        else if s[3] == '7' then Some((F6, 5))
        else if s[3] == '8' then Some((F7, 5))
        else if s[3] == '9' then Some((F8, 5))
        else Some((Esc, 5))
      else if s[2] == '5' then (if |s| < 4 then None else Some((PgUp, 4)))
      else if s[2] == '6' then (if |s| < 4 then None else Some((PgDn, 4)))
      else Some((Esc, 3))
    else if s[1] == 'O' then
      if |s| < 3 then None
      else if s[2] == 'R' then Some((F3, 3))
      else if s[2] == 'Q' then Some((F6, 3))
      else Some((Esc, 3))
    else Some((Esc, 2))
  }

  /** The keys the input decodes to from `pos` on, read until the rest no
      longer decodes to a whole key. */
  function Keys(input: seq<char>, pos: nat): seq<Key>
    requires pos <= |input|
    decreases |input| - pos
  {
    var d := DecodeKey(input[pos..]);
    if d.None? then [] else [d.value.0] + Keys(input, pos + d.value.1)
  }

  /** Reading one more key, which ends at `next`, keeps `seen` a prefix of
      what the input decodes to. */
  lemma KeysRead(input: seq<char>, pos: nat, next: nat, seen: seq<Key>, k: Key)
    requires pos <= |input| && DecodeKey(input[pos..]).Some?
    requires k == DecodeKey(input[pos..]).value.0 && next == pos + DecodeKey(input[pos..]).value.1
    requires Keys(input, 0) == seen + Keys(input, pos)
    ensures next <= |input| && Keys(input, 0) == seen + [k] + Keys(input, next)
    ensures seen + [k] <= Keys(input, 0)
  {
    KeysUnfold(input, pos, next, k);
    PrefixGrows(Keys(input, 0), seen, k, Keys(input, next));
  }

  lemma KeysUnfold(input: seq<char>, pos: nat, next: nat, k: Key)
    requires pos <= |input| && DecodeKey(input[pos..]).Some?
    requires k == DecodeKey(input[pos..]).value.0 && next == pos + DecodeKey(input[pos..]).value.1
    ensures next <= |input| && Keys(input, pos) == [k] + Keys(input, next)
  {
  }

  /** Reads the key at `pos`: None when the rest of the input no longer
      decodes to a whole key, so that every key the input holds has been read. */
  method NextKey(input: seq<char>, pos: nat, ghost seen: seq<Key>) returns (key: Option<Key>, next: nat)
    requires pos <= |input| && Keys(input, 0) == seen + Keys(input, pos)
    ensures key.None? ==> Keys(input, 0) == seen
    ensures key.Some? ==> pos < next <= |input| && Keys(input, 0) == seen + [key.value] + Keys(input, next)
  {
    var decoded := DecodeKey(input[pos..]);
    if decoded.None? {
      return None, pos;
    }
    var (k, used) := decoded.value;
    next := pos + used;
    KeysRead(input, pos, next, seen, k);
    key := Some(k);
  }

  /** The keys the list understands come back from their terminal sequences,
      whatever follows them. */
  lemma DecodeKeyRoundTrip(k: Key, rest: seq<char>)
    requires k in {Up, Down, F3, F6, F7, F8, PgUp, PgDn, Esc} || (k.Ch? && k.c != ESC)
    ensures DecodeKey(Encode(k) + rest) == Some((k, |Encode(k)|))
  {
    var s := Encode(k) + rest;
    assert forall i :: 0 <= i < |Encode(k)| ==> s[i] == Encode(k)[i];
  }

  /** The S column: no row marked, or one row of the list marked "S". */
  predicate MarksOk(marks: map<nat, string>, n: nat) {
    marks == map[] || exists i :: i in marks && i < n && marks == map[i := "S"]
  }

  predicate MarkedS(marks: map<nat, string>, at: nat) {
    at in marks && UpperStr(marks[at]) == "S"
  }

  /** Typing S on a row: unmarks it if it carries S, otherwise clears every
      mark and marks it. */
  function ToggleS(marks: map<nat, string>, at: nat): (r: map<nat, string>)
    ensures at in r <==> !MarkedS(marks, at)
    ensures MarksOk(marks, at + 1) ==> r == map[] || r == map[at := "S"]
  {
    if MarkedS(marks, at) then
      if MarksOk(marks, at + 1) then
        assert marks == map[at := "S"];
        assert marks - {at} == map[];
        marks - {at}
      else marks - {at}
    else map[at := "S"]
  }

  /** Toggling keeps at most one row marked, on a row of the list. */
  lemma ToggleSKeepsMarksOk(marks: map<nat, string>, at: nat, n: nat)
    requires MarksOk(marks, n) && at < n
    ensures MarksOk(ToggleS(marks, at), n)
  {
  }

  /** Pressing S twice on the same row restores a mark that was there and
      otherwise leaves no mark at all. */
  lemma ToggleSTwice(marks: map<nat, string>, at: nat, n: nat)
    requires MarksOk(marks, n) && at < n
    ensures ToggleS(ToggleS(marks, at), at) == (if MarkedS(marks, at) then marks else map[])
  {
    assert UpperStr("S") == "S";
    if MarkedS(marks, at) {
      assert marks == map[at := "S"];
    }
  }

  /** The list's state inside `show`: the view and cursor, and the marks. */
  datatype SelState = SelState(cursor: ListCursor, marks: map<nat, string>)

  predicate SelOk(s: SelState, ps: nat, n: nat) {
    n > 0 && CursorOk(s.cursor, ps, n) && MarksOk(s.marks, n)
  }

  /** The keys that end `show` (Enter always finds a row on a non-empty list). */
  predicate Finishes(k: Key, hasCallback: bool) {
    k == F3 || k == Ch(CTRL_C) || k == Ch(CR) || k == Ch(LF) || (k == F6 && hasCallback)
  }

  /** The toggle key, tested as the source does: the key's upper-cased name
      is "S". */
  predicate IsS(k: Key) {
    UpperStr(Name(k)) == "S"
  }

  /** Only s and S toggle a mark. */
  lemma IsSExactly(k: Key)
    ensures IsS(k) <==> k == Ch('s') || k == Ch('S')
  {
    if IsS(k) {
      assert |Name(k)| == 1;
      assert Upper(Name(k)[0]) == 'S';
    }
    if k == Ch('s') {
      assert UpperStr(Name(k)) == [Upper('s')];
    }
  }

  /** The keys that move the cursor or the view. */
  predicate MovesCursor(k: Key) {
    k.Up? || k.Down? || k.F7? || k.PgUp? || k.F8? || k.PgDn?
  }

  /** Up and Down move the selected row by one; F7/PgUp and F8/PgDn page,
      when there is a page in that direction, and put the cursor on the
      first line. */
  function MoveCursor(c: ListCursor, k: Key, ps: nat, n: nat): (r: ListCursor)
    requires ps >= 1 && n > 0 && CursorOk(c, ps, n)
    ensures CursorOk(r, ps, n)
    ensures !MovesCursor(k) ==> r == c
    ensures k == Up ==> Abs(r) == Max(0, Abs(c) - 1)
    ensures k == Down ==> Abs(r) == Min(Abs(c) + 1, n - 1)
    ensures (k == F7 || k == PgUp) && c.top > 0 ==> r.line == 0 && r.top < c.top && c.top - r.top <= ps
    ensures (k == F8 || k == PgDn) && c.top + ps < n ==> r.line == 0 && c.top < r.top && r.top + ps <= n
    ensures !(k == Up || k == Down) && r != c ==> r.line == 0
    ensures (k == F7 || k == PgUp) && c.top == 0 ==> r == c
    ensures (k == F8 || k == PgDn) && c.top + ps >= n ==> r == c
  {
    match k
    case Up => MoveUp(c)
    case Down => MoveDown(c, ps, n)
    case F7 | PgUp => if c.top > 0 then ListCursor(PageBackTop(c.top, ps), 0) else c
    case F8 | PgDn => if c.top + ps < n then ListCursor(PageForwardToFullPage(c.top, ps, n), 0) else c
    case _ => c
  }

  /** A key that does not end `show`: the cursor keys move, S toggles the
      mark of the row under the cursor, anything else is ignored. */
  function Navigate(s: SelState, k: Key, ps: nat, n: nat): (r: SelState)
    requires ps >= 1 && SelOk(s, ps, n)
    ensures SelOk(r, ps, n)
    ensures MovesCursor(k) ==> r.marks == s.marks
    ensures !MovesCursor(k) ==> r.cursor == s.cursor
    ensures !MovesCursor(k) && IsS(k) ==> r.marks == ToggleS(s.marks, Abs(s.cursor))
    ensures !MovesCursor(k) && !IsS(k) ==> r == s
  {
    if MovesCursor(k) then s.(cursor := MoveCursor(s.cursor, k, ps, n))
    else if IsS(k) then
      ToggleSKeepsMarksOk(s.marks, Abs(s.cursor), n);
      s.(marks := ToggleS(s.marks, Abs(s.cursor)))
    else s
  }

  /** The state after a run of keys none of which ends `show`. */
  function NavigateAll(s: SelState, keys: seq<Key>, ps: nat, n: nat): (r: SelState)
    requires ps >= 1 && SelOk(s, ps, n)
    ensures SelOk(r, ps, n)
    decreases |keys|
  {
    if keys == [] then s else NavigateAll(Navigate(s, keys[0], ps, n), keys[1..], ps, n)
  }

  lemma {:induction false} NavigateAllAppend(s: SelState, keys: seq<Key>, k: Key, ps: nat, n: nat)
    requires ps >= 1 && SelOk(s, ps, n)
    ensures NavigateAll(s, keys + [k], ps, n) == Navigate(NavigateAll(s, keys, ps, n), k, ps, n)
    decreases |keys|
  {
    if keys != [] {
      assert (keys + [k])[1..] == keys[1..] + [k];
      NavigateAllAppend(Navigate(s, keys[0], ps, n), keys[1..], k, ps, n);
    }
  }

  /** The row Enter picks: the one marked S, else the one under the cursor.
      The source scans the S column for the first "S"; the column holds at
      most one entry. */
  function Chosen(marks: map<nat, string>, at: nat, rows: seq<map<string, string>>): (row: map<string, string>)
    requires MarksOk(marks, |rows|) && at < |rows|
    ensures forall i :: i in marks ==> i < |rows| && row == rows[i]
    ensures marks == map[] ==> row == rows[at]
  {
    assert UpperStr("S") == "S";
    if exists i :: i in marks && MarkedS(marks, i) then
      var i :| i in marks && MarkedS(marks, i);
      assert marks == map[i := "S"];
      rows[i]
    else
      MarksEmptyOrS(marks, |rows|);
      rows[at]
  }

  /** A well-formed S column is empty or holds one S. */
  lemma MarksEmptyOrS(marks: map<nat, string>, n: nat)
    requires MarksOk(marks, n)
    ensures marks == map[] || exists i :: i in marks && MarkedS(marks, i)
  {
    if marks != map[] {
      var j :| j in marks && j < n && marks == map[j := "S"];
      assert UpperStr("S") == "S";
      assert MarkedS(marks, j);
    }
  }

  /** One run of `show` on a non-empty list from `start`: `seen` is the keys
      read, `top` the first visible row afterwards and `calls` how often the
      F6 callback ran. All keys but the last leave the list open and move it
      as `NavigateAll` says. If the input ran out, no key ended it. Otherwise
      the last key ends it: F3 and Ctrl+C give None, F6 (with a callback)
      runs the callback once and gives its row if it returned one, Enter
      gives the S-marked row or the row under the cursor. */
  ghost predicate Shows(start: SelState, ps: nat, rows: seq<map<string, string>>, hasCallback: bool,
                        addResult: Option<map<string, string>>, seen: seq<Key>, outcome: SelectionOutcome,
                        top: nat, calls: int)
    requires ps >= 1 && SelOk(start, ps, |rows|)
  {
    if outcome.InputEnded? then
      && (forall i :: 0 <= i < |seen| ==> !Finishes(seen[i], hasCallback))
      && top == NavigateAll(start, seen, ps, |rows|).cursor.top
      && calls == 0
    else
      && |seen| > 0 && Finishes(seen[|seen| - 1], hasCallback)
      && (forall i :: 0 <= i < |seen| - 1 ==> !Finishes(seen[i], hasCallback))
      && var last := NavigateAll(start, seen[..|seen| - 1], ps, |rows|);
         && top == last.cursor.top
         && outcome == Finish(last.marks, Abs(last.cursor), seen[|seen| - 1], rows, addResult)
         && calls == (if seen[|seen| - 1] == F6 then 1 else 0)
  }

  /** The key loop of `show`: keys are read and applied until one ends
      `show` or the input runs out. `ended` says the input ran out; `st` is
      the state the keys before the last one left, and `seen` all keys read. */
  /** The key that finishes the loop is the last one read; none before it
      finishes. */
  lemma FinishedBy(seen: seq<Key>, key: Key, hasCallback: bool)
    requires forall k :: k in seen ==> !Finishes(k, hasCallback)
    ensures (seen + [key])[..|seen|] == seen && (seen + [key])[|seen|] == key
    ensures forall i :: 0 <= i < |seen| ==> !Finishes((seen + [key])[i], hasCallback)
  {
    assert (seen + [key])[..|seen|] == seen;
  }

  method ReadKeys(input: seq<char>, start: SelState, ps: nat, n: nat, hasCallback: bool)
    returns (st: SelState, seen: seq<Key>, ended: bool)
    requires ps >= 1 && SelOk(start, ps, n)
    ensures SelOk(st, ps, n)
    ensures seen <= Keys(input, 0) && (ended ==> seen == Keys(input, 0))
    ensures ended ==> (forall i :: 0 <= i < |seen| ==> !Finishes(seen[i], hasCallback))
                      && st == NavigateAll(start, seen, ps, n)
    ensures !ended ==> && |seen| > 0 && Finishes(seen[|seen| - 1], hasCallback)
                       && (forall i :: 0 <= i < |seen| - 1 ==> !Finishes(seen[i], hasCallback))
                       && st == NavigateAll(start, seen[..|seen| - 1], ps, n)
  {
    st, seen := start, [];
    var pos := 0;
    while true
      invariant pos <= |input| && SelOk(st, ps, n) && st == NavigateAll(start, seen, ps, n)
      invariant forall k :: k in seen ==> !Finishes(k, hasCallback)
      invariant Keys(input, 0) == seen + Keys(input, pos)
      decreases |input| - pos
    {
      var read, next := NextKey(input, pos, seen);
      if read.None? {
        return st, seen, true;
      }
      var key := read.value;
      pos := next;
      if Finishes(key, hasCallback) {
        FinishedBy(seen, key, hasCallback);
        return st, seen + [key], false;
      }
      NavigateAllAppend(start, seen, key, ps, n);
      st := Navigate(st, key, ps, n);
      seen := seen + [key];
    }
  }

  datatype SelectionOutcome = Selected(row: map<string, string>) | NoSelection | InputEnded

  /** The outcome of a key that ends `show`: F3 and Ctrl+C cancel, F6 gives
      the callback's row if it returned one, Enter picks `Chosen`. */
  function Finish(marks: map<nat, string>, at: nat, k: Key, rows: seq<map<string, string>>,
                    addResult: Option<map<string, string>>): (o: SelectionOutcome)
    requires MarksOk(marks, |rows|) && at < |rows|
    ensures !o.InputEnded?
    ensures o.Selected? && k != F6 ==> exists i :: 0 <= i < |rows| && o.row == rows[i]
  {
    if k == F3 || k == Ch(CTRL_C) then NoSelection
    else if k == F6 then (if Truthy(addResult) then Selected(addResult.value) else NoSelection)
    else Selected(Chosen(marks, at, rows))
  }

  /** A callback's result counts as a selection when it is a non-empty row. */
  predicate Truthy(result: Option<map<string, string>>) {
    result.Some? && |result.value| > 0
  }

  /** The body of `show` on values: the key loop from the cursor at `first`
      and the outcome of the key that ended it; `top` is the first visible
      row it leaves and `calls` the number of callback calls made. */
  method Run(input: seq<char>, first: nat, ps: nat, rows: seq<map<string, string>>, hasCallback: bool,
             addResult: Option<map<string, string>>)
    returns (outcome: SelectionOutcome, seen: seq<Key>, top: nat, calls: nat)
    requires ps >= 1 && first < |rows|
    ensures top < |rows| && calls <= 1
    ensures seen <= Keys(input, 0) && (outcome.InputEnded? ==> seen == Keys(input, 0))
    ensures Shows(SelState(ListCursor(first, 0), map[]), ps, rows, hasCallback, addResult, seen, outcome, top, calls)
  {
    var start := SelState(ListCursor(first, 0), map[]);
    assert CursorOk(start.cursor, ps, |rows|) && MarksOk(start.marks, |rows|);
    var last, ended;
    last, seen, ended := ReadKeys(input, start, ps, |rows|, hasCallback);
    top := last.cursor.top;
    if ended {
      return InputEnded, seen, top, 0;
    }
    var key := seen[|seen| - 1];
    outcome := Finish(last.marks, Abs(last.cursor), key, rows, addResult);
    calls := if key == F6 then 1 else 0;
  }

  class SelectionList {
    const title: string
    const panelId: string
    const instruction: string
    const columns: seq<string>
    var rows: seq<map<string, string>>
    var colWidths: seq<nat>
    var currentRow: nat
    var hasCallback: bool
    /** How often the F6 callback has run. */
    ghost var callbackCalls: nat

    predicate Valid()
      reads this
    {
      currentRow == 0 || currentRow < |rows|
    }

    /** Title and panel id are stored upper-cased. */
    constructor (title: string, columns: seq<string>, panelId: string, instruction: string)
      ensures this.title == UpperStr(title) && this.panelId == UpperStr(panelId)
      ensures this.instruction == instruction && this.columns == columns
      ensures rows == [] && colWidths == [] && currentRow == 0 && !hasCallback && callbackCalls == 0
      ensures Valid()
    {
      this.title := UpperStr(title);
      this.panelId := UpperStr(panelId);
      this.instruction := instruction;
      this.columns := columns;
      rows := [];
      colWidths := [];
      currentRow := 0;
      hasCallback := false;
      callbackCalls := 0;
    }

    method SetAddCallback()
      modifies this
      ensures hasCallback && rows == old(rows) && currentRow == old(currentRow)
      ensures callbackCalls == old(callbackCalls)
    {
      hasCallback := true;
    }

    method AddRow(values: map<string, string>)
      modifies this
      ensures rows == old(rows) + [values] && currentRow == old(currentRow)
      ensures hasCallback == old(hasCallback) && callbackCalls == old(callbackCalls)
      ensures old(Valid()) ==> Valid()
    {
      rows := rows + [values];
    }

    method AddRows(more: seq<map<string, string>>)
      modifies this
      ensures rows == old(rows) + more && currentRow == old(currentRow)
      ensures hasCallback == old(hasCallback) && callbackCalls == old(callbackCalls)
      ensures old(Valid()) ==> Valid()
    {
      rows := rows + more;
    }

    /** Widths from the headers and the values of the rows that have each
        column; a list without columns keeps its widths. */
    method CalculateWidths()
      modifies this
      ensures rows == old(rows) && currentRow == old(currentRow)
      ensures hasCallback == old(hasCallback) && callbackCalls == old(callbackCalls)
      ensures |columns| == 0 ==> colWidths == old(colWidths)
      ensures |columns| > 0 ==> IsDictWidths(colWidths, columns, rows)
    {
      if |columns| == 0 {
        return;
      }
      colWidths := DictColumnWidths(columns, rows);
    }

    /** `show`. An empty list returns None without reading a key. Otherwise
        the widths are recomputed (rendering does this before every key, and
        no key changes the rows), the list starts at the remembered first
        visible row with the cursor on the first line and no marks, and reads
        the keys the input decodes to as `Shows` says.
        `addResult` is what the callback returns. */
    method Show(input: seq<char>, height: int, addResult: Option<map<string, string>>)
      returns (outcome: SelectionOutcome, ghost seen: seq<Key>)
      requires Valid()
      modifies this
      ensures Valid() && rows == old(rows) && hasCallback == old(hasCallback)
      ensures |rows| == 0 ==> outcome == NoSelection && seen == [] && unchanged(this)
      ensures |rows| > 0 && |columns| > 0 ==> IsDictWidths(colWidths, columns, rows)
      ensures |columns| == 0 ==> colWidths == old(colWidths)
      ensures callbackCalls >= old(callbackCalls)
      ensures seen <= Keys(input, 0) && (outcome.InputEnded? ==> seen == Keys(input, 0))
      ensures |rows| > 0 ==>
                Shows(SelState(ListCursor(old(currentRow), 0), map[]), PageSize(height, HEADER_LINES + FOOTER_LINES),
                      rows, hasCallback, addResult, seen, outcome, currentRow, callbackCalls - old(callbackCalls))
    {
      seen := [];
      if |rows| == 0 {
        return NoSelection, seen;
      }
      CalculateWidths();
      var top, calls;
      outcome, seen, top, calls := Run(input, currentRow, PageSize(height, HEADER_LINES + FOOTER_LINES),
                                       rows, hasCallback, addResult);
      Settle(top, calls);
    }

    /** Where `show` leaves the list: the first visible row, and the callback
        count raised by the calls made. */
    method Settle(top: nat, calls: nat)
      requires top < |rows|
      modifies this
      ensures Valid() && currentRow == top && callbackCalls == old(callbackCalls) + calls
      ensures rows == old(rows) && hasCallback == old(hasCallback) && colWidths == old(colWidths)
    {
      currentRow, callbackCalls := top, callbackCalls + calls;
    }
  }
}
