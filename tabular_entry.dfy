/** The tabular entry of src/ux3270/dialog/tabular_entry.py: a paged table
    whose editable columns are input cells. Tab, Up and Down move between the
    cells of the visible page, F7/F8 page, and Enter validates every cell of
    every row before handing back the rows merged with the edited values. */
module TabularEntry {
  import opened Common
  import opened Dialog
  import opened Fields

  // Title, instruction, blank, column headers, separator; error, message,
  // separator, keys.
  const HEADER_LINES: nat := 5
  const FOOTER_LINES: nat := 4

  /** A column definition: header and result key, display width, and for an
      editable column its type, required flag and validator. */
  datatype Column = Column(name: string, width: int, editable: bool, fieldType: FieldType,
                           required: bool, validator: Option<Validator>)

  /** `_read_key`: `ESC [ A/B/C/D/H/F` are Up, Down, Right, Left, Home, End;
      `ESC [ 1 x y` is read whole and gives F3, F7, F8 or Home for x = 3, 8,
      9, ~; `ESC [ 2 x`, `ESC [ 3 x`, `ESC [ 4 x` are Insert, Delete, End;
      `ESC O R/H/F` are F3, Home, End; every other escape sequence gives ESC.
      There is no Shift+Tab: `ESC [ Z` is ESC. */
  function DecodeKey(s: seq<char>): (r: Option<(Key, nat)>)
    ensures r.Some? ==> 1 <= r.value.1 <= |s|
    ensures r.Some? ==> r.value.0 == Up || r.value.0 == Down || r.value.0 == Left
                        || r.value.0 == Right || r.value.0 == Home || r.value.0 == End
                        || r.value.0 == Insert || r.value.0 == Delete || r.value.0 == F3
                        || r.value.0 == F7 || r.value.0 == F8 || r.value.0 == Esc
                        || r.value.0 == Ch(s[0])
    ensures r.Some? && r.value.0.Ch? ==> r.value.1 == 1 && s[0] != ESC
    ensures r.None? ==> |s| < 5 && (|s| == 0 || s[0] == ESC)
  {
    if |s| == 0 then None
    else if s[0] != ESC then Some((Ch(s[0]), 1))
    else if |s| < 2 then None
    else if s[1] == '[' then
      if |s| < 3 then None
      else if s[2] == 'A' then Some((Up, 3))
      else if s[2] == 'B' then Some((Down, 3))
      else if s[2] == 'C' then Some((Right, 3))
      else if s[2] == 'D' then Some((Left, 3))
      else if s[2] == 'H' then Some((Home, 3))
      else if s[2] == 'F' then Some((End, 3))
      else if s[2] == '1' then
        if |s| < 5 then None
        else if s[3] == '3' then Some((F3, 5))
        else if s[3] == '8' then Some((F7, 5))
        else if s[3] == '9' then Some((F8, 5))
        else if s[3] == '~' then Some((Home, 5))
        else Some((Esc, 5))
      else if s[2] == '2' then (if |s| < 4 then None else Some((Insert, 4)))
      else if s[2] == '3' then (if |s| < 4 then None else Some((Delete, 4)))
      else if s[2] == '4' then (if |s| < 4 then None else Some((End, 4)))
      else Some((Esc, 3))
    else if s[1] == 'O' then
      if |s| < 3 then None
      else if s[2] == 'R' then Some((F3, 3))
      else if s[2] == 'H' then Some((Home, 3))
      else if s[2] == 'F' then Some((End, 3))
      else Some((Esc, 3))
    else Some((Esc, 2))
  }

  /** The keys the input decodes to from `pos` on, read until the rest no
      longer decodes to a whole key. */
  function Keys(input: seq<char>, pos: nat): seq<Key>
    requires pos <= |input|
    decreases |input| - pos
  {
    var d := DecodeKey(input[pos..]);
    if d.None? then [] else [d.value.0] + Keys(input, pos + d.value.1)
  }

  /** Reading one more key, which ends at `next`, keeps `seen` a prefix of
      what the input decodes to. */
  lemma KeysRead(input: seq<char>, pos: nat, next: nat, seen: seq<Key>, k: Key)
    requires pos <= |input| && DecodeKey(input[pos..]).Some?
    requires k == DecodeKey(input[pos..]).value.0 && next == pos + DecodeKey(input[pos..]).value.1
    requires Keys(input, 0) == seen + Keys(input, pos)
    ensures next <= |input| && Keys(input, 0) == seen + [k] + Keys(input, next)
    ensures seen + [k] <= Keys(input, 0)
  {
    KeysUnfold(input, pos, next, k);
    PrefixGrows(Keys(input, 0), seen, k, Keys(input, next));
  }

  lemma KeysUnfold(input: seq<char>, pos: nat, next: nat, k: Key)
    requires pos <= |input| && DecodeKey(input[pos..]).Some?
    requires k == DecodeKey(input[pos..]).value.0 && next == pos + DecodeKey(input[pos..]).value.1
    ensures next <= |input| && Keys(input, pos) == [k] + Keys(input, next)
  {
  }

  /** Reads the key at `pos`: None when the rest of the input no longer
      decodes to a whole key, so that every key the input holds has been read. */
  method NextKey(input: seq<char>, pos: nat, ghost seen: seq<Key>) returns (key: Option<Key>, next: nat)
    requires pos <= |input| && Keys(input, 0) == seen + Keys(input, pos)
    ensures key.None? ==> Keys(input, 0) == seen
    ensures key.Some? ==> pos < next <= |input| && Keys(input, 0) == seen + [key.value] + Keys(input, next)
  {
    var decoded := DecodeKey(input[pos..]);
    if decoded.None? {
      return None, pos;
    }
    var (k, used) := decoded.value;
    next := pos + used;
    KeysRead(input, pos, next, seen, k);
    key := Some(k);
  }

  /** The keys the entry understands come back from their terminal
      sequences, whatever follows them. */
  lemma DecodeKeyRoundTrip(k: Key, rest: seq<char>)
    requires k in {Up, Down, Left, Right, Home, End, Insert, Delete, F3, F7, F8, Esc} || (k.Ch? && k.c != ESC)
    ensures DecodeKey(Encode(k) + rest) == Some((k, |Encode(k)|))
  {
    var s := Encode(k) + rest;
    assert forall i :: 0 <= i < |Encode(k)| ==> s[i] == Encode(k)[i];
  }

  /** Shift+Tab (`ESC [ Z`) decodes to ESC, so the Shift+Tab branch of
      `show` never runs. */
  lemma ShiftTabIsEsc(rest: seq<char>)
    ensures DecodeKey([ESC, '[', 'Z'] + rest) == Some((Esc, 3))
  {
    var s := [ESC, '[', 'Z'] + rest;
    assert s[0] == ESC && s[1] == '[' && s[2] == 'Z';
  }

  /** The indices of the editable columns, in column order. */
  function EditCols(columns: seq<Column>): (ec: seq<nat>)
    ensures forall j: nat :: j in ec <==> j < |columns| && columns[j].editable
    ensures forall a, b :: 0 <= a < b < |ec| ==> ec[a] < ec[b]
    ensures forall a :: 0 <= a < |ec| ==> ec[a] < |columns|
  {
    if columns == [] then []
    else
      var k := |columns| - 1;
      assert forall j :: 0 <= j < k ==> columns[..k][j] == columns[j];
      EditCols(columns[..k]) + (if columns[k].editable then [k] else [])
  }

  /** The editable cells of one row, in column order. */
  function RowCells(row: nat, ec: seq<nat>): (cells: seq<(nat, nat)>)
    ensures |cells| == |ec|
    ensures forall i :: 0 <= i < |ec| ==> cells[i] == (row, ec[i])
  {
    seq(|ec|, i requires 0 <= i < |ec| => (row, ec[i]))
  }

  /** Row-major order of cells. */
  predicate Before(a: (nat, nat), b: (nat, nat)) {
    a.0 < b.0 || (a.0 == b.0 && a.1 < b.1)
  }

  lemma RowCellsAppend(row: nat, ec: seq<nat>, j: nat)
    ensures RowCells(row, ec + [j]) == RowCells(row, ec) + [(row, j)]
  {
    assert forall i :: 0 <= i < |ec| ==> (ec + [j])[i] == ec[i];
  }

  /** The editable cells of rows `top` up to `end`, row by row. */
  function Cells(top: nat, end: nat, columns: seq<Column>): seq<(nat, nat)>
    decreases end
  {
    if end <= top then [] else Cells(top, end - 1, columns) + RowCells(end - 1, EditCols(columns))
  }

  /** Every cell is an editable column of a row in range. */
  lemma {:induction false} CellsInRange(top: nat, end: nat, columns: seq<Column>)
    ensures forall i :: 0 <= i < |Cells(top, end, columns)| ==>
              var cell := Cells(top, end, columns)[i];
              top <= cell.0 < end && cell.1 < |columns| && columns[cell.1].editable
    decreases end
  {
    if end > top {
      CellsInRange(top, end - 1, columns);
    }
  }

  /** Every editable column of every row in range is a cell. */
  lemma {:induction false} CellsComplete(top: nat, end: nat, columns: seq<Column>, r: nat, c: nat)
    requires top <= r < end && c < |columns| && columns[c].editable
    ensures (r, c) in Cells(top, end, columns)
    decreases end
  {
    var ec := EditCols(columns);
    if r < end - 1 {
      CellsComplete(top, end - 1, columns, r, c);
    } else {
      var a :| 0 <= a < |ec| && ec[a] == c;
      assert RowCells(r, ec)[a] == (r, c);
    }
  }

  /** Cells come in row-major order, each once. */
  lemma {:induction false} CellsOrdered(top: nat, end: nat, columns: seq<Column>)
    ensures forall i, j :: 0 <= i < j < |Cells(top, end, columns)| ==>
              Before(Cells(top, end, columns)[i], Cells(top, end, columns)[j])
    decreases end
  {
    if end > top {
      var prefix := Cells(top, end - 1, columns);
      var row := RowCells(end - 1, EditCols(columns));
      CellsOrdered(top, end - 1, columns);
      CellsInRange(top, end - 1, columns);
      forall i, j | 0 <= i < j < |prefix + row|
        ensures Before((prefix + row)[i], (prefix + row)[j])
      {
        if j < |prefix| {
          assert (prefix + row)[i] == prefix[i] && (prefix + row)[j] == prefix[j];
        } else if i < |prefix| {
          assert (prefix + row)[i] == prefix[i] && (prefix + row)[j] == row[j - |prefix|];
        } else {
          assert (prefix + row)[i] == row[i - |prefix|] && (prefix + row)[j] == row[j - |prefix|];
        }
      }
    }
  }

  /** The cells `show` works on: the editable cells of the visible page. */
  function PageCells(top: nat, ps: nat, n: nat, columns: seq<Column>): (cells: seq<(nat, nat)>)
    requires ps >= 1
    ensures top < n && |EditCols(columns)| > 0 ==> |cells| > 0
    ensures forall i :: 0 <= i < |cells| ==>
              top <= cells[i].0 < top + ps && cells[i].0 < n && cells[i].1 < |columns| && columns[cells[i].1].editable
  {
    var cells := Cells(top, Min(top + ps, n), columns);
    CellsInRange(top, Min(top + ps, n), columns);
    if top < n && |EditCols(columns)| > 0 then
      CellsComplete(top, Min(top + ps, n), columns, top, EditCols(columns)[0]);
      cells
    else cells
  }

  /** `_get_editable_cells`: rows from the first visible one to the end of
      the page or of the table, and in each row the editable columns. */
  method EditableCells(top: nat, ps: nat, n: nat, columns: seq<Column>) returns (cells: seq<(nat, nat)>)
    ensures cells == Cells(top, Min(top + ps, n), columns)
  {
    cells := [];
    var end := Min(top + ps, n);
    var r := top;
    while r < end
      invariant top <= r && (r <= end || r == top)
      invariant cells == Cells(top, r, columns)
      decreases end - r
    {
      cells := AddRowCells(cells, r, columns);
      r := r + 1;
    }
  }

  /** The inner loop of `_get_editable_cells`: row r's editable cells, in
      column order, after the ones already found. */
  method AddRowCells(cells: seq<(nat, nat)>, r: nat, columns: seq<Column>) returns (out: seq<(nat, nat)>)
    ensures out == cells + RowCells(r, EditCols(columns))
  {
    out := cells;
    for j := 0 to |columns|
      invariant out == cells + RowCells(r, EditCols(columns[..j]))
    {
      EditColsSnoc(columns, j);
      if columns[j].editable {
        RowCellsAppend(r, EditCols(columns[..j]), j);
        out := out + [(r, j)];
      }
    }
    assert columns[..|columns|] == columns;
  }

  /** One more column adds its index when it is editable. */
  lemma EditColsSnoc(columns: seq<Column>, j: nat)
    requires j < |columns|
    ensures EditCols(columns[..j + 1]) == EditCols(columns[..j]) + (if columns[j].editable then [j] else [])
  {
    assert columns[..j + 1][..j] == columns[..j];
  }

  /** Where column k starts on screen: two spaces of indent, then each
      earlier column's width and a three-character separator. */
  function ColStart(columns: seq<Column>, k: nat): int
    requires k <= |columns|
  {
    if k == 0 then 2 else ColStart(columns, k - 1) + columns[k - 1].width + 3
  }

  /** With no negative widths, each column starts at least its predecessor's
      width and a separator further right, so columns never overlap. */
  lemma {:induction false} ColStartIncreasing(columns: seq<Column>, i: nat, j: nat)
    requires i < j <= |columns|
    requires forall k :: 0 <= k < |columns| ==> columns[k].width >= 0
    ensures ColStart(columns, i) + columns[i].width + 3 <= ColStart(columns, j)
    ensures ColStart(columns, i) + 3 * (j - i) <= ColStart(columns, j)
    decreases j - i
  {
    if j > i + 1 {
      ColStartIncreasing(columns, i, j - 1);
    }
  }

  /** `_get_col_position`: the start of column `colIdx`, or the end of the
      last column for an index past the end. */
  method ColPosition(columns: seq<Column>, colIdx: nat) returns (pos: int)
    ensures pos == ColStart(columns, Min(colIdx, |columns|))
  {
    pos := 2;
    for i := 0 to |columns|
      invariant pos == ColStart(columns, i) && i <= colIdx
    {
      if i == colIdx {
        return;
      }
      pos := pos + columns[i].width + 3;
    }
  }

  /** `dict.get(key, "")`. */
  function Get(m: map<string, string>, key: string): string {
    if key in m then m[key] else ""
  }

  /** `entry` has a key for every editable column's name and no other,
      each holding the row's value under that name or the empty string. */
  ghost predicate RowEntry(columns: seq<Column>, row: map<string, string>, entry: map<string, string>) {
    && (forall name :: name in entry <==> exists j :: 0 <= j < |columns| && columns[j].editable && columns[j].name == name)
    && (forall name :: name in entry ==> entry[name] == Get(row, name))
  }

  /** `add_row`'s input values: one entry per editable column, holding the
      row's value for it or the empty string. */
  method RowValues(columns: seq<Column>, values: map<string, string>) returns (r: map<string, string>)
    ensures RowEntry(columns, values, r)
  {
    r := map[];
    for j := 0 to |columns|
      invariant forall name :: name in r <==> exists i :: 0 <= i < j && columns[i].editable && columns[i].name == name
      invariant forall name :: name in r ==> r[name] == Get(values, name)
    {
      if columns[j].editable {
        r := r[columns[j].name := Get(values, columns[j].name)];
      }
    }
  }

  /** The text without its dots and dashes. */
  function Undotted(s: string): (u: string)
    ensures forall i :: 0 <= i < |u| ==> u[i] != '.' && u[i] != '-'
    ensures |u| <= |s|
  {
    if s == [] then []
    else (if s[0] == '.' || s[0] == '-' then [] else [s[0]]) + Undotted(s[1..])
  }

  /** The NUMERIC check: what is left after removing dots and dashes is a
      non-empty run of digits. A lone "-" or "." is therefore not numeric. */
  predicate NumericText(s: string) {
    var u := Undotted(s);
    |u| > 0 && AllDigits(u)
  }

  /** The first check a cell's value fails, with its message: required and
      blank, then NUMERIC and not numeric, then rejected by the validator.
      The last two look only at non-blank values. */
  function CellError(col: Column, val: string): Option<string> {
    if col.required && IsBlank(val) then Some(col.name + " is required")
    else if col.fieldType == Numeric && !IsBlank(val) && !NumericText(val) then Some(col.name + " must be numeric")
    else if col.validator.Some? && !IsBlank(val) && !col.validator.value(val) then Some(col.name + " is invalid")
    else None
  }

  /** A value passes exactly when it is not required-and-blank, and a
      non-blank value is numeric where the column is NUMERIC and accepted by
      the column's validator, if any. A blank optional value always passes;
      a blank required one always reports "is required". */
  lemma CellErrorSpec(col: Column, val: string)
    ensures CellError(col, val).None? <==>
              && !(col.required && IsBlank(val))
              && (IsBlank(val) || col.fieldType != Numeric || NumericText(val))
              && (IsBlank(val) || col.validator.None? || col.validator.value(val))
    ensures col.required && IsBlank(val) ==> CellError(col, val) == Some(col.name + " is required")
    ensures IsBlank(val) && !col.required ==> CellError(col, val).None?
  {
  }

  /** The check of one cell of a row: only editable columns are checked,
      on the row's value under the column's name. */
  function CellCheck(col: Column, vals: map<string, string>): Option<string> {
    if col.editable then CellError(col, Get(vals, col.name)) else None
  }

  /** A cell passes: its column is not editable, or its value fails no check. */
  predicate CellOk(col: Column, vals: map<string, string>) {
    CellCheck(col, vals).None?
  }

  /** The first failing column of one row at or after column j, with its
      message. */
  function RowError(vals: map<string, string>, columns: seq<Column>, j: nat): (r: Option<(nat, string)>)
    ensures r.Some? ==> j <= r.value.0 < |columns|
    decreases |columns| - j
  {
    if j >= |columns| then None
    else
      var e := CellCheck(columns[j], vals);
      if e.Some? then Some((j, e.value)) else RowError(vals, columns, j + 1)
  }

  /** Every cell of a row passes. */
  predicate RowOk(vals: map<string, string>, columns: seq<Column>) {
    forall c {:trigger CellOk(columns[c], vals)} :: 0 <= c < |columns| ==> CellOk(columns[c], vals)
  }

  /** The cell of an editable column fails with message `msg`. */
  predicate Fails(col: Column, vals: map<string, string>, msg: string) {
    CellCheck(col, vals) == Some(msg)
  }

  /** A row has no failing column from j on exactly when `RowError` finds
      none. */
  lemma {:induction false} RowErrorNone(vals: map<string, string>, columns: seq<Column>, j: nat)
    ensures RowError(vals, columns, j).None? <==> forall c {:trigger CellOk(columns[c], vals)} :: j <= c < |columns| ==> CellOk(columns[c], vals)
    ensures j == 0 ==> (RowError(vals, columns, j).None? <==> RowOk(vals, columns))
    decreases |columns| - j
  {
    if j < |columns| {
      RowErrorNone(vals, columns, j + 1);
      if CellOk(columns[j], vals) {
        assert RowError(vals, columns, j) == RowError(vals, columns, j + 1);
      }
    }
  }

  /** What `RowError` finds is a failing column with its message, and every
      column before it from j on passes. */
  lemma {:induction false} RowErrorSome(vals: map<string, string>, columns: seq<Column>, j: nat)
    ensures var r := RowError(vals, columns, j);
            r.Some? ==>
              && Fails(columns[r.value.0], vals, r.value.1)
              && forall c {:trigger CellOk(columns[c], vals)} :: j <= c < r.value.0 ==> CellOk(columns[c], vals)
    decreases |columns| - j
  {
    if j < |columns| && CellOk(columns[j], vals) {
      RowErrorSome(vals, columns, j + 1);
      assert RowError(vals, columns, j) == RowError(vals, columns, j + 1);
    }
  }

  /** `_validate` from row i on: the first failing cell in row-major order,
      as (row, column, message). */
  function FirstError(values: seq<map<string, string>>, columns: seq<Column>, i: nat): (r: Option<(nat, nat, string)>)
    ensures r.Some? ==> i <= r.value.0 < |values| && r.value.1 < |columns|
    decreases |values| - i
  {
    if i >= |values| then None
    else
      var e := RowError(values[i], columns, 0);
      if e.Some? then Some((i, e.value.0, e.value.1)) else FirstError(values, columns, i + 1)
  }

  /** No cell fails from row i on exactly when `FirstError` finds none. */
  lemma {:induction false} FirstErrorNone(values: seq<map<string, string>>, columns: seq<Column>, i: nat)
    ensures FirstError(values, columns, i).None? <==> forall row {:trigger RowOk(values[row], columns)} :: i <= row < |values| ==> RowOk(values[row], columns)
    decreases |values| - i
  {
    if i < |values| {
      RowErrorNone(values[i], columns, 0);
      FirstErrorNone(values, columns, i + 1);
    }
  }

  /** What `FirstError` finds is a failing cell with its message; every
      earlier row passes, and so does every earlier column of its row. */
  lemma {:induction false} FirstErrorSome(values: seq<map<string, string>>, columns: seq<Column>, i: nat)
    ensures var r := FirstError(values, columns, i);
            r.Some? ==>
              && Fails(columns[r.value.1], values[r.value.0], r.value.2)
              && (forall row {:trigger RowOk(values[row], columns)} :: i <= row < r.value.0 ==> RowOk(values[row], columns))
              && (forall c {:trigger CellOk(columns[c], values[r.value.0])} :: 0 <= c < r.value.1 ==> CellOk(columns[c], values[r.value.0]))
    decreases |values| - i
  {
    if i < |values| {
      var e := RowError(values[i], columns, 0);
      RowErrorNone(values[i], columns, 0);
      RowErrorSome(values[i], columns, 0);
      if e.Some? {
        assert FirstError(values, columns, i) == Some((i, e.value.0, e.value.1));
      } else {
        assert RowOk(values[i], columns);
        FirstErrorSome(values, columns, i + 1);
        assert FirstError(values, columns, i) == FirstError(values, columns, i + 1);
      }
    }
  }

  /** `_validate`: rows in order, and in each row the editable columns in
      order; the first failure is returned. */
  method Validate(values: seq<map<string, string>>, columns: seq<Column>) returns (r: Option<(nat, nat, string)>)
    ensures r == FirstError(values, columns, 0)
  {
    for i := 0 to |values|
      invariant FirstError(values, columns, 0) == FirstError(values, columns, i)
    {
      for j := 0 to |columns|
        invariant RowError(values[i], columns, 0) == RowError(values[i], columns, j)
      {
        if !columns[j].editable {
          continue;
        }
        var val := Get(values[i], columns[j].name);
        var e := CellError(columns[j], val);
        if e.Some? {
          return Some((i, j, e.value));
        }
      }
    }
    return None;
  }

  /** The rows `show` hands back: each row merged with its edited values,
      the edited values winning. */
  function Merged(rows: seq<map<string, string>>, values: seq<map<string, string>>): (r: seq<map<string, string>>)
    requires |values| == |rows|
    ensures |r| == |rows|
    ensures forall i :: 0 <= i < |rows| ==> r[i].Keys == rows[i].Keys + values[i].Keys
    ensures forall i, key :: 0 <= i < |rows| && key in values[i] ==> r[i][key] == values[i][key]
    ensures forall i, key :: 0 <= i < |rows| && key in rows[i] && key !in values[i] ==> r[i][key] == rows[i][key]
  {
    seq(|rows|, i requires 0 <= i < |rows| => rows[i] + values[i])
  }

  /** The characters a NUMERIC cell takes: digits, dot and minus. */
  predicate Accepts(col: Column, c: char) {
    col.fieldType != Numeric || IsDigit(c) || c == '.' || c == '-'
  }

  /** The result of one editing key on the focused cell: whether the value
      is written back into the row's values, the value, the cursor and the
      insert flag. */
  datatype CellEdit = CellEdit(store: bool, value: string, cursor: nat, insertMode: bool)

  /** Typing an accepted character. Insert mode inserts while the value is
      shorter than the column width; overwrite mode replaces the character
      under the cursor (or appends at the end) while the cursor is inside
      the width. */
  function TypeInCell(val: string, cursor: nat, insertMode: bool, c: char, width: int): (r: (string, nat))
    requires cursor <= |val|
    ensures r.1 <= |r.0|
    ensures |r.0| <= Max(|val|, width)
    ensures r.0 == val || r.1 == cursor + 1
    ensures insertMode && |val| < width ==> r.0 == val[..cursor] + [c] + val[cursor..]
    ensures insertMode && |val| >= width ==> r == (val, cursor)
    ensures !insertMode && cursor < width && cursor < |val| ==>
              |r.0| == |val| && r.0[cursor] == c && forall i :: 0 <= i < |val| && i != cursor ==> r.0[i] == val[i]
    ensures !insertMode && cursor < width && cursor == |val| ==> r.0 == val + [c]
    ensures !insertMode && cursor >= width ==> r == (val, cursor)
  {
    if insertMode then
      if |val| < width then (val[..cursor] + [c] + val[cursor..], cursor + 1) else (val, cursor)
    else if cursor < width then
      if cursor < |val| then (val[..cursor] + [c] + val[cursor + 1..], cursor + 1) else (val + [c], cursor + 1)
    else (val, cursor)
  }

  /** The characters a NUMERIC cell can hold once typed into. */
  predicate NumericChars(s: string) {
    forall i :: 0 <= i < |s| ==> IsDigit(s[i]) || s[i] == '.' || s[i] == '-'
  }

  /** One editing key on the focused cell. Left, Right, Home and End move
      the cursor, Insert flips the mode, Delete and Backspace remove a
      character, Ctrl+E erases to the end, and a printable character is
      typed (a NUMERIC cell ignores any other than digits, dot and minus).
      Every other key changes nothing. */
  function EditCell(val: string, cursor: nat, insertMode: bool, k: Key, col: Column): (e: CellEdit)
    requires cursor <= |val|
    ensures e.cursor <= |e.value|
    ensures !e.store ==> e.value == val
    ensures e.insertMode != insertMode <==> k == Insert
  {
    match k
    case Left => CellEdit(false, val, if cursor > 0 then cursor - 1 else cursor, insertMode)
    case Right => CellEdit(false, val, if cursor < |val| then cursor + 1 else cursor, insertMode)
    case Home => CellEdit(false, val, 0, insertMode)
    case End => CellEdit(false, val, |val|, insertMode)
    case Insert => CellEdit(false, val, cursor, !insertMode)
    case Delete =>
      if cursor < |val| then CellEdit(true, val[..cursor] + val[cursor + 1..], cursor, insertMode)
      else CellEdit(false, val, cursor, insertMode)
    case Ch(c) =>
      if c == DEL || c == BS then
        if cursor > 0 then CellEdit(true, val[..cursor - 1] + val[cursor..], cursor - 1, insertMode)
        else CellEdit(false, val, cursor, insertMode)
      else if c == CTRL_E then CellEdit(true, val[..cursor], cursor, insertMode)
      else if IsPrintable(c) then
        if !Accepts(col, c) then CellEdit(false, val, cursor, insertMode)
        else
          var (v, p) := TypeInCell(val, cursor, insertMode, c, col.width);
          CellEdit(true, v, p, insertMode)
      else CellEdit(false, val, cursor, insertMode)
    case _ => CellEdit(false, val, cursor, insertMode)
  }

  /** The cursor keys and Insert never write the value: Home and End go to
      its ends. */
  lemma EditCellMoves(val: string, cursor: nat, insertMode: bool, k: Key, col: Column)
    requires cursor <= |val|
    ensures var e := EditCell(val, cursor, insertMode, k, col);
      && (k in {Left, Right, Home, End, Insert} ==> !e.store && e.value == val)
      && (k == Home ==> e.cursor == 0)
      && (k == End ==> e.cursor == |val|)
  {
  }

  /** Ctrl+E keeps what is before the cursor; Backspace removes the
      character before the cursor and Delete the one under it, each writing
      the value exactly when there is such a character. */
  lemma EditCellErases(val: string, cursor: nat, insertMode: bool, k: Key, col: Column)
    requires cursor <= |val|
    ensures var e := EditCell(val, cursor, insertMode, k, col);
      && (k == Ch(CTRL_E) ==> e == CellEdit(true, val[..cursor], cursor, insertMode))
      && ((k == Ch(DEL) || k == Ch(BS)) ==> (e.store <==> cursor > 0))
      && ((k == Ch(DEL) || k == Ch(BS)) && cursor > 0 ==>
            e.value == val[..cursor - 1] + val[cursor..] && e.cursor == cursor - 1)
      && (k == Delete ==> (e.store <==> cursor < |val|) && e.cursor == cursor)
      && (k == Delete && cursor < |val| ==> e.value == val[..cursor] + val[cursor + 1..])
  {
  }

  /** A printable character is written exactly when the column accepts it;
      a refused one changes nothing. No key makes a value longer than the
      column's width unless it already was, and a NUMERIC cell holding only
      digits, dots and minus signs keeps holding only those. */
  lemma EditCellTypes(val: string, cursor: nat, insertMode: bool, k: Key, col: Column)
    requires cursor <= |val|
    ensures var e := EditCell(val, cursor, insertMode, k, col);
      && (k.Ch? && IsPrintable(k.c) ==> (e.store <==> Accepts(col, k.c)))
      && (k.Ch? && IsPrintable(k.c) && !Accepts(col, k.c) ==> e == CellEdit(false, val, cursor, insertMode))
      && |e.value| <= Max(|val|, col.width)
      && (col.fieldType == Numeric && NumericChars(val) ==> NumericChars(e.value))
  {
    var e := EditCell(val, cursor, insertMode, k, col);
    if k.Ch? && IsPrintable(k.c) && Accepts(col, k.c) && k.c != DEL && k.c != BS && k.c != CTRL_E {
      if col.fieldType == Numeric && NumericChars(val) && e.value != val {
        assert forall i :: 0 <= i < |e.value| ==> e.value[i] == k.c || e.value[i] in val;
      }
    }
  }

  /** The state of `show` between keys: the first visible row, the focused
      cell (an index into the page's cells) and the cursor in it, the insert
      flag, the edited values of every row and the error message. */
  datatype EntryState = EntryState(top: nat, cell: nat, cursor: nat, insertMode: bool,
                                   values: seq<map<string, string>>, error: string)

  /** A non-empty table with an editable column, viewed from one of its rows,
      with one values map per row. */
  predicate Base(s: EntryState, n: nat, columns: seq<Column>) {
    s.top < n && |s.values| == n && |EditCols(columns)| > 0
  }

  /** The value in the focused cell. */
  function Focus(s: EntryState, cells: seq<(nat, nat)>, columns: seq<Column>): string
    requires |s.values| > 0 && s.cell < |cells|
    requires forall i :: 0 <= i < |cells| ==> cells[i].0 < |s.values| && cells[i].1 < |columns|
  {
    Get(s.values[cells[s.cell].0], columns[cells[s.cell].1].name)
  }

  /** The focused cell is a cell of the page and the cursor is inside its
      value. */
  predicate Focused(s: EntryState, ps: nat, n: nat, columns: seq<Column>)
    requires ps >= 1 && Base(s, n, columns)
  {
    var cells := PageCells(s.top, ps, n, columns);
    s.cell < |cells| && s.cursor <= |Focus(s, cells, columns)|
  }

  /** The top of `show`'s loop: the focused cell is pulled back onto the
      page and the cursor into the value. Once focused, nothing changes. */
  function Clamp(s: EntryState, ps: nat, n: nat, columns: seq<Column>): (r: EntryState)
    requires ps >= 1 && Base(s, n, columns)
    ensures Base(r, n, columns) && Focused(r, ps, n, columns)
    ensures r.top == s.top && r.insertMode == s.insertMode && r.values == s.values && r.error == s.error
    ensures r.cell <= s.cell && r.cursor <= s.cursor
    ensures Focused(s, ps, n, columns) ==> r == s
  {
    var cells := PageCells(s.top, ps, n, columns);
    var cell := if s.cell >= |cells| then |cells| - 1 else s.cell;
    var val := Focus(s.(cell := cell), cells, columns);
    s.(cell := cell, cursor := Min(s.cursor, |val|))
  }

  /** The first cell of the page in row `row` whose column is in `cols`. */
  function FindCell(cells: seq<(nat, nat)>, row: int, cols: set<nat>): (r: Option<nat>)
    ensures r.Some? ==> r.value < |cells| && cells[r.value].0 == row && cells[r.value].1 in cols
    ensures r.Some? ==> forall i :: 0 <= i < r.value ==> !(cells[i].0 == row && cells[i].1 in cols)
    ensures r.None? ==> forall i :: 0 <= i < |cells| ==> !(cells[i].0 == row && cells[i].1 in cols)
  {
    if cells == [] then None
    else if cells[0].0 == row && cells[0].1 in cols then Some(0)
    else
      var rest := FindCell(cells[1..], row, cols);
      if rest.Some? then Some(rest.value + 1) else None
  }

  /** The columns named `name`. */
  function Named(columns: seq<Column>, name: string): set<nat> {
    set c: nat | c < |columns| && columns[c].name == name
  }

  /** Up and Down: the cell of the same column one row up or down, if it is
      on the page; otherwise nothing moves. The error message is cleared. */
  function MoveVertical(s: EntryState, target: int, ps: nat, n: nat, columns: seq<Column>): (r: EntryState)
    requires ps >= 1 && Base(s, n, columns) && Focused(s, ps, n, columns)
    ensures Base(r, n, columns) && Focused(r, ps, n, columns)
    ensures r.top == s.top && r.values == s.values && r.insertMode == s.insertMode && r.error == ""
    ensures var cells := PageCells(s.top, ps, n, columns);
            var found := FindCell(cells, target, {cells[s.cell].1});
            && (found.Some? ==> r.cell == found.value && r.cursor == 0)
            && (found.None? ==> r.cell == s.cell && r.cursor == s.cursor)
  {
    var cells := PageCells(s.top, ps, n, columns);
    var found := FindCell(cells, target, {cells[s.cell].1});
    if found.None? then s.(error := "")
    else if cells[found.value].0 < s.top || cells[found.value].0 >= s.top + ps then
      // The source scrolls here, but every cell it can find is on the page.
      assert false; s
    else s.(cell := found.value, cursor := 0, error := "")
  }

  /** Tab: the next cell of the page, without wrapping past the last one;
      the error message is cleared. */
  function NextCell(s: EntryState, ps: nat, n: nat, columns: seq<Column>): (r: EntryState)
    requires ps >= 1 && Base(s, n, columns) && Focused(s, ps, n, columns)
    ensures Base(r, n, columns) && Focused(r, ps, n, columns)
    ensures r.top == s.top && r.values == s.values && r.insertMode == s.insertMode && r.error == ""
    ensures s.cell + 1 < |PageCells(s.top, ps, n, columns)| ==> r.cell == s.cell + 1 && r.cursor == 0
    ensures s.cell + 1 >= |PageCells(s.top, ps, n, columns)| ==> r.cell == s.cell && r.cursor == s.cursor
  {
    var cells := PageCells(s.top, ps, n, columns);
    var r := if s.cell + 1 < |cells| then s.(cell := s.cell + 1, cursor := 0, error := "") else s.(error := "");
    if cells[r.cell].0 >= s.top + ps then
      // The source scrolls here, but the next cell is on the page.
      assert false; r
    else r
  }

  /** Enter when some cell fails: the message is shown, and the failing cell
      gets the focus with the cursor at its start when it is on the page
      (the first cell of that row under a column of that name). */
  function EnterFailed(s: EntryState, ps: nat, n: nat, columns: seq<Column>, err: (nat, nat, string)): (r: EntryState)
    requires ps >= 1 && Base(s, n, columns) && Focused(s, ps, n, columns) && err.1 < |columns|
    ensures Base(r, n, columns) && Focused(r, ps, n, columns)
    ensures r.top == s.top && r.values == s.values && r.insertMode == s.insertMode && r.error == err.2
    ensures var cells := PageCells(s.top, ps, n, columns);
            var found := FindCell(cells, err.0, Named(columns, columns[err.1].name));
            && (found.Some? ==> r.cell == found.value && r.cursor == 0)
            && (found.None? ==> r.cell == s.cell && r.cursor == s.cursor)
  {
    var cells := PageCells(s.top, ps, n, columns);
    var found := FindCell(cells, err.0, Named(columns, columns[err.1].name));
    if found.None? then s.(error := err.2)
    else if err.0 < s.top || err.0 >= s.top + ps then
      // The source moves the view to the failing row here, but a cell found
      // on the page is never off it.
      assert false; s
    else s.(cell := found.value, cursor := 0, error := err.2)
  }

  /** An editing key on the focused cell; a changed value is written into
      the row's values under the column's name. */
  function EditStep(s: EntryState, k: Key, ps: nat, n: nat, columns: seq<Column>): (r: EntryState)
    requires ps >= 1 && Base(s, n, columns) && Focused(s, ps, n, columns)
    ensures Base(r, n, columns) && Focused(r, ps, n, columns)
    ensures r.top == s.top && r.cell == s.cell && r.error == s.error
    ensures var cells := PageCells(s.top, ps, n, columns);
            var row := cells[s.cell].0;
            var col := columns[cells[s.cell].1];
            var e := EditCell(Focus(s, cells, columns), s.cursor, s.insertMode, k, col);
            && r.cursor == e.cursor && r.insertMode == e.insertMode
            && r.values == (if e.store then s.values[row := s.values[row][col.name := e.value]] else s.values)
  {
    var cells := PageCells(s.top, ps, n, columns);
    var row := cells[s.cell].0;
    var col := columns[cells[s.cell].1];
    var e := EditCell(Focus(s, cells, columns), s.cursor, s.insertMode, k, col);
    var values := if e.store then s.values[row := s.values[row][col.name := e.value]] else s.values;
    var r := s.(cursor := e.cursor, insertMode := e.insertMode, values := values);
    assert Focus(r, cells, columns) == e.value;
    r
  }

  /** One key that does not end `show`, after the loop's clamp. F7 and F8
      page (when there is a page in that direction) and put the focus on the
      first cell; Tab, Up and Down move the focus within the page; Enter
      reports the first failing cell; the editing keys edit the focused
      cell; every other key is ignored. Only F7 and F8 move the view. */
  function Step(s: EntryState, k: Key, ps: nat, n: nat, columns: seq<Column>): (r: EntryState)
    requires ps >= 1 && Base(s, n, columns)
    ensures Base(r, n, columns)
  {
    var f := Clamp(s, ps, n, columns);
    var cells := PageCells(f.top, ps, n, columns);
    match k
    case F7 => if f.top > 0 then f.(top := PageBackTop(f.top, ps), cell := 0, cursor := 0) else f
    case F8 => if f.top + ps < n then f.(top := PageForwardToFullPage(f.top, ps, n), cell := 0, cursor := 0) else f
    case Up => MoveVertical(f, cells[f.cell].0 as int - 1, ps, n, columns)
    case Down => MoveVertical(f, cells[f.cell].0 + 1, ps, n, columns)
    case Ch(c) =>
      if c == TAB then NextCell(f, ps, n, columns)
      else if c == CR || c == LF then
        var err := FirstError(f.values, columns, 0);
        if err.Some? then EnterFailed(f, ps, n, columns, err.value) else f
      else EditStep(f, k, ps, n, columns)
    case Left | Right | Home | End | Insert | Delete => EditStep(f, k, ps, n, columns)
    case _ => f
  }

  /** After any key the focus is on a cell of the page, with the cursor
      inside its value. */
  lemma StepFocused(s: EntryState, k: Key, ps: nat, n: nat, columns: seq<Column>)
    requires ps >= 1 && Base(s, n, columns)
    ensures Focused(Step(s, k, ps, n, columns), ps, n, columns)
  {
  }

  /** Only F7 and F8 move the view, and only when there is a page in that
      direction; then the focus goes to the page's first cell. */
  lemma StepView(s: EntryState, k: Key, ps: nat, n: nat, columns: seq<Column>)
    requires ps >= 1 && Base(s, n, columns)
    ensures var r := Step(s, k, ps, n, columns);
      && (k == F7 && s.top > 0 ==> r.top == PageBackTop(s.top, ps) && r.cell == 0 && r.cursor == 0)
      && (k == F8 && s.top + ps < n ==> r.top == PageForwardToFullPage(s.top, ps, n) && r.cell == 0 && r.cursor == 0)
      && (!(k == F7 && s.top > 0) && !(k == F8 && s.top + ps < n) ==> r.top == s.top)
  {
    if k == F7 {
    } else if k == F8 {
    } else {
      StepKeepsTop(s, k, ps, n, columns);
    }
  }

  /** Keys other than F7 and F8 leave the view where it is. */
  lemma StepKeepsTop(s: EntryState, k: Key, ps: nat, n: nat, columns: seq<Column>)
    requires ps >= 1 && Base(s, n, columns) && k != F7 && k != F8
    ensures Step(s, k, ps, n, columns).top == s.top
  {
  }

  /** Only the editing keys change the values. */
  lemma StepValues(s: EntryState, k: Key, ps: nat, n: nat, columns: seq<Column>)
    requires ps >= 1 && Base(s, n, columns)
    requires !(k in {Delete, Ch(DEL), Ch(BS), Ch(CTRL_E)} || (k.Ch? && IsPrintable(k.c)))
    ensures Step(s, k, ps, n, columns).values == s.values
  {
  }

  /** Tab, Up and Down clear the message, and only Insert flips the insert
      mode. */
  lemma StepModes(s: EntryState, k: Key, ps: nat, n: nat, columns: seq<Column>)
    requires ps >= 1 && Base(s, n, columns)
    ensures k in {Up, Down, Ch(TAB)} ==> Step(s, k, ps, n, columns).error == ""
    ensures Step(s, k, ps, n, columns).insertMode != s.insertMode <==> k == Insert
  {
  }

  /** The state after a run of keys none of which ends `show`. */
  function StepAll(s: EntryState, keys: seq<Key>, ps: nat, n: nat, columns: seq<Column>): (r: EntryState)
    requires ps >= 1 && Base(s, n, columns)
    ensures Base(r, n, columns)
    decreases |keys|
  {
    if keys == [] then s
    else Step(StepAll(s, keys[..|keys| - 1], ps, n, columns), keys[|keys| - 1], ps, n, columns)
  }

  /** From a focused start every run of keys leaves the state focused, so
      the loop's clamp never changes anything. */
  lemma StepAllFocused(s: EntryState, keys: seq<Key>, ps: nat, n: nat, columns: seq<Column>)
    requires ps >= 1 && Base(s, n, columns) && Focused(s, ps, n, columns)
    ensures Focused(StepAll(s, keys, ps, n, columns), ps, n, columns)
    ensures Clamp(StepAll(s, keys, ps, n, columns), ps, n, columns) == StepAll(s, keys, ps, n, columns)
  {
    if keys != [] {
      StepFocused(StepAll(s, keys[..|keys| - 1], ps, n, columns), keys[|keys| - 1], ps, n, columns);
    }
  }

  /** The keys that end `show`: F3, Ctrl+C, and Enter when every cell
      passes. */
  predicate Ends(k: Key, s: EntryState, columns: seq<Column>) {
    k == F3 || k == Ch(CTRL_C) || ((k == Ch(CR) || k == Ch(LF)) && FirstError(s.values, columns, 0).None?)
  }

  /** `None` on F3 and Ctrl+C, or the merged rows. */
  datatype EntryOutcome = Submitted(rows: seq<map<string, string>>) | Cancelled | InputEnded

  /** No key of `keys` before position `upTo` ends `show` in the state the
      keys before it left. */
  ghost predicate NoneEnds(start: EntryState, keys: seq<Key>, upTo: nat, ps: nat, n: nat, columns: seq<Column>)
    requires ps >= 1 && Base(start, n, columns) && upTo <= |keys|
  {
    forall i :: 0 <= i < upTo ==> !Ends(keys[i], StepAll(start, keys[..i], ps, n, columns), columns)
  }

  lemma NoneEndsExtend(start: EntryState, seen: seq<Key>, key: Key, ps: nat, n: nat, columns: seq<Column>)
    requires ps >= 1 && Base(start, n, columns)
    requires NoneEnds(start, seen, |seen|, ps, n, columns)
    ensures (seen + [key])[..|seen|] == seen
    ensures NoneEnds(start, seen + [key], |seen|, ps, n, columns)
    ensures !Ends(key, StepAll(start, seen, ps, n, columns), columns) ==>
              NoneEnds(start, seen + [key], |seen| + 1, ps, n, columns)
  {
    assert forall i :: 0 <= i <= |seen| ==> (seen + [key])[..i] == seen[..i];
  }

  /** One run of `show` on a table with an editable cell, from `start`:
      `seen` is the keys read; `top`, `values` and `error` are what is left
      in the entry afterwards. All keys but the last leave the entry open
      and act as `Step` says. If the input ran out, no key ended it.
      Otherwise the last key ends it: F3 and Ctrl+C cancel, Enter (with
      every cell passing) hands back the rows merged with their values. */
  ghost predicate Shows(start: EntryState, ps: nat, rows: seq<map<string, string>>, columns: seq<Column>,
                        seen: seq<Key>, outcome: EntryOutcome, top: nat, values: seq<map<string, string>>,
                        error: string)
    requires ps >= 1 && Base(start, |rows|, columns)
  {
    if outcome.InputEnded? then
      && NoneEnds(start, seen, |seen|, ps, |rows|, columns)
      && var final := StepAll(start, seen, ps, |rows|, columns);
         top == final.top && values == final.values && error == final.error
    else
      && |seen| > 0
      && NoneEnds(start, seen, |seen| - 1, ps, |rows|, columns)
      && var last := StepAll(start, seen[..|seen| - 1], ps, |rows|, columns);
         var key := seen[|seen| - 1];
         && Ends(key, last, columns)
         && top == last.top && values == last.values && error == last.error
         && outcome == (if key == F3 || key == Ch(CTRL_C) then Cancelled else Submitted(Merged(rows, last.values)))
  }

  /** A run whose keys none ends and whose input has run out. */
  lemma ShowsEnded(start: EntryState, ps: nat, rows: seq<map<string, string>>, columns: seq<Column>,
                   seen: seq<Key>, st: EntryState)
    requires ps >= 1 && Base(start, |rows|, columns)
    requires NoneEnds(start, seen, |seen|, ps, |rows|, columns) && st == StepAll(start, seen, ps, |rows|, columns)
    ensures Shows(start, ps, rows, columns, seen, InputEnded, st.top, st.values, st.error)
  {
  }

  /** A run ended by its last key, which acts in the state the others left. */
  lemma ShowsEndedBy(start: EntryState, ps: nat, rows: seq<map<string, string>>, columns: seq<Column>,
                     seen: seq<Key>, key: Key, st: EntryState)
    requires ps >= 1 && Base(start, |rows|, columns)
    requires NoneEnds(start, seen + [key], |seen|, ps, |rows|, columns)
    requires st == StepAll(start, seen, ps, |rows|, columns) && (seen + [key])[..|seen|] == seen
    requires Ends(key, st, columns)
    ensures Shows(start, ps, rows, columns, seen + [key],
                  if key == F3 || key == Ch(CTRL_C) then Cancelled else Submitted(Merged(rows, st.values)),
                  st.top, st.values, st.error)
  {
  }

  /** The key loop of `show`, on values. */
  method Run(input: seq<char>, start: EntryState, ps: nat, rows: seq<map<string, string>>, columns: seq<Column>)
    returns (outcome: EntryOutcome, seen: seq<Key>, final: EntryState)
    requires ps >= 1 && Base(start, |rows|, columns)
    ensures Base(final, |rows|, columns)
    ensures seen <= Keys(input, 0) && (outcome.InputEnded? ==> seen == Keys(input, 0))
    ensures Shows(start, ps, rows, columns, seen, outcome, final.top, final.values, final.error)
  {
    var n := |rows|;
    var st := start;
    seen := [];
    var pos := 0;
    while true
      invariant pos <= |input| && Base(st, n, columns)
      invariant st == StepAll(start, seen, ps, n, columns)
      invariant NoneEnds(start, seen, |seen|, ps, n, columns)
      invariant Keys(input, 0) == seen + Keys(input, pos)
      decreases |input| - pos
    {
      var read, next := NextKey(input, pos, seen);
      if read.None? {
        ShowsEnded(start, ps, rows, columns, seen, st);
        return InputEnded, seen, st;
      }
      var key := read.value;
      pos := next;
      NoneEndsExtend(start, seen, key, ps, n, columns);
      if key == F3 || key == Ch(CTRL_C) {
        ShowsEndedBy(start, ps, rows, columns, seen, key, st);
        return Cancelled, seen + [key], st;
      }
      if key == Ch(CR) || key == Ch(LF) {
        var err := Validate(st.values, columns);
        if err.None? {
          ShowsEndedBy(start, ps, rows, columns, seen, key, st);
          return Submitted(Merged(rows, st.values)), seen + [key], st;
        }
      }
      st := Step(st, key, ps, n, columns);
      seen := seen + [key];
    }
  }

  class TabularEntry {
    const title: string
    const panelId: string
    const instruction: string
    var columns: seq<Column>
    var rows: seq<map<string, string>>
    /** The input values of every row, keyed by column name. */
    var values: seq<map<string, string>>
    var currentRow: nat
    var errorMessage: string

    /** The first visible row is a row of the table (or 0), and there is one
        values map per row. */
    predicate Valid()
      reads this
    {
      (currentRow == 0 || currentRow < |rows|) && |values| == |rows|
    }

    /** Title and panel id are stored upper-cased. */
    constructor (title: string, panelId: string, instruction: string)
      ensures this.title == UpperStr(title) && this.panelId == UpperStr(panelId)
      ensures this.instruction == instruction
      ensures columns == [] && rows == [] && values == [] && currentRow == 0 && errorMessage == ""
      ensures Valid()
    {
      this.title := UpperStr(title);
      this.panelId := UpperStr(panelId);
      this.instruction := instruction;
      columns := [];
      rows := [];
      values := [];
      currentRow := 0;
      errorMessage := "";
    }

    method AddColumn(col: Column)
      modifies this
      ensures columns == old(columns) + [col]
      ensures rows == old(rows) && values == old(values) && currentRow == old(currentRow)
      ensures errorMessage == old(errorMessage)
      ensures old(Valid()) ==> Valid()
    {
      columns := columns + [col];
    }

    /** A new row, with an input value for every editable column taken from
        the row (or empty). */
    method AddRow(rowValues: map<string, string>)
      requires Valid()
      modifies this
      ensures Valid() && rows == old(rows) + [rowValues] && |values| == |old(values)| + 1
      ensures values[..|values| - 1] == old(values)
      ensures RowEntry(columns, rowValues, values[|values| - 1])
      ensures columns == old(columns) && currentRow == old(currentRow) && errorMessage == old(errorMessage)
    {
      var entry := RowValues(columns, rowValues);
      rows := rows + [rowValues];
      values := values + [entry];
    }

    /** `show`. A table without rows hands back an empty list and one without
        an editable column hands back its rows merged with their values, in
        both cases without reading a key. Otherwise `show` starts at the
        remembered first visible row, on the first cell, in insert mode, and
        reads keys as `Shows` says; the view, the values and the error
        message stay as the keys left them. */
    method Show(input: seq<char>, height: int) returns (outcome: EntryOutcome, ghost seen: seq<Key>)
      requires Valid()
      modifies this
      ensures Valid() && rows == old(rows) && columns == old(columns)
      ensures seen <= Keys(input, 0) && (outcome.InputEnded? ==> seen == Keys(input, 0))
      ensures |rows| == 0 ==> outcome == Submitted([]) && seen == [] && unchanged(this)
      ensures |rows| > 0 && |EditCols(columns)| == 0 ==>
                outcome == Submitted(Merged(rows, values)) && seen == [] && unchanged(this)
      ensures |rows| > 0 && |EditCols(columns)| > 0 ==>
                Shows(EntryState(old(currentRow), 0, 0, true, old(values), old(errorMessage)),
                      PageSize(height, HEADER_LINES + FOOTER_LINES), rows, columns,
                      seen, outcome, currentRow, values, errorMessage)
    {
      seen := [];
      if |rows| == 0 {
        return Submitted([]), seen;
      }
      var ps := PageSize(height, HEADER_LINES + FOOTER_LINES);
      var cells := EditableCells(currentRow, ps, |rows|, columns);
      assert cells == PageCells(currentRow, ps, |rows|, columns);
      if |cells| == 0 {
        return Submitted(Merged(rows, values)), seen;
      }
      assert cells[0].1 in EditCols(columns);
      var start := EntryState(currentRow, 0, 0, true, values, errorMessage);
      var final;
      outcome, seen, final := Run(input, start, ps, rows, columns);
      Settle(final.top, final.values, final.error);
    }

    /** Where `show` leaves the entry: the first visible row, the values and
        the error message. */
    method Settle(top: nat, newValues: seq<map<string, string>>, error: string)
      requires top < |rows| && |newValues| == |rows|
      modifies this
      ensures Valid() && currentRow == top && values == newValues && errorMessage == error
      ensures rows == old(rows) && columns == old(columns)
    {
      currentRow, values, errorMessage := top, newValues, error;
    }
  }
}
