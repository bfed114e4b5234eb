/** The read-only paged table of src/ux3270/dialog/table.py: rows of values
    under column headers, F7/F8 paging, and the count and hint lines. */
module Table {
  import opened Common
  import opened Dialog

  // Title box (3), blank, column header and separator; count, separator, keys.
  const HEADER_LINES: nat := 6
  const FOOTER_LINES: nat := 3

  /** `_read_key`: `ESC [ 1 x y` is read whole and gives F3, F7 or F8 for
      x = 3, 8, 9; `ESC O R/Q/S` gives F3, F7, F8; every other escape
      sequence gives ESC. Any other character is returned as it is. */
  function DecodeKey(s: seq<char>): (r: Option<(Key, nat)>)
    ensures r.Some? ==> 1 <= r.value.1 <= |s|
    ensures r.Some? ==> r.value.0 == F3 || r.value.0 == F7 || r.value.0 == F8 || r.value.0 == Esc
                        || r.value.0 == Ch(s[0])
    ensures r.Some? && r.value.0.Ch? ==> r.value.1 == 1 && s[0] != ESC
    ensures r.None? ==> |s| < 5 && (|s| == 0 || s[0] == ESC)
  {
    if |s| == 0 then None
    else if s[0] != ESC then Some((Ch(s[0]), 1))
    else if |s| < 2 then None
    else if s[1] == '[' then
      if |s| < 3 then None
      else if s[2] == '1' then
        if |s| < 5 then None
        else if s[3] == '3' then Some((F3, 5))
        else if s[3] == '8' then Some((F7, 5))
        else if s[3] == '9' then Some((F8, 5))
        else Some((Esc, 5))
      else Some((Esc, 3))
    else if s[1] == 'O' then
      if |s| < 3 then None
      else if s[2] == 'R' then Some((F3, 3))
      else if s[2] == 'Q' then Some((F7, 3))
      else if s[2] == 'S' then Some((F8, 3))
      else Some((Esc, 3))
    else Some((Esc, 2))
  }

  /** The keys the input decodes to from `pos` on, read until the rest no
      longer decodes to a whole key. */
  function Keys(input: seq<char>, pos: nat): seq<Key>
    requires pos <= |input|
    decreases |input| - pos
  {
    var d := DecodeKey(input[pos..]);
    if d.None? then [] else [d.value.0] + Keys(input, pos + d.value.1)
  }

  /** Reading one more key, which ends at `next`, keeps `seen` a prefix of
      what the input decodes to. */
  lemma KeysRead(input: seq<char>, pos: nat, next: nat, seen: seq<Key>, k: Key)
    requires pos <= |input| && DecodeKey(input[pos..]).Some?
    requires k == DecodeKey(input[pos..]).value.0 && next == pos + DecodeKey(input[pos..]).value.1
    requires Keys(input, 0) == seen + Keys(input, pos)
    ensures next <= |input| && Keys(input, 0) == seen + [k] + Keys(input, next)
    ensures seen + [k] <= Keys(input, 0)
  {
    KeysUnfold(input, pos, next, k);
    PrefixGrows(Keys(input, 0), seen, k, Keys(input, next));
  }

  lemma KeysUnfold(input: seq<char>, pos: nat, next: nat, k: Key)
    requires pos <= |input| && DecodeKey(input[pos..]).Some?
    requires k == DecodeKey(input[pos..]).value.0 && next == pos + DecodeKey(input[pos..]).value.1
    ensures next <= |input| && Keys(input, pos) == [k] + Keys(input, next)
  {
  }

  /** Reads the key at `pos`: None when the rest of the input no longer
      decodes to a whole key, so that every key the input holds has been read. */
  method NextKey(input: seq<char>, pos: nat, ghost seen: seq<Key>) returns (key: Option<Key>, next: nat)
    requires pos <= |input| && Keys(input, 0) == seen + Keys(input, pos)
    ensures key.None? ==> Keys(input, 0) == seen
    ensures key.Some? ==> pos < next <= |input| && Keys(input, 0) == seen + [key.value] + Keys(input, next)
  {
    var decoded := DecodeKey(input[pos..]);
    if decoded.None? {
      return None, pos;
    }
    var (k, used) := decoded.value;
    next := pos + used;
    KeysRead(input, pos, next, seen, k);
    key := Some(k);
  }

  /** The keys the table understands come back from their terminal sequences,
      whatever follows them. */
  lemma DecodeKeyRoundTrip(k: Key, rest: seq<char>)
    requires k in {F3, F7, F8, Esc} || (k.Ch? && k.c != ESC)
    ensures DecodeKey(Encode(k) + rest) == Some((k, |Encode(k)|))
  {
    var s := Encode(k) + rest;
    assert forall i :: 0 <= i < |Encode(k)| ==> s[i] == Encode(k)[i];
  }

  /** The keys that end `show`: F3, Enter, q, Q and Ctrl+C. */
  predicate Closes(k: Key) {
    k == F3 || k == Ch(CR) || k == Ch(LF) || k == Ch('q') || k == Ch('Q') || k == Ch(CTRL_C)
  }

  /** One key's effect on the first visible row: F7, k or K page back; F8, j
      or J page forward; everything else leaves the view alone. */
  function ScrollStep(top: nat, k: Key, ps: nat, n: nat): (r: nat)
    requires ps >= 1
    ensures top < n ==> r < n
    ensures top == 0 && n == 0 ==> r == 0
    ensures PagesBack(k) ==> r == PageBackTop(top, ps)
    ensures PagesForward(k) ==> r == PageForwardToLastRow(top, ps, n)
    ensures !PagesBack(k) && !PagesForward(k) ==> r == top
  {
    if PagesBack(k) then PageBackTop(top, ps)
    else if PagesForward(k) then PageForwardToLastRow(top, ps, n)
    else top
  }

  /** F7, k and K page back. */
  predicate PagesBack(k: Key) {
    k == F7 || k == Ch('k') || k == Ch('K')
  }

  /** F8, j and J page forward. */
  predicate PagesForward(k: Key) {
    k == F8 || k == Ch('j') || k == Ch('J')
  }

  /** The function-key line: F3=Return first and Enter=Return last; F7=Up
      and F8=Down only when the rows overflow a page and there is somewhere
      to go. */
  function Hints(top: nat, ps: nat, n: nat): (h: seq<string>)
    ensures 2 <= |h| <= 4 && h[0] == "F3=Return" && h[|h| - 1] == "Enter=Return"
    ensures "F7=Up" in h <==> n > ps && top > 0
    ensures "F8=Down" in h <==> n > ps && top + ps < n
  {
    ["F3=Return"]
    + (if n > ps && top > 0 then ["F7=Up"] else [])
    + (if n > ps && top + ps < n then ["F8=Down"] else [])
    + ["Enter=Return"]
  }

  /** The row-count message, before it is turned into text. */
  datatype CountLine = RowsTotal(total: nat) | RowRange(first: nat, last: nat, total: nat)

  /** No message without rows; `ROWS n` when they fit on one page;
      otherwise the visible range `ROW first TO last OF n`. */
  function Count(top: nat, ps: nat, n: nat): (c: Option<CountLine>)
    requires ps >= 1 && (top < n || n == 0)
    ensures c.None? <==> n == 0
    ensures c.Some? ==> (c.value.RowsTotal? <==> n <= ps)
    ensures c.Some? && c.value.RowsTotal? ==> c.value.total == n
    ensures c.Some? && c.value.RowRange? ==>
              && c.value.first == top + 1
              && 1 <= c.value.first <= c.value.last <= c.value.total == n
              && c.value.last - c.value.first < ps
              && (c.value.last == n || c.value.last - c.value.first == ps - 1)
  {
    if n == 0 then None
    else if n > ps then Some(RowRange(top + 1, Min(top + ps, n), n))
    else Some(RowsTotal(n))
  }

  function CountText(c: CountLine): string {
    match c
    case RowsTotal(n) => "ROWS " + NatToString(n)
    case RowRange(a, b, n) => "ROW " + NatToString(a) + " TO " + NatToString(b) + " OF " + NatToString(n)
  }

  class Table {
    const title: string
    const columns: seq<string>
    var rows: seq<seq<string>>
    var colWidths: seq<nat>
    var currentRow: nat

    /** The first visible row is a row of the table, or 0 for an empty one. */
    predicate Valid()
      reads this
    {
      currentRow == 0 || currentRow < |rows|
    }

    /** The title is stored upper-cased. */
    constructor (title: string, columns: seq<string>)
      ensures this.title == UpperStr(title) && this.columns == columns
      ensures rows == [] && colWidths == [] && currentRow == 0
      ensures Valid()
    {
      this.title := UpperStr(title);
      this.columns := columns;
      rows := [];
      colWidths := [];
      currentRow := 0;
    }

    method AddRow(values: seq<string>)
      modifies this
      ensures rows == old(rows) + [values]
      ensures colWidths == old(colWidths) && currentRow == old(currentRow)
      ensures old(Valid()) ==> Valid()
    {
      rows := rows + [values];
    }

    /** Widths are recomputed from the headers and the rows; a table without
        columns keeps whatever widths it had. */
    method CalculateWidths()
      modifies this
      ensures rows == old(rows) && currentRow == old(currentRow)
      ensures |columns| == 0 ==> colWidths == old(colWidths)
      ensures |columns| > 0 ==> IsListWidths(colWidths, columns, rows)
    {
      if |columns| == 0 {
        return;
      }
      colWidths := ListColumnWidths(columns, rows);
    }

    /** `show`: page through the rows until a closing key arrives, rendering
        (and so recomputing the widths, which no key changes) before each key. `seen` is the keys
        read, a prefix of what the input decodes to: every one before the last
        leaves the table open, and the view ends where those keys scroll it. */
    method Show(input: seq<char>, height: int) returns (closedBy: Option<Key>, ghost seen: seq<Key>)
      requires Valid()
      modifies this
      ensures Valid() && rows == old(rows)
      ensures |columns| > 0 ==> IsListWidths(colWidths, columns, rows)
      ensures |columns| == 0 ==> colWidths == old(colWidths)
      ensures seen <= Keys(input, 0) && (closedBy.None? ==> seen == Keys(input, 0))
      ensures closedBy.Some? ==> |seen| > 0 && seen[|seen| - 1] == closedBy.value && Closes(closedBy.value)
      ensures closedBy.Some? ==> forall i :: 0 <= i < |seen| - 1 ==> !Closes(seen[i])
      ensures closedBy.None? ==> forall i :: 0 <= i < |seen| ==> !Closes(seen[i])
      ensures currentRow == ScrollAll(old(currentRow), if closedBy.Some? then seen[..|seen| - 1] else seen,
                                      PageSize(height, HEADER_LINES + FOOTER_LINES), |rows|)
    {
      CalculateWidths();
      var ps := PageSize(height, HEADER_LINES + FOOTER_LINES);
      var keys;
      closedBy, keys := ReadUntilClosed(input);
      seen := keys;
      var paged := if closedBy.Some? then keys[..|keys| - 1] else keys;
      ScrollAllStaysInTable(currentRow, paged, ps, |rows|);
      currentRow := ScrollAll(currentRow, paged, ps, |rows|);
    }
  }

  /** The key loop of `show`: keys are read until one closes the table or the
      input runs out. `seen` is a prefix of what the input decodes to, and
      only its last key, if any, closes the table. */
  method ReadUntilClosed(input: seq<char>) returns (closedBy: Option<Key>, seen: seq<Key>)
    ensures seen <= Keys(input, 0) && (closedBy.None? ==> seen == Keys(input, 0))
    ensures closedBy.Some? ==> |seen| > 0 && seen[|seen| - 1] == closedBy.value && Closes(closedBy.value)
    ensures closedBy.Some? ==> forall i :: 0 <= i < |seen| - 1 ==> !Closes(seen[i])
    ensures closedBy.None? ==> forall i :: 0 <= i < |seen| ==> !Closes(seen[i])
  {
    var pos := 0;
    seen := [];
    while true
      invariant pos <= |input|
      invariant forall i :: 0 <= i < |seen| ==> !Closes(seen[i])
      invariant Keys(input, 0) == seen + Keys(input, pos)
      decreases |input| - pos
    {
      var read, next := NextKey(input, pos, seen);
      if read.None? {
        return None, seen;
      }
      var key := read.value;
      pos := next;
      if Closes(key) {
        assert (seen + [key])[..|seen|] == seen;
        return Some(key), seen + [key];
      }
      seen := seen + [key];
    }
  }

  /** The first visible row after a run of keys. */
  function ScrollAll(top: nat, keys: seq<Key>, ps: nat, n: nat): nat
    requires ps >= 1
    decreases |keys|
  {
    if keys == [] then top else ScrollAll(ScrollStep(top, keys[0], ps, n), keys[1..], ps, n)
  }

  lemma {:induction false} ScrollAllAppend(top: nat, keys: seq<Key>, k: Key, ps: nat, n: nat)
    requires ps >= 1
    ensures ScrollAll(top, keys + [k], ps, n) == ScrollStep(ScrollAll(top, keys, ps, n), k, ps, n)
    decreases |keys|
  {
    if keys != [] {
      assert (keys + [k])[1..] == keys[1..] + [k];
      ScrollAllAppend(ScrollStep(top, keys[0], ps, n), keys[1..], k, ps, n);
    }
  }

  /** However the keys page, the view stays on a row of the table. */
  lemma {:induction false} ScrollAllStaysInTable(top: nat, keys: seq<Key>, ps: nat, n: nat)
    requires ps >= 1 && (top == 0 || top < n)
    ensures var r := ScrollAll(top, keys, ps, n); r == 0 || r < n
    decreases |keys|
  {
    if keys != [] {
      ScrollAllStaysInTable(ScrollStep(top, keys[0], ps, n), keys[1..], ps, n);
    }
  }
}
