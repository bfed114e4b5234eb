/** What the dialogs of src/ux3270/dialog share: the logical keys their
    `_read_key` decoders return, page sizes, the F7/F8 paging rules, the
    cursor of a scrolling list and the content-based column widths. */
module Dialog {
  import opened Common

  /** A key as a dialog's `_read_key` returns it: a single character as read
      (`Ch`), or one of the names the decoders give to escape sequences. */
  datatype Key =
    | Ch(c: char)
    | Up | Down | Left | Right | Home | End | Insert | Delete
    | F3 | F6 | F7 | F8 | PgUp | PgDn
    | Esc

  /** The string the source compares against: a one-character string for a
      plain character, the upper-case name otherwise. */
  function Name(k: Key): (s: string)
    ensures k.Ch? <==> |s| == 1
    ensures k.Ch? ==> s == [k.c]
    ensures !k.Ch? ==> |s| >= 2
  {
    match k
    case Ch(c) => [c]
    case Up => "UP"
    case Down => "DOWN"
    case Left => "LEFT"
    case Right => "RIGHT"
    case Home => "HOME"
    case End => "END"
    case Insert => "INSERT"
    case Delete => "DELETE"
    case F3 => "F3"
    case F6 => "F6"
    case F7 => "F7"
    case F8 => "F8"
    case PgUp => "PGUP"
    case PgDn => "PGDN"
    case Esc => "ESC"
  }

  /** Comparing names is comparing keys, so the model may test keys where the
      source tests strings. */
  lemma NameInjective(a: Key, b: Key)
    requires Name(a) == Name(b)
    ensures a == b
  {
    if !a.Ch? && !b.Ch? {
      assert Name(a)[0] == Name(b)[0] && Name(a)[1] == Name(b)[1];
      assert |Name(a)| == |Name(b)|;
    }
  }

  /** The sequence an xterm-style terminal sends for a key: ECMA-48 control
      sequences `ESC [ ...` for the cursor and editing keys and
      `ESC [ n ~` for the function keys. A lone Escape is sent here as two
      ESC characters, which every decoder reads as ESC. */
  function Encode(k: Key): (s: seq<char>)
    ensures |s| >= 1
    ensures k.Ch? ==> s == [k.c]
    ensures !k.Ch? ==> 2 <= |s| <= 5 && s[0] == ESC
  {
    match k
    case Ch(c) => [c]
    case Up => [ESC, '[', 'A']
    case Down => [ESC, '[', 'B']
    case Right => [ESC, '[', 'C']
    case Left => [ESC, '[', 'D']
    case Home => [ESC, '[', 'H']
    case End => [ESC, '[', 'F']
    case Insert => [ESC, '[', '2', '~']
    case Delete => [ESC, '[', '3', '~']
    case F3 => [ESC, '[', '1', '3', '~']
    case F6 => [ESC, '[', '1', '7', '~']
    case F7 => [ESC, '[', '1', '8', '~']
    case F8 => [ESC, '[', '1', '9', '~']
    case PgUp => [ESC, '[', '5', '~']
    case PgDn => [ESC, '[', '6', '~']
    case Esc => [ESC, ESC]
  }

  /** `max(1, height - chrome)`: the data rows left once the header and
      footer lines are taken; at least one. */
  function PageSize(height: int, chrome: nat): (ps: nat)
    ensures ps >= 1
    ensures height - chrome >= 1 ==> ps + chrome == height
    ensures height - chrome < 1 ==> ps == 1
  {
    Max(1, height - chrome)
  }

  /** F7 (page back) on the first visible row: applies only when the view is
      not at the top, and then moves back one page or to the top. */
  function PageBackTop(top: nat, ps: nat): (r: nat)
    requires ps >= 1
    ensures r <= top && top - r <= ps
    ensures top > 0 ==> r < top
    ensures r == 0 || top - r == ps
  {
    if top > 0 then Max(0, top - ps) else top
  }

  /** F8 in Table and WorkWithList: applies only when rows remain below the
      page, and then moves forward by exactly one page; the clamp to the last
      row never bites. */
  function PageForwardToLastRow(top: nat, ps: nat, n: nat): (r: nat)
    ensures top + ps < n ==> r == top + ps
    ensures top + ps >= n ==> r == top
    ensures top < n ==> r < n
  {
    if top + ps < n then Min(n - 1, top + ps) else top
  }

  /** F8 in SelectionList and TabularEntry: moves forward by up to a page but
      never so far that the last page would be short. */
  function PageForwardToFullPage(top: nat, ps: nat, n: nat): (r: nat)
    requires ps >= 1
    ensures top + ps >= n ==> r == top
    ensures top + ps < n ==> top < r <= top + ps && r + ps <= n
    ensures top + ps < n ==> r == top + ps || r + ps == n
    ensures top < n ==> r < n
  {
    if top + ps < n then Min(n - ps, top + ps) else top
  }

  /** The position in a scrolling list: the first visible row and the
      cursor's line on the page. */
  datatype ListCursor = ListCursor(top: nat, line: nat)

  function Abs(c: ListCursor): nat {
    c.top + c.line
  }

  /** The cursor stays on the page and on an existing row; an empty list keeps
      both at 0. */
  predicate CursorOk(c: ListCursor, ps: nat, n: nat) {
    && c.line < ps
    && (n == 0 ==> c.top == 0 && c.line == 0)
    && (n > 0 ==> Abs(c) < n)
  }

  /** Up: the cursor line moves up, or at the top line the view scrolls up by
      one row. Either way the selected row is the previous one, if any. */
  function MoveUp(c: ListCursor): (r: ListCursor)
    ensures Abs(c) > 0 ==> Abs(r) + 1 == Abs(c)
    ensures Abs(c) == 0 ==> r == c
    ensures r.line <= c.line
    ensures r.top == c.top || (c.line == 0 && r.top + 1 == c.top)
  {
    if c.line > 0 then c.(line := c.line - 1)
    else if c.top > 0 then c.(top := c.top - 1)
    else c
  }

  /** Down (and the auto-advance after typing an action code): the cursor
      line moves down, or at the bottom line the view scrolls down by one
      row. Either way the selected row is the next one, if any. */
  function MoveDown(c: ListCursor, ps: nat, n: nat): (r: ListCursor)
    requires CursorOk(c, ps, n)
    ensures CursorOk(r, ps, n)
    ensures n > 0 ==> Abs(r) == Min(Abs(c) + 1, n - 1)
    ensures n == 0 ==> r == c
    ensures r.top != c.top ==> r.top == c.top + 1 && r.line == c.line
  {
    if c.line < ps - 1 && Abs(c) < n - 1 then c.(line := c.line + 1)
    else if c.top + ps < n then c.(top := c.top + 1)
    else c
  }

  /** `_calculate_widths` over rows that are dictionaries: column i is as
      wide as its header or the longest value any row holds under that key. */
  predicate IsDictWidths(widths: seq<nat>, columns: seq<string>, rows: seq<map<string, string>>) {
    && |widths| == |columns|
    && DictWidthsBound(widths, columns, rows)
    && DictWidthsAttained(widths, columns, rows)
  }

  predicate DictWidthsBound(widths: seq<nat>, columns: seq<string>, rows: seq<map<string, string>>)
    requires |widths| == |columns|
  {
    && (forall i :: 0 <= i < |columns| ==> widths[i] >= |columns[i]|)
    && (forall r, i :: 0 <= r < |rows| && 0 <= i < |columns| && columns[i] in rows[r] ==>
          widths[i] >= |rows[r][columns[i]]|)
  }

  predicate DictWidthsAttained(widths: seq<nat>, columns: seq<string>, rows: seq<map<string, string>>)
    requires |widths| == |columns|
  {
    forall i :: 0 <= i < |columns| ==>
      widths[i] == |columns[i]| ||
      exists r :: 0 <= r < |rows| && columns[i] in rows[r] && widths[i] == |rows[r][columns[i]]|
  }

  method DictColumnWidths(columns: seq<string>, rows: seq<map<string, string>>) returns (widths: seq<nat>)
    ensures IsDictWidths(widths, columns, rows)
  {
    widths := seq(|columns|, i requires 0 <= i < |columns| => |columns[i]|);
    for r := 0 to |rows|
      invariant IsDictWidths(widths, columns, rows[..r])
    {
      ghost var grown := rows[..r + 1];
      assert DictWidthsAttained(widths, columns, grown) by {
        forall i | 0 <= i < |columns| && widths[i] != |columns[i]|
          ensures exists k :: 0 <= k < r + 1 && columns[i] in grown[k] && widths[i] == |grown[k][columns[i]]|
        {
          var k :| 0 <= k < r && columns[i] in rows[..r][k] && widths[i] == |rows[..r][k][columns[i]]|;
          assert rows[..r + 1][k] == rows[..r][k];
        }
      }
      for i := 0 to |columns|
        invariant |widths| == |columns|
        invariant DictWidthsBound(widths, columns, rows[..r])
        invariant DictWidthsAttained(widths, columns, rows[..r + 1])
        invariant forall j :: 0 <= j < i && columns[j] in rows[r] ==> widths[j] >= |rows[r][columns[j]]|
      {
        if columns[i] in rows[r] {
          widths := widths[i := Max(widths[i], |rows[r][columns[i]]|)];
          assert rows[..r + 1][r] == rows[r];
        }
      }
      assert forall k :: 0 <= k < r ==> rows[..r + 1][k] == rows[..r][k];
    }
    assert rows[..|rows|] == rows;
  }

  /** The same for rows that are lists: value i of a row belongs to column i,
      and values beyond the last column are not counted. */
  predicate IsListWidths(widths: seq<nat>, columns: seq<string>, rows: seq<seq<string>>) {
    && |widths| == |columns|
    && ListWidthsBound(widths, columns, rows)
    && ListWidthsAttained(widths, columns, rows)
  }

  predicate ListWidthsBound(widths: seq<nat>, columns: seq<string>, rows: seq<seq<string>>)
    requires |widths| == |columns|
  {
    && (forall i :: 0 <= i < |columns| ==> widths[i] >= |columns[i]|)
    && (forall r, i :: 0 <= r < |rows| && 0 <= i < |columns| && i < |rows[r]| ==> widths[i] >= |rows[r][i]|)
  }

  predicate ListWidthsAttained(widths: seq<nat>, columns: seq<string>, rows: seq<seq<string>>)
    requires |widths| == |columns|
  {
    forall i :: 0 <= i < |columns| ==>
      widths[i] == |columns[i]| ||
      exists r :: 0 <= r < |rows| && i < |rows[r]| && widths[i] == |rows[r][i]|
  }

  method ListColumnWidths(columns: seq<string>, rows: seq<seq<string>>) returns (widths: seq<nat>)
    ensures IsListWidths(widths, columns, rows)
  {
    widths := seq(|columns|, i requires 0 <= i < |columns| => |columns[i]|);
    for r := 0 to |rows|
      invariant IsListWidths(widths, columns, rows[..r])
    {
      ghost var grown := rows[..r + 1];
      assert ListWidthsAttained(widths, columns, grown) by {
        forall i | 0 <= i < |columns| && widths[i] != |columns[i]|
          ensures exists k :: 0 <= k < r + 1 && i < |grown[k]| && widths[i] == |grown[k][i]|
        {
          var k :| 0 <= k < r && i < |rows[..r][k]| && widths[i] == |rows[..r][k][i]|;
          assert rows[..r + 1][k] == rows[..r][k];
        }
      }
      for i := 0 to |rows[r]|
        invariant |widths| == |columns|
        invariant ListWidthsBound(widths, columns, rows[..r])
        invariant ListWidthsAttained(widths, columns, rows[..r + 1])
        invariant forall j :: 0 <= j < i && j < |columns| ==> widths[j] >= |rows[r][j]|
      {
        if i < |widths| {
          widths := widths[i := Max(widths[i], |rows[r][i]|)];
          assert rows[..r + 1][r] == rows[r];
        }
      }
      assert forall k :: 0 <= k < r ==> rows[..r + 1][k] == rows[..r][k];
    }
    assert rows[..|rows|] == rows;
  }
}
