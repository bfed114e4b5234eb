/** The table of ux3270_ui/table.py: every row on one screen, a row count,
    and any single key to leave. */
module LegacyTable {
  import opened Common
  import opened Dialog

  /** The count line: `ROWS n` exactly when there are rows. */
  function RowCount(n: nat): (msg: Option<string>)
    ensures msg.Some? <==> n > 0
    ensures msg.Some? ==> |msg.value| > 5 && msg.value[..5] == "ROWS " && AllDigits(msg.value[5..])
    ensures msg.Some? ==> DigitsValue(msg.value[5..]) == n
  {
    if n > 0 then
      var s := "ROWS " + NatToString(n);
      NatToStringRoundTrip(n);
      assert s[5..] == NatToString(n);
      Some(s)
    else None
  }

  /** The characters `show` reads: one key, plus the two that follow an ESC
      (fewer when the input ends first). */
  function KeyLength(input: seq<char>): (n: nat)
    ensures n <= |input| && (|input| > 0 ==> n >= 1)
    ensures |input| > 0 && input[0] != ESC ==> n == 1
    ensures |input| > 0 && input[0] == ESC ==> n == Min(3, |input|)
  {
    if |input| == 0 then 0
    else if input[0] != ESC then 1
    else Min(3, |input|)
  }

  class LegacyTable {
    const title: string
    const columns: seq<string>
    var rows: seq<seq<string>>
    var colWidths: seq<nat>

    /** The title is stored upper-cased. */
    constructor (title: string, columns: seq<string>)
      ensures this.title == UpperStr(title) && this.columns == columns
      ensures rows == [] && colWidths == []
    {
      this.title := UpperStr(title);
      this.columns := columns;
      rows := [];
      colWidths := [];
    }

    method AddRow(values: seq<string>)
      modifies this
      ensures rows == old(rows) + [values] && colWidths == old(colWidths)
    {
      rows := rows + [values];
    }

    /** Widths from the headers and the rows; values beyond the last column
        do not count, and a table without columns keeps its widths. */
    method CalculateWidths()
      modifies this
      ensures rows == old(rows)
      ensures |columns| == 0 ==> colWidths == old(colWidths)
      ensures |columns| > 0 ==> IsListWidths(colWidths, columns, rows)
    {
      if |columns| == 0 {
        return;
      }
      colWidths := ListColumnWidths(columns, rows);
    }

    /** `show` renders (which recomputes the widths) and waits for one key;
        it returns how many characters it read. */
    method Show(input: seq<char>) returns (consumed: nat)
      modifies this
      ensures rows == old(rows) && consumed == KeyLength(input)
      ensures |columns| > 0 ==> IsListWidths(colWidths, columns, rows)
      ensures |columns| == 0 ==> colWidths == old(colWidths)
    {
      CalculateWidths();
      if |input| == 0 {
        return 0;
      }
      consumed := 1;
      if input[0] == ESC {
        consumed := Min(3, |input|);
      }
    }
  }
}
