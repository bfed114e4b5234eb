/** The menu of ux3270_ui/menu.py: one character at a time, upper-cased
    before it is compared with anything; no escape-sequence decoding. */
module LegacyMenu {
  import opened Common
  import opened Menu

  datatype LegacyOutcome = Chosen(key: string) | Quit | NoMoreInput

  class LegacyMenu {
    const title: string
    var items: seq<MenuItem>
    /** The items whose action has run, in order. */
    ghost var invoked: seq<nat>

    /** Unlike the dialog menu, the title is kept exactly as given. */
    constructor (title: string)
      ensures this.title == title && items == [] && invoked == []
    {
      this.title := title;
      items := [];
      invoked := [];
    }

    method AddItem(key: string, labelText: string)
      modifies this
      ensures items == old(items) + [MenuItem(key, labelText)] && invoked == old(invoked)
    {
      items := items + [MenuItem(key, labelText)];
    }

    /** `show`: each character is upper-cased first. X (either case) and
        Ctrl+C quit; otherwise the first item whose upper-cased key is that
        one-character string runs once and the upper-cased character is
        returned; any other character is ignored. */
    method Show(input: seq<char>) returns (outcome: LegacyOutcome, consumed: nat)
      modifies this
      ensures items == old(items) && consumed <= |input|
      ensures forall i :: 0 <= i < consumed - 1 ==> !Quits(input[i]) && !Selects(items, input[i])
      ensures outcome.NoMoreInput? ==> consumed == |input|
      ensures outcome.NoMoreInput? ==> forall i :: 0 <= i < |input| ==> !Quits(input[i]) && !Selects(items, input[i])
      ensures outcome.Quit? ==> consumed > 0 && Quits(input[consumed - 1])
      ensures outcome.Quit? ==> input[consumed - 1] == 'x' || input[consumed - 1] == 'X' || input[consumed - 1] == CTRL_C
      ensures outcome.Chosen? ==>
                && consumed > 0 && !Quits(input[consumed - 1])
                && outcome.key == [Upper(input[consumed - 1])]
                && exists i :: 0 <= i < |items| && invoked == old(invoked) + [i]
                                && UpperStr(items[i].key) == outcome.key
                                && forall j :: 0 <= j < i ==> UpperStr(items[j].key) != outcome.key
      ensures !outcome.Chosen? ==> invoked == old(invoked)
    {
      consumed := 0;
      while consumed < |input|
        invariant consumed <= |input| && items == old(items) && invoked == old(invoked)
        invariant forall i :: 0 <= i < consumed ==> !Quits(input[i]) && !Selects(items, input[i])
      {
        var ch := UpperStr([input[consumed]]);
        consumed := consumed + 1;
        if ch == "X" || ch == [CTRL_C] {
          return Quit, consumed;
        }
        var found := FindItem(items, ch);
        if found.Some? {
          invoked := invoked + [found.value];
          return Chosen(ch), consumed;
        }
      }
      return NoMoreInput, consumed;
    }
  }

  /** The quit test on the upper-cased character. */
  predicate Quits(c: char) {
    UpperStr([c]) == "X" || UpperStr([c]) == [CTRL_C]
  }

  /** The characters that quit are exactly x, X and Ctrl+C. */
  lemma QuitsExactly(c: char)
    ensures Quits(c) <==> c == 'x' || c == 'X' || c == CTRL_C
  {
    assert UpperStr([c]) == [Upper(c)];
  }

  ghost predicate Selects(items: seq<MenuItem>, c: char) {
    exists i :: 0 <= i < |items| && UpperStr(items[i].key) == UpperStr([c])
  }
}
