/** The menu of src/ux3270/dialog/menu.py: items selected by a single key,
    matched without regard to case, with F3, X and Ctrl+C as exits. */
module Menu {
  import opened Common
  import opened Dialog

  const INSTRUCTION_ROW: int := 1
  const ITEMS_START_ROW: int := 3
  const ITEM_COL: int := 2

  /** A menu entry. Its action is application code; the model records only
      which entry's action was run. */
  datatype MenuItem = MenuItem(key: string, labelText: string)

  /** `_read_key` of the menu: F3 arrives as `ESC [ 1 3 ~`, `ESC [ O R` or
      `ESC O R`; any other escape sequence is ESC. `ESC [ 1 x` with x not 3
      stops after x, as does `ESC [ O x` with x not R. */
  function DecodeKey(s: seq<char>): (r: Option<(Key, nat)>)
    ensures r.Some? ==> 1 <= r.value.1 <= |s|
    ensures r.Some? ==> r.value.0 == F3 || r.value.0 == Esc || r.value.0 == Ch(s[0])
    ensures r.Some? && r.value.0.Ch? ==> r.value.1 == 1 && s[0] != ESC
    ensures r.None? ==> |s| < 5 && (|s| == 0 || s[0] == ESC)
  {
    if |s| == 0 then None
    else if s[0] != ESC then Some((Ch(s[0]), 1))
    else if |s| < 2 then None
    else if s[1] == '[' then
      if |s| < 3 then None
      else if s[2] == '1' then
        if |s| < 4 then None
        else if s[3] == '3' then (if |s| < 5 then None else Some((F3, 5)))
        else Some((Esc, 4))
      else if s[2] == 'O' then
        if |s| < 4 then None
        else if s[3] == 'R' then Some((F3, 4))
        else Some((Esc, 4))
      else Some((Esc, 3))
    else if s[1] == 'O' then
      if |s| < 3 then None
      else if s[2] == 'R' then Some((F3, 3))
      else Some((Esc, 3))
    else Some((Esc, 2))
  }

  /** The keys the input decodes to from `pos` on, read until the rest no
      longer decodes to a whole key. */
  function Keys(input: seq<char>, pos: nat): seq<Key>
    requires pos <= |input|
    decreases |input| - pos
  {
    var d := DecodeKey(input[pos..]);
    if d.None? then [] else [d.value.0] + Keys(input, pos + d.value.1)
  }

  /** Reading one more key, which ends at `next`, keeps `seen` a prefix of
      what the input decodes to. */
  lemma KeysRead(input: seq<char>, pos: nat, next: nat, seen: seq<Key>, k: Key)
    requires pos <= |input| && DecodeKey(input[pos..]).Some?
    requires k == DecodeKey(input[pos..]).value.0 && next == pos + DecodeKey(input[pos..]).value.1
    requires Keys(input, 0) == seen + Keys(input, pos)
    ensures next <= |input| && Keys(input, 0) == seen + [k] + Keys(input, next)
    ensures seen + [k] <= Keys(input, 0)
  {
    KeysUnfold(input, pos, next, k);
    PrefixGrows(Keys(input, 0), seen, k, Keys(input, next));
  }

  lemma KeysUnfold(input: seq<char>, pos: nat, next: nat, k: Key)
    requires pos <= |input| && DecodeKey(input[pos..]).Some?
    requires k == DecodeKey(input[pos..]).value.0 && next == pos + DecodeKey(input[pos..]).value.1
    ensures next <= |input| && Keys(input, pos) == [k] + Keys(input, next)
  {
  }

  /** Reads the key at `pos`: None when the rest of the input no longer
      decodes to a whole key, so that every key the input holds has been read. */
  method NextKey(input: seq<char>, pos: nat, ghost seen: seq<Key>) returns (key: Option<Key>, next: nat)
    requires pos <= |input| && Keys(input, 0) == seen + Keys(input, pos)
    ensures key.None? ==> Keys(input, 0) == seen
    ensures key.Some? ==> pos < next <= |input| && Keys(input, 0) == seen + [key.value] + Keys(input, next)
  {
    var decoded := DecodeKey(input[pos..]);
    if decoded.None? {
      return None, pos;
    }
    var (k, used) := decoded.value;
    next := pos + used;
    KeysRead(input, pos, next, seen, k);
    key := Some(k);
  }

  /** F3, Escape and plain characters come back from their terminal
      sequences, whatever follows them. */
  lemma DecodeKeyRoundTrip(k: Key, rest: seq<char>)
    requires k in {F3, Esc} || (k.Ch? && k.c != ESC)
    ensures DecodeKey(Encode(k) + rest) == Some((k, |Encode(k)|))
  {
    var s := Encode(k) + rest;
    assert forall i :: 0 <= i < |Encode(k)| ==> s[i] == Encode(k)[i];
  }

  /** The exit test of `show`, as written: F3, a key whose upper-cased name
      is X, or Ctrl+C. */
  predicate Exits(k: Key) {
    k == F3 || UpperStr(Name(k)) == "X" || k == Ch(CTRL_C)
  }

  /** The exits are exactly F3, x, X and Ctrl+C. */
  lemma ExitsExactly(k: Key)
    ensures Exits(k) <==> k == F3 || k == Ch('x') || k == Ch('X') || k == Ch(CTRL_C)
  {
    if UpperStr(Name(k)) == "X" {
      assert |Name(k)| == 1;
      assert Upper(Name(k)[0]) == 'X';
    }
    if k == Ch('x') {
      assert UpperStr(Name(k)) == [Upper('x')];
    }
  }

  /** The item lookup of `show`: the first item whose upper-cased key equals
      `target`, or None. */
  method FindItem(items: seq<MenuItem>, target: string) returns (found: Option<nat>)
    ensures found.None? <==> forall j :: 0 <= j < |items| ==> UpperStr(items[j].key) != target
    ensures found.Some? ==> found.value < |items| && UpperStr(items[found.value].key) == target
    ensures found.Some? ==> forall j :: 0 <= j < found.value ==> UpperStr(items[j].key) != target
  {
    for i := 0 to |items|
      invariant forall j :: 0 <= j < i ==> UpperStr(items[j].key) != target
    {
      if UpperStr(items[i].key) == target {
        return Some(i);
      }
    }
    return None;
  }

  /** Item i is drawn at row 3 + i, column 2: one item per line, below the
      instruction line and a blank line, in the order they were added. */
  function Placement(count: nat): (p: seq<(int, int)>)
    ensures |p| == count
    ensures forall i :: 0 <= i < count ==> p[i].1 == ITEM_COL && p[i].0 > INSTRUCTION_ROW + 1
    ensures forall i, j :: 0 <= i < j < count ==> p[j].0 - p[i].0 == j - i
    ensures count > 0 ==> p[0].0 == ITEMS_START_ROW
  {
    seq(count, i => (ITEMS_START_ROW + i, ITEM_COL))
  }

  datatype MenuOutcome = Selected(key: string) | Exited | InputEnded

  class Menu {
    const title: string
    const panelId: string
    const instruction: string
    var items: seq<MenuItem>
    /** The items whose action has run, in order. */
    ghost var invoked: seq<nat>

    /** The title is always upper-cased, and so is the panel id. */
    constructor (title: string, panelId: string, instruction: string)
      ensures this.title == UpperStr(title) && this.panelId == UpperStr(panelId)
      ensures this.instruction == instruction && items == [] && invoked == []
    {
      this.title := UpperStr(title);
      this.panelId := UpperStr(panelId);
      this.instruction := instruction;
      items := [];
      invoked := [];
    }

    method AddItem(key: string, labelText: string)
      modifies this
      ensures items == old(items) + [MenuItem(key, labelText)] && invoked == old(invoked)
    {
      items := items + [MenuItem(key, labelText)];
    }

    /** `show`: read keys until one exits or selects an item. Exit keys are
        tested first. A selected item's action runs exactly once and the key
        is returned as it was read; keys that neither exit nor match are
        ignored. */
    method Show(input: seq<char>) returns (outcome: MenuOutcome, ghost seen: seq<Key>)
      modifies this
      ensures items == old(items)
      ensures seen <= Keys(input, 0) && (outcome.InputEnded? ==> seen == Keys(input, 0))
      ensures forall i :: 0 <= i < |seen| - 1 ==> !Exits(seen[i]) && !MatchesAny(items, seen[i])
      ensures outcome.InputEnded? ==> forall i :: 0 <= i < |seen| ==> !Exits(seen[i]) && !MatchesAny(items, seen[i])
      ensures outcome.Exited? ==> |seen| > 0 && Exits(seen[|seen| - 1])
      ensures outcome.Selected? ==>
                && |seen| > 0 && !Exits(seen[|seen| - 1])
                && outcome.key == Name(seen[|seen| - 1])
                && exists i :: 0 <= i < |items| && invoked == old(invoked) + [i]
                                && UpperStr(items[i].key) == UpperStr(outcome.key)
                                && forall j :: 0 <= j < i ==> UpperStr(items[j].key) != UpperStr(outcome.key)
      ensures !outcome.Selected? ==> invoked == old(invoked)
    {
      var keys, chosen;
      outcome, keys, chosen := ReadChoice(input, items);
      seen := keys;
      if outcome.Selected? {
        invoked := invoked + [chosen];
      }
    }
  }

  /** The key loop of `show`: keys are read until one exits or matches an
      item, or the input runs out. `chosen` is the first matching item. */
  method ReadChoice(input: seq<char>, items: seq<MenuItem>) returns (outcome: MenuOutcome, seen: seq<Key>, chosen: nat)
    ensures seen <= Keys(input, 0) && (outcome.InputEnded? ==> seen == Keys(input, 0))
    ensures forall i :: 0 <= i < |seen| - 1 ==> !Exits(seen[i]) && !MatchesAny(items, seen[i])
    ensures outcome.InputEnded? ==> forall i :: 0 <= i < |seen| ==> !Exits(seen[i]) && !MatchesAny(items, seen[i])
    ensures outcome.Exited? ==> |seen| > 0 && Exits(seen[|seen| - 1])
    ensures outcome.Selected? ==>
              && |seen| > 0 && !Exits(seen[|seen| - 1])
              && outcome.key == Name(seen[|seen| - 1])
              && chosen < |items| && UpperStr(items[chosen].key) == UpperStr(outcome.key)
              && forall j :: 0 <= j < chosen ==> UpperStr(items[j].key) != UpperStr(outcome.key)
  {
    var pos := 0;
    seen, chosen := [], 0;
    while true
      invariant pos <= |input|
      invariant forall i :: 0 <= i < |seen| ==> !Exits(seen[i]) && !MatchesAny(items, seen[i])
      invariant Keys(input, 0) == seen + Keys(input, pos)
      decreases |input| - pos
    {
      var read, next := NextKey(input, pos, seen);
      if read.None? {
        return InputEnded, seen, 0;
      }
      var key := read.value;
      pos := next;
      if key == F3 || UpperStr(Name(key)) == "X" || key == Ch(CTRL_C) {
        EndedBy(items, seen, key);
        return Exited, seen + [key], 0;
      }
      var found := FindItem(items, UpperStr(Name(key)));
      if found.Some? {
        EndedBy(items, seen, key);
        return Selected(Name(key)), seen + [key], found.value;
      }
      seen := seen + [key];
    }
  }

  /** The key that ends the loop is the last one read; none before it
      exits or matches. */
  lemma EndedBy(items: seq<MenuItem>, seen: seq<Key>, key: Key)
    requires forall i :: 0 <= i < |seen| ==> !Exits(seen[i]) && !MatchesAny(items, seen[i])
    ensures |seen + [key]| > 0 && (seen + [key])[|seen + [key]| - 1] == key
    ensures forall i :: 0 <= i < |seen + [key]| - 1 ==>
              !Exits((seen + [key])[i]) && !MatchesAny(items, (seen + [key])[i])
  {
  }

  ghost predicate MatchesAny(items: seq<MenuItem>, k: Key) {
    exists i :: 0 <= i < |items| && UpperStr(items[i].key) == UpperStr(Name(k))
  }
}
