/** Helpers shared by every panel and dialog: an option type, the control
    characters a raw-mode terminal delivers, ASCII character classes standing
    for Python's `str` predicates, and decimal rendering of counters. */
module Common {

  datatype Option<T> = None | Some(value: T)

  // Control characters read from a terminal in raw mode.
  const ESC: char := '\U{1B}'
  const CR: char := '\r'
  const LF: char := '\n'
  const TAB: char := '\t'
  const DEL: char := '\U{7F}'
  const BS: char := '\U{08}'
  const CTRL_C: char := '\U{03}'
  const CTRL_E: char := '\U{05}'

  /** `str.isprintable()` of a one-character string, restricted to ASCII. */
  predicate IsPrintable(c: char) {
    ' ' <= c <= '~'
  }

  /** `str.isdigit()` of a one-character string, restricted to ASCII. */
  predicate IsDigit(c: char) {
    '0' <= c <= '9'
  }

  /** The ASCII characters `str.strip()` removes. */
  predicate IsSpace(c: char) {
    c == ' ' || '\t' <= c <= '\r' || '\U{1C}' <= c <= '\U{1F}'
  }

  /** `not s.strip()`: the string is empty or whitespace only. */
  predicate IsBlank(s: string) {
    forall i :: 0 <= i < |s| ==> IsSpace(s[i])
  }

  predicate AllDigits(s: string) {
    forall i :: 0 <= i < |s| ==> IsDigit(s[i])
  }

  /** `str.upper()` of one ASCII character. */
  function Upper(c: char): (u: char)
    ensures 'a' <= c <= 'z' ==> 'A' <= u <= 'Z' && u as int + 32 == c as int
    ensures !('a' <= c <= 'z') ==> u == c
  {
    if 'a' <= c <= 'z' then (c as int - 32) as char else c
  }

  /** `str.upper()` over ASCII: the length is kept and every character is upper-cased. */
  function UpperStr(s: string): (u: string)
    ensures |u| == |s|
    ensures forall i :: 0 <= i < |s| ==> u[i] == Upper(s[i])
  {
    if s == [] then [] else [Upper(s[0])] + UpperStr(s[1..])
  }

  lemma {:induction false} UpperStrIdempotent(s: string)
    ensures UpperStr(UpperStr(s)) == UpperStr(s)
  {
    if s != [] {
      UpperStrIdempotent(s[1..]);
      assert UpperStr(s)[1..] == UpperStr(s[1..]);
    }
  }

  function DigitChar(d: nat): (c: char)
    requires d < 10
    ensures IsDigit(c) && c as int - '0' as int == d
  {
    ('0' as int + d) as char
  }

  /** `str(n)` for a non-negative integer: decimal digits, no leading zeros. */
  function NatToString(n: nat): (s: string)
    ensures |s| >= 1 && AllDigits(s)
    ensures s[0] == '0' ==> n == 0
  {
    if n < 10 then [DigitChar(n)] else NatToString(n / 10) + [DigitChar(n % 10)]
  }

  /** Reads a string of decimal digits back as a number. */
  function DigitsValue(s: string): nat
    requires AllDigits(s)
  {
    if s == [] then 0 else DigitsValue(s[..|s| - 1]) * 10 + (s[|s| - 1] as int - '0' as int)
  }

  /** Decimal rendering round-trips, so distinct counters render distinctly. */
  lemma {:induction false} NatToStringRoundTrip(n: nat)
    ensures DigitsValue(NatToString(n)) == n
  {
    var s := NatToString(n);
    if n >= 10 {
      NatToStringRoundTrip(n / 10);
      assert s[..|s| - 1] == NatToString(n / 10);
    }
  }

  lemma NatToStringInjective(m: nat, n: nat)
    requires NatToString(m) == NatToString(n)
    ensures m == n
  {
    NatToStringRoundTrip(m);
    NatToStringRoundTrip(n);
  }

  /** A decoded stream read one element further: the element joins the
      prefix read so far. */
  lemma PrefixGrows<T>(all: seq<T>, seen: seq<T>, k: T, after: seq<T>)
    requires all == seen + ([k] + after)
    ensures all == seen + [k] + after && seen + [k] <= all
  {
    assert seen + ([k] + after) == seen + [k] + after;
    assert (seen + [k] + after)[..|seen| + 1] == seen + [k];
  }

  function Max(a: int, b: int): int { if a >= b then a else b }
  function Min(a: int, b: int): int { if a <= b then a else b }
}
