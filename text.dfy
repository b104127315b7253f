/**
 * The host string operations the date utilities rely on: decimal digits and `parseInt(s, 10)`,
 * `String(n)` for integers, `padStart`, `indexOf` and `replace` with a string pattern.
 */
module Text {
  import opened Wrappers

  predicate IsDigit(c: char) {
    '0' <= c <= '9'
  }

  predicate AllDigits(s: string) {
    forall i :: 0 <= i < |s| ==> IsDigit(s[i])
  }

  function DigitValue(c: char): (n: int)
    requires IsDigit(c)
    ensures 0 <= n < 10
  {
    c as int - '0' as int
  }

  function DigitChar(n: int): (c: char)
    requires 0 <= n < 10
    ensures IsDigit(c) && DigitValue(c) == n
  {
    ('0' as int + n) as char
  }

  /** `parseInt(s, 10)` on a string made only of decimal digits (leading zeros allowed). */
  function DigitsValue(s: string): nat
    requires AllDigits(s)
  {
    if s == [] then 0 else DigitsValue(s[..|s| - 1]) * 10 + DigitValue(s[|s| - 1])
  }

  lemma TwoDigitsValue(s: string)
    requires |s| == 2 && AllDigits(s)
    ensures DigitsValue(s) == 10 * DigitValue(s[0]) + DigitValue(s[1])
  {
    assert s[..1][..0] == [];
    assert DigitsValue(s[..1]) == DigitValue(s[0]);
  }

  /** `String(n)` for a non-negative integer: its decimal digits, without leading zeros. */
  function NatToString(n: nat): (s: string)
    ensures 1 <= |s| && AllDigits(s)
    ensures DigitsValue(s) == n
    ensures |s| == 1 || s[0] != '0'
    ensures n < 10 <==> |s| == 1
  {
    if n < 10 then [DigitChar(n)]
    else
      var prefix := NatToString(n / 10);
      var s := prefix + [DigitChar(n % 10)];
      assert s[..|s| - 1] == prefix;
      s
  }

  /** `String(i)` for an integer: a minus sign before the digits of a negative one. */
  function IntToString(i: int): (s: string)
    ensures 1 <= |s|
    ensures i >= 0 ==> s == NatToString(i)
    ensures i < 0 <==> s[0] == '-'
    ensures i < 0 ==> s == "-" + NatToString(-i)
  {
    if i < 0 then "-" + NatToString(-i) else NatToString(i)
  }

  /** `String` is injective on integers. */
  lemma IntToStringInjective(i: int, j: int)
    requires IntToString(i) == IntToString(j)
    ensures i == j
  {
    if i < 0 {
      assert NatToString(-i) == IntToString(i)[1..] == IntToString(j)[1..] == NatToString(-j);
    }
  }

  /** `s.padStart(targetLength, fill)` with a one-character fill string. */
  function PadStart(s: string, targetLength: nat, fill: char): (r: string)
    ensures |r| == if |s| >= targetLength then |s| else targetLength
    ensures r[|r| - |s|..] == s
    ensures forall i :: 0 <= i < |r| - |s| ==> r[i] == fill
  {
    if |s| >= targetLength then s else seq(targetLength - |s|, _ => fill) + s
  }

  /** `String(n).padStart(2, '0')` for a number below 100: exactly two digits. */
  function Padded2(n: nat): (r: string)
    requires n < 100
    ensures |r| == 2 && AllDigits(r)
    ensures r == [DigitChar(n / 10), DigitChar(n % 10)]
  {
    var s := NatToString(n);
    if n < 10 then
      assert s == [DigitChar(n)] && n / 10 == 0 && n % 10 == n;
      assert PadStart(s, 2, '0') == seq(1, _ => '0') + s;
      PadStart(s, 2, '0')
    else
      assert NatToString(n / 10) == [DigitChar(n / 10)];
      assert s == [DigitChar(n / 10), DigitChar(n % 10)];
      PadStart(s, 2, '0')
  }

  /** Two padded digits read back as the number they render. */
  lemma Padded2Value(n: nat)
    requires n < 100
    ensures DigitsValue(Padded2(n)) == n
  {
    TwoDigitsValue(Padded2(n));
  }

  predicate OccursAt(s: string, pat: string, i: int) {
    0 <= i && i + |pat| <= |s| && s[i..i + |pat|] == pat
  }

  /** First position at or after `from` where `pat` occurs in `s`. */
  function IndexFrom(s: string, pat: string, from: nat): Option<nat>
    decreases |s| - from
  {
    if from + |pat| > |s| then None
    else if s[from..from + |pat|] == pat then Some(from)
    else IndexFrom(s, pat, from + 1)
  }

  /** `IndexFrom` finds an occurrence, and none lies between `from` and the one it finds. */
  lemma {:induction false} IndexFromFirst(s: string, pat: string, from: nat)
    ensures IndexFrom(s, pat, from).Some? ==> from <= IndexFrom(s, pat, from).value && OccursAt(s, pat, IndexFrom(s, pat, from).value)
    ensures forall j :: from <= j && (IndexFrom(s, pat, from).None? || j < IndexFrom(s, pat, from).value) ==> !OccursAt(s, pat, j)
    decreases |s| - from
  {
    if from + |pat| > |s| {
    } else if s[from..from + |pat|] == pat {
    } else {
      IndexFromFirst(s, pat, from + 1);
    }
  }

  /** `s.indexOf(pat)`: the first occurrence, case-sensitive. */
  function IndexOf(s: string, pat: string): Option<nat> {
    IndexFrom(s, pat, 0)
  }

  /**
   * `s.replace(pat, rep)` with a string pattern: only the first occurrence is replaced, and `s` is
   * returned unchanged when `pat` does not occur. The replacement is taken literally, which is what
   * the host does for replacements without `$`.
   */
  function ReplaceFirst(s: string, pat: string, rep: string): string {
    IndexFromFirst(s, pat, 0);
    match IndexOf(s, pat)
    case None => s
    case Some(i) => s[..i] + rep + s[i + |pat|..]
  }

  /** No occurrence of `pat` at all in `s` means `replace` leaves `s` alone. */
  lemma ReplaceAbsent(s: string, pat: string, rep: string)
    requires forall j :: 0 <= j ==> !OccursAt(s, pat, j)
    ensures ReplaceFirst(s, pat, rep) == s
  {
    IndexFromFirst(s, pat, 0);
  }

  /** An occurrence at `i` with none before it is the one `replace` substitutes. */
  lemma ReplaceAt(s: string, pat: string, rep: string, i: nat)
    requires OccursAt(s, pat, i)
    requires forall j :: 0 <= j < i ==> !OccursAt(s, pat, j)
    ensures ReplaceFirst(s, pat, rep) == s[..i] + rep + s[i + |pat|..]
  {
    IndexFromFirst(s, pat, 0);
    assert IndexOf(s, pat) == Some(i);
  }
}
