/** Character and string helpers used by several modules: substring search,
    decimal digits, decimal printing of naturals and splitting at a separator. */
module Text {

  /** `t` occurs in `s` starting at index `i`. */
  predicate OccursAt(s: string, t: string, i: int)
  {
    0 <= i && i + |t| <= |s| && s[i..i + |t|] == t
  }

  /** JavaScript `s.includes(t)`. */
  predicate Contains(s: string, t: string)
    ensures Contains(s, t) ==> |t| <= |s|
    ensures |t| <= |s| && s[..|t|] == t ==> Contains(s, t)
  {
    assert |t| <= |s| && s[..|t|] == t ==> OccursAt(s, t, 0);
    exists i | 0 <= i <= |s| - |t| :: OccursAt(s, t, i)
  }

  lemma ContainsPrefix(t: string, rest: string)
    ensures Contains(t + rest, t)
  {
    assert OccursAt(t + rest, t, 0);
  }

  /** An ASCII decimal digit, which is what `\d` matches in a JavaScript regular expression. */
  predicate IsDigit(c: char)
  {
    '0' <= c <= '9'
  }

  predicate AllDigits(s: string)
  {
    forall k | 0 <= k < |s| :: IsDigit(s[k])
  }

  /** The value of a string of decimal digits; leading zeros are ignored and "" is 0. */
  function DigitsValue(s: string): nat
    requires AllDigits(s)
  {
    if s == [] then 0 else 10 * DigitsValue(s[..|s| - 1]) + (s[|s| - 1] as int - '0' as int)
  }

  function DigitChar(d: nat): (c: char)
    requires d < 10
    ensures IsDigit(c) && c as int - '0' as int == d
  {
    ('0' as int + d) as char
  }

  /** The decimal form of `n` without leading zeros, as both `format!("{}", n)`
      and a JavaScript template literal print a non-negative integer. */
  function NatToString(n: nat): (r: string)
    ensures |r| > 0 && AllDigits(r) && DigitsValue(r) == n
    ensures |r| > 1 ==> r[0] != '0'
    ensures '.' !in r
  {
    if n < 10 then [DigitChar(n)]
    else
      var front := NatToString(n / 10);
      var r := front + [DigitChar(n % 10)];
      assert r[..|r| - 1] == front;
      r
  }

  /** Index of the first `c` in `s`. */
  function FirstIndexOf(s: string, c: char): (k: nat)
    requires c in s
    ensures k < |s| && s[k] == c && c !in s[..k]
  {
    if s[0] == c then 0
    else
      var k := 1 + FirstIndexOf(s[1..], c);
      assert s[..k] == [s[0]] + s[1..][..k - 1];
      k
  }

  /** JavaScript `s.split(sep)` for a one-character separator: the pieces between
      consecutive separators, so there is always at least one piece. */
  function Split(s: string, sep: char): (r: seq<string>)
    ensures |r| > 0
    ensures forall k | 0 <= k < |r| :: sep !in r[k]
    decreases |s|
  {
    if sep !in s then [s]
    else
      var k := FirstIndexOf(s, sep);
      [s[..k]] + Split(s[k + 1..], sep)
  }

  lemma {:induction false} SplitCons(a: string, sep: char, rest: string)
    requires sep !in a
    ensures Split(a + [sep] + rest, sep) == [a] + Split(rest, sep)
  {
    var s := a + [sep] + rest;
    assert s[|a|] == sep;
    var k := FirstIndexOf(s, sep);
    assert s[..k] == a;
    assert s[k + 1..] == rest;
  }
}
