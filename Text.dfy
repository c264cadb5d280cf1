/** String helpers the filter compiler relies on: lower-casing of operator,
    logic and direction tokens, the decimal rendering of placeholder indices,
    and string.Join with the matching split. Strings are sequences of chars. */
module Text {

  function LowerChar(c: char): char {
    if 'A' <= c <= 'Z' then (c as int + 32) as char else c
  }

  /** `ToLower()` restricted to ASCII letters: every other char is kept. */
  function Lower(s: string): (r: string)
    ensures |r| == |s|
    ensures forall i :: 0 <= i < |s| ==> r[i] == LowerChar(s[i])
  {
    if s == [] then [] else [LowerChar(s[0])] + Lower(s[1..])
  }

  /** A string without upper-case letters is its own lower case. */
  lemma LowerKeeps(s: string)
    requires forall i :: 0 <= i < |s| ==> !('A' <= s[i] <= 'Z')
    ensures Lower(s) == s
  {
    assert forall i :: 0 <= i < |s| ==> Lower(s)[i] == s[i];
  }

  function Digit(d: nat): char
    requires d < 10
  {
    "0123456789"[d]
  }

  function DigitValue(c: char): int {
    c as int - '0' as int
  }

  predicate IsDigits(s: string) {
    forall i :: 0 <= i < |s| ==> '0' <= s[i] <= '9'
  }

  /** `int.ToString()` for a non-negative number, as used for `@index`. */
  function NatToString(n: nat): (r: string)
    ensures |r| > 0 && IsDigits(r)
  {
    if n < 10 then [Digit(n)] else NatToString(n / 10) + [Digit(n % 10)]
  }

  function ParseNat(s: string): nat
    requires IsDigits(s)
  {
    if s == [] then 0 else 10 * ParseNat(s[..|s| - 1]) + DigitValue(s[|s| - 1])
  }

  /** The rendering of an index can be read back: distinct indices render distinctly. */
  lemma {:induction false} NatToStringRoundTrip(n: nat)
    ensures ParseNat(NatToString(n)) == n
  {
    var r := NatToString(n);
    if n >= 10 {
      NatToStringRoundTrip(n / 10);
      assert r[..|r| - 1] == NatToString(n / 10);
    }
  }

  /** `string.Join(sep, parts)`. */
  function Join(sep: string, parts: seq<string>): string {
    if parts == [] then []
    else if |parts| == 1 then parts[0]
    else parts[0] + sep + Join(sep, parts[1..])
  }

  /** Splits at every occurrence of `c`; the inverse of joining with `[c]`. */
  function Split(c: char, s: string): (r: seq<string>)
    ensures |r| > 0
  {
    if s == [] then [[]]
    else
      var rest := Split(c, s[1..]);
      if s[0] == c then [[]] + rest else [[s[0]] + rest[0]] + rest[1..]
  }

  lemma {:induction false} SplitFree(c: char, p: string, tail: string)
    requires c !in p
    ensures Split(c, p + tail) == [p + Split(c, tail)[0]] + Split(c, tail)[1..]
  {
    var st := Split(c, tail);
    if p == [] {
      assert p + tail == tail;
      assert p + st[0] == st[0];
      assert [st[0]] + st[1..] == st;
    } else {
      SplitFree(c, p[1..], tail);
      assert (p + tail)[0] == p[0] && (p + tail)[1..] == p[1..] + tail;
      assert [p[0]] + (p[1..] + st[0]) == p + st[0];
    }
  }

  /** Joining comma-free parts with a comma and splitting again gives the parts back. */
  lemma {:induction false} SplitJoin(c: char, parts: seq<string>)
    requires |parts| > 0
    requires forall i :: 0 <= i < |parts| ==> c !in parts[i]
    ensures Split(c, Join([c], parts)) == parts
  {
    if |parts| == 1 {
      SplitFree(c, parts[0], []);
      assert parts[0] + [] == parts[0];
    } else {
      var rest := Join([c], parts[1..]);
      SplitJoin(c, parts[1..]);
      assert Join([c], parts) == parts[0] + ([c] + rest);
      SplitFree(c, parts[0], [c] + rest);
      var sr := Split(c, rest);
      assert ([c] + rest)[0] == c && ([c] + rest)[1..] == rest;
      assert Split(c, [c] + rest) == [[]] + sr;
      assert parts[0] + [] == parts[0];
      assert parts == [parts[0]] + parts[1..];
    }
  }
}
