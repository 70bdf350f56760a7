/**
 * ASCII character classes and the string operations `dd.py` applies to
 * directory names: `str.lower`, `str.replace('.', ' ')` and `str.strip()`.
 * Names are taken to be ASCII; Unicode case mapping is not modelled.
 */
module Text {

  /** `\d` over ASCII. */
  predicate IsDigit(c: char) { '0' <= c <= '9' }

  /** The ASCII characters for which Python's `str.isspace()` holds. */
  predicate IsSpace(c: char) {
    c == ' ' || c == '\t' || c == '\n' || c == '\r' || c == '\U{000B}' || c == '\U{000C}'
    || c == '\U{001C}' || c == '\U{001D}' || c == '\U{001E}' || c == '\U{001F}'
  }

  function LowerChar(c: char): (r: char)
    ensures IsDigit(r) <==> IsDigit(c)
    ensures IsSpace(r) <==> IsSpace(c)
    ensures (r == '\n') <==> (c == '\n')
    ensures (r == '.') <==> (c == '.')
    ensures !('A' <= r <= 'Z')
    ensures !('A' <= c <= 'Z') ==> r == c
  {
    if 'A' <= c <= 'Z' then (c as int + 32) as char else c
  }

  /** `str.lower()` on ASCII. */
  function Lower(s: string): (r: string)
    ensures |r| == |s|
    ensures forall i :: 0 <= i < |s| ==> r[i] == LowerChar(s[i])
  {
    seq(|s|, i requires 0 <= i < |s| => LowerChar(s[i]))
  }

  function DotToSpace(c: char): (r: char)
    ensures r != '.'
    ensures c != '.' ==> r == c
  {
    if c == '.' then ' ' else c
  }

  /** `str.replace('.', ' ')`. */
  function ReplaceDots(s: string): (r: string)
    ensures |r| == |s|
    ensures forall i :: 0 <= i < |s| ==> r[i] == DotToSpace(s[i])
  {
    seq(|s|, i requires 0 <= i < |s| => DotToSpace(s[i]))
  }

  /** Number of whitespace characters at the start of `s`. */
  function LeadingSpaces(s: string): (n: nat)
    ensures n <= |s|
    ensures forall i :: 0 <= i < n ==> IsSpace(s[i])
    ensures n < |s| ==> !IsSpace(s[n])
  {
    if s != [] && IsSpace(s[0]) then 1 + LeadingSpaces(s[1..]) else 0
  }

  /** Length of `s` once its trailing whitespace is removed. */
  function TrimmedEnd(s: string): (n: nat)
    ensures n <= |s|
    ensures forall i :: n <= i < |s| ==> IsSpace(s[i])
    ensures n > 0 ==> !IsSpace(s[n - 1])
  {
    if s != [] && IsSpace(s[|s| - 1]) then TrimmedEnd(s[..|s| - 1]) else |s|
  }

  /** A string with no whitespace at either end. */
  predicate IsStripped(s: string) {
    s == [] || (!IsSpace(s[0]) && !IsSpace(s[|s| - 1]))
  }

  /** `str.strip()`: the slice of `s` between its leading and trailing whitespace. */
  function Strip(s: string): (r: string)
    ensures IsStripped(r)
  {
    var t := s[LeadingSpaces(s)..];
    t[..TrimmedEnd(t)]
  }

  /** Strip removes only whitespace, from both ends, and keeps the rest as one slice. */
  lemma StripIsSlice(s: string) returns (a: nat, b: nat)
    ensures a <= b <= |s| && Strip(s) == s[a..b]
    ensures forall i :: 0 <= i < a ==> IsSpace(s[i])
    ensures forall i :: b <= i < |s| ==> IsSpace(s[i])
  {
    a := LeadingSpaces(s);
    var t := s[a..];
    var n := TrimmedEnd(t);
    b := a + n;
    assert t[..n] == s[a..b];
    assert forall i :: b <= i < |s| ==> s[i] == t[i - a];
  }

  lemma StripStripped(s: string)
    requires IsStripped(s)
    ensures Strip(s) == s
  {
  }

  /** A trailing blank is all that `strip` removes from a stripped string followed by one. */
  lemma StripTrailingBlank(s: string)
    requires IsStripped(s)
    ensures Strip(s + " ") == s
  {
    var t := s + " ";
    if s == [] {
      assert LeadingSpaces(t) == 1 + LeadingSpaces(t[1..]);
    } else {
      assert LeadingSpaces(t) == 0;
      assert t[..|t| - 1] == s;
      assert TrimmedEnd(t) == TrimmedEnd(s) == |s|;
    }
  }

  lemma LowerIdempotent(s: string)
    ensures Lower(Lower(s)) == Lower(s)
  {
  }
}
