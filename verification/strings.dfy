/** Character and string helpers with the meaning the .NET base library gives them. */
module Strings {
  import opened Wrappers

  /** The characters `char.IsWhiteSpace` accepts that this model knows about. */
  predicate IsWhiteSpace(c: char)
  {
    c == ' ' || c == '\t' || c == '\n' || c == '\r' || c == '\U{B}' || c == '\U{C}'
    || c == '\U{85}' || c == '\U{A0}'
  }

  /** `string.IsNullOrWhiteSpace` for a non-null string: empty or only white space. */
  predicate IsBlank(s: string)
  {
    forall i :: 0 <= i < |s| ==> IsWhiteSpace(s[i])
  }

  /** The position of the first occurrence of `c`, if any: an ordinal character search. */
  function IndexOf(s: string, c: char): (r: Option<nat>)
    ensures r.None? <==> c !in s
    ensures r.Some? ==> r.value < |s| && s[r.value] == c && c !in s[..r.value]
  {
    if |s| == 0 then None
    else if s[0] == c then Some(0)
    else match IndexOf(s[1..], c)
      case None => None
      case Some(k) =>
        assert s[..k + 1] == [s[0]] + s[1..][..k];
        Some(k + 1)
  }

  /** The position of the last occurrence of `c`, if any: an ordinal character search. */
  function LastIndexOf(s: string, c: char): (r: Option<nat>)
    ensures r.None? <==> c !in s
    ensures r.Some? ==> r.value < |s| && s[r.value] == c && c !in s[r.value + 1..]
  {
    if |s| == 0 then None
    else if s[|s| - 1] == c then Some(|s| - 1)
    else match LastIndexOf(s[..|s| - 1], c)
      case None => None
      case Some(k) =>
        assert s[k + 1..] == s[..|s| - 1][k + 1..] + [s[|s| - 1]];
        Some(k)
  }

  /** `pattern` occurs in `s` starting at position `i`. */
  predicate MatchAt(s: string, pattern: string, i: int)
  {
    0 <= i <= |s| - |pattern| && s[i..i + |pattern|] == pattern
  }

  /** `s.Contains(pattern)`: `pattern` occurs in `s` as a contiguous block. */
  predicate Contains(s: string, pattern: string)
  {
    exists i | 0 <= i <= |s| - |pattern| :: MatchAt(s, pattern, i)
  }

  /** A string free of some character cannot contain a pattern holding that character. */
  lemma NotContainsWithout(s: string, pattern: string, c: char)
    requires c in pattern && c !in s
    ensures !Contains(s, pattern)
  {
    var j :| 0 <= j < |pattern| && pattern[j] == c;
    forall i | 0 <= i <= |s| - |pattern|
      ensures !MatchAt(s, pattern, i)
    {
      assert s[i..i + |pattern|][j] == s[i + j] != c;
    }
  }

  /** A string contains every block it is built from. */
  lemma ContainsSuffix(prefix: string, pattern: string, rest: string)
    ensures Contains(prefix + pattern + rest, pattern)
  {
    var s := prefix + pattern + rest;
    assert MatchAt(s, pattern, |prefix|);
  }

  lemma ContainsBetween(prefix: string, pattern: string, mid: string, suffix: string)
    ensures Contains(prefix + pattern + mid + suffix, pattern)
  {
    assert prefix + pattern + mid + suffix == prefix + pattern + (mid + suffix);
    ContainsSuffix(prefix, pattern, mid + suffix);
  }

  /** A string containing a pattern contains each of its characters. */
  lemma ContainsChar(s: string, pattern: string, c: char)
    requires Contains(s, pattern) && c in pattern
    ensures c in s
  {
    var i :| 0 <= i <= |s| - |pattern| && MatchAt(s, pattern, i);
    var j :| 0 <= j < |pattern| && pattern[j] == c;
    assert s[i..i + |pattern|][j] == s[i + j];
  }

  /** `s.TrimStart()`: drops leading white space. */
  function TrimStart(s: string): (r: string)
    ensures |r| <= |s| && r == s[|s| - |r|..]
    ensures |r| > 0 ==> !IsWhiteSpace(r[0])
    ensures forall i :: 0 <= i < |s| - |r| ==> IsWhiteSpace(s[i])
  {
    if |s| > 0 && IsWhiteSpace(s[0]) then TrimStart(s[1..]) else s
  }

  /** `s.TrimEnd()`: drops trailing white space. */
  function TrimEnd(s: string): (r: string)
    ensures |r| <= |s| && r == s[..|r|]
    ensures |r| > 0 ==> !IsWhiteSpace(r[|r| - 1])
    ensures forall i :: |r| <= i < |s| ==> IsWhiteSpace(s[i])
  {
    if |s| > 0 && IsWhiteSpace(s[|s| - 1]) then TrimEnd(s[..|s| - 1]) else s
  }

  /** `s.Trim()`: drops white space at both ends. */
  function Trim(s: string): string
  {
    TrimEnd(TrimStart(s))
  }

  /** A string without white space at its ends is left alone by `Trim`. */
  lemma TrimUntrimmed(s: string)
    requires |s| > 0 ==> !IsWhiteSpace(s[0]) && !IsWhiteSpace(s[|s| - 1])
    ensures Trim(s) == s
  {
  }

  /** Decimal digit of a value below ten. */
  function DigitChar(d: nat): (c: char)
    requires d < 10
    ensures '0' <= c <= '9'
  {
    ['0', '1', '2', '3', '4', '5', '6', '7', '8', '9'][d]
  }

  /** Invariant-culture decimal text of a non-negative integer (what `$"{n}"` prints). */
  function NatToString(n: nat): (r: string)
    ensures |r| >= 1
    ensures forall i :: 0 <= i < |r| ==> '0' <= r[i] <= '9'
    decreases n
  {
    if n < 10 then [DigitChar(n)] else NatToString(n / 10) + [DigitChar(n % 10)]
  }

  /** Reads a non-empty run of decimal digits back into its value. */
  function ParseNat(s: string): (r: Option<nat>)
    ensures r.Some? ==> |s| >= 1
    decreases |s|
  {
    if |s| == 0 || !('0' <= s[|s| - 1] <= '9') then None
    else if |s| == 1 then Some((s[0] as int - '0' as int) as nat)
    else match ParseNat(s[..|s| - 1])
      case None => None
      case Some(v) => Some(v * 10 + (s[|s| - 1] as int - '0' as int))
  }

  lemma DigitCharValue(d: nat)
    requires d < 10
    ensures DigitChar(d) as int - '0' as int == d
  {
  }

  /** Appending a digit to a number's digits appends it to the number. */
  lemma ParseNatAppend(s: string, d: nat)
    requires d < 10 && ParseNat(s).Some?
    ensures ParseNat(s + [DigitChar(d)]) == Some(ParseNat(s).value * 10 + d)
  {
    var t := s + [DigitChar(d)];
    assert t[..|t| - 1] == s;
    DigitCharValue(d);
  }

  /** Printing a number and reading it back gives the same number. */
  lemma {:induction false} ParseNatToString(n: nat)
    ensures ParseNat(NatToString(n)) == Some(n)
    decreases n
  {
    if n < 10 {
      DigitCharValue(n);
    } else {
      var m, d := n / 10, n % 10;
      ParseNatToString(m);
      ParseNatAppend(NatToString(m), d);
      assert NatToString(n) == NatToString(m) + [DigitChar(d)];
      assert m * 10 + d == n;
    }
  }
}
