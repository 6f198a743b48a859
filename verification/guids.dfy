/**
 * System.Guid as the 32 hexadecimal digits it prints, in printing order,
 * with the "D" format `Guid.ToString()` produces and the formats `Guid.TryParse` reads.
 */
module Guids {
  import opened Wrappers
  import opened Strings

  type Nibble = x: int | 0 <= x < 16

  /** A Guid is exactly 32 hexadecimal digits. */
  type Guid = s: seq<Nibble> | |s| == 32 witness seq(32, i => 0)

  /** `Guid.Empty`, all digits zero: what `NotEmpty()` rejects. */
  predicate IsEmptyGuid(g: Guid)
  {
    forall i :: 0 <= i < |g| ==> g[i] == 0
  }

  /** Lower-case hexadecimal digit, as `Guid.ToString()` prints it. */
  function HexChar(n: Nibble): (c: char)
    ensures ('0' <= c <= '9') || ('a' <= c <= 'f')
  {
    if n < 10 then (('0' as int) + n) as char else (('a' as int) + n - 10) as char
  }

  /** Value of a hexadecimal digit of either case. */
  function HexValue(c: char): Option<Nibble>
  {
    if '0' <= c <= '9' then Some(c as int - '0' as int)
    else if 'a' <= c <= 'f' then Some(c as int - 'a' as int + 10)
    else if 'A' <= c <= 'F' then Some(c as int - 'A' as int + 10)
    else None
  }

  function Hex(ns: seq<Nibble>): (r: string)
    ensures |r| == |ns|
    ensures forall i :: 0 <= i < |r| ==> r[i] == HexChar(ns[i])
  {
    if |ns| == 0 then [] else [HexChar(ns[0])] + Hex(ns[1..])
  }

  /** Reads a run of hexadecimal digits; fails on any other character. */
  function ParseHex(s: string): (r: Option<seq<Nibble>>)
    ensures r.Some? ==> |r.value| == |s|
  {
    if |s| == 0 then Some([])
    else match (HexValue(s[0]), ParseHex(s[1..]))
      case (Some(n), Some(ns)) => Some([n] + ns)
      case _ => None
  }

  /** `g.ToString()`: the "D" format xxxxxxxx-xxxx-xxxx-xxxx-xxxxxxxxxxxx. */
  function FormatGuid(g: Guid): (r: string)
    ensures |r| == 36
    ensures '|' !in r
  {
    Hex(g[..8]) + "-" + Hex(g[8..12]) + "-" + Hex(g[12..16]) + "-" + Hex(g[16..20]) + "-" + Hex(g[20..])
  }

  /** The "D" format body: four dashes at fixed places around 32 digits. */
  function ParseDashed(s: string): Option<Guid>
  {
    if |s| == 36 && s[8] == '-' && s[13] == '-' && s[18] == '-' && s[23] == '-' then
      match ParseHex(s[..8] + s[9..13] + s[14..18] + s[19..23] + s[24..])
      case Some(ns) => Some(ns)
      case None => None
    else None
  }

  /**
   * `Guid.TryParse`, for plain hexadecimal digits: after trimming white space, the "N"
   * (32 digits), "D" (dashed), "B" (dashed in braces) and "P" (dashed in parentheses)
   * formats.
   */
  function ParseGuid(s: string): (r: Option<Guid>)
  {
    var t := Trim(s);
    if |t| == 32 then
      match ParseHex(t)
      case Some(ns) => Some(ns)
      case None => None
    else if |t| == 36 then ParseDashed(t)
    else if |t| == 38 && ((t[0] == '{' && t[37] == '}') || (t[0] == '(' && t[37] == ')')) then
      ParseDashed(t[1..37])
    else None
  }

  lemma HexValueOfHexChar(n: Nibble)
    ensures HexValue(HexChar(n)) == Some(n)
  {
  }

  lemma {:induction false} ParseHexOfHex(ns: seq<Nibble>)
    ensures ParseHex(Hex(ns)) == Some(ns)
  {
    if |ns| > 0 {
      HexValueOfHexChar(ns[0]);
      assert Hex(ns)[1..] == Hex(ns[1..]);
      ParseHexOfHex(ns[1..]);
      assert [ns[0]] + ns[1..] == ns;
    }
  }

  lemma HexConcat(xs: seq<Nibble>, ys: seq<Nibble>)
    ensures Hex(xs + ys) == Hex(xs) + Hex(ys)
  {
  }

  /** The five groups of a printed Guid, and the dashes between them. */
  lemma FormatGuidGroups(g: Guid)
    ensures var s := FormatGuid(g);
      && s[8] == '-' && s[13] == '-' && s[18] == '-' && s[23] == '-'
      && s[..8] == Hex(g[..8]) && s[9..13] == Hex(g[8..12]) && s[14..18] == Hex(g[12..16])
      && s[19..23] == Hex(g[16..20]) && s[24..] == Hex(g[20..])
  {
    var a, b, c, d, e := Hex(g[..8]), Hex(g[8..12]), Hex(g[12..16]), Hex(g[16..20]), Hex(g[20..]);
    var s := FormatGuid(g);
    assert s == a + "-" + b + "-" + c + "-" + d + "-" + e;
  }

  /** The five groups of digits, joined, are all the digits. */
  lemma HexGroups(g: Guid)
    ensures Hex(g[..8]) + Hex(g[8..12]) + Hex(g[12..16]) + Hex(g[16..20]) + Hex(g[20..]) == Hex(g)
  {
    HexConcat(g[..8], g[8..12]);
    assert g[..8] + g[8..12] == g[..12];
    HexConcat(g[..12], g[12..16]);
    assert g[..12] + g[12..16] == g[..16];
    HexConcat(g[..16], g[16..20]);
    assert g[..16] + g[16..20] == g[..20];
    HexConcat(g[..20], g[20..]);
    assert g[..20] + g[20..] == g;
  }

  /** The digits of a printed Guid, with its four dashes removed, are the Guid's own digits. */
  lemma FormatGuidDigits(g: Guid)
    ensures var s := FormatGuid(g);
      s[8] == '-' && s[13] == '-' && s[18] == '-' && s[23] == '-'
      && s[..8] + s[9..13] + s[14..18] + s[19..23] + s[24..] == Hex(g)
  {
    FormatGuidGroups(g);
    HexGroups(g);
  }

  /** Printing a Guid and parsing the text back yields the same Guid. */
  lemma ParseFormatGuid(g: Guid)
    ensures ParseGuid(FormatGuid(g)) == Some(g)
  {
    var s := FormatGuid(g);
    FormatGuidDigits(g);
    assert s[0] == Hex(g)[0];
    assert s[35] == Hex(g)[31];
    TrimUntrimmed(s);
    ParseHexOfHex(g);
    assert ParseDashed(s) == Some(g);
  }

  /** Distinct Guids print differently. */
  lemma FormatGuidInjective(g: Guid, h: Guid)
    requires FormatGuid(g) == FormatGuid(h)
    ensures g == h
  {
    ParseFormatGuid(g);
    ParseFormatGuid(h);
  }
}
