/**
 * Character and number formatting that the source borrows from Python's
 * built-ins, restricted to ASCII: `str.isspace`, `str.lower` and `str(int)`.
 */
module Text {

  /** Python's `str.isspace` on the ASCII range: space, \t \n \x0b \x0c \r and \x1c-\x1f. */
  predicate IsSpace(c: char): (b: bool)
    ensures b <==> c as int in {9, 10, 11, 12, 13, 28, 29, 30, 31, 32}
  {
    c == ' ' || 9 <= c as int <= 13 || 0x1c <= c as int <= 0x1f
  }

  /** Python's `str.lower` on one ASCII character. */
  function Lower(c: char): (r: char)
    ensures 'A' <= c <= 'Z' ==> 'a' <= r <= 'z' && r as int - c as int == 32
    ensures !('A' <= c <= 'Z') ==> r == c
  {
    if 'A' <= c <= 'Z' then (c as int + 32) as char else c
  }

  function LowerAll(s: string): (r: string)
    ensures |r| == |s| && forall i :: 0 <= i < |s| ==> r[i] == Lower(s[i])
  {
    if s == [] then [] else [Lower(s[0])] + LowerAll(s[1..])
  }

  predicate IsDigit(c: char)
  {
    '0' <= c <= '9'
  }

  function DigitChar(d: nat): (c: char)
    requires d < 10
    ensures IsDigit(c) && c as int - '0' as int == d
  {
    (d + '0' as int) as char
  }

  /** Decimal digits of a natural number, most significant first, as `str(n)` prints them. */
  function NatToString(n: nat): (s: string)
    ensures s != [] && IsDigit(s[0]) && s[|s| - 1] == DigitChar(n % 10)
    decreases n
  {
    if n < 10 then [DigitChar(n)] else NatToString(n / 10) + [DigitChar(n % 10)]
  }

  /** `str(n)` for a Python integer. */
  function IntToString(n: int): (s: string)
    ensures s != [] && (s[0] == '-' <==> n < 0)
  {
    if n < 0 then "-" + NatToString(-n) else NatToString(n)
  }

  /** Reads back a string of decimal digits. */
  function ParseNat(s: string): nat
  {
    if s == [] then 0
    else 10 * ParseNat(s[..|s| - 1]) + (if IsDigit(s[|s| - 1]) then s[|s| - 1] as int - '0' as int else 0)
  }

  /** The decimal form of n is a non-empty run of digits, with no leading zero unless n is 0. */
  lemma {:induction false} NatToStringDigits(n: nat)
    ensures |NatToString(n)| >= 1
    ensures forall i :: 0 <= i < |NatToString(n)| ==> IsDigit(NatToString(n)[i])
    ensures NatToString(n)[0] == '0' <==> n == 0
    decreases n
  {
    if n >= 10 {
      NatToStringDigits(n / 10);
    }
  }

  /** The decimal form reads back as the number it was made from. */
  lemma {:induction false} ParseNatToString(n: nat)
    ensures ParseNat(NatToString(n)) == n
    decreases n
  {
    if n >= 10 {
      var s := NatToString(n);
      assert s[..|s| - 1] == NatToString(n / 10);
      ParseNatToString(n / 10);
    }
  }

  /** After the sign, `str(n)` reads back as the magnitude of n, so distinct integers print differently. */
  lemma IntToStringReadsBack(n: int)
    ensures n < 0 ==> ParseNat(IntToString(n)[1..]) == -n
    ensures n >= 0 ==> ParseNat(IntToString(n)) == n
  {
    if n < 0 {
      assert IntToString(n)[1..] == NatToString(-n);
      ParseNatToString(-n);
    } else {
      ParseNatToString(n);
    }
  }

  /**
   * How the linked lists' `println` lays out values: each one's `str` followed
   * by the arrow, head first, then "None".
   */
  function Chain(xs: seq<int>, arrow: string): string
  {
    if xs == [] then "" else Chain(xs[..|xs| - 1], arrow) + IntToString(xs[|xs| - 1]) + arrow
  }

  function Rendered(xs: seq<int>, arrow: string): string
  {
    Chain(xs, arrow) + "None"
  }

  /** Laying out one more value appends it and its arrow. */
  lemma ChainSnoc(xs: seq<int>, x: int, arrow: string)
    ensures Chain(xs + [x], arrow) == Chain(xs, arrow) + IntToString(x) + arrow
  {
    assert (xs + [x])[..|xs|] == xs;
  }

  /** Laying out one more element of a list extends the layout of the elements before it. */
  lemma ChainStep(xs: seq<int>, i: nat, arrow: string)
    requires i < |xs|
    ensures Chain(xs[..i + 1], arrow) == Chain(xs[..i], arrow) + IntToString(xs[i]) + arrow
  {
    assert xs[..i + 1] == xs[..i] + [xs[i]];
    ChainSnoc(xs[..i], xs[i], arrow);
  }

  /** The layout of no values is "None"; every layout ends in "None" after the last value's arrow. */
  lemma {:induction false} RenderedShape(xs: seq<int>, arrow: string)
    ensures Rendered([], arrow) == "None"
    ensures |Rendered(xs, arrow)| >= 4 && Rendered(xs, arrow)[|Rendered(xs, arrow)| - 4..] == "None"
    ensures |xs| > 0 ==> Rendered(xs, arrow) == Chain(xs[..|xs| - 1], arrow) + IntToString(xs[|xs| - 1]) + arrow + "None"
  {
    var r := Rendered(xs, arrow);
    assert r == Chain(xs, arrow) + "None";
    assert r[|r| - 4..] == "None";
  }
}
