/** Names of indices and columns: blankness as `String.isBlank` decides it, and automatic column names. */
module Names {
  import opened Wrappers

  /** `Character.isWhitespace`: the Unicode space, line and paragraph separators other than the
      no-break spaces, and the ASCII controls tab, line feed, vertical tab, form feed, carriage
      return and the four information separators. */
  predicate IsWhitespace(c: char) {
    var n := c as int;
    (0x09 <= n <= 0x0D) || (0x1C <= n <= 0x20) || n == 0x1680 || (0x2000 <= n <= 0x2006) ||
    (0x2008 <= n <= 0x200A) || n == 0x2028 || n == 0x2029 || n == 0x205F || n == 0x3000
  }

  /** `String.isBlank`: empty, or nothing but whitespace. */
  predicate IsBlank(s: string) {
    forall i :: 0 <= i < |s| ==> IsWhitespace(s[i])
  }

  /** A name is optional (null), but a present name must not be blank. */
  predicate ValidName(name: Option<string>) {
    name.None? || !IsBlank(name.value)
  }

  function DigitChar(d: nat): char
    requires d < 10
  {
    (48 + d) as char
  }

  /** Decimal rendering of a natural number, as Java's string concatenation writes an int. */
  function NatToString(n: nat): (s: string)
    ensures 1 <= |s|
    ensures |s| == 1 <==> n < 10
  {
    if n < 10 then [DigitChar(n)] else NatToString(n / 10) + [DigitChar(n % 10)]
  }

  lemma {:induction false} NatToStringInjective(a: nat, b: nat)
    requires NatToString(a) == NatToString(b)
    ensures a == b
  {
    if 10 <= a {
      var s := NatToString(a);
      assert s[..|s| - 1] == NatToString(a / 10) && s[|s| - 1] == DigitChar(a % 10);
      assert s[..|s| - 1] == NatToString(b / 10) && s[|s| - 1] == DigitChar(b % 10);
      NatToStringInjective(a / 10, b / 10);
    }
  }

  /** The name `Column_k` a table gives to an unnamed column. */
  function AutoName(k: nat): (s: string)
    ensures !IsBlank(s)
  {
    var s := "Column_" + NatToString(k);
    assert !IsWhitespace(s[0]);
    s
  }

  /** Distinct suffixes give distinct automatic names. */
  lemma AutoNameInjective(a: nat, b: nat)
    requires AutoName(a) == AutoName(b)
    ensures a == b
  {
    var p := "Column_";
    assert AutoName(a)[|p|..] == NatToString(a);
    assert AutoName(b)[|p|..] == NatToString(b);
    NatToStringInjective(a, b);
  }

  /** The contrapositive: distinct suffixes never meet under `AutoName`. */
  lemma AutoNameDistinct(a: nat, b: nat)
    requires a != b
    ensures AutoName(a) != AutoName(b)
  {
    if AutoName(a) == AutoName(b) {
      AutoNameInjective(a, b);
    }
  }
}
