/**
 * String helpers the tracker relies on: `String.prototype.trim` as the
 * editor-code check and the notes field use it, the decimal rendering of a
 * whole number inside a template literal, and (for stating properties of the
 * age text) splitting a text at its spaces and reading a decimal numeral back.
 */
module Text {
  import opened Wrappers

  /** The characters `trim` removes: ECMAScript WhiteSpace and LineTerminator code points. */
  predicate IsJsWhitespace(c: char) {
    || c == '\t' || c == '\n' || c == '\U{000B}' || c == '\U{000C}' || c == '\r'
    || c == ' ' || c == '\U{00A0}' || c == '\U{1680}'
    || ('\U{2000}' <= c <= '\U{200A}')
    || c == '\U{2028}' || c == '\U{2029}' || c == '\U{202F}' || c == '\U{205F}'
    || c == '\U{3000}' || c == '\U{FEFF}'
  }

  predicate AllWhitespace(s: string) {
    forall i :: 0 <= i < |s| ==> IsJsWhitespace(s[i])
  }

  /** How many white-space characters `s` starts with. */
  function LeadingSpace(s: string): (n: nat)
    ensures n <= |s|
    ensures forall i :: 0 <= i < n ==> IsJsWhitespace(s[i])
    ensures n == |s| || !IsJsWhitespace(s[n])
  {
    if s != [] && IsJsWhitespace(s[0]) then 1 + LeadingSpace(s[1..]) else 0
  }

  /** Where the white space `s` ends with begins. */
  function TrailingSpace(s: string): (n: nat)
    ensures n <= |s|
    ensures forall i :: n <= i < |s| ==> IsJsWhitespace(s[i])
    ensures n == 0 || !IsJsWhitespace(s[n - 1])
  {
    if s != [] && IsJsWhitespace(s[|s| - 1]) then TrailingSpace(s[..|s| - 1]) else |s|
  }

  /** `String.prototype.trim`: white space removed at both ends. */
  function Trim(s: string): (r: string)
    ensures |r| <= |s|
    ensures r == [] || (!IsJsWhitespace(r[0]) && !IsJsWhitespace(r[|r| - 1]))
  {
    var a, b := LeadingSpace(s), TrailingSpace(s);
    if b <= a then [] else s[a..b]
  }

  /** Whatever `trim` keeps is a slice of the input with only white space around it, and a text of white space alone trims to nothing. */
  lemma TrimDecomposes(s: string)
    ensures var k := LeadingSpace(s);
            && k + |Trim(s)| <= |s|
            && s[k..k + |Trim(s)|] == Trim(s)
            && (forall i :: 0 <= i < k ==> IsJsWhitespace(s[i]))
            && (forall i :: k + |Trim(s)| <= i < |s| ==> IsJsWhitespace(s[i]))
    ensures Trim(s) == [] <==> AllWhitespace(s)
  {
    var a, b := LeadingSpace(s), TrailingSpace(s);
    if b <= a {
      assert a == |s|;
    } else {
      assert !IsJsWhitespace(s[a]);
    }
  }

  /** The converse of TrimDecomposes: padding a text that has no white space at its ends with white space does not change what `trim` returns. */
  lemma TrimPadded(a: string, c: string, b: string)
    requires AllWhitespace(a) && AllWhitespace(b)
    requires c == [] || (!IsJsWhitespace(c[0]) && !IsJsWhitespace(c[|c| - 1]))
    ensures Trim(a + c + b) == c
  {
    var s := a + c + b;
    var lo, hi := LeadingSpace(s), TrailingSpace(s);
    assert forall i :: 0 <= i < |a| ==> s[i] == a[i];
    assert forall i :: |a| + |c| <= i < |s| ==> s[i] == b[i - |a| - |c|];
    if c == [] {
      assert AllWhitespace(s);
      assert lo == |s|;
      assert hi == 0;
    } else {
      assert s[|a|] == c[0];
      assert s[|a| + |c| - 1] == c[|c| - 1];
      assert lo == |a|;
      assert hi == |a| + |c|;
      assert s[|a|..|a| + |c|] == c;
    }
  }

  // Decimal numerals

  predicate IsDigit(c: char) {
    '0' <= c <= '9'
  }

  predicate AllDigits(s: string) {
    forall i :: 0 <= i < |s| ==> IsDigit(s[i])
  }

  function DigitChar(d: nat): (c: char)
    requires d < 10
    ensures IsDigit(c) && (c as int) - ('0' as int) == d
  {
    (('0' as int) + d) as char
  }

  /** The text a template literal substitutes for a non-negative whole number. */
  function NatToString(n: nat): (r: string)
    ensures r != [] && AllDigits(r)
    decreases n
  {
    if n < 10 then [DigitChar(n)] else NatToString(n / 10) + [DigitChar(n % 10)]
  }

  function DigitsValue(s: string): nat
    requires AllDigits(s)
  {
    if s == [] then 0 else DigitsValue(s[..|s| - 1]) * 10 + ((s[|s| - 1] as int) - ('0' as int))
  }

  /** Reads a decimal numeral; any other text is refused. */
  function ParseNat(s: string): (r: Option<nat>)
    ensures r.Some? <==> s != [] && AllDigits(s)
  {
    if s != [] && AllDigits(s) then Some(DigitsValue(s)) else None
  }

  /** Rendering a number and reading it back gives the number: the rendering loses nothing. */
  lemma {:induction false} ParseNatToString(n: nat)
    ensures ParseNat(NatToString(n)) == Some(n)
    decreases n
  {
    var s := NatToString(n);
    if n >= 10 {
      ParseNatToString(n / 10);
      assert s[..|s| - 1] == NatToString(n / 10);
      assert s[|s| - 1] == DigitChar(n % 10);
      assert DigitsValue(s) == DigitsValue(NatToString(n / 10)) * 10 + n % 10;
    }
  }

  lemma NatToStringInjective(m: nat, n: nat)
    requires NatToString(m) == NatToString(n)
    ensures m == n
  {
    ParseNatToString(m);
    ParseNatToString(n);
  }

  // Splitting at spaces

  predicate HasNoSpace(s: string) {
    forall i :: 0 <= i < |s| ==> s[i] != ' '
  }

  /** The pieces of `s` between single spaces, as `s.split(' ')` gives them. */
  function SplitAtSpaces(s: string): (r: seq<string>)
    ensures |r| >= 1
  {
    if s == [] then [[]]
    else if s[0] == ' ' then [[]] + SplitAtSpaces(s[1..])
    else var t := SplitAtSpaces(s[1..]); [[s[0]] + t[0]] + t[1..]
  }

  lemma {:induction false} SplitWord(a: string)
    requires HasNoSpace(a)
    ensures SplitAtSpaces(a) == [a]
    decreases |a|
  {
    if a != [] {
      SplitWord(a[1..]);
      assert [a[0]] + a[1..] == a;
    }
  }

  /** A word followed by a space and more text splits into that word and the pieces of the rest. */
  lemma {:induction false} SplitWordThen(a: string, b: string)
    requires HasNoSpace(a)
    ensures SplitAtSpaces(a + " " + b) == [a] + SplitAtSpaces(b)
    decreases |a|
  {
    if a == [] {
      assert a + " " + b == [' '] + b;
      assert (a + " " + b)[1..] == b;
    } else {
      assert (a + " " + b)[1..] == a[1..] + " " + b;
      SplitWordThen(a[1..], b);
      assert [a[0]] + a[1..] == a;
    }
  }
}
