/**
 * Character classes the reader consults: Java's Character.isWhitespace, the ASCII part of
 * Character.isDigit / Character.digit, and the two 256-entry reader-macro tables.
 */
module Chars {

  /** Character.isWhitespace: the Unicode space, line and paragraph separators other than the
      no-break spaces, plus TAB, LF, VT, FF, CR and the four information separators. */
  predicate IsWhitespace(c: char) {
    || c == ' '
    || ('\t' <= c <= '\r')
    || ('\U{001C}' <= c <= '\U{001F}')
    || c == '\U{1680}'
    || ('\U{2000}' <= c <= '\U{2006}')
    || ('\U{2008}' <= c <= '\U{200A}')
    || c == '\U{2028}' || c == '\U{2029}' || c == '\U{205F}' || c == '\U{3000}'
  }

  /** Character.isDigit restricted to ASCII. */
  predicate IsDigit(c: char) {
    '0' <= c <= '9'
  }

  /** Character.digit(c, radix) restricted to ASCII letters and digits: the digit's value when it
      is below the radix, otherwise -1. */
  function Digit(c: char, radix: int): (d: int)
    ensures -1 <= d < 36
    ensures d >= 0 ==> d < radix
    ensures 2 <= radix <= 36 && IsDigit(c) && c as int - '0' as int < radix ==> d == c as int - '0' as int
  {
    var v :=
      if '0' <= c <= '9' then c as int - '0' as int
      else if 'a' <= c <= 'z' then c as int - 'a' as int + 10
      else if 'A' <= c <= 'Z' then c as int - 'A' as int + 10
      else -1;
    if 2 <= radix <= 36 && 0 <= v < radix then v else -1
  }

  /** The characters with an entry in the primary macro table. */
  predicate IsMacro(c: char) {
    c in {'"', ';', ',', '\'', '@', '^', '`', '~', '(', ')', '[', ']', '{', '}', '\\', '%', '#'}
  }

  /** A macro character that ends a token: every macro character except '#', '\'' and '%'. */
  predicate IsTerminatingMacro(c: char) {
    c != '#' && c != '\'' && c != '%' && IsMacro(c)
  }

  /** The characters with an entry in the dispatch table (after '#'). */
  predicate IsDispatchMacro(c: char) {
    c in {'^', '\'', '"', '(', '{', '=', '!', '<', '_', '?'}
  }

  /** Line terminators, which '.' in a Java regular expression does not match. */
  predicate IsLineTerminator(c: char) {
    c == '\n' || c == '\r' || c == '\U{0085}' || c == '\U{2028}' || c == '\U{2029}'
  }

  /** Every character of `ds` is a digit in `radix`. */
  predicate AllDigits(ds: string, radix: int) {
    forall i :: 0 <= i < |ds| ==> Digit(ds[i], radix) >= 0
  }

  /** The value of a digit string in `radix`, most significant digit first (what
      `new BigInteger(ds, radix)` computes for a string of valid digits). */
  function DigitsValue(ds: string, radix: int): int
    decreases |ds|
  {
    if ds == [] then 0
    else DigitsValue(ds[..|ds| - 1], radix) * radix + Digit(ds[|ds| - 1], radix)
  }

  lemma {:induction false} DigitsValueNonNegative(ds: string, radix: int)
    requires 2 <= radix && AllDigits(ds, radix)
    ensures DigitsValue(ds, radix) >= 0
    decreases |ds|
  {
    if ds != [] {
      var init := ds[..|ds| - 1];
      assert AllDigits(init, radix) by {
        forall i | 0 <= i < |init|
          ensures Digit(init[i], radix) >= 0
        {
          assert init[i] == ds[i];
        }
      }
      DigitsValueNonNegative(init, radix);
      var high := DigitsValue(init, radix);
      var low := Digit(ds[|ds| - 1], radix);
      assert low >= 0;
      assert high * radix >= 0 by {
        MulNonNegative(high, radix);
      }
      assert DigitsValue(ds, radix) == high * radix + low;
    }
  }

  lemma MulNonNegative(a: int, b: int)
    requires a >= 0 && b >= 0
    ensures a * b >= 0
  {
  }
}
