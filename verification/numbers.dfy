/**
 * The number grammar of the reader (matchNumber): three anchored patterns tried in order, the
 * integer pattern first, then the float pattern, then the ratio pattern.
 *
 * Each pattern is modelled by a deterministic scan that accepts exactly the strings the pattern
 * matches as a whole and yields the groups the code reads. Integer values are exact; the value of
 * a float is left to the host library and kept as its text; a ratio keeps its two parts.
 */
module NumberGrammar {
  import opened Wrappers
  import opened Chars
  import opened SyntaxElement
  import opened ReadErrors

  /** The branch of the integer pattern that matched, with the groups the code reads. */
  datatype IntBody =
    | ZeroBody                                   // group 2, the lone "0"
    | DigitsBody(digits: string, radix: int)     // groups 3, 4, 5, or 7 with the radix of group 6
    | LeadingZeroBody                            // the last branch, which captures nothing

  datatype IntMatch = IntMatch(negate: bool, body: IntBody, bigN: bool)

  predicate IsOctalDigit(c: char) { '0' <= c <= '7' }

  predicate IsHexDigit(c: char) { IsDigit(c) || 'a' <= c <= 'f' || 'A' <= c <= 'F' }

  predicate IsAlnum(c: char) { IsDigit(c) || 'a' <= c <= 'z' || 'A' <= c <= 'Z' }

  predicate AllDecimal(t: string) { forall i :: 0 <= i < |t| ==> IsDigit(t[i]) }

  /** `[1-9][0-9]*` */
  predicate IsDecimalText(t: string) {
    |t| >= 1 && '1' <= t[0] <= '9' && AllDecimal(t[1..])
  }

  /** `0[xX][0-9A-Fa-f]+` */
  predicate IsHexText(t: string) {
    |t| >= 3 && t[0] == '0' && (t[1] == 'x' || t[1] == 'X')
    && forall i :: 2 <= i < |t| ==> IsHexDigit(t[i])
  }

  /** `0[0-7]+` */
  predicate IsOctalText(t: string) {
    |t| >= 2 && t[0] == '0' && forall i :: 1 <= i < |t| ==> IsOctalDigit(t[i])
  }

  /** `0[0-9]+` */
  predicate IsLeadingZeroText(t: string) {
    |t| >= 2 && t[0] == '0' && AllDecimal(t[1..])
  }

  /** `([1-9][0-9]?)[rR]([0-9A-Za-z]+)`: the length of group 6 when `t` matches. The greedy
      optional digit leaves no second way to split `t`. */
  function RadixPrefix(t: string): Option<nat> {
    if |t| >= 3 && '1' <= t[0] <= '9' && (t[1] == 'r' || t[1] == 'R') && forall i :: 2 <= i < |t| ==> IsAlnum(t[i]) then
      Some(1)
    else if |t| >= 4 && '1' <= t[0] <= '9' && IsDigit(t[1]) && (t[2] == 'r' || t[2] == 'R') && forall i :: 3 <= i < |t| ==> IsAlnum(t[i]) then
      Some(2)
    else None
  }

  /** The length of an optional leading sign. */
  function SignLength(s: string): nat {
    if |s| > 0 && (s[0] == '+' || s[0] == '-') then 1 else 0
  }

  /**
   * The integer pattern. Apart from the radix branch, no branch can contain 'N', so a trailing
   * 'N' is the (N)? group exactly when what precedes it matches the branch; the radix branch's
   * greedy digits swallow a trailing 'N' themselves, so its group 8 is always empty.
   */
  function IntPattern(s: string): Option<IntMatch> {
    var k := SignLength(s);
    var negate := k == 1 && s[0] == '-';
    var w := s[k..];
    var bigN := |w| > 0 && w[|w| - 1] == 'N';
    var core := if bigN then w[..|w| - 1] else w;
    if core == "0" then Some(IntMatch(negate, ZeroBody, bigN))
    else if IsDecimalText(core) then Some(IntMatch(negate, DigitsBody(core, 10), bigN))
    else if IsHexText(core) then Some(IntMatch(negate, DigitsBody(core[2..], 16), bigN))
    else if IsOctalText(core) then Some(IntMatch(negate, DigitsBody(core[1..], 8), bigN))
    else if RadixPrefix(w).Some? then
      var g := RadixPrefix(w).value;
      Some(IntMatch(negate, DigitsBody(w[g + 1..], DigitsValue(w[..g], 10)), false))
    else if IsLeadingZeroText(core) then Some(IntMatch(negate, LeadingZeroBody, bigN))
    else None
  }

  /** The range of a Java long. */
  const LongMin: int := -0x8000_0000_0000_0000
  const LongMax: int := 0x7FFF_FFFF_FFFF_FFFF

  /** 2^k */
  function Pow2(k: nat): (p: int)
    ensures p >= 1
  {
    if k == 0 then 1 else 2 * Pow2(k - 1)
  }

  /** The number of binary digits of a natural number. */
  function Bits(x: nat): nat {
    if x == 0 then 0 else 1 + Bits(x / 2)
  }

  /** BigInteger.bitLength: the bits of the two's-complement form, excluding the sign bit. */
  function BitLength(v: int): nat {
    if v >= 0 then Bits(v) else Bits(-v - 1)
  }

  /** The integer branch's value: boxed as a long when it fits, as a BigInt when it does not or
      when the N suffix asks for one. */
  function IntValue(s: string, m: IntMatch): Result<Number, ReadError> {
    match m.body
    case ZeroBody => Success(if m.bigN then BigInt(0) else Long(0))
    case LeadingZeroBody => Failure(InvalidNumber(s))
    case DigitsBody(ds, radix) =>
      if !(2 <= radix <= 36) || !AllDigits(ds, radix) then Failure(NumberFormat(s))
      else
        var v := if m.negate then -DigitsValue(ds, radix) else DigitsValue(ds, radix);
        Success(if m.bigN || BitLength(v) >= 64 then BigInt(v) else Long(v))
  }

  /** The first index at or after `i` that is not an ASCII digit. */
  function DigitRunEnd(s: string, i: nat): (j: nat)
    requires i <= |s|
    ensures i <= j <= |s| && AllDecimal(s[i..j])
    ensures j == |s| || !IsDigit(s[j])
    decreases |s| - i
  {
    if i == |s| || !IsDigit(s[i]) then i else DigitRunEnd(s, i + 1)
  }

  /** The end of `[eE][-+]?[0-9]+` starting at `f`, if it is there. */
  function ExponentEnd(s: string, f: nat): Option<nat>
    requires f <= |s|
  {
    if f < |s| && (s[f] == 'e' || s[f] == 'E') then
      var k := if f + 1 < |s| && (s[f + 1] == '+' || s[f + 1] == '-') then f + 2 else f + 1;
      var d := DigitRunEnd(s, k);
      if d == k then None else Some(d)
    else Some(f)
  }

  /** The float pattern: whether `s` matches, and then whether group 4 (the M suffix) is present. */
  function FloatPattern(s: string): Option<bool> {
    var k := SignLength(s);
    var d := DigitRunEnd(s, k);
    if d == k then None
    else
      var f := if d < |s| && s[d] == '.' then DigitRunEnd(s, d + 1) else d;
      match ExponentEnd(s, f)
      case None => None
      case Some(e) =>
        if e == |s| then Some(false)
        else if e == |s| - 1 && s[e] == 'M' then Some(true)
        else None
  }

  /** The ratio pattern: the position of the slash when `s` matches. */
  function RatioPattern(s: string): Option<nat> {
    var k := SignLength(s);
    var d := DigitRunEnd(s, k);
    if d == k || d == |s| || s[d] != '/' then None
    else if DigitRunEnd(s, d + 1) == |s| && d + 1 < |s| then Some(d)
    else None
  }

  /** matchNumber, with a null result reported as `InvalidNumber` the way readNumber reports it. */
  function MatchNumber(s: string): Result<Number, ReadError> {
    match IntPattern(s)
    case Some(m) => IntValue(s, m)
    case None =>
      match FloatPattern(s)
      case Some(hasM) => Success(if hasM then BigDecimal(s[..|s| - 1]) else Double(s))
      case None =>
        match RatioPattern(s)
        case Some(slash) =>
          var negate := s[0] == '-';
          var num := DigitsValue(s[SignLength(s)..slash], 10);
          var den := DigitsValue(s[slash + 1..], 10);
          if den == 0 then Failure(DivideByZero)
          else Success(Ratio(if negate then -num else num, den))
        case None => Failure(InvalidNumber(s))
  }

  // ---------------------------------------------------------------- what matchNumber yields

  /** The integer branch boxes a value as a long only without `N` and inside the long range, and
      as a BigInt without `N` only outside it; its only errors are the invalid-number and the
      number-format errors. */
  lemma IntValueBoxing(s: string, m: IntMatch)
    ensures var r := IntValue(s, m);
            && (r.Success? ==> r.value.Long? || r.value.BigInt?)
            && (r.Success? && r.value.Long? ==> !m.bigN && LongMin <= r.value.v <= LongMax)
            && (r.Success? && r.value.BigInt? && !m.bigN ==> !(LongMin <= r.value.v <= LongMax))
            && (r.Failure? ==> r.error == InvalidNumber(s) || r.error == NumberFormat(s))
  {
    match m.body
    case DigitsBody(ds, radix) =>
      if 2 <= radix <= 36 && AllDigits(ds, radix) {
        LongRange(if m.negate then -DigitsValue(ds, radix) else DigitsValue(ds, radix));
      }
    case _ =>
  }

  /** A ratio match splits the text at a slash into two non-empty runs of digits, the first
      after the optional sign. */
  lemma RatioPatternSplit(s: string)
    requires RatioPattern(s).Some?
    ensures var d := RatioPattern(s).value;
            && SignLength(s) < d < |s| - 1 && s[d] == '/'
            && AllDecimal(s[SignLength(s)..d]) && AllDecimal(s[d + 1..])
  {
  }

  /** matchNumber fails only with the invalid-number, number-format or divide-by-zero error, and
      a ratio it yields has a positive denominator. */
  lemma MatchNumberResults(s: string)
    ensures var r := MatchNumber(s);
            && (r.Failure? ==> r.error in {InvalidNumber(s), NumberFormat(s), DivideByZero})
            && (r.Success? && r.value.Ratio? ==> r.value.denominator > 0)
  {
    if IntPattern(s).Some? {
      IntValueBoxing(s, IntPattern(s).value);
    } else if FloatPattern(s).None? && RatioPattern(s).Some? {
      var slash := RatioPattern(s).value;
      RatioPatternSplit(s);
      DecimalIsDigits(s[slash + 1..]);
      DigitsValueNonNegative(s[slash + 1..], 10);
    }
  }

  /** ASCII decimal digits are digits in radix 10. */
  lemma DecimalIsDigits(t: string)
    requires AllDecimal(t)
    ensures AllDigits(t, 10)
  {
    forall i | 0 <= i < |t|
      ensures Digit(t[i], 10) >= 0
    {
      assert IsDigit(t[i]);
    }
  }

  // ---------------------------------------------------------------- the long range

  lemma {:induction false} BitsBound(x: nat, k: nat)
    ensures Bits(x) <= k <==> x < Pow2(k)
    decreases k
  {
    if k > 0 && x > 0 {
      BitsBound(x / 2, k - 1);
    }
  }

  lemma {:induction false} Pow2Sum(a: nat, b: nat)
    ensures Pow2(a + b) == Pow2(a) * Pow2(b)
    decreases a
  {
    if a > 0 {
      Pow2Sum(a - 1, b);
    }
  }

  lemma Pow2Of63()
    ensures Pow2(63) == LongMax + 1
  {
    assert Pow2(7) == 128;
    assert Pow2(8) == 256;
    Pow2Sum(7, 8);
    Pow2Sum(15, 16);
    Pow2Sum(31, 32);
    assert Pow2(16) == Pow2(8) * Pow2(8) by { Pow2Sum(8, 8); }
    assert Pow2(32) == Pow2(16) * Pow2(16) by { Pow2Sum(16, 16); }
  }

  /** bitLength() < 64 is exactly the range of a Java long. */
  lemma LongRange(v: int)
    ensures BitLength(v) < 64 <==> LongMin <= v <= LongMax
  {
    Pow2Of63();
    if v >= 0 {
      BitsBound(v, 63);
    } else {
      BitsBound(-v - 1, 63);
    }
  }

  // ---------------------------------------------------------------- decimal text

  function DigitChar(d: nat): char
    requires d < 10
  {
    ('0' as int + d) as char
  }

  /** The decimal text of a natural number, without leading zeros. */
  function ShowNat(n: nat): string
  {
    if n < 10 then [DigitChar(n)] else ShowNat(n / 10) + [DigitChar(n % 10)]
  }

  /** Long.toString / BigInteger.toString in radix 10. */
  function ShowInt(n: int): string {
    if n < 0 then "-" + ShowNat(-n) else ShowNat(n)
  }

  lemma {:induction false} ShowNatShape(n: nat)
    ensures |ShowNat(n)| >= 1 && AllDecimal(ShowNat(n)) && AllDigits(ShowNat(n), 10)
    ensures DigitsValue(ShowNat(n), 10) == n
    ensures n == 0 <==> ShowNat(n) == "0"
    ensures n > 0 ==> IsDecimalText(ShowNat(n))
  {
    if n >= 10 {
      ShowNatShape(n / 10);
      var t := ShowNat(n);
      assert t[..|t| - 1] == ShowNat(n / 10);
    }
  }

  /** The number a decimal integer reads as: a long when it fits in 64 bits, otherwise a BigInt. */
  function BoxInteger(n: int): Number {
    if LongMin <= n <= LongMax then Long(n) else BigInt(n)
  }

  /** An unsigned decimal text without leading zeros, optionally followed by N, matches the
      decimal branch (or the zero branch for "0"). */
  lemma DecimalPattern(s: string, m: nat, bigN: bool)
    requires var k := SignLength(s); s[k..] == ShowNat(m) + (if bigN then "N" else "")
    ensures IntPattern(s) ==
      Some(IntMatch(SignLength(s) == 1 && s[0] == '-', if m == 0 then ZeroBody else DigitsBody(ShowNat(m), 10), bigN))
  {
    ShowNatShape(m);
    var w := s[SignLength(s)..];
    var t := ShowNat(m);
    var core := if bigN then w[..|w| - 1] else w;
    if bigN {
      assert w == t + "N";
      assert w[|w| - 1] == 'N';
      assert core == t;
    } else {
      assert w == t;
      assert w[|w| - 1] == t[|t| - 1];
      assert IsDigit(t[|t| - 1]);
    }
    assert core == t;
    if m == 0 {
      assert core == "0";
    } else {
      assert core != "0" && IsDecimalText(core);
    }
  }

  function Abs(n: int): nat {
    if n < 0 then -n else n
  }

  /** The value the decimal branch gives to the digits of |n| with n's sign. */
  lemma DecimalValue(s: string, n: int)
    requires IntPattern(s) == Some(IntMatch(n < 0, if n == 0 then ZeroBody else DigitsBody(ShowNat(Abs(n)), 10), false))
    ensures MatchNumber(s) == Success(BoxInteger(n))
  {
    if n != 0 {
      ShowNatShape(Abs(n));
      LongRange(n);
    }
  }

  /** Reading back the decimal text of any integer gives that integer, boxed by its size. */
  lemma DecimalRoundTrip(n: int)
    ensures MatchNumber(ShowInt(n)) == Success(BoxInteger(n))
  {
    var s := ShowInt(n);
    assert SignLength(s) == (if n < 0 then 1 else 0) by {
      ShowNatShape(Abs(n));
    }
    assert s[SignLength(s)..] == ShowNat(Abs(n)) + "";
    DecimalPattern(s, Abs(n), false);
    DecimalValue(s, n);
  }

  /** The N suffix makes the same integer a BigInt whatever its size. */
  lemma DecimalBigRoundTrip(n: int)
    ensures MatchNumber(ShowInt(n) + "N") == Success(BigInt(n))
  {
    var s := ShowInt(n) + "N";
    assert SignLength(s) == (if n < 0 then 1 else 0) by {
      ShowNatShape(Abs(n));
    }
    assert s[SignLength(s)..] == ShowNat(Abs(n)) + "N";
    DecimalPattern(s, Abs(n), true);
    DecimalBigValue(s, n);
  }

  /** The value the decimal branch gives, with the N suffix, to the digits of |n| with n's sign. */
  lemma DecimalBigValue(s: string, n: int)
    requires IntPattern(s) == Some(IntMatch(n < 0, if n == 0 then ZeroBody else DigitsBody(ShowNat(Abs(n)), 10), true))
    ensures MatchNumber(s) == Success(BigInt(n))
  {
    if n != 0 {
      ShowNatShape(Abs(n));
    }
  }

  // ---------------------------------------------------------------- leading zeros

  /**
   * A run of decimal digits that starts with '0' and holds an 8 or a 9 matches only the last,
   * capture-free branch of the integer pattern: the result is "invalid number", although the
   * float pattern would have accepted the text.
   */
  lemma LeadingZeroNotRetried(t: string)
    requires AllDecimal(t) && exists i :: 0 <= i < |t| && (t[i] == '8' || t[i] == '9')
    ensures FloatPattern("0" + t) == Some(false)
    ensures MatchNumber("0" + t) == Failure(InvalidNumber("0" + t))
  {
    var s := "0" + t;
    var i :| 0 <= i < |t| && (t[i] == '8' || t[i] == '9');
    assert s[i + 1] == t[i];
    assert s[1..] == t;
    LeadingZeroIntPattern(s);
    assert AllDecimal(s);
    DecimalFloatPattern(s);
  }

  /** A text of two or more digits starting with '0' and not octal goes to the last branch. */
  lemma LeadingZeroIntPattern(s: string)
    requires |s| >= 2 && s[0] == '0' && AllDecimal(s[1..]) && !IsOctalText(s)
    ensures IntPattern(s) == Some(IntMatch(false, LeadingZeroBody, false))
  {
    assert SignLength(s) == 0 && s[0..] == s;
    assert s[|s| - 1] != 'N';
    assert RadixPrefix(s).None?;
  }

  /** A non-empty run of digits matches the float pattern without an M suffix. */
  lemma DecimalFloatPattern(s: string)
    requires |s| >= 1 && AllDecimal(s)
    ensures FloatPattern(s) == Some(false)
  {
    assert SignLength(s) == 0;
    DigitRunEndOfDigits(s, 0);
  }

  lemma {:induction false} DigitRunEndOfDigits(s: string, i: nat)
    requires i <= |s| && forall j :: i <= j < |s| ==> IsDigit(s[j])
    ensures DigitRunEnd(s, i) == |s|
    decreases |s| - i
  {
    if i < |s| {
      DigitRunEndOfDigits(s, i + 1);
    }
  }

  // ---------------------------------------------------------------- radix and sign

  /** `<radix>r<digits>` (or `R`): the digits are read in the given radix; a radix outside 2..36
      or a digit the radix does not have is a number-format error. */
  lemma RadixForm(r: nat, rc: char, ds: string)
    requires 1 <= r <= 99 && (rc == 'r' || rc == 'R') && |ds| >= 1 && forall i :: 0 <= i < |ds| ==> IsAlnum(ds[i])
    ensures var s := ShowNat(r) + [rc] + ds;
            MatchNumber(s) ==
              if !(2 <= r <= 36) || !AllDigits(ds, r) then Failure(NumberFormat(s))
              else Success(BoxInteger(DigitsValue(ds, r)))
  {
    RadixPattern(r, rc, ds);
    if 2 <= r <= 36 && AllDigits(ds, r) {
      LongRange(DigitsValue(ds, r));
    }
  }

  /** Which branch of the integer pattern `<radix>r<digits>` (or `R`) takes. */
  lemma RadixPattern(r: nat, rc: char, ds: string)
    requires 1 <= r <= 99 && (rc == 'r' || rc == 'R') && |ds| >= 1 && forall i :: 0 <= i < |ds| ==> IsAlnum(ds[i])
    ensures IntPattern(ShowNat(r) + [rc] + ds) == Some(IntMatch(false, DigitsBody(ds, r), false))
  {
    var s := ShowNat(r) + [rc] + ds;
    ShowNatShape(r);
    var g := |ShowNat(r)|;
    assert g == 1 || g == 2 by {
      if r >= 10 {
        ShowNatShape(r / 10);
      }
    }
    assert SignLength(s) == 0;
    assert s[0..] == s;
    assert s[..g] == ShowNat(r);
    assert s[g + 1..] == ds;
    RadixPrefixAt(s, g);
    var bigN := s[|s| - 1] == 'N';
    var core := if bigN then s[..|s| - 1] else s;
    assert core[0] == s[0] && core[g] == rc;
    RadixNotOther(core, g);
  }

  /** A one- or two-digit radix without a leading zero, `r` or `R`, and alphanumerics. */
  lemma RadixPrefixAt(s: string, g: nat)
    requires (g == 1 || g == 2) && |s| >= g + 2 && (s[g] == 'r' || s[g] == 'R')
    requires AllDecimal(s[..g]) && s[0] != '0'
    requires forall i :: g < i < |s| ==> IsAlnum(s[i])
    ensures RadixPrefix(s) == Some(g)
  {
    assert s[..g][0] == s[0];
    if g == 2 {
      assert s[..g][1] == s[1];
    }
  }

  /** A text with `r` or `R` after a leading nonzero digit is none of the plain integer forms. */
  lemma RadixNotOther(core: string, g: nat)
    requires (g == 1 || g == 2) && g < |core| && (core[g] == 'r' || core[g] == 'R') && core[0] != '0'
    ensures core != "0" && !IsDecimalText(core) && !IsHexText(core) && !IsOctalText(core)
  {
    assert core[1..][g - 1] == core[g];
  }

  function Negate(n: Number): Number {
    match n
    case Long(v) => Long(-v)
    case BigInt(v) => BigInt(-v)
    case Ratio(p, q) => Ratio(-p, q)
    case _ => n
  }

  /** Behind a '-', an unsigned integer text matches the same branch of the integer pattern. */
  lemma IntPatternMinus(t: string)
    requires |t| > 0 && IsDigit(t[0])
    ensures IntPattern("-" + t) == if IntPattern(t).Some? then Some(IntPattern(t).value.(negate := true)) else None
  {
    var s := "-" + t;
    assert SignLength(t) == 0 && SignLength(s) == 1;
    assert s[SignLength(s)..] == t == t[SignLength(t)..];
  }

  /** Setting the sign of a match negates its value, apart from the boxing at the long boundary. */
  lemma IntValueNegate(t: string, s: string, im: IntMatch)
    requires !im.negate
    ensures IntValue(t, im).Failure? <==> IntValue(s, im.(negate := true)).Failure?
    ensures IntValue(t, im).Success? ==>
              var n := IntValue(t, im).value;
              var m := IntValue(s, im.(negate := true)).value;
              m == Negate(n) || (n == BigInt(-LongMin) && m == Long(LongMin))
  {
    if im.body.DigitsBody? && 2 <= im.body.radix <= 36 && AllDigits(im.body.digits, im.body.radix) {
      var v := DigitsValue(im.body.digits, im.body.radix);
      DigitsValueNonNegative(im.body.digits, im.body.radix);
      LongRange(v);
      LongRange(-v);
    }
  }

  /** A leading '-' negates an unsigned integer: the magnitude, the radix and the N suffix are
      kept and the value changes sign. The only change of boxing is at the long boundary, where
      -2^63 fits in a long but 2^63 does not. */
  lemma MinusNegates(t: string)
    requires |t| > 0 && IsDigit(t[0]) && IntPattern(t).Some?
    ensures MatchNumber(t).Failure? <==> MatchNumber("-" + t).Failure?
    ensures MatchNumber(t).Success? ==>
              var n := MatchNumber(t).value;
              var m := MatchNumber("-" + t).value;
              m == Negate(n) || (n == BigInt(-LongMin) && m == Long(LongMin))
  {
    IntPatternMinus(t);
    var im := IntPattern(t).value;
    assert !im.negate;
    IntValueNegate(t, "-" + t, im);
  }

  // ---------------------------------------------------------------- hexadecimal and octal

  /** Valid digits in a legal radix, without sign or N suffix, read as their value boxed by size. */
  lemma DigitsBodyValue(s: string, ds: string, radix: int)
    requires 2 <= radix <= 36 && AllDigits(ds, radix)
    ensures IntValue(s, IntMatch(false, DigitsBody(ds, radix), false)) == Success(BoxInteger(DigitsValue(ds, radix)))
  {
    LongRange(DigitsValue(ds, radix));
  }

  /** `0x<hex digits>` (or `0X`) reads the digits in radix 16. */
  lemma HexForm(xc: char, h: string)
    requires (xc == 'x' || xc == 'X') && |h| >= 1 && forall i :: 0 <= i < |h| ==> IsHexDigit(h[i])
    ensures MatchNumber(['0', xc] + h) == Success(BoxInteger(DigitsValue(h, 16)))
  {
    var s := ['0', xc] + h;
    assert s[0..] == s;
    assert s[|s| - 1] == h[|h| - 1];
    assert IsHexText(s) && s[2..] == h;
    assert !IsDecimalText(s);
    assert IntPattern(s) == Some(IntMatch(false, DigitsBody(h, 16), false));
    DigitsBodyValue(s, h, 16);
  }

  /** `0<octal digits>` reads the digits in radix 8. */
  lemma OctalForm(o: string)
    requires |o| >= 1 && forall i :: 0 <= i < |o| ==> IsOctalDigit(o[i])
    ensures MatchNumber("0" + o) == Success(BoxInteger(DigitsValue(o, 8)))
  {
    var s := "0" + o;
    assert s[0..] == s;
    assert s[|s| - 1] == o[|o| - 1];
    assert IsOctalText(s) && s[1..] == o;
    assert !IsDecimalText(s) && !IsHexText(s) && s != "0";
    assert IntPattern(s) == Some(IntMatch(false, DigitsBody(o, 8), false));
    DigitsBodyValue(s, o, 8);
  }
}
