/**
 * The character source and the scanners that read one lexical unit from it: tokens, numbers,
 * the digits of a unicode or octal escape, strings, line comments, regex bodies and character
 * literals.
 *
 * Each scanner is an imperative loop over a `PushbackReader`, proved equal to a specification
 * function over the input text and a cursor position. The specification functions are what the
 * read driver's specification (module ReaderSpec) composes, and what the lemmas below are about.
 */
module Scanners {
  import opened Wrappers
  import opened Chars
  import opened SyntaxElement
  import opened ReadErrors
  import opened NumberGrammar

  /** java.io.PushbackReader over a fixed text: `read()` yields the next character or EOF, and
      `unread` steps back over the character just read. Reading at the end yields EOF without
      moving, and unreading EOF does nothing, as `LispReader.unread(r, -1)` does. */
  class PushbackReader {
    const input: string
    var pos: nat

    ghost predicate Valid()
      reads this
    {
      pos <= |input|
    }

    constructor (text: string)
      ensures Valid() && input == text && pos == 0
    {
      input := text;
      pos := 0;
    }

    method Read1() returns (ch: Option<char>)
      requires Valid()
      modifies this
      ensures Valid()
      ensures old(pos) < |input| ==> ch == Some(input[old(pos)]) && pos == old(pos) + 1
      ensures old(pos) == |input| ==> ch == None && pos == old(pos)
    {
      if pos < |input| {
        ch := Some(input[pos]);
        pos := pos + 1;
      } else {
        ch := None;
      }
    }

    /** Every push-back in the reader returns the character it has just read. */
    method Unread(ch: Option<char>)
      requires Valid()
      requires ch.Some? ==> 0 < pos && input[pos - 1] == ch.value
      modifies this
      ensures Valid()
      ensures pos == if ch.Some? then old(pos) - 1 else old(pos)
    {
      if ch.Some? {
        pos := pos - 1;
      }
    }
  }

  /** A value read and the cursor position after it. */
  datatype Step<T> = Step(value: T, pos: nat)

  /** An imperative scanner agrees with its specification: the same value and the same cursor on
      success, the same error on failure (where the cursor is left is not observable then). */
  predicate Agrees<T(==)>(r: Result<T, ReadError>, pos: nat, spec: Result<Step<T>, ReadError>) {
    match spec
    case Success(st) => r == Success(st.value) && pos == st.pos
    case Failure(e) => r == Failure(e)
  }

  // ---------------------------------------------------------------- tokens and numbers

  /** The characters that end a token; '#', '\'' and '%' are not among them. */
  predicate EndsToken(c: char)
    ensures EndsToken(c) ==> c != '#' && c != '\'' && c != '%'
  {
    IsWhitespace(c) || IsTerminatingMacro(c)
  }

  /** Where a token that continues at `p` ends: at the first whitespace or terminating macro
      character, or at the end of the input. */
  function TokenEnd(s: string, p: nat): (j: nat)
    requires p <= |s|
    ensures p <= j <= |s|
    ensures forall i :: p <= i < j ==> !EndsToken(s[i])
    ensures j < |s| ==> EndsToken(s[j])
    decreases |s| - p
  {
    if p == |s| || EndsToken(s[p]) then p else TokenEnd(s, p + 1)
  }

  /** readToken: the initial character and every following character up to the end of the
      token; the character that ended it is pushed back. */
  method ReadToken(rd: PushbackReader, initch: char) returns (token: string)
    requires rd.Valid()
    modifies rd
    ensures rd.Valid()
    ensures rd.pos == TokenEnd(rd.input, old(rd.pos))
    ensures token == [initch] + rd.input[old(rd.pos)..rd.pos]
  {
    token := [initch];
    while true
      invariant rd.Valid() && old(rd.pos) <= rd.pos <= TokenEnd(rd.input, old(rd.pos))
      invariant token == [initch] + rd.input[old(rd.pos)..rd.pos]
      decreases |rd.input| - rd.pos
    {
      var ch := rd.Read1();
      if ch.None? || EndsToken(ch.value) {
        rd.Unread(ch);
        return;
      }
      token := token + [ch.value];
    }
  }

  /** Where the text of a number that continues at `p` ends: at whitespace, at any macro
      character (terminating or not), or at the end of the input. */
  function NumberEnd(s: string, p: nat): (j: nat)
    requires p <= |s|
    ensures p <= j <= |s|
    ensures forall i :: p <= i < j ==> !IsWhitespace(s[i]) && !IsMacro(s[i])
    ensures j < |s| ==> IsWhitespace(s[j]) || IsMacro(s[j])
    decreases |s| - p
  {
    if p == |s| || IsWhitespace(s[p]) || IsMacro(s[p]) then p else NumberEnd(s, p + 1)
  }

  /** readNumber after its initial character `initch`: the number the grammar gives for the
      whole text, or the grammar's error. */
  function NumberAt(s: string, p: nat, initch: char): (r: Result<Step<Number>, ReadError>)
    requires p <= |s|
    ensures r.Success? ==> r.value.pos == NumberEnd(s, p)
    ensures r.Failure? <==> MatchNumber([initch] + s[p..NumberEnd(s, p)]).Failure?
  {
    var e := NumberEnd(s, p);
    var n :- MatchNumber([initch] + s[p..e]);
    Success(Step(n, e))
  }

  method ReadNumber(rd: PushbackReader, initch: char) returns (r: Result<Number, ReadError>)
    requires rd.Valid()
    modifies rd
    ensures rd.Valid()
    ensures Agrees(r, rd.pos, NumberAt(rd.input, old(rd.pos), initch))
  {
    var sb := ReadNumberText(rd, initch);
    r := MatchNumber(sb);
  }

  /** readNumber's loop: the initial character and every following character up to
      whitespace, a macro character or the end; the character that ended it is pushed back. */
  method ReadNumberText(rd: PushbackReader, initch: char) returns (sb: string)
    requires rd.Valid()
    modifies rd
    ensures rd.Valid()
    ensures rd.pos == NumberEnd(rd.input, old(rd.pos))
    ensures sb == [initch] + rd.input[old(rd.pos)..rd.pos]
  {
    sb := [initch];
    while true
      invariant rd.Valid() && old(rd.pos) <= rd.pos <= NumberEnd(rd.input, old(rd.pos))
      invariant sb == [initch] + rd.input[old(rd.pos)..rd.pos]
      decreases |rd.input| - rd.pos
    {
      var ch := rd.Read1();
      if ch.None? || IsWhitespace(ch.value) || IsMacro(ch.value) {
        rd.Unread(ch);
        break;
      }
      sb := sb + [ch.value];
    }
  }

  // ---------------------------------------------------------------- digit reads

  /** base^n */
  function Power(base: nat, n: nat): (p: nat)
    ensures base >= 1 ==> p >= 1
  {
    if n == 0 then 1 else base * Power(base, n - 1)
  }

  /** A digit string of length n is worth less than base^n. */
  lemma {:induction false} DigitsValueBound(ds: string, base: nat)
    requires 2 <= base && AllDigits(ds, base)
    ensures 0 <= DigitsValue(ds, base) < Power(base, |ds|)
    decreases |ds|
  {
    DigitsValueNonNegative(ds, base);
    if ds != [] {
      var init := ds[..|ds| - 1];
      assert AllDigits(init, base) by {
        forall i | 0 <= i < |init|
          ensures Digit(init[i], base) >= 0
        {
          assert init[i] == ds[i];
        }
      }
      DigitsValueBound(init, base);
      var high := DigitsValue(init, base);
      var low := Digit(ds[|ds| - 1], base);
      var p := Power(base, |init|);
      assert DigitsValue(ds, base) == high * base + low;
      assert Power(base, |ds|) == base * p;
      DigitStep(high, low, base, p);
    }
  }

  /** One more digit keeps a value below the next power. */
  lemma DigitStep(high: int, low: int, base: int, p: int)
    requires 0 <= high < p && 0 <= low < base
    ensures 0 <= high * base + low < base * p
  {
    MulMonotone(high + 1, p, base);
    MulMonotone(0, high, base);
  }

  lemma MulMonotone(a: int, b: int, c: int)
    requires a <= b && c >= 0
    ensures a * c <= b * c
  {
  }

  /** The digits of an escape after its first one: at most `k` more, stopping (and pushing
      back) at EOF, whitespace or a macro character; a character that is not a digit in `base`
      is an error. The result is where the digits end. */
  function DigitRun(s: string, p: nat, base: int, k: nat): (r: Result<nat, ReadError>)
    requires p <= |s|
    ensures r.Success? ==> p <= r.value <= |s| && r.value - p <= k
    ensures r.Success? ==> forall i :: p <= i < r.value ==> Digit(s[i], base) >= 0
    ensures r.Success? && r.value - p < k ==>
              r.value == |s| || IsWhitespace(s[r.value]) || IsMacro(s[r.value])
    decreases k
  {
    if k == 0 || p == |s| || IsWhitespace(s[p]) || IsMacro(s[p]) then Success(p)
    else if Digit(s[p], base) < 0 then Failure(InvalidDigit(s[p]))
    else DigitRun(s, p + 1, base, k - 1)
  }

  /** readUnicodeChar over the stream: `initch` and up to `length - 1` further digits in `base`;
      with `exact`, fewer than `length` digits in all is an error. */
  function StreamCodePoint(s: string, p: nat, initch: char, base: nat, length: nat, exact: bool)
    : (r: Result<Step<int>, ReadError>)
    requires p <= |s| && 2 <= base && 1 <= length
    ensures r.Success? ==> p <= r.value.pos <= |s| && r.value.pos - p < length
    ensures r.Success? ==> AllDigits([initch] + s[p..r.value.pos], base)
    ensures r.Success? ==> r.value.value == DigitsValue([initch] + s[p..r.value.pos], base)
    ensures r.Success? && exact ==> r.value.pos - p == length - 1
  {
    if Digit(initch, base) < 0 then Failure(InvalidDigit(initch))
    else
      var e :- DigitRun(s, p, base, length - 1);
      var i := 1 + (e - p);
      if i != length && exact then Failure(InvalidCharacterLength(i, length))
      else
        assert AllDigits([initch] + s[p..e], base) by {
          forall j | 0 <= j < |[initch] + s[p..e]|
            ensures Digit(([initch] + s[p..e])[j], base) >= 0
          {
            if j > 0 {
              assert ([initch] + s[p..e])[j] == s[p + j - 1];
            }
          }
        }
        Success(Step(DigitsValue([initch] + s[p..e], base), e))
  }

  /** A code point read from the stream is below base^length. */
  lemma StreamCodePointBound(s: string, p: nat, initch: char, base: nat, length: nat, exact: bool)
    requires p <= |s| && 2 <= base && 1 <= length
    requires StreamCodePoint(s, p, initch, base, length, exact).Success?
    ensures 0 <= StreamCodePoint(s, p, initch, base, length, exact).value.value < Power(base, length)
  {
    var st := StreamCodePoint(s, p, initch, base, length, exact).value;
    var ds := [initch] + s[p..st.pos];
    DigitsValueBound(ds, base);
    PowerMonotone(base, |ds|, length);
  }

  lemma {:induction false} PowerMonotone(base: nat, m: nat, n: nat)
    requires 1 <= base && m <= n
    ensures Power(base, m) <= Power(base, n)
    decreases n - m
  {
    if m < n {
      PowerMonotone(base, m, n - 1);
      assert Power(base, n) == base * Power(base, n - 1);
      MulMonotone(1, base, Power(base, n - 1));
    }
  }

  method ReadUnicodeChar(rd: PushbackReader, initch: char, base: nat, length: nat, exact: bool)
    returns (r: Result<int, ReadError>)
    requires rd.Valid() && 2 <= base && 1 <= length
    modifies rd
    ensures rd.Valid()
    ensures Agrees(r, rd.pos, StreamCodePoint(rd.input, old(rd.pos), initch, base, length, exact))
  {
    var uc := Digit(initch, base);
    if uc == -1 {
      return Failure(InvalidDigit(initch));
    }
    r := ReadMoreDigits(rd, initch, base, length, exact, uc);
  }

  /** readUnicodeChar once its first digit `initch` is known to be valid: up to `length - 1`
      more digits, then the length check. */
  method ReadMoreDigits(rd: PushbackReader, initch: char, base: nat, length: nat, exact: bool, first: int)
    returns (r: Result<int, ReadError>)
    requires rd.Valid() && 2 <= base && 1 <= length && first == Digit(initch, base) >= 0
    modifies rd
    ensures rd.Valid()
    ensures Agrees(r, rd.pos, StreamCodePoint(rd.input, old(rd.pos), initch, base, length, exact))
  {
    var uc := first;
    ghost var s := rd.input;
    ghost var start := rd.pos;
    var i := 1;
    while i < length
      invariant rd.Valid() && 1 <= i <= length && rd.pos == start + i - 1 <= |s|
      invariant DigitRun(s, start, base, length - 1) == DigitRun(s, rd.pos, base, length - i)
      invariant uc == DigitsValue([initch] + s[start..rd.pos], base)
    {
      var more;
      more, uc := AccumulateDigit(rd, base, length - i, start, initch, uc);
      if more.Failure? {
        StreamCodePointFails(s, start, initch, base, length, exact);
        return Failure(more.error);
      }
      if !more.value {
        break;
      }
      i := i + 1;
    }
    r := CheckLength(s, start, initch, base, length, exact, i, uc, rd.pos);
  }

  /** The end of readUnicodeChar: `i` digits were read, ending at `e`, with value `uc`; with
      `exact`, fewer than `length` of them is an error. */
  method CheckLength(ghost s: string, ghost start: nat, initch: char, base: nat, length: nat, exact: bool,
                     i: nat, uc: int, ghost e: nat)
    returns (r: Result<int, ReadError>)
    requires start <= e <= |s| && 2 <= base && 1 <= length && Digit(initch, base) >= 0
    requires DigitRun(s, start, base, length - 1) == Success(e) && i == 1 + (e - start)
    requires uc == DigitsValue([initch] + s[start..e], base)
    ensures Agrees(r, e, StreamCodePoint(s, start, initch, base, length, exact))
  {
    StreamCodePointAt(s, start, initch, base, length, exact, e);
    if i != length && exact {
      return Failure(InvalidCharacterLength(i, length));
    }
    return Success(uc);
  }

  /** The body of readUnicodeChar's loop: the next digit; or, at EOF, whitespace or a macro
      character, nothing (the character is pushed back); or an invalid digit. `k` is the number
      of digits still allowed. */
  method ReadDigit(rd: PushbackReader, base: nat, k: nat) returns (r: Result<Option<int>, ReadError>)
    requires rd.Valid() && k >= 1
    modifies rd
    ensures rd.Valid()
    ensures r.Failure? ==> DigitRun(rd.input, old(rd.pos), base, k) == Failure(r.error)
    ensures r == Success(None) ==> rd.pos == old(rd.pos) && DigitRun(rd.input, old(rd.pos), base, k) == Success(rd.pos)
    ensures r.Success? && r.value.Some? ==>
              && rd.pos == old(rd.pos) + 1
              && r.value.value == Digit(rd.input[old(rd.pos)], base) >= 0
              && DigitRun(rd.input, old(rd.pos), base, k) == DigitRun(rd.input, rd.pos, base, k - 1)
  {
    var ch := rd.Read1();
    if ch.None? || IsWhitespace(ch.value) || IsMacro(ch.value) {
      rd.Unread(ch);
      return Success(None);
    }
    var d := Digit(ch.value, base);
    if d == -1 {
      return Failure(InvalidDigit(ch.value));
    }
    r := Success(Some(d));
  }

  /** One turn of readUnicodeChar's loop: reads the next digit and folds it into `uc`, the value
      of `initch` and the digits from `start` on. The result says whether a digit was read. */
  method AccumulateDigit(rd: PushbackReader, base: nat, k: nat, ghost start: nat, ghost initch: char, uc: int)
    returns (more: Result<bool, ReadError>, uc': int)
    requires rd.Valid() && k >= 1 && start <= rd.pos
    requires uc == DigitsValue([initch] + rd.input[start..rd.pos], base)
    modifies rd
    ensures rd.Valid()
    ensures more.Failure? ==> DigitRun(rd.input, old(rd.pos), base, k) == Failure(more.error)
    ensures more == Success(false) ==> rd.pos == old(rd.pos) && DigitRun(rd.input, old(rd.pos), base, k) == Success(rd.pos)
    ensures more.Success? ==> start <= rd.pos && uc' == DigitsValue([initch] + rd.input[start..rd.pos], base)
    ensures more == Success(true) ==>
              && rd.pos == old(rd.pos) + 1
              && DigitRun(rd.input, old(rd.pos), base, k) == DigitRun(rd.input, rd.pos, base, k - 1)
  {
    ghost var p := rd.pos;
    var d := ReadDigit(rd, base, k);
    uc' := uc;
    if d.Failure? {
      return Failure(d.error), uc';
    }
    if d.value.None? {
      return Success(false), uc';
    }
    DigitsValueSnoc(rd.input, start, p, initch, base);
    uc' := uc * base + d.value.value;
    more := Success(true);
  }

  /** A digit run that fails fails the whole stream read. */
  lemma StreamCodePointFails(s: string, p: nat, initch: char, base: nat, length: nat, exact: bool)
    requires p <= |s| && 2 <= base && 1 <= length && Digit(initch, base) >= 0
    requires DigitRun(s, p, base, length - 1).Failure?
    ensures StreamCodePoint(s, p, initch, base, length, exact) == Failure(DigitRun(s, p, base, length - 1).error)
  {
  }

  /** The stream read once the digits are known to end at `e`. */
  lemma StreamCodePointAt(s: string, p: nat, initch: char, base: nat, length: nat, exact: bool, e: nat)
    requires p <= e <= |s| && 2 <= base && 1 <= length && Digit(initch, base) >= 0
    requires DigitRun(s, p, base, length - 1) == Success(e)
    ensures StreamCodePoint(s, p, initch, base, length, exact) ==
              if 1 + (e - p) != length && exact then Failure(InvalidCharacterLength(1 + (e - p), length))
              else Success(Step(DigitsValue([initch] + s[p..e], base), e))
  {
  }

  /** One more digit of the stream: the value so far times the base, plus the digit. */
  lemma DigitsValueSnoc(s: string, start: nat, p: nat, initch: char, base: int)
    requires start <= p < |s|
    ensures DigitsValue([initch] + s[start..p + 1], base) == DigitsValue([initch] + s[start..p], base) * base + Digit(s[p], base)
  {
    var ds := [initch] + s[start..p];
    assert [initch] + s[start..p + 1] == ds + [s[p]];
    assert (ds + [s[p]])[..|ds|] == ds;
  }

  /** The position of the first character of `t` that is not a digit in `base`, or |t|. */
  function FirstNonDigit(t: string, base: int): (i: nat)
    ensures i <= |t|
    ensures forall j :: 0 <= j < i ==> Digit(t[j], base) >= 0
    ensures i < |t| ==> Digit(t[i], base) < 0
  {
    if t == [] || Digit(t[0], base) < 0 then 0 else 1 + FirstNonDigit(t[1..], base)
  }

  /** readUnicodeChar over a token: the token must be exactly `offset + length` characters
      long, and the characters from `offset` on are read as digits in `base`; the result is cut
      to a 16-bit char. */
  function TokenCodePoint(token: string, offset: nat, length: nat, base: int): (r: Result<int, ReadError>)
    ensures r.Success? ==> |token| == offset + length && AllDigits(token[offset..], base)
    ensures r.Success? ==> 0 <= r.value < 0x10000
    ensures r.Success? ==> r.value == DigitsValue(token[offset..], base) % 0x10000
    ensures r.Failure? && |token| == offset + length ==> r.error.InvalidDigit?
  {
    if |token| != offset + length then Failure(InvalidUnicodeCharacter(token))
    else
      var ds := token[offset..];
      var k := FirstNonDigit(ds, base);
      if k < |ds| then Failure(InvalidDigit(ds[k]))
      else Success(DigitsValue(ds, base) % 0x10000)
  }

  method UnicodeCharOfToken(token: string, offset: nat, length: nat, base: int) returns (r: Result<int, ReadError>)
    ensures r == TokenCodePoint(token, offset, length, base)
  {
    if |token| != offset + length {
      return Failure(InvalidUnicodeCharacter(token));
    }
    ghost var ds := token[offset..];
    var uc := 0;
    var i := offset;
    while i < offset + length
      invariant offset <= i <= offset + length
      invariant forall j :: 0 <= j < i - offset ==> Digit(ds[j], base) >= 0
      invariant uc == DigitsValue(ds[..i - offset], base)
    {
      var d := Digit(token[i], base);
      if d == -1 {
        assert ds[i - offset] == token[i];
        assert FirstNonDigit(ds, base) == i - offset;
        return Failure(InvalidDigit(token[i]));
      }
      assert ds[..i + 1 - offset][..i - offset] == ds[..i - offset];
      assert ds[i - offset] == token[i];
      uc := uc * base + d;
      i := i + 1;
    }
    assert ds[..i - offset] == ds;
    return Success(uc % 0x10000);
  }

  // ---------------------------------------------------------------- strings

  /** A `\u` escape, `p` just after the `u`: a hex digit must follow, and with it exactly four
      hex digits in all; a surrogate code cannot be held in a Dafny string. */
  function UnicodeEscapeAt(s: string, p: nat): (r: Result<Step<char>, ReadError>)
    requires p <= |s|
    ensures r.Success? ==> r.value.pos == p + 4 <= |s| && AllDigits(s[p..p + 4], 16)
                           && r.value.value as int == DigitsValue(s[p..p + 4], 16)
  {
    if p == |s| || Digit(s[p], 16) < 0 then Failure(InvalidUnicodeEscape)
    else
      var cp :- StreamCodePoint(s, p + 1, s[p], 16, 4, true);
      assert [s[p]] + s[p + 1..cp.pos] == s[p..p + 4];
      StreamCodePointBound(s, p + 1, s[p], 16, 4, true);
      if 0xD800 <= cp.value <= 0xDFFF then Failure(SurrogateInString)
      else Success(Step(cp.value as char, cp.pos))
  }

  /** An octal escape whose first digit `c` has just been read: up to two more digits, and a
      value of at most 0377. */
  function OctalEscapeAt(s: string, p: nat, c: char): (r: Result<Step<char>, ReadError>)
    requires 0 < p <= |s| && s[p - 1] == c
    ensures r.Success? ==> p <= r.value.pos <= p + 2 && r.value.pos <= |s| && AllDigits(s[p - 1..r.value.pos], 8)
                           && r.value.value as int == DigitsValue(s[p - 1..r.value.pos], 8) <= 0377
  {
    var cp :- StreamCodePoint(s, p, c, 8, 3, false);
    assert [c] + s[p..cp.pos] == s[p - 1..cp.pos];
    StreamCodePointBound(s, p, c, 8, 3, false);
    if cp.value > 0377 then Failure(OctalOutOfRange)
    else Success(Step(cp.value as char, cp.pos))
  }

  /** One escape of a string, `p` just after the backslash: the character it stands for and
      where it ends. */
  function EscapeAt(s: string, p: nat): (r: Result<Step<char>, ReadError>)
    requires p <= |s|
    ensures r.Success? ==> p < r.value.pos <= |s|
  {
    if p == |s| then Failure(EofWhileReadingString)
    else match s[p]
      case 't' => Success(Step('\t', p + 1))
      case 'r' => Success(Step('\r', p + 1))
      case 'n' => Success(Step('\n', p + 1))
      case '\\' => Success(Step('\\', p + 1))
      case '"' => Success(Step('"', p + 1))
      case 'b' => Success(Step('\U{0008}', p + 1))
      case 'f' => Success(Step('\U{000C}', p + 1))
      case 'u' => UnicodeEscapeAt(s, p + 1)
      case c => if IsDigit(c) then OctalEscapeAt(s, p + 1, c) else Failure(UnsupportedEscape(c))
  }

  /** StringReader from `p` with `acc` read so far: characters up to the closing quote, with
      escapes decoded. */
  function StringFrom(s: string, p: nat, acc: string): (r: Result<Step<string>, ReadError>)
    requires p <= |s|
    ensures r.Success? ==> p < r.value.pos <= |s|
    decreases |s| - p
  {
    if p == |s| then Failure(EofWhileReadingString)
    else if s[p] == '"' then Success(Step(acc, p + 1))
    else if s[p] == '\\' then
      var e :- EscapeAt(s, p + 1);
      StringFrom(s, e.pos, acc + [e.value])
    else StringFrom(s, p + 1, acc + [s[p]])
  }

  /** A string literal that reads ends with its closing quote. */
  lemma {:induction false} StringFromEndsAtQuote(s: string, p: nat, acc: string)
    requires p <= |s| && StringFrom(s, p, acc).Success?
    ensures s[StringFrom(s, p, acc).value.pos - 1] == '"'
    decreases |s| - p
  {
    if s[p] == '\\' {
      var e := EscapeAt(s, p + 1).value;
      StringFromEndsAtQuote(s, e.pos, acc + [e.value]);
    } else if s[p] != '"' {
      StringFromEndsAtQuote(s, p + 1, acc + [s[p]]);
    }
  }

  /** The string literal whose opening quote has just been read. */
  function StringAt(s: string, p: nat): (r: Result<Step<string>, ReadError>)
    requires p <= |s|
    ensures r.Success? ==> p < r.value.pos <= |s|
  {
    StringFrom(s, p, "")
  }

  /** The `\u` branch of StringReader's escape switch, after the `u`. */
  method ReadUnicodeEscape(rd: PushbackReader) returns (r: Result<char, ReadError>)
    requires rd.Valid()
    modifies rd
    ensures rd.Valid()
    ensures Agrees(r, rd.pos, UnicodeEscapeAt(rd.input, old(rd.pos)))
  {
    var d := rd.Read1();
    if d.None? || Digit(d.value, 16) == -1 {
      return Failure(InvalidUnicodeEscape);
    }
    ghost var p := rd.pos;
    var cp := ReadUnicodeChar(rd, d.value, 16, 4, true);
    if cp.Failure? {
      return Failure(cp.error);
    }
    StreamCodePointBound(rd.input, p, d.value, 16, 4, true);
    if 0xD800 <= cp.value <= 0xDFFF {
      return Failure(SurrogateInString);
    }
    r := Success(cp.value as char);
  }

  /** The octal branch of StringReader's escape switch, after the first digit `c`. */
  method ReadOctalEscape(rd: PushbackReader, c: char) returns (r: Result<char, ReadError>)
    requires rd.Valid() && 0 < rd.pos && rd.input[rd.pos - 1] == c
    modifies rd
    ensures rd.Valid()
    ensures Agrees(r, rd.pos, OctalEscapeAt(rd.input, old(rd.pos), c))
  {
    ghost var p := rd.pos;
    var cp := ReadUnicodeChar(rd, c, 8, 3, false);
    if cp.Failure? {
      return Failure(cp.error);
    }
    StreamCodePointBound(rd.input, p, c, 8, 3, false);
    if cp.value > 0377 {
      return Failure(OctalOutOfRange);
    }
    r := Success(cp.value as char);
  }

  /** StringReader's escape switch, after a backslash. */
  method ReadEscape(rd: PushbackReader) returns (r: Result<char, ReadError>)
    requires rd.Valid()
    modifies rd
    ensures rd.Valid()
    ensures Agrees(r, rd.pos, EscapeAt(rd.input, old(rd.pos)))
  {
    var ch := rd.Read1();
    if ch.None? {
      return Failure(EofWhileReadingString);
    }
    match ch.value
    case 't' => r := Success('\t');
    case 'r' => r := Success('\r');
    case 'n' => r := Success('\n');
    case '\\' => r := Success('\\');
    case '"' => r := Success('"');
    case 'b' => r := Success('\U{0008}');
    case 'f' => r := Success('\U{000C}');
    case 'u' => r := ReadUnicodeEscape(rd);
    case c =>
      if IsDigit(c) {
        r := ReadOctalEscape(rd, c);
      } else {
        r := Failure(UnsupportedEscape(c));
      }
  }

  /** StringReader, after the opening quote. */
  method ReadString(rd: PushbackReader) returns (r: Result<string, ReadError>)
    requires rd.Valid()
    modifies rd
    ensures rd.Valid()
    ensures Agrees(r, rd.pos, StringAt(rd.input, old(rd.pos)))
  {
    var sb := "";
    while true
      invariant rd.Valid() && old(rd.pos) <= rd.pos
      invariant StringFrom(rd.input, rd.pos, sb) == StringAt(rd.input, old(rd.pos))
      decreases |rd.input| - rd.pos
    {
      var ch := rd.Read1();
      if ch == Some('"') {
        return Success(sb);
      }
      if ch.None? {
        return Failure(EofWhileReadingString);
      }
      var c := ReadStringUnit(rd, ch.value, sb);
      if c.Failure? {
        return Failure(c.error);
      }
      sb := sb + [c.value];
    }
  }

  /** The character StringReader appends for the character `c` it has just read: `c` itself,
      or, after a backslash, the character the escape stands for. */
  method ReadStringUnit(rd: PushbackReader, c: char, ghost acc: string) returns (r: Result<char, ReadError>)
    requires rd.Valid() && 0 < rd.pos && rd.input[rd.pos - 1] == c && c != '"'
    modifies rd
    ensures rd.Valid()
    ensures r.Failure? ==> StringFrom(rd.input, old(rd.pos) - 1, acc) == Failure(r.error)
    ensures r.Success? ==> old(rd.pos) <= rd.pos
    ensures r.Success? ==> StringFrom(rd.input, rd.pos, acc + [r.value]) == StringFrom(rd.input, old(rd.pos) - 1, acc)
  {
    if c == '\\' {
      r := ReadEscape(rd);
    } else {
      r := Success(c);
    }
  }

  /** The escape a printer writes for each character: quote, backslash and the five control
      characters with a letter escape; every other character stands for itself. */
  function EscapeChar(c: char): (e: string)
    ensures 1 <= |e| <= 2
  {
    if EscapeLetter(c).Some? then ['\\', EscapeLetter(c).value] else [c]
  }

  /** The letter after the backslash in the escape of `c`, for the characters that need one. */
  function EscapeLetter(c: char): Option<char> {
    match c
    case '"' => Some('"')
    case '\\' => Some('\\')
    case '\t' => Some('t')
    case '\r' => Some('r')
    case '\n' => Some('n')
    case '\U{0008}' => Some('b')
    case '\U{000C}' => Some('f')
    case _ => None
  }

  function EscapeString(x: string): string {
    if x == [] then "" else EscapeChar(x[0]) + EscapeString(x[1..])
  }

  /** The reader consumes the escape of one character and appends that character. */
  lemma StringStep(s: string, p: nat, c: char, acc: string)
    requires EscapeSpelled(s, p, c)
    ensures StringFrom(s, p, acc) == StringFrom(s, p + |EscapeChar(c)|, acc + [c])
  {
  }

  /** The escape of `c` is spelled at `p`, one or two characters. */
  predicate EscapeSpelled(s: string, p: nat, c: char) {
    var e := EscapeChar(c);
    p + |e| <= |s| && s[p] == e[0] && (|e| == 2 ==> s[p + 1] == e[1])
  }

  /** A slice that spells the escape of `c` spells it character by character. */
  lemma EscapeSpelledSlice(s: string, p: nat, c: char)
    requires p + |EscapeChar(c)| <= |s| && s[p..p + |EscapeChar(c)|] == EscapeChar(c)
    ensures EscapeSpelled(s, p, c)
  {
    var e := EscapeChar(c);
    assert s[p] == s[p..p + |e|][0];
    if |e| == 2 {
      assert s[p + 1] == s[p..p + |e|][1];
    }
  }

  /** `x`, escaped and closed by a quote, is spelled at `p`, one character's escape at a time. */
  predicate EscapedAt(s: string, p: nat, x: string)
    decreases |x|
  {
    if x == [] then p < |s| && s[p] == '"'
    else
      var e := EscapeChar(x[0]);
      EscapeSpelled(s, p, x[0]) && EscapedAt(s, p + |e|, x[1..])
  }

  /** A slice that spells the escaped and closed string spells it one escape at a time. */
  lemma {:induction false} EscapedAtSlice(s: string, p: nat, x: string)
    requires p + |EscapeString(x)| < |s| && s[p..p + |EscapeString(x)| + 1] == EscapeString(x) + "\""
    ensures EscapedAt(s, p, x)
    decreases |x|
  {
    var w := EscapeString(x) + "\"";
    if x == [] {
      assert s[p] == s[p..p + 1][0];
    } else {
      var e, b := EscapeChar(x[0]), EscapeString(x[1..]) + "\"";
      assert w == e + b;
      SliceSplit(s, p, e, b, w);
      EscapeSpelledSlice(s, p, x[0]);
      EscapedAtSlice(s, p + |e|, x[1..]);
    }
  }

  /** Reading back an escaped string that is followed by a quote, from any position and with
      any accumulator, appends the string and stops just after the quote. */
  lemma {:induction false} StringRoundTripFrom(s: string, p: nat, x: string, acc: string)
    requires EscapedAt(s, p, x)
    ensures StringFrom(s, p, acc) == Success(Step(acc + x, p + |EscapeString(x)| + 1))
    decreases |x|
  {
    if x == [] {
      assert acc + x == acc;
    } else {
      EscapeStringLength(x);
      StringRoundTripFrom(s, p + |EscapeChar(x[0])|, x[1..], acc + [x[0]]);
      StringRoundTripStep(s, p, x[0], acc, Success(Step(acc + [x[0]] + x[1..], p + |EscapeString(x)| + 1)));
      AppendFirst(acc, x);
    }
  }

  /** One step of the round trip: the escape of `c`, then whatever the rest reads as. */
  lemma StringRoundTripStep(s: string, p: nat, c: char, acc: string, rest: Result<Step<string>, ReadError>)
    requires EscapeSpelled(s, p, c)
    requires StringFrom(s, p + |EscapeChar(c)|, acc + [c]) == rest
    ensures StringFrom(s, p, acc) == rest
  {
    StringStep(s, p, c, acc);
  }

  lemma AppendFirst(acc: string, x: string)
    requires x != []
    ensures acc + [x[0]] + x[1..] == acc + x
  {
    assert [x[0]] + x[1..] == x;
  }

  lemma EscapeStringLength(x: string)
    requires x != []
    ensures |EscapeString(x)| == |EscapeChar(x[0])| + |EscapeString(x[1..])|
  {
  }

  /** A slice that spells `a + b` spells `a` and then `b`. */
  lemma SliceSplit(s: string, p: nat, a: string, b: string, w: string)
    requires w == a + b && p + |w| <= |s| && s[p..p + |w|] == w
    ensures s[p..p + |a|] == a && s[p + |a|..p + |a| + |b|] == b
  {
    assert s[p..p + |a|] == s[p..p + |w|][..|a|];
    assert s[p + |a|..p + |a| + |b|] == s[p..p + |w|][|a|..];
  }

  /** The string reader inverts the escaping: the literal "<escaped x>" reads back as x. */
  lemma StringRoundTrip(x: string, rest: string)
    ensures StringAt(EscapeString(x) + "\"" + rest, 0) == Success(Step(x, |EscapeString(x)| + 1))
  {
    var s := EscapeString(x) + "\"" + rest;
    assert s[0..|EscapeString(x)| + 1] == EscapeString(x) + "\"";
    EscapedAtSlice(s, 0, x);
    StringRoundTripFrom(s, 0, x, "");
    assert "" + x == x;
  }

  // ---------------------------------------------------------------- comments and regexes

  /** Where a line comment starting at `p` ends: at the first LF or CR, or at the end. */
  function CommentEnd(s: string, p: nat): (e: nat)
    requires p <= |s|
    ensures p <= e <= |s|
    ensures forall i :: p <= i < e ==> s[i] != '\n' && s[i] != '\r'
    ensures e < |s| ==> s[e] == '\n' || s[e] == '\r'
    decreases |s| - p
  {
    if p == |s| || s[p] == '\n' || s[p] == '\r' then p else CommentEnd(s, p + 1)
  }

  /** CommentReader: the text up to the line end, with the terminator consumed. */
  function CommentAt(s: string, p: nat): (r: Step<string>)
    requires p <= |s|
    ensures r.value == s[p..CommentEnd(s, p)]
    ensures r.pos == if CommentEnd(s, p) < |s| then CommentEnd(s, p) + 1 else |s|
  {
    var e := CommentEnd(s, p);
    Step(s[p..e], if e < |s| then e + 1 else e)
  }

  method ReadComment(rd: PushbackReader) returns (text: string)
    requires rd.Valid()
    modifies rd
    ensures rd.Valid()
    ensures CommentAt(rd.input, old(rd.pos)) == Step(text, rd.pos)
  {
    ghost var s, start := rd.input, rd.pos;
    text := "";
    var ch := rd.Read1();
    ghost var k := start;
    while ch.Some? && ch.value != '\n' && ch.value != '\r'
      invariant rd.Valid() && start <= k <= |s|
      invariant ch.Some? ==> k < |s| && s[k] == ch.value && rd.pos == k + 1
      invariant ch.None? ==> k == |s| == rd.pos
      invariant text == s[start..k]
      invariant CommentEnd(s, start) == CommentEnd(s, k)
      decreases |s| - k
    {
      text := text + [ch.value];
      k := k + 1;
      ch := rd.Read1();
    }
  }

  /** RegexReader from `p` with `acc` copied so far: everything up to the first quote not
      preceded by a backslash, each backslash copied together with the character after it. */
  function RegexFrom(s: string, p: nat, acc: string): (r: Result<Step<string>, ReadError>)
    requires p <= |s|
    ensures r.Success? ==> p < r.value.pos <= |s| && s[r.value.pos - 1] == '"'
    decreases |s| - p
  {
    if p == |s| then Failure(EofWhileReadingRegex)
    else if s[p] == '"' then Success(Step(acc, p + 1))
    else if s[p] == '\\' then
      if p + 1 == |s| then Failure(EofWhileReadingRegex)
      else RegexFrom(s, p + 2, acc + s[p..p + 2])
    else RegexFrom(s, p + 1, acc + [s[p]])
  }

  /** The regex body is the input text between the quotes, copied verbatim. */
  lemma {:induction false} RegexVerbatim(s: string, p: nat, acc: string)
    requires p <= |s| && RegexFrom(s, p, acc).Success?
    ensures RegexFrom(s, p, acc).value.value == acc + s[p..RegexFrom(s, p, acc).value.pos - 1]
    decreases |s| - p
  {
    var q := RegexFrom(s, p, acc).value.pos;
    if s[p] == '\\' {
      RegexVerbatim(s, p + 2, acc + s[p..p + 2]);
      AppendSlices(acc, s, p, p + 2, q - 1);
    } else if s[p] != '"' {
      RegexVerbatim(s, p + 1, acc + [s[p]]);
      assert [s[p]] == s[p..p + 1];
      AppendSlices(acc, s, p, p + 1, q - 1);
    }
  }

  lemma AppendSlices(acc: string, s: string, p: nat, m: nat, q: nat)
    requires p <= m <= q <= |s|
    ensures acc + s[p..m] + s[m..q] == acc + s[p..q]
  {
    assert s[p..m] + s[m..q] == s[p..q];
  }

  function RegexAt(s: string, p: nat): (r: Result<Step<string>, ReadError>)
    requires p <= |s|
    ensures r.Success? ==> p < r.value.pos <= |s|
  {
    RegexFrom(s, p, "")
  }

  method ReadRegex(rd: PushbackReader) returns (r: Result<string, ReadError>)
    requires rd.Valid()
    modifies rd
    ensures rd.Valid()
    ensures Agrees(r, rd.pos, RegexAt(rd.input, old(rd.pos)))
  {
    var sb := "";
    while true
      invariant rd.Valid() && old(rd.pos) <= rd.pos
      invariant RegexFrom(rd.input, rd.pos, sb) == RegexAt(rd.input, old(rd.pos))
      decreases |rd.input| - rd.pos
    {
      var ch := rd.Read1();
      if ch == Some('"') {
        return Success(sb);
      }
      if ch.None? {
        return Failure(EofWhileReadingRegex);
      }
      var unit := CopyRegexUnit(rd, ch.value, sb);
      if unit.Failure? {
        return Failure(unit.error);
      }
      sb := sb + unit.value;
    }
  }

  /** The text RegexReader copies for the character `c` it has just read: `c` alone, or a
      backslash together with the character after it. */
  method CopyRegexUnit(rd: PushbackReader, c: char, ghost acc: string) returns (r: Result<string, ReadError>)
    requires rd.Valid() && 0 < rd.pos && rd.input[rd.pos - 1] == c && c != '"'
    modifies rd
    ensures rd.Valid() && old(rd.pos) <= rd.pos
    ensures r.Failure? ==> RegexFrom(rd.input, old(rd.pos) - 1, acc) == Failure(r.error)
    ensures r.Success? ==> RegexFrom(rd.input, rd.pos, acc + r.value) == RegexFrom(rd.input, old(rd.pos) - 1, acc)
  {
    ghost var p := rd.pos - 1;
    if c == '\\' {
      var next := rd.Read1();
      if next.None? {
        return Failure(EofWhileReadingRegex);
      }
      r := Success([c, next.value]);
      assert rd.input[p..p + 2] == [c, next.value];
    } else {
      r := Success([c]);
      assert rd.input[p..p + 1] == [c];
    }
    RegexStep(rd.input, p, acc);
  }

  /** One step of the regex scan: a backslash and the character after it, or one other
      character, are copied. */
  lemma RegexStep(s: string, p: nat, acc: string)
    requires p < |s| && s[p] != '"' && (s[p] == '\\' ==> p + 1 < |s|)
    ensures var n := if s[p] == '\\' then 2 else 1;
            RegexFrom(s, p, acc) == RegexFrom(s, p + n, acc + s[p..p + n])
  {
    if s[p] != '\\' {
      assert [s[p]] == s[p..p + 1];
    }
  }

  /** A regex body that the reader copies back unchanged: no bare quote, and no backslash left
      without a following character. */
  predicate RegexSafe(b: string)
    decreases |b|
  {
    b == []
    || (b[0] == '\\' && |b| >= 2 && RegexSafe(b[2..]))
    || (b[0] != '\\' && b[0] != '"' && RegexSafe(b[1..]))
  }

  /** The regex reader gives back exactly the body between the quotes. */
  lemma {:induction false} RegexRoundTripFrom(s: string, p: nat, b: string, acc: string)
    requires RegexSafe(b) && p + |b| < |s| && s[p..p + |b|] == b && s[p + |b|] == '"'
    ensures RegexFrom(s, p, acc) == Success(Step(acc + b, p + |b| + 1))
    decreases |b|
  {
    if b == [] {
      assert acc + b == acc;
    } else {
      var n := RegexBodyStep(s, p, b, acc);
      RegexRoundTripFrom(s, p + n, b[n..], acc + b[..n]);
      assert acc + b[..n] + b[n..] == acc + b;
    }
  }

  /** The first unit of a body the reader can copy, a backslash pair or one character, is copied
      as it stands, and what follows it is again such a body. */
  lemma RegexBodyStep(s: string, p: nat, b: string, acc: string) returns (n: nat)
    requires b != [] && RegexSafe(b) && p + |b| < |s| && s[p..p + |b|] == b
    ensures n == (if b[0] == '\\' then 2 else 1) && n <= |b| && RegexSafe(b[n..])
    ensures s[p + n..p + n + |b[n..]|] == b[n..]
    ensures RegexFrom(s, p, acc) == RegexFrom(s, p + n, acc + b[..n])
  {
    n := if b[0] == '\\' then 2 else 1;
    assert s[p] == b[0];
    assert s[p..p + n] == b[..n];
    assert s[p + n..p + n + |b[n..]|] == b[n..];
    RegexStep(s, p, acc);
  }

  /** The regex literal #"<b>" reads back as b for every body b the reader can copy. */
  lemma RegexRoundTrip(b: string, rest: string)
    requires RegexSafe(b)
    ensures RegexAt(b + "\"" + rest, 0) == Success(Step(b, |b| + 1))
  {
    var s := b + "\"" + rest;
    assert s[0..|b|] == b && s[|b|] == '"';
    RegexRoundTripFrom(s, 0, b, "");
    assert "" + b == b;
    assert RegexAt(s, 0) == RegexFrom(s, 0, "");
  }

  // ---------------------------------------------------------------- character literals

  /** CharacterReader's decoding of the token after the backslash. */
  function CharOfToken(token: string): (r: Result<char, ReadError>)
    requires |token| >= 1
    ensures |token| == 1 ==> r == Success(token[0])
    ensures (&& |token| >= 2 && token !in {"newline", "space", "tab", "backspace", "formfeed", "return"}
             && token[0] != 'u' && token[0] != 'o') ==> r == Failure(UnsupportedCharacter(token))
    ensures r.Failure? ==> r.error.UnsupportedCharacter? || r.error.InvalidCharacterConstant?
                           || r.error.InvalidOctalLength? || r.error.OctalOutOfRange?
                           || r.error.InvalidUnicodeCharacter? || r.error.InvalidDigit?
  {
    if |token| == 1 then Success(token[0])
    else if token == "newline" then Success('\n')
    else if token == "space" then Success(' ')
    else if token == "tab" then Success('\t')
    else if token == "backspace" then Success('\U{0008}')
    else if token == "formfeed" then Success('\U{000C}')
    else if token == "return" then Success('\r')
    else if token[0] == 'u' then
      var c :- TokenCodePoint(token, 1, 4, 16);
      if 0xD800 <= c <= 0xDFFF then Failure(InvalidCharacterConstant)
      else Success(c as char)
    else if token[0] == 'o' then
      var len := |token| - 1;
      if len > 3 then Failure(InvalidOctalLength(len))
      else
        var uc :- TokenCodePoint(token, 1, len, 8);
        if uc > 0377 then Failure(OctalOutOfRange)
        else Success(uc as char)
    else Failure(UnsupportedCharacter(token))
  }

  /** The character literal whose backslash has just been read. */
  function CharacterAt(s: string, p: nat): (r: Result<Step<char>, ReadError>)
    requires p <= |s|
    ensures p == |s| ==> r == Failure(EofWhileReadingCharacter)
    ensures r.Success? ==> r.value.pos == TokenEnd(s, p + 1)
  {
    if p == |s| then Failure(EofWhileReadingCharacter)
    else
      var e := TokenEnd(s, p + 1);
      var c :- CharOfToken(s[p..e]);
      Success(Step(c, e))
  }

  method ReadCharacter(rd: PushbackReader) returns (r: Result<char, ReadError>)
    requires rd.Valid()
    modifies rd
    ensures rd.Valid()
    ensures Agrees(r, rd.pos, CharacterAt(rd.input, old(rd.pos)))
  {
    var ch := rd.Read1();
    if ch.None? {
      return Failure(EofWhileReadingCharacter);
    }
    var token := ReadToken(rd, ch.value);
    assert token == rd.input[old(rd.pos)..rd.pos];
    if |token| == 1 {
      r := Success(token[0]);
    } else if token == "newline" {
      r := Success('\n');
    } else if token == "space" {
      r := Success(' ');
    } else if token == "tab" {
      r := Success('\t');
    } else if token == "backspace" {
      r := Success('\U{0008}');
    } else if token == "formfeed" {
      r := Success('\U{000C}');
    } else if token == "return" {
      r := Success('\r');
    } else if token[0] == 'u' {
      var c := UnicodeCharOfToken(token, 1, 4, 16);
      if c.Failure? {
        return Failure(c.error);
      }
      if 0xD800 <= c.value <= 0xDFFF {
        return Failure(InvalidCharacterConstant);
      }
      r := Success(c.value as char);
    } else if token[0] == 'o' {
      var len := |token| - 1;
      if len > 3 {
        return Failure(InvalidOctalLength(len));
      }
      var uc := UnicodeCharOfToken(token, 1, len, 8);
      if uc.Failure? {
        return Failure(uc.error);
      }
      if uc.value > 0377 {
        return Failure(OctalOutOfRange);
      }
      r := Success(uc.value as char);
    } else {
      r := Failure(UnsupportedCharacter(token));
    }
  }

  /** A token that starts with `u` or `o` is none of the character names. */
  lemma NotNamed(t: string)
    requires |t| >= 2 && (t[0] == 'u' || t[0] == 'o')
    ensures t != "newline" && t != "space" && t != "tab"
    ensures t != "backspace" && t != "formfeed" && t != "return"
  {
  }

  /** `\u` and four hex digits is the character with that code, unless it is a surrogate. */
  lemma UnicodeCharacter(h: string)
    requires |h| == 4 && AllDigits(h, 16)
    ensures var r, v := CharOfToken("u" + h), DigitsValue(h, 16);
            (r.Success? <==> !(0xD800 <= v <= 0xDFFF))
            && (r.Success? ==> r.value as int == v)
            && (r.Failure? ==> r.error == InvalidCharacterConstant)
  {
    var t := "u" + h;
    NotNamed(t);
    UnicodeDigits(h);
  }

  /** The digits of `\u<h>` are read as a hexadecimal number below 0x10000. */
  lemma UnicodeDigits(h: string)
    requires |h| == 4 && AllDigits(h, 16)
    ensures TokenCodePoint("u" + h, 1, 4, 16) == Success(DigitsValue(h, 16))
    ensures 0 <= DigitsValue(h, 16) < 0x10000
  {
    var t := "u" + h;
    assert t[1..] == h;
    DigitsValueBound(h, 16);
    assert Power(16, 4) == 0x10000;
    TokenCodePointOk(t, 1, 4, 16);
  }

  /** More than three characters after `\o` is refused by length. */
  lemma OctalTooLong(o: string)
    requires |o| > 3
    ensures CharOfToken("o" + o) == Failure(InvalidOctalLength(|o|))
  {
    NotNamed("o" + o);
  }

  /** The digits of `\o<o>` are read as an octal number below 512. */
  lemma OctalDigits(o: string)
    requires 1 <= |o| <= 3 && forall i :: 0 <= i < |o| ==> IsOctalDigit(o[i])
    ensures TokenCodePoint("o" + o, 1, |o|, 8) == Success(DigitsValue(o, 8))
    ensures 0 <= DigitsValue(o, 8) < 512
  {
    var t := "o" + o;
    assert t[1..] == o;
    OctalValueBound(o);
    TokenCodePointOk(t, 1, |o|, 8);
  }

  /** Valid digits worth less than 0x10000 are read as their value. */
  lemma TokenCodePointOk(token: string, offset: nat, length: nat, base: int)
    requires |token| == offset + length && AllDigits(token[offset..], base)
    requires 0 <= DigitsValue(token[offset..], base) < 0x10000
    ensures TokenCodePoint(token, offset, length, base) == Success(DigitsValue(token[offset..], base))
  {
    var ds := token[offset..];
    assert FirstNonDigit(ds, base) == |ds|;
    var v := DigitsValue(ds, base);
    assert v % 0x10000 == v;
  }

  /** Up to three octal digits are worth less than 8^3. */
  lemma OctalValueBound(o: string)
    requires |o| <= 3 && forall i :: 0 <= i < |o| ==> IsOctalDigit(o[i])
    ensures AllDigits(o, 8) && 0 <= DigitsValue(o, 8) < 512
  {
    assert AllDigits(o, 8) by {
      forall i | 0 <= i < |o| ensures Digit(o[i], 8) >= 0 {
        assert IsDigit(o[i]);
      }
    }
    DigitsValueBound(o, 8);
    PowerMonotone(8, |o|, 3);
    assert Power(8, 1) == 8 && Power(8, 2) == 64 && Power(8, 3) == 512;
  }

  /** `\o` and one to three octal digits is the character with that code, which must be at
      most 0377. */
  lemma OctalCharacter(o: string)
    requires 1 <= |o| <= 3 && forall i :: 0 <= i < |o| ==> IsOctalDigit(o[i])
    ensures var r, v := CharOfToken("o" + o), DigitsValue(o, 8);
            (r.Success? <==> v <= 0377)
            && (r.Success? ==> r.value as int == v)
            && (r.Failure? ==> r.error == OctalOutOfRange)
  {
    var t := "o" + o;
    NotNamed(t);
    OctalDigits(o);
    assert |t| - 1 == |o|;
  }
}
