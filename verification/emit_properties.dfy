/**
 * What emission promises: how the separator join composes, which renderer each collection and
 * element goes to, the fixed punctuation of the wrapper, META, CONDITIONAL and COMMENT elements,
 * what the CHAR printer writes and what read makes of it, and what becomes of a VAR element.
 */
module EmitProperties {
  import opened Wrappers
  import opened Chars
  import opened SyntaxElement
  import opened ReadErrors
  import opened NumberGrammar
  import opened Scanners
  import opened ReaderSpec
  import opened SymbolGrammar
  import opened ReaderProperties

  // ---------------------------------------------------------------- the separator join

  /** Joining two non-empty runs is joining each and putting the separator between them, unless
      the second run starts with the comma element; the first failure of either run wins. */
  lemma {:induction false} JoinConcat(sep: string, a: seq<Form>, b: seq<Form>, printer: Printer)
    requires a != [] && b != []
    ensures Join(sep, a + b, printer) == JoinPair(sep, a, b, printer)
    decreases |b|
  {
    var init, last := b[..|b| - 1], b[|b| - 1];
    assert b == init + [last];
    if init == [] {
      JoinConcatOne(sep, a, last, printer);
    } else {
      JoinConcat(sep, a, init, printer);
      JoinConcatStep(sep, a, init, last, printer);
    }
  }

  /** The joined text of `a` and of `b`, glued by the separator `b`'s first element calls for. */
  function JoinPair(sep: string, a: seq<Form>, b: seq<Form>, printer: Printer): Result<string, EmitError>
    requires b != []
  {
    Glue(Join(sep, a, printer), if b[0] == CommaSyntax then "" else sep, Join(sep, b, printer))
  }

  /** Two emission results with text between them; the first failure wins. */
  function Glue(x: Result<string, EmitError>, mid: string, y: Result<string, EmitError>): Result<string, EmitError> {
    var u :- x;
    var v :- y;
    Success(u + mid + v)
  }

  lemma GlueAssoc(x: Result<string, EmitError>, m: string, y: Result<string, EmitError>, t: string, l: Result<string, EmitError>)
    ensures Glue(Glue(x, m, y), t, l) == Glue(x, m, Glue(y, t, l))
  {
    if x.Success? && y.Success? && l.Success? {
      assert x.value + m + y.value + t + l.value == x.value + m + (y.value + t + l.value);
    }
  }

  /** Join, one element at a time from the right: the separator goes before every element but
      the first and the comma element. */
  lemma JoinSnoc(sep: string, init: seq<Form>, last: Form, printer: Printer)
    ensures Join(sep, init + [last], printer) ==
            Glue(Join(sep, init, printer), if init == [] || last == CommaSyntax then "" else sep, Emit(last, printer))
  {
    var items := init + [last];
    assert items[..|items| - 1] == init;
  }

  lemma JoinConcatOne(sep: string, a: seq<Form>, last: Form, printer: Printer)
    requires a != []
    ensures Join(sep, a + [last], printer) == JoinPair(sep, a, [last], printer)
  {
    JoinSnoc(sep, a, last, printer);
    JoinSingle(sep, last, printer);
  }

  /** One element joins as its own emission. */
  lemma JoinSingle(sep: string, x: Form, printer: Printer)
    ensures Join(sep, [x], printer) == Emit(x, printer)
  {
    assert [x] == [] + [x];
    JoinSnoc(sep, [], x, printer);
    var e := Emit(x, printer);
    if e.Success? {
      assert "" + "" + e.value == e.value;
    }
  }

  lemma JoinConcatStep(sep: string, a: seq<Form>, init: seq<Form>, last: Form, printer: Printer)
    requires a != [] && init != []
    requires Join(sep, a + init, printer) == JoinPair(sep, a, init, printer)
    ensures Join(sep, a + (init + [last]), printer) == JoinPair(sep, a, init + [last], printer)
  {
    assert a + (init + [last]) == (a + init) + [last];
    assert (init + [last])[0] == init[0];
    JoinSnoc(sep, a + init, last, printer);
    JoinSnoc(sep, init, last, printer);
    GlueAssoc(Join(sep, a, printer), if init[0] == CommaSyntax then "" else sep, Join(sep, init, printer),
              if last == CommaSyntax then "" else sep, Emit(last, printer));
  }

  /** A comma element sits right after the element before it: `a` followed by `, b` joins as
      `a, b`, with the separator after the comma and none before it. */
  lemma CommaJoin(a: Form, b: Form, printer: Printer)
    requires b != CommaSyntax
    requires Emit(a, printer).Success? && Emit(b, printer).Success?
    ensures Join(" ", [a, CommaSyntax, b], printer) == Success(Emit(a, printer).value + ", " + Emit(b, printer).value)
  {
    var items := [a, CommaSyntax, b];
    assert items[..2][..1] == [a];
    assert [a][..0] == [];
    assert items[..2] == [a, CommaSyntax];
    var x, y := Emit(a, printer).value, Emit(b, printer).value;
    assert Emit(CommaSyntax, printer) == Success(",");
    assert Join(" ", [a], printer) == Success("" + "" + x);
    assert "" + "" + x == x;
    assert Join(" ", [a, CommaSyntax], printer) == Success(x + "" + ",");
    assert x + "" + "," + " " + y == x + ", " + y;
  }

  /** The FILE element is the join of its forms with a newline. */
  lemma FileJoin(items: seq<Form>, printer: Printer)
    ensures Emit(Syntax(File, ArrayList(items)), printer) == Join("\n", items, printer)
    ensures Emit(Syntax(File, PList(items)), printer) == Join("\n", items, printer)
  {
    FilePayloadJoin(ArrayList(items), items, printer);
    FilePayloadJoin(PList(items), items, printer);
  }

  /** One list payload of the FILE element. */
  lemma FilePayloadJoin(e: Form, items: seq<Form>, printer: Printer)
    requires e == ArrayList(items) || e == PList(items)
    ensures Emit(Syntax(File, e), printer) == Join("\n", items, printer)
  {
    assert Emit(Syntax(File, e), printer) == TypeStr(File, e, printer);
  }

  // ---------------------------------------------------------------- routing and brackets

  /** The four bracketed tags print their opening text, the space join of their list payload,
      and their closing text. */
  lemma BracketedEmission(t: Type, items: seq<Form>, printer: Printer)
    requires Brackets(t).Some?
    ensures var (open, close) := Brackets(t).value;
            Emit(Syntax(t, ArrayList(items)), printer) == (var j :- Join(" ", items, printer); Success(open + j + close))
  {
    var (open, close) := Brackets(t).value;
    assert Emit(Syntax(t, ArrayList(items)), printer) == TypeStr(t, ArrayList(items), printer);
    assert TypeStr(t, ArrayList(items), printer) == ListStr(open, ArrayList(items), close, printer);
    assert ListStr(open, ArrayList(items), close, printer) == Bracketed(open, items, close, printer);
  }

  /** emit(Object) sends a persistent vector and a persistent list to the VECTOR and LIST
      printers. A persistent set goes to the SET printer, whose cast to java.util.List refuses
      it; only a SET element with a list payload prints. */
  lemma CollectionRouting(items: seq<Form>, printer: Printer)
    ensures Emit(PVector(items), printer) == Emit(Syntax(Vector, PVector(items)), printer)
    ensures Emit(PList(items), printer) == Emit(Syntax(List, PList(items)), printer)
    ensures Emit(PSet(items), printer) == Failure(ClassCast)
    ensures Emit(Syntax(Set, ArrayList(items)), printer) == (var j :- Join(" ", items, printer); Success("#{" + j + "}"))
  {
    VectorRouting(items, printer);
    ListRouting(items, printer);
    BracketedEmission(Set, items, printer);
  }

  lemma VectorRouting(items: seq<Form>, printer: Printer)
    ensures Emit(PVector(items), printer) == Emit(Syntax(Vector, PVector(items)), printer)
  {
    assert Emit(Syntax(Vector, PVector(items)), printer) == TypeStr(Vector, PVector(items), printer);
    assert TypeStr(Vector, PVector(items), printer) == ListStr("[", PVector(items), "]", printer);
  }

  lemma ListRouting(items: seq<Form>, printer: Printer)
    ensures Emit(PList(items), printer) == Emit(Syntax(List, PList(items)), printer)
  {
    assert Emit(Syntax(List, PList(items)), printer) == TypeStr(List, PList(items), printer);
    assert TypeStr(List, PList(items), printer) == ListStr("(", PList(items), ")", printer);
  }

  // ---------------------------------------------------------------- fixed punctuation

  /** The wrapper tags print their prefix followed by the emitted payload, and nothing else. */
  lemma WrapperEmission(t: Type, f: Form, printer: Printer)
    requires WrapperPrefix(t).Some?
    ensures Emit(Syntax(t, f), printer) == (var e :- Emit(f, printer); Success(WrapperPrefix(t).value + e))
  {
  }

  /** A quote, deref, discard or eval literal reads as an element that prints as the prefix it
      was read from followed by the printed form: reading then printing gives back the prefix. */
  lemma WrapperReadThenEmit(s: string, n: nat, t: Type, env: ReaderEnv, cx: Ctx, eof: Option<Form>, printer: Printer)
    requires env.readEval != EvalUnknown
    requires || (n == 1 && |s| >= 1 && ((s[0] == '\'' && t == Quote) || (s[0] == '@' && t == Deref)))
             || (n == 2 && |s| >= 2 && s[0] == '#'
                 && ((s[1] == '_' && t == Discard) || (s[1] == '=' && t == Eval && env.readEval == EvalTrue)))
    requires ReaderSpec.ReadForm(s, n, env, cx).Success?
    ensures var f := ReaderSpec.ReadForm(s, n, env, cx).value.value;
            && ReadFirst(s, 0, env, cx, eof).Success?
            && Emit(ReadFirst(s, 0, env, cx, eof).value.value, printer) == (var e :- Emit(f, printer); Success(s[..n] + e))
  {
    var f := ReaderSpec.ReadForm(s, n, env, cx).value.value;
    if n == 1 {
      WrapperLiteralReads(s, t, env, cx, eof);
      assert s[..n] == [s[0]];
    } else {
      DispatchWrapperReads(s, t, env, cx, eof);
      assert s[..n] == [s[0], s[1]];
    }
    assert WrapperPrefix(t).value == s[..n];
    WrapperEmission(t, f, printer);
  }

  /** `()` and `[]` read as the empty list and vector, which print back as the same two
      characters. */
  lemma EmptyCollectionsRoundTrip(s: string, env: ReaderEnv, cx: Ctx, eof: Option<Form>, printer: Printer)
    requires |s| >= 2 && ((s[0] == '(' && s[1] == ')') || (s[0] == '[' && s[1] == ']'))
    requires env.readEval != EvalUnknown
    ensures ReadFirst(s, 0, env, cx, eof).Success? && ReadFirst(s, 0, env, cx, eof).value.pos == 2
    ensures Emit(ReadFirst(s, 0, env, cx, eof).value.value, printer) == Success(s[..2])
  {
    EmptyCollectionsRead(s, env, cx, eof);
    var v := if s[0] == '(' then PList([]) else PVector([]);
    assert Join(" ", [], printer) == Success("");
    assert Emit(v, printer) == Bracketed([s[0]], [], [s[1]], printer) == Success([s[0]] + "" + [s[1]]);
    assert s[..2] == [s[0]] + "" + [s[1]];
  }

  /** A line comment reads as the COMMENT element around its text, which prints back as `;` and
      exactly that text: everything read except the line end. */
  lemma CommentReadThenEmit(x: string, rest: string, env: ReaderEnv, cx: Ctx, eof: Option<Form>, printer: Printer)
    requires env.readEval != EvalUnknown
    requires forall i :: 0 <= i < |x| ==> x[i] != '\n' && x[i] != '\r'
    requires rest == [] || rest[0] == '\n' || rest[0] == '\r'
    ensures var r := ReadFirst(";" + x + rest, 0, env, cx, eof);
            && r.Success? && r.value.pos == (if rest == [] then |x| + 1 else |x| + 2)
            && Emit(r.value.value, printer) == Success(";" + x)
  {
    CommentLiteralReads(x, rest, env, cx, eof);
    assert Emit(Syntax(Comment, Str(x)), printer) == TypeStr(Comment, Str(x), printer);
  }

  /** The value printer writes a keyword as its colon and its text. */
  ghost predicate KeywordPrinter(printer: Printer) {
    forall k: Symbol {:trigger Kw(k)} :: printer(Kw(k)) == ":" + SymbolText(k)
  }

  /** A META element as MetaReader builds it prints `^`, the metadata form that was read, a
      space, and the form it applies to: whichever of tag, keyword or map the metadata was
      classified as. */
  lemma MetaEmission(m: Form, o: Form, printer: Printer)
    requires KeywordPrinter(printer) && MetaKind(m).Success?
    ensures var k := MetaKind(m).value;
            Emit(Syntax(Meta, MetaData(k.0, k.1, k.2, o)), printer) ==
            (var a :- Emit(m, printer); var b :- Emit(o, printer); Success("^" + a + " " + b))
  {
    var k := MetaKind(m).value;
    var e := MetaData(k.0, k.1, k.2, o);
    assert Emit(Syntax(Meta, e), printer) == TypeStr(Meta, e, printer);
    assert TypeStr(Meta, e, printer) == MetaStr(e, printer);
    if m.Kw? {
      assert printer(m) == ":" + SymbolText(m.kw);
      assert Emit(m, printer) == Success(printer(m));
      assert "^:" + SymbolText(m.kw) == "^" + (":" + SymbolText(m.kw));
    }
  }

  /** A META element with neither tag, keyword nor map cannot be printed. */
  lemma MetaNeedsContent(o: Form, printer: Printer)
    ensures Emit(Syntax(Meta, MetaData(Nil, Nil, Nil, o)), printer) == Failure(UnknownMeta)
  {
    assert Emit(Syntax(Meta, MetaData(Nil, Nil, Nil, o)), printer) == TypeStr(Meta, MetaData(Nil, Nil, Nil, o), printer);
    assert TypeStr(Meta, MetaData(Nil, Nil, Nil, o), printer) == MetaStr(MetaData(Nil, Nil, Nil, o), printer);
  }

  /** A CONDITIONAL element as ConditionalReader builds it prints `#?`, then `@` exactly when it
      splices, then its list. */
  lemma ConditionalEmission(splicing: bool, items: seq<Form>, printer: Printer)
    ensures Emit(Syntax(Conditional, CondData(splicing, PList(items))), printer) ==
            (var j :- Join(" ", items, printer); Success("#?" + (if splicing then "@" else "") + "(" + j + ")"))
  {
    var e := CondData(splicing, PList(items));
    assert Emit(Syntax(Conditional, e), printer) == TypeStr(Conditional, e, printer);
    assert Emit(PList(items), printer) == Bracketed("(", items, ")", printer);
    if Join(" ", items, printer).Success? {
      var j := Join(" ", items, printer).value;
      var at := if splicing then "@" else "";
      assert "#?" + at + ("(" + j + ")") == "#?" + at + "(" + j + ")";
    }
  }

  // ---------------------------------------------------------------- characters

  /** The six named characters print as a backslash and the name CharacterReader decodes back
      to the same character. */
  lemma CharNameRoundTrip(c: char)
    requires c in {'\n', ' ', '\t', '\U{0008}', '\U{000C}', '\r'}
    ensures CharStr(Str([c])).Success?
    ensures var t := CharStr(Str([c])).value;
            |t| >= 2 && t[0] == '\\' && CharOfToken(t[1..]) == Success(c)
  {
    var t := CharStr(Str([c])).value;
    if c == '\n' {
      assert t[1..] == "newline";
    } else if c == ' ' {
      assert t[1..] == "space";
    } else if c == '\t' {
      assert t[1..] == "tab";
    } else if c == '\U{0008}' {
      assert t[1..] == "backspace";
    } else if c == '\U{000C}' {
      assert t[1..] == "formfeed";
    } else {
      assert t[1..] == "return";
    }
  }

  /** A three-digit octal payload prints as `o` and the digits, with no backslash; that text,
      taken as the token after a backslash, decodes to the character with that code. */
  lemma OctalCharRoundTrip(d: string)
    requires |d| == 3 && (forall i :: 0 <= i < |d| ==> IsOctalDigit(d[i])) && DigitsValue(d, 8) <= 0377
    ensures CharStr(Str(d)) == Success("o" + d)
    ensures CharOfToken("o" + d).Success? && CharOfToken("o" + d).value as int == DigitsValue(d, 8)
  {
    OctalCharacter(d);
  }

  /** A four-digit hex payload prints as `u` and the digits, with no backslash; that text, taken
      as the token after a backslash, decodes to the character with that code unless it is a
      surrogate. */
  lemma UnicodeCharRoundTrip(h: string)
    requires |h| == 4 && AllDigits(h, 16) && !(0xD800 <= DigitsValue(h, 16) <= 0xDFFF)
    ensures CharStr(Str(h)) == Success("u" + h)
    ensures CharOfToken("u" + h).Success? && CharOfToken("u" + h).value as int == DigitsValue(h, 16)
  {
    UnicodeCharacter(h);
  }

  /** CHAR as written: the three-digit payload `d` prints as `o` + `d` and the four-digit one
      as `u` + `d`, with no backslash, so read takes the printed text back as a symbol. */
  lemma CharPrintReadsAsSymbol(d: string, env: ReaderEnv, cx: Ctx, eof: Option<Form>)
    requires env.readEval != EvalUnknown
    requires (|d| == 3 || |d| == 4) && AllDigits(d, 16)
    ensures CharStr(Str(d)).Success?
    ensures var t := CharStr(Str(d)).value;
            && t == (if |d| == 3 then "o" else "u") + d
            && ReadFirst(t, 0, env, cx, eof) == Success(Step(Sym(Symbol(None, t)), |t|))
  {
    var t := CharStr(Str(d)).value;
    var sym := Symbol(None, t);
    HexDigitsNoEnd(d);
    assert forall i :: 1 <= i < |t| ==> t[i] == d[i - 1];
    assert PlainSymbol(sym);
    assert t + [] == t;
    SymbolLiteralReads(sym, [], env, cx, eof);
  }

  /** The code a CHAR payload stands for: the character itself, or the value of its octal or
      hex digits. */
  function PayloadCode(d: string): int
    requires |d| >= 1
  {
    if |d| == 1 then d[0] as int
    else if |d| == 3 then DigitsValue(d, 8)
    else DigitsValue(d, 16)
  }

  /** CHAR as evidently intended: a payload of one character, of three octal digits up to 0377,
      or of four hex digits outside the surrogates prints as a character literal that read takes
      back as the character the payload stands for, ending where the literal ends. */
  lemma CharLiteralRoundTrip(d: string, rest: string, env: ReaderEnv, cx: Ctx, eof: Option<Form>)
    requires env.readEval != EvalUnknown
    requires || |d| == 1
             || (|d| == 3 && (forall i :: 0 <= i < 3 ==> IsOctalDigit(d[i])) && DigitsValue(d, 8) <= 0377)
             || (|d| == 4 && AllDigits(d, 16) && !(0xD800 <= DigitsValue(d, 16) <= 0xDFFF))
    requires rest == [] || EndsToken(rest[0])
    ensures CharStrIntended(Str(d)).Success?
    ensures var t := CharStrIntended(Str(d)).value;
            var r := ReadFirst(t + rest, 0, env, cx, eof);
            && r.Success? && r.value.pos == |t|
            && r.value.value.Syntax? && r.value.value.kind == Char
            && r.value.value.data.Character? && r.value.value.data.c as int == PayloadCode(d)
  {
    var c, tok := IntendedToken(d);
    CharLiteralReads(tok, rest, c, env, cx, eof);
  }

  /** The token after the backslash in the intended printer's text: it never ends early, and
      CharacterReader decodes it to the character the payload stands for. */
  lemma IntendedToken(d: string) returns (c: char, tok: string)
    requires || |d| == 1
             || (|d| == 3 && (forall i :: 0 <= i < 3 ==> IsOctalDigit(d[i])) && DigitsValue(d, 8) <= 0377)
             || (|d| == 4 && AllDigits(d, 16) && !(0xD800 <= DigitsValue(d, 16) <= 0xDFFF))
    ensures CharStrIntended(Str(d)) == Success("\\" + tok)
    ensures |tok| >= 1 && forall i :: 1 <= i < |tok| ==> !EndsToken(tok[i])
    ensures CharOfToken(tok) == Success(c) && c as int == PayloadCode(d)
  {
    if |d| == 1 && d[0] in {'\n', ' ', '\t', '\U{0008}', '\U{000C}', '\r'} {
      c := NamedToken(d[0]);
      assert d == [d[0]];
    } else if |d| == 1 {
      c := d[0];
    } else if |d| == 3 {
      c := OctalToken(d);
    } else {
      c := HexToken(d);
    }
    var t := CharStrIntended(Str(d)).value;
    tok := t[1..];
    assert t == "\\" + tok;
    assert forall i :: 1 <= i < |tok| ==> tok[i] == t[i + 1];
  }

  lemma NamedToken(x: char) returns (c: char)
    requires x in {'\n', ' ', '\t', '\U{0008}', '\U{000C}', '\r'}
    ensures CharStrIntended(Str([x])).Success?
    ensures var t := CharStrIntended(Str([x])).value;
            && |t| >= 2 && t[0] == '\\' && (forall i :: 2 <= i < |t| ==> !EndsToken(t[i]))
            && CharOfToken(t[1..]) == Success(c) && c == x
  {
    var t := CharStrIntended(Str([x])).value;
    CharNameRoundTrip(x);
    assert CharStr(Str([x])).value == t;
    if x == '\n' {
      assert t == "\\newline";
    } else if x == ' ' {
      assert t == "\\space";
    } else if x == '\t' {
      assert t == "\\tab";
    } else if x == '\U{0008}' {
      assert t == "\\backspace";
    } else if x == '\U{000C}' {
      assert t == "\\formfeed";
    } else {
      assert t == "\\return";
    }
    LowercaseNoEnd(t);
    c := x;
  }

  /** Hex digits never end a token, and are neither a colon nor a slash. */
  lemma HexDigitsNoEnd(d: string)
    requires AllDigits(d, 16)
    ensures forall i :: 0 <= i < |d| ==> !EndsToken(d[i]) && d[i] != ':' && d[i] != '/'
  {
    forall i | 0 <= i < |d|
      ensures !EndsToken(d[i]) && d[i] != ':' && d[i] != '/'
    {
      assert Digit(d[i], 16) >= 0;
    }
  }

  /** Lower-case ASCII letters never end a token. */
  lemma LowercaseNoEnd(t: string)
    requires forall i :: 2 <= i < |t| ==> 'a' <= t[i] <= 'z'
    ensures forall i :: 2 <= i < |t| ==> !EndsToken(t[i])
  {
  }

  lemma OctalToken(d: string) returns (c: char)
    requires |d| == 3 && (forall i :: 0 <= i < 3 ==> IsOctalDigit(d[i])) && DigitsValue(d, 8) <= 0377
    ensures CharStrIntended(Str(d)) == Success("\\o" + d)
    ensures var t := "\\o" + d;
            && (forall i :: 2 <= i < |t| ==> !EndsToken(t[i]))
            && CharOfToken(t[1..]) == Success(c) && c as int == DigitsValue(d, 8)
  {
    var t := "\\o" + d;
    assert t[1..] == "o" + d;
    OctalCharacter(d);
    c := CharOfToken(t[1..]).value;
  }

  lemma HexToken(d: string) returns (c: char)
    requires |d| == 4 && AllDigits(d, 16) && !(0xD800 <= DigitsValue(d, 16) <= 0xDFFF)
    ensures CharStrIntended(Str(d)) == Success("\\u" + d)
    ensures var t := "\\u" + d;
            && (forall i :: 2 <= i < |t| ==> !EndsToken(t[i]))
            && CharOfToken(t[1..]) == Success(c) && c as int == DigitsValue(d, 16)
  {
    var t := "\\u" + d;
    assert t[1..] == "u" + d;
    HexDigitsNoEnd(d);
    assert forall i :: 2 <= i < |t| ==> t[i] == d[i - 2];
    UnicodeCharacter(d);
    c := CharOfToken(t[1..]).value;
  }

  /** CharacterReader stores a boxed character, which the CHAR printer's cast to a string
      refuses: a character literal read by this reader does not print. */
  lemma ReadCharacterNotPrintable(c: char, printer: Printer)
    ensures Emit(Syntax(Char, Character(c)), printer) == Failure(ClassCast)
  {
  }

  // ---------------------------------------------------------------- var quotes

  /** As the source builds it, the VAR element's payload is the list `(var form)`, which the VAR
      printer writes in full after `#'`: `#'x` prints as `#'(var x)`, text that reads back as a
      different form. */
  lemma VarAsWrittenMisprints(f: Form, printer: Printer)
    requires f != CommaSyntax && Emit(f, printer).Success?
    ensures var e := Emit(f, printer).value;
            && Emit(Syntax(Var, VarPayloadAsWritten(f)), printer) == Success("#'(" + printer(Sym(VarSymbol)) + " " + e + ")")
            && Emit(Syntax(Var, VarPayloadAsWritten(f)), printer) != Success("#'" + e)
  {
    var e := Emit(f, printer).value;
    var items := [Sym(VarSymbol), f];
    var v := VarListJoin(f, printer);
    assert Emit(PList(items), printer) == Bracketed("(", items, ")", printer);
    assert Emit(Syntax(Var, PList(items)), printer) == TypeStr(Var, PList(items), printer);
    assert TypeStr(Var, PList(items), printer) == Success("#'" + ("(" + (v + " " + e) + ")"));
    assert "#'" + ("(" + (v + " " + e) + ")") == "#'(" + v + " " + e + ")";
    var t := "#'(" + printer(Sym(VarSymbol)) + " " + e + ")";
    assert |t| > |"#'" + e|;
  }

  /** From text: `#'` followed by a form reads, through `read`, as an element that prints as
      `#'(var x)` and not as the `#'x` it was read from. */
  lemma VarLiteralMisprints(s: string, env: ReaderEnv, cx: Ctx, eof: Option<Form>, printer: Printer)
    requires |s| >= 2 && s[0] == '#' && s[1] == '\''
    requires env.readEval != EvalUnknown && ReaderSpec.ReadForm(s, 2, env, cx).Success?
    requires var f := ReaderSpec.ReadForm(s, 2, env, cx).value.value;
             f != CommaSyntax && Emit(f, printer).Success?
    ensures var e := Emit(ReaderSpec.ReadForm(s, 2, env, cx).value.value, printer).value;
            && ReadFirst(s, 0, env, cx, eof).Success?
            && Emit(ReadFirst(s, 0, env, cx, eof).value.value, printer) == Success("#'(" + printer(Sym(VarSymbol)) + " " + e + ")")
            && Emit(ReadFirst(s, 0, env, cx, eof).value.value, printer) != Success(s[..2] + e)
  {
    VarLiteralReads(s, env, cx, eof);
    VarAsWrittenMisprints(ReaderSpec.ReadForm(s, 2, env, cx).value.value, printer);
    assert s[..2] == "#'";
  }

  /** The items of `(var f)`, joined by spaces. */
  lemma VarListJoin(f: Form, printer: Printer) returns (v: string)
    requires f != CommaSyntax && Emit(f, printer).Success?
    ensures v == printer(Sym(VarSymbol)) && Emit(Sym(VarSymbol), printer) == Success(v)
    ensures Join(" ", [Sym(VarSymbol), f], printer) == Success(v + " " + Emit(f, printer).value)
  {
    v := Emit(Sym(VarSymbol), printer).value;
    assert [Sym(VarSymbol), f] == [Sym(VarSymbol)] + [f];
    JoinSnoc(" ", [Sym(VarSymbol)], f, printer);
    JoinSingle(" ", Sym(VarSymbol), printer);
  }

  /** With the form itself as payload, a var quote prints `#'` followed by the form read. */
  lemma VarEmission(s: string, p: nat, env: ReaderEnv, cx: Ctx, printer: Printer)
    requires p <= |s| && ReaderSpec.ReadForm(s, p, env, cx).Success?
    ensures var f := ReaderSpec.ReadForm(s, p, env, cx).value.value;
            VarFIntended(s, p, env, cx).Success?
            && Emit(VarFIntended(s, p, env, cx).value.value, printer) == (var e :- Emit(f, printer); Success("#'" + e))
  {
  }

  /** The var quote the reader builds prints as `#'(var x)` and not as `#'x`. */
  lemma VarReadMisprints(s: string, p: nat, env: ReaderEnv, cx: Ctx, printer: Printer)
    requires p <= |s| && ReaderSpec.ReadForm(s, p, env, cx).Success?
    requires var f := ReaderSpec.ReadForm(s, p, env, cx).value.value;
             f != CommaSyntax && Emit(f, printer).Success?
    ensures var f := ReaderSpec.ReadForm(s, p, env, cx).value.value;
            var e := Emit(f, printer).value;
            && VarF(s, p, env, cx).Success?
            && Emit(VarF(s, p, env, cx).value.value, printer) == Success("#'(" + printer(Sym(VarSymbol)) + " " + e + ")")
            && Emit(VarF(s, p, env, cx).value.value, printer) != Success("#'" + e)
  {
    VarAsWrittenMisprints(ReaderSpec.ReadForm(s, p, env, cx).value.value, printer);
  }
}
