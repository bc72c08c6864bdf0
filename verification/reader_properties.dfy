/**
 * What the reader promises, stated over its specification: what `read` yields for wrapping,
 * empty collection, character and comment literals, and at and before the end of the input,
 * the map parity rule and how it differs from the reader-conditional rule, the validation of
 * reader conditionals, the refusal of nested `#(`, and literals that read back as the values they
 * spell.
 */
module ReaderProperties {
  import opened Wrappers
  import opened Chars
  import opened SyntaxElement
  import opened ReadErrors
  import opened SymbolGrammar
  import opened Scanners
  import opened ReaderSpec

  // ---------------------------------------------------------------- map literals

  /** The structural elements of a collection: everything but commas, comments and discards. */
  function NonSkippable(items: seq<Form>): (r: seq<Form>)
    ensures |r| <= |items|
  {
    if items == [] then []
    else (if IsSkippable(items[0]) then [] else [items[0]]) + NonSkippable(items[1..])
  }

  lemma {:induction false} NonSkippableAppend(items: seq<Form>, x: Form)
    ensures NonSkippable(items + [x]) == NonSkippable(items) + (if IsSkippable(x) then [] else [x])
    decreases |items|
  {
    if items == [] {
      assert [] + [x] == [x];
      assert [x][1..] == [];
    } else {
      var head := if IsSkippable(items[0]) then [] else [items[0]];
      var last := if IsSkippable(x) then [] else [x];
      assert (items + [x])[0] == items[0];
      assert (items + [x])[1..] == items[1..] + [x];
      NonSkippableAppend(items[1..], x);
      assert NonSkippable(items + [x]) == head + (NonSkippable(items[1..]) + last);
      FormsAssoc(head, NonSkippable(items[1..]), last);
    }
  }

  /** Concatenation of form sequences regroups. */
  lemma FormsAssoc(a: seq<Form>, b: seq<Form>, c: seq<Form>)
    ensures a + (b + c) == (a + b) + c
  {
  }

  /** The skipped count and the structural elements make up the whole collection. */
  lemma {:induction false} SkippedComplement(items: seq<Form>)
    ensures CountSkippable(items) + |NonSkippable(items)| == |items|
    decreases |items|
  {
    if items != [] {
      var init := items[..|items| - 1];
      var x := items[|items| - 1];
      assert items == init + [x];
      SkippedComplement(init);
      NonSkippableAppend(init, x);
    }
  }

  /** A map literal is accepted exactly when it has an even number of structural elements. */
  lemma MapParity(items: seq<Form>)
    ensures MapNode(items).Success? <==> |NonSkippable(items)| % 2 == 0
    ensures MapNode(items).Success? ==> MapNode(items).value == Syntax(Map, ArrayList(items))
  {
    SkippedComplement(items);
  }

  /** Adding a comma, a comment or a discarded form never changes whether a map is accepted. */
  lemma MapIgnoresSkippable(items: seq<Form>, x: Form)
    requires IsSkippable(x)
    ensures MapNode(items + [x]).Success? <==> MapNode(items).Success?
  {
    MapParity(items);
    MapParity(items + [x]);
    NonSkippableAppend(items, x);
  }

  // ---------------------------------------------------------------- reader conditionals

  /** The condition on one element of a reader conditional's list. */
  predicate PairElementOk(items: seq<Form>, splicing: bool, i: nat)
    requires i < |items|
  {
    && (i % 2 == 0 ==> items[i].Kw? && !Reserved(items[i].kw))
    && (i % 2 == 1 && splicing ==> IsJavaList(items[i]))
  }

  lemma {:induction false} CheckPairsFromOk(items: seq<Form>, splicing: bool, i: nat)
    requires i <= |items|
    ensures CheckPairsFrom(items, splicing, i).Success? <==>
            forall j :: i <= j < |items| ==> PairElementOk(items, splicing, j)
    decreases |items| - i
  {
    if i < |items| {
      CheckPairsFromOk(items, splicing, i + 1);
      assert CheckPairsFrom(items, splicing, i).Success? <==>
             PairElementOk(items, splicing, i) && CheckPairsFrom(items, splicing, i + 1).Success?;
      if PairElementOk(items, splicing, i) && CheckPairsFrom(items, splicing, i + 1).Success? {
        forall j | i <= j < |items|
          ensures PairElementOk(items, splicing, j)
        {
          if j > i {
            assert i + 1 <= j;
          }
        }
      }
    }
  }

  /** A reader conditional's list is accepted exactly when its total length, skippable elements
      included, is even, every even-index element is a keyword other than :else and :none, and,
      when splicing, every odd-index element is a list. */
  lemma ConditionalValidation(items: seq<Form>, splicing: bool)
    ensures CheckConditional(items, splicing).Success? <==>
            && |items| % 2 == 0
            && (forall i :: 0 <= i < |items| && i % 2 == 0 ==> items[i].Kw? && !Reserved(items[i].kw))
            && (splicing ==> forall i :: 0 <= i < |items| && i % 2 == 1 ==> IsJavaList(items[i]))
  {
    CheckPairsFromOk(items, splicing, 0);
    if CheckConditional(items, splicing).Success? {
      forall i | 0 <= i < |items| && i % 2 == 0
        ensures items[i].Kw? && !Reserved(items[i].kw)
      {
        assert PairElementOk(items, splicing, i);
      }
      if splicing {
        forall i | 0 <= i < |items| && i % 2 == 1
          ensures IsJavaList(items[i])
        {
          assert PairElementOk(items, splicing, i);
        }
      }
    } else if |items| % 2 == 0 {
      var j :| 0 <= j < |items| && !PairElementOk(items, splicing, j);
      assert j % 2 == 0 || j % 2 == 1;
    }
  }

  /** Unlike a map literal, a reader conditional counts its commas: a comma after an accepted
      list of pairs makes it odd, while the same comma leaves a map's acceptance unchanged. */
  lemma CommaCountsInConditional(items: seq<Form>, splicing: bool)
    requires CheckConditional(items, splicing).Success?
    ensures CheckConditional(items + [CommaSyntax], splicing) == Failure(OddConditionalForms)
    ensures MapNode(items + [CommaSyntax]).Success? <==> MapNode(items).Success?
  {
    MapIgnoresSkippable(items, CommaSyntax);
  }

  // ---------------------------------------------------------------- wrapping literals

  /** `'` or `@` followed by a form: read gives the QUOTE or DEREF element around that form,
      ending where the form ends. */
  lemma WrapperLiteralReads(s: string, t: Type, env: ReaderEnv, cx: Ctx, eof: Option<Form>)
    requires |s| >= 1 && ((s[0] == '\'' && t == Quote) || (s[0] == '@' && t == Deref))
    requires env.readEval != EvalUnknown && ReaderSpec.ReadForm(s, 1, env, cx).Success?
    ensures var f := ReaderSpec.ReadForm(s, 1, env, cx).value;
            ReadFirst(s, 0, env, cx, eof) == Success(Step(Syntax(t, f.value), f.pos))
  {
    var f := ReaderSpec.ReadForm(s, 1, env, cx).value;
    assert SkipWhitespace(s, 0) == 0;
    assert IsMacro(s[0]) && !IsDigit(s[0]);
    assert WrapF(s, 1, env, cx, t) == Success(Step(Syntax(t, f.value), f.pos));
    assert MacroF(s, 1, env, cx, s[0]) == Success(Step(Syntax(t, f.value), f.pos));
    assert ReadAt(s, 0, env, cx, eof.None?, None) == Success(Step(Value(Syntax(t, f.value)), f.pos));
  }

  /** `#` followed by a dispatch character, from the driver: read goes through the dispatch
      table with the cursor after that character. */
  lemma DispatchLiteral(s: string, env: ReaderEnv, cx: Ctx, eof: Option<Form>)
    requires |s| >= 2 && s[0] == '#' && IsDispatchMacro(s[1]) && env.readEval != EvalUnknown
    ensures ReadFirst(s, 0, env, cx, eof) == DispatchF(s, 1, env, cx)
  {
    assert SkipWhitespace(s, 0) == 0;
    assert IsMacro(s[0]) && !IsDigit(s[0]);
    var d := DispatchF(s, 1, env, cx);
    assert MacroF(s, 1, env, cx, '#') == d;
    if d.Success? {
      assert ReadAt(s, 0, env, cx, eof.None?, None) == Success(Step(Value(d.value.value), d.value.pos));
    } else {
      assert ReadAt(s, 0, env, cx, eof.None?, None) == Failure(d.error);
    }
  }

  /** `#_` or, when *read-eval* is true, `#=` followed by a form: read gives the DISCARD or EVAL
      element around that form, ending where the form ends. */
  lemma DispatchWrapperReads(s: string, t: Type, env: ReaderEnv, cx: Ctx, eof: Option<Form>)
    requires |s| >= 2 && s[0] == '#'
    requires (s[1] == '_' && t == Discard) || (s[1] == '=' && t == Eval && env.readEval == EvalTrue)
    requires env.readEval != EvalUnknown && ReaderSpec.ReadForm(s, 2, env, cx).Success?
    ensures var f := ReaderSpec.ReadForm(s, 2, env, cx).value;
            ReadFirst(s, 0, env, cx, eof) == Success(Step(Syntax(t, f.value), f.pos))
  {
    var f := ReaderSpec.ReadForm(s, 2, env, cx).value;
    assert IsDispatchMacro(s[1]);
    assert WrapF(s, 2, env, cx, t) == Success(Step(Syntax(t, f.value), f.pos));
    assert DispatchF(s, 1, env, cx) == Success(Step(Syntax(t, f.value), f.pos));
    DispatchLiteral(s, env, cx, eof);
  }

  /** With *read-eval* false, `#=` is refused before the form after it is read. */
  lemma EvalLiteralRefused(s: string, env: ReaderEnv, cx: Ctx, eof: Option<Form>)
    requires |s| >= 2 && s[0] == '#' && s[1] == '=' && env.readEval == EvalFalse
    ensures ReadFirst(s, 0, env, cx, eof) == Failure(EvalNotAllowed)
  {
    assert IsDispatchMacro(s[1]);
    assert DispatchF(s, 1, env, cx) == Failure(EvalNotAllowed);
    DispatchLiteral(s, env, cx, eof);
  }

  /** `#'` followed by a form: read gives the VAR element around the list of the symbol `var` and
      that form, ending where the form ends. */
  lemma VarLiteralReads(s: string, env: ReaderEnv, cx: Ctx, eof: Option<Form>)
    requires |s| >= 2 && s[0] == '#' && s[1] == '\''
    requires env.readEval != EvalUnknown && ReaderSpec.ReadForm(s, 2, env, cx).Success?
    ensures var f := ReaderSpec.ReadForm(s, 2, env, cx).value;
            ReadFirst(s, 0, env, cx, eof) == Success(Step(Syntax(Var, PList([Sym(VarSymbol), f.value])), f.pos))
  {
    var f := ReaderSpec.ReadForm(s, 2, env, cx).value;
    assert IsDispatchMacro(s[1]);
    assert DispatchF(s, 1, env, cx) == Success(Step(Syntax(Var, PList([Sym(VarSymbol), f.value])), f.pos));
    DispatchLiteral(s, env, cx, eof);
  }

  // ---------------------------------------------------------------- collection literals

  /** `()` and `[]` read as the empty persistent list and vector, whatever follows them. */
  lemma EmptyCollectionsRead(s: string, env: ReaderEnv, cx: Ctx, eof: Option<Form>)
    requires |s| >= 2 && ((s[0] == '(' && s[1] == ')') || (s[0] == '[' && s[1] == ']'))
    requires env.readEval != EvalUnknown
    ensures ReadFirst(s, 0, env, cx, eof) == Success(Step(if s[0] == '(' then PList([]) else PVector([]), 2))
  {
    var d := s[1];
    var v := if s[0] == '(' then PList([]) else PVector([]);
    assert SkipWhitespace(s, 1) == 1;
    assert ReadAt(s, 1, env, cx, false, Some(d)) == Success(Step(AtDelim, 2));
    assert DelimitedF(s, 1, env, cx, d, []) == Success(Step([], 2));
    assert IsMacro(s[0]) && !IsDigit(s[0]);
    assert MacroF(s, 1, env, cx, s[0]) == Success(Step(v, 2));
    assert SkipWhitespace(s, 0) == 0;
    assert ReadAt(s, 0, env, cx, eof.None?, None) == Success(Step(Value(v), 2));
  }

  // ---------------------------------------------------------------- the entry point

  /** At the end of the input (after whitespace), read yields the caller's eof value, or the EOF
      error when none was given. */
  lemma ReadFirstAtEnd(s: string, p: nat, env: ReaderEnv, cx: Ctx, eof: Option<Form>)
    requires p <= |s| && SkipWhitespace(s, p) == |s| && env.readEval != EvalUnknown
    ensures ReadFirst(s, p, env, cx, eof) == if eof.None? then Failure(EofWhileReading) else Success(Step(eof.value, |s|))
  {
    assert ReadF(s, p, env, cx, eof.None?, None) == ReadAt(s, |s|, env, cx, eof.None?, None);
  }

  /** Before the end of the input, the eof value plays no part: read is a nested read. */
  lemma ReadFirstBeforeEnd(s: string, p: nat, env: ReaderEnv, cx: Ctx, eof: Option<Form>)
    requires p <= |s| && SkipWhitespace(s, p) < |s|
    ensures ReadFirst(s, p, env, cx, eof) == ReadForm(s, p, env, cx)
  {
    var q := SkipWhitespace(s, p);
    assert ReadAt(s, q, env, cx, eof.None?, None) == ReadAt(s, q, env, cx, true, None);
  }

  // ---------------------------------------------------------------- function literals

  /** Inside a `#(`, the next form starting `#(` is refused before anything else is read. */
  lemma NestedFnRefused(s: string, p: nat, env: ReaderEnv, cx: Ctx, eofIsError: bool, returnOn: Option<char>)
    requires p <= |s| && env.readEval != EvalUnknown && cx.argEnv && returnOn != Some('#')
    requires var q := SkipWhitespace(s, p); q + 1 < |s| && s[q] == '#' && s[q + 1] == '('
    ensures ReadF(s, p, env, cx, eofIsError, returnOn) == Failure(NestedFnLiteral)
  {
    var q := SkipWhitespace(s, p);
    assert IsMacro('#') && !IsDigit('#') && IsDispatchMacro('(');
    assert FnF(s, q + 2, env, cx) == Failure(NestedFnLiteral);
    assert DispatchF(s, q + 1, env, cx) == Failure(NestedFnLiteral);
    assert MacroF(s, q + 1, env, cx, s[q]) == Failure(NestedFnLiteral);
    assert ReadAt(s, q, env, cx, eofIsError, returnOn) == Failure(NestedFnLiteral);
  }

  /** Outside a `#(`, a function literal is its list read with ARG_ENV bound, as an FN element. */
  lemma FnLiteral(s: string, p: nat, env: ReaderEnv, cx: Ctx)
    requires 0 < p <= |s| && s[p - 1] == '(' && !cx.argEnv
    requires ListF(s, p, env, cx.(argEnv := true)).Success? && env.readEval != EvalUnknown
    ensures FnF(s, p, env, cx) == Success(Step(Syntax(Fn, ListF(s, p, env, cx.(argEnv := true)).value.value),
                                               ListF(s, p, env, cx.(argEnv := true)).value.pos))
  {
    var inner := cx.(argEnv := true);
    var list := ListF(s, p, env, inner).value;
    assert SkipWhitespace(s, p - 1) == p - 1;
    assert IsMacro(s[p - 1]) && !IsDigit(s[p - 1]);
    assert MacroF(s, p, env, inner, '(') == Success(list);
    assert ReadAt(s, p - 1, env, inner, true, None) == Success(Step(Value(list.value), list.pos));
    assert ReadF(s, p - 1, env, inner, true, None) == Success(Step(Value(list.value), list.pos));
    assert ReaderSpec.ReadForm(s, p - 1, env, inner) == Success(list);
  }

  // ---------------------------------------------------------------- literals that read back

  /** A string literal reads back as the string it escapes. */
  lemma StringLiteralReads(x: string, rest: string, env: ReaderEnv, cx: Ctx, eof: Option<Form>)
    requires env.readEval != EvalUnknown
    ensures var s := "\"" + EscapeString(x) + "\"" + rest;
            ReadFirst(s, 0, env, cx, eof) == Success(Step(Str(x), |EscapeString(x)| + 2))
  {
    var e := EscapeString(x);
    var s := "\"" + e + "\"" + rest;
    StringBodyReads(s, x, rest);
    assert SkipWhitespace(s, 0) == 0;
    assert IsMacro(s[0]) && !IsDigit(s[0]);
    assert MacroF(s, 1, env, cx, s[0]) == Success(Step(Str(x), |e| + 2));
    assert ReadAt(s, 0, env, cx, eof.None?, None) == Success(Step(Value(Str(x)), |e| + 2));
  }

  /** The string reader, after the opening quote of an escaped string. */
  lemma StringBodyReads(s: string, x: string, rest: string)
    requires s == "\"" + EscapeString(x) + "\"" + rest
    ensures StringAt(s, 1) == Success(Step(x, |EscapeString(x)| + 2))
  {
    var e := EscapeString(x);
    assert s[1..1 + |e| + 1] == e + "\"";
    EscapedAtSlice(s, 1, x);
    StringRoundTripFrom(s, 1, x, "");
    assert "" + x == x;
  }

  /** `\` followed by a token CharacterReader decodes, closed by the end of the input or by a
      character that ends a token: read gives the CHAR element around that character, ending
      where the token ends. */
  lemma CharLiteralReads(tok: string, rest: string, c: char, env: ReaderEnv, cx: Ctx, eof: Option<Form>)
    requires env.readEval != EvalUnknown
    requires |tok| >= 1 && forall i :: 1 <= i < |tok| ==> !EndsToken(tok[i])
    requires rest == [] || EndsToken(rest[0])
    requires CharOfToken(tok) == Success(c)
    ensures ReadFirst("\\" + tok + rest, 0, env, cx, eof) == Success(Step(Syntax(Char, Character(c)), |tok| + 1))
  {
    var s := "\\" + tok + rest;
    var e := |tok| + 1;
    CharTokenAt(s, tok, rest, c);
    CharMacro(s, env, cx);
    assert SkipWhitespace(s, 0) == 0;
    assert IsMacro(s[0]) && !IsDigit(s[0]);
    assert ReadAt(s, 0, env, cx, eof.None?, None) == Success(Step(Value(Syntax(Char, Character(c))), e));
  }

  /** The `\\` entry of the macro table wraps the character reader's result in a CHAR element. */
  lemma CharMacro(s: string, env: ReaderEnv, cx: Ctx)
    requires 1 <= |s| && CharacterAt(s, 1).Success?
    ensures var c := CharacterAt(s, 1).value;
            MacroF(s, 1, env, cx, '\\') == Success(Step(Syntax(Char, Character(c.value)), c.pos))
  {
  }

  /** The character reader on such a text: the token after the backslash is exactly `tok`. */
  lemma CharTokenAt(s: string, tok: string, rest: string, c: char)
    requires s == "\\" + tok + rest
    requires |tok| >= 1 && forall i :: 1 <= i < |tok| ==> !EndsToken(tok[i])
    requires rest == [] || EndsToken(rest[0])
    requires CharOfToken(tok) == Success(c)
    ensures CharacterAt(s, 1) == Success(Step(c, |tok| + 1))
  {
    var e := |tok| + 1;
    assert forall i :: 2 <= i < e ==> s[i] == tok[i - 1];
    if rest != [] {
      assert s[e] == rest[0];
    }
    TokenEndAt(s, 2, e);
    assert s[1..e] == tok;
  }

  // ---------------------------------------------------------------- comments

  /** `;` and a text free of line ends, closed by a line end or the end of the input: read gives
      the COMMENT element around exactly that text, with the line end consumed. */
  lemma CommentLiteralReads(x: string, rest: string, env: ReaderEnv, cx: Ctx, eof: Option<Form>)
    requires env.readEval != EvalUnknown
    requires forall i :: 0 <= i < |x| ==> x[i] != '\n' && x[i] != '\r'
    requires rest == [] || rest[0] == '\n' || rest[0] == '\r'
    ensures ReadFirst(";" + x + rest, 0, env, cx, eof)
            == Success(Step(Syntax(Comment, Str(x)), if rest == [] then |x| + 1 else |x| + 2))
  {
    var s := ";" + x + rest;
    var e := |x| + 1;
    var end := if rest == [] then e else e + 1;
    assert forall i :: 1 <= i < e ==> s[i] == x[i - 1];
    if rest != [] {
      assert s[e] == rest[0];
    }
    assert CommentEnd(s, 1) == e;
    assert s[1..e] == x;
    assert CommentAt(s, 1) == Step(x, end);
    assert SkipWhitespace(s, 0) == 0;
    assert IsMacro(s[0]) && !IsDigit(s[0]);
    assert MacroF(s, 1, env, cx, ';') == Success(Step(Syntax(Comment, Str(x)), end));
    assert ReadAt(s, 0, env, cx, eof.None?, None) == Success(Step(Value(Syntax(Comment, Str(x))), end));
  }

  /** The characters a symbol's text can start with when it is to read as a token. */
  predicate TokenStart(t: string)
    requires |t| >= 1
  {
    && !IsWhitespace(t[0]) && !IsDigit(t[0]) && !IsMacro(t[0])
    && !((t[0] == '+' || t[0] == '-') && |t| >= 2 && IsDigit(t[1]))
  }

  /** A plain symbol's text, followed by the end of the input or by a character that ends a
      token, reads back as the symbol. */
  lemma SymbolLiteralReads(sym: Symbol, rest: string, env: ReaderEnv, cx: Ctx, eof: Option<Form>)
    requires env.readEval != EvalUnknown
    requires PlainSymbol(sym) && SymbolText(sym) !in {"nil", "true", "false"}
    requires TokenStart(SymbolText(sym)) && forall i :: 0 <= i < |SymbolText(sym)| ==> !EndsToken(SymbolText(sym)[i])
    requires rest == [] || EndsToken(rest[0])
    ensures ReadFirst(SymbolText(sym) + rest, 0, env, cx, eof) == Success(Step(Sym(sym), |SymbolText(sym)|))
  {
    var t := SymbolText(sym);
    var s := t + rest;
    SymbolRoundTrip(sym, env.ns);
    TokenAtom(t, rest, env.ns);
    assert s[0] == t[0];
    assert SkipWhitespace(s, 0) == 0;
    assert ReadAt(s, 0, env, cx, eof.None?, None) == Success(Step(Value(Sym(sym)), |t|));
  }

  /** The token case of the driver on a text that is one token by itself. */
  lemma TokenAtom(t: string, rest: string, ns: NsEnv)
    requires |t| >= 1 && TokenStart(t) && forall i :: 0 <= i < |t| ==> !EndsToken(t[i])
    requires rest == [] || EndsToken(rest[0])
    requires InterpretToken(t, ns).Success?
    ensures AtomAt(t + rest, 0, ns) == Success(Step(InterpretToken(t, ns).value, |t|))
  {
    var s := t + rest;
    assert s[0] == t[0];
    if |t| == 1 && rest != [] {
      assert s[1] == rest[0];
      assert !IsDigit(s[1]);
    } else if |t| >= 2 {
      assert s[1] == t[1];
    }
    TokenEndAt(s, 1, |t|);
    assert s[0..|t|] == t;
  }

  /** A run of characters that do not end a token, followed by the end or a character that does,
      is one token. */
  lemma {:induction false} TokenEndAt(s: string, p: nat, j: nat)
    requires p <= j <= |s|
    requires forall i :: p <= i < j ==> !EndsToken(s[i])
    requires j == |s| || EndsToken(s[j])
    ensures TokenEnd(s, p) == j
    decreases j - p
  {
    if p < j {
      TokenEndAt(s, p + 1, j);
    }
  }
}
