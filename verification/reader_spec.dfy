/**
 * The reader as functions of the input text and a cursor position: what one call of `read`
 * returns and where it leaves the cursor, for the driver and for every reader macro.
 *
 * The thread bindings the macros push (ARG_ENV, READ_COND_ENV, GENSYM_ENV) are the `Ctx` value
 * handed down to nested reads; the reader options and the runtime the reader consults (the
 * *read-eval* and *suppress-read* vars, the namespace environment, the data readers and the
 * record classes) are the `ReaderEnv` parameter. The imperative reader (module LispReader) is
 * proved to agree with these functions.
 */
module ReaderSpec {
  import opened Wrappers
  import opened Chars
  import opened SyntaxElement
  import opened ReadErrors
  import opened NumberGrammar
  import opened SymbolGrammar
  import opened Scanners

  /** The :read-cond reader option. */
  datatype CondMode = CondAbsent | CondAllow | CondPreserve

  /** The value of *read-eval*. */
  datatype ReadEval = EvalTrue | EvalFalse | EvalUnknown

  /** What a data reader or a record constructor does: return a value (possibly null) or throw. */
  datatype HostResult = Built(value: Form) | Raised(message: string)

  /** The runtime behind the constructor reader: the data reader for a tag (from *data-readers*,
      then the default data readers, then *default-data-reader-fn*; None when there is none), the
      record classes that can be loaded, and the record construction itself. */
  datatype Runtime = Runtime(
    tagged: (Symbol, Form) -> Option<HostResult>,
    recordClass: Symbol -> bool,
    construct: (Symbol, Form) -> HostResult)

  datatype ReaderEnv = ReaderEnv(
    readCond: CondMode,
    readEval: ReadEval,
    suppressRead: bool,
    ns: NsEnv,
    runtime: Runtime)

  /** Whether ARG_ENV, READ_COND_ENV and GENSYM_ENV are bound to a non-null, true value. */
  datatype Ctx = Ctx(argEnv: bool, readCondEnv: bool, gensymEnv: bool)

  /** The bindings outside every reader macro. */
  const RootCtx: Ctx := Ctx(false, false, false)

  /** What a call of the driver yields: a form, the end of the input (the caller's eofValue), or
      the delimiter it was told to return on (the caller's returnOnValue). */
  datatype Got = Value(form: Form) | AtEof | AtDelim

  /** The first position at or after `p` whose character is not whitespace, or the end. */
  function SkipWhitespace(s: string, p: nat): (q: nat)
    requires p <= |s|
    ensures p <= q <= |s|
    ensures forall i :: p <= i < q ==> IsWhitespace(s[i])
    ensures q < |s| ==> !IsWhitespace(s[q])
    decreases |s| - p
  {
    if p < |s| && IsWhitespace(s[p]) then SkipWhitespace(s, p + 1) else p
  }

  // ---------------------------------------------------------------- the driver

  /** The driver: refuse when *read-eval* is :unknown, skip whitespace, and go on from the first
      character that is not whitespace. A read that yields a form or the delimiter has consumed at
      least one character. */
  function ReadF(s: string, p: nat, env: ReaderEnv, cx: Ctx, eofIsError: bool, returnOn: Option<char>)
    : (r: Result<Step<Got>, ReadError>)
    requires p <= |s|
    ensures r.Success? ==> p <= r.value.pos <= |s|
    ensures r.Success? && !r.value.value.AtEof? ==> p < r.value.pos
    ensures r.Success? && eofIsError ==> !r.value.value.AtEof?
    ensures r.Success? && returnOn.None? ==> !r.value.value.AtDelim?
    decreases |s| - p, 1
  {
    if env.readEval == EvalUnknown then Failure(ReadingDisallowed)
    else ReadAt(s, SkipWhitespace(s, p), env, cx, eofIsError, returnOn)
  }

  /** The driver from the first character `s[q]` that is not whitespace: end of input, the
      delimiter, a number, a macro character, a signed number, or a token. No reader macro of
      this reader returns the reader itself, so the driver's `continue` is never taken. */
  function ReadAt(s: string, q: nat, env: ReaderEnv, cx: Ctx, eofIsError: bool, returnOn: Option<char>)
    : (r: Result<Step<Got>, ReadError>)
    requires q <= |s|
    ensures r.Success? ==> q <= r.value.pos <= |s|
    ensures r.Success? && !r.value.value.AtEof? ==> q < r.value.pos
    ensures r.Success? && r.value.value.AtEof? ==> !eofIsError && q == |s|
    ensures r.Success? && returnOn.None? ==> !r.value.value.AtDelim?
    decreases |s| - q, 0
  {
    if q == |s| then
      if eofIsError then Failure(EofWhileReading) else Success(Step(AtEof, q))
    else
      var ch := s[q];
      if returnOn == Some(ch) then Success(Step(AtDelim, q + 1))
      else if IsDigit(ch) then
        var n :- NumberAt(s, q + 1, ch);
        Success(Step(Value(Num(n.value)), n.pos))
      else if IsMacro(ch) then
        var m :- MacroF(s, q + 1, env, cx, ch);
        Success(Step(Value(m.value), m.pos))
      else
        var a :- AtomAt(s, q, env.ns);
        Success(Step(Value(a.value), a.pos))
  }

  /** The driver on a character `s[q]` that is none of the above: a sign followed by a digit
      starts a number, anything else starts a token. */
  function AtomAt(s: string, q: nat, ns: NsEnv): (r: Result<Step<Form>, ReadError>)
    requires q < |s|
    ensures r.Success? ==> q < r.value.pos <= |s|
  {
    var ch := s[q];
    if (ch == '+' || ch == '-') && q + 1 < |s| && IsDigit(s[q + 1]) then
      var n :- NumberAt(s, q + 1, ch);
      Success(Step(Num(n.value), n.pos))
    else
      var e := TokenEnd(s, q + 1);
      var f :- InterpretToken(s[q..e], ns);
      Success(Step(f, e))
  }

  /** A nested `read(r, true, null, true, ...)`: end of input is an error and there is no
      delimiter, so the driver yields a form. */
  function ReadForm(s: string, p: nat, env: ReaderEnv, cx: Ctx): (r: Result<Step<Form>, ReadError>)
    requires p <= |s|
    ensures r.Success? ==> p < r.value.pos <= |s|
    decreases |s| - p, 2
  {
    var st :- ReadF(s, p, env, cx, true, None);
    if st.value.Value? then Success(Step(st.value.form, st.pos)) else Failure(EofWhileReading)
  }

  /** readDelimitedList from `p`, with `acc` read so far: forms up to the delimiter. */
  function DelimitedF(s: string, p: nat, env: ReaderEnv, cx: Ctx, delim: char, acc: seq<Form>)
    : (r: Result<Step<seq<Form>>, ReadError>)
    requires p <= |s|
    ensures r.Success? ==> p < r.value.pos <= |s|
    decreases |s| - p, 3
  {
    var st :- ReadF(s, p, env, cx, false, Some(delim));
    match st.value
    case AtEof => Failure(EofWhileReading)
    case AtDelim => Success(Step(acc, st.pos))
    case Value(f) => DelimitedF(s, st.pos, env, cx, delim, acc + [f])
  }

  // ---------------------------------------------------------------- the macro table

  /** The reader macro for `ch`, the cursor just after it. */
  function MacroF(s: string, p: nat, env: ReaderEnv, cx: Ctx, ch: char): (r: Result<Step<Form>, ReadError>)
    requires p <= |s| && IsMacro(ch)
    ensures r.Success? ==> p <= r.value.pos <= |s|
    decreases |s| - p, 6
  {
    match ch
    case '"' =>
      var st :- StringAt(s, p);
      Success(Step(Str(st.value), st.pos))
    case ';' =>
      var c := CommentAt(s, p);
      Success(Step(Syntax(Comment, Str(c.value)), c.pos))
    case ',' => Success(Step(CommaSyntax, p))
    case '\'' => WrapF(s, p, env, cx, Quote)
    case '@' => WrapF(s, p, env, cx, Deref)
    case '^' => MetaF(s, p, env, cx)
    case '`' => SyntaxQuoteF(s, p, env, cx)
    case '~' => UnquoteF(s, p, env, cx)
    case '(' => ListF(s, p, env, cx)
    case '[' => VectorF(s, p, env, cx)
    case '{' => MapF(s, p, env, cx)
    case ')' => Failure(UnmatchedDelimiter(ch))
    case ']' => Failure(UnmatchedDelimiter(ch))
    case '}' => Failure(UnmatchedDelimiter(ch))
    case '\\' =>
      var c :- CharacterAt(s, p);
      Success(Step(Syntax(Char, Character(c.value)), c.pos))
    case '%' =>
      var e := TokenEnd(s, p);
      var f :- InterpretToken("%" + s[p..e], env.ns);
      Success(Step(Syntax(Arg, f), e))
    case '#' => DispatchF(s, p, env, cx)
  }

  /** WrappingReader, DiscardReader: the next form under the element type `t`. */
  function WrapF(s: string, p: nat, env: ReaderEnv, cx: Ctx, t: Type): (r: Result<Step<Form>, ReadError>)
    requires p <= |s|
    ensures r.Success? ==> p < r.value.pos <= |s| && r.value.value.Syntax? && r.value.value.kind == t
    decreases |s| - p, 3
  {
    var f :- ReadForm(s, p, env, cx);
    Success(Step(Syntax(t, f.value), f.pos))
  }

  /** ListReader: the forms up to ')' as a persistent list (the empty list when there are none). */
  function ListF(s: string, p: nat, env: ReaderEnv, cx: Ctx): (r: Result<Step<Form>, ReadError>)
    requires p <= |s|
    ensures r.Success? ==> p < r.value.pos <= |s| && r.value.value.PList?
    decreases |s| - p, 4
  {
    var items :- DelimitedF(s, p, env, cx, ')', []);
    Success(Step(PList(items.value), items.pos))
  }

  /** VectorReader: the forms up to ']' as a persistent vector. */
  function VectorF(s: string, p: nat, env: ReaderEnv, cx: Ctx): (r: Result<Step<Form>, ReadError>)
    requires p <= |s|
    ensures r.Success? ==> p < r.value.pos <= |s| && r.value.value.PVector?
    decreases |s| - p, 4
  {
    var items :- DelimitedF(s, p, env, cx, ']', []);
    Success(Step(PVector(items.value), items.pos))
  }

  /** MapReader: the forms up to '}' as a MAP element, if their count passes `MapNode`. */
  function MapF(s: string, p: nat, env: ReaderEnv, cx: Ctx): (r: Result<Step<Form>, ReadError>)
    requires p <= |s|
    ensures r.Success? ==> p < r.value.pos <= |s|
    decreases |s| - p, 4
  {
    var items :- DelimitedF(s, p, env, cx, '}', []);
    var m :- MapNode(items.value);
    Success(Step(m, items.pos))
  }

  /** SetReader, the cursor after `#{`: the forms up to '}' as a SET element, duplicates and all. */
  function SetF(s: string, p: nat, env: ReaderEnv, cx: Ctx): (r: Result<Step<Form>, ReadError>)
    requires p <= |s|
    ensures r.Success? ==> p < r.value.pos <= |s|
    decreases |s| - p, 4
  {
    var items :- DelimitedF(s, p, env, cx, '}', []);
    Success(Step(Syntax(Set, ArrayList(items.value)), items.pos))
  }

  /** MapReader's check on the forms between the braces: an even number of them once the
      skippable elements (commas, comments, discarded forms) are left out. */
  function MapNode(items: seq<Form>): (r: Result<Form, ReadError>)
    ensures r.Success? ==> r.value == Syntax(Map, ArrayList(items))
    ensures r.Failure? ==> r.error == MapOddForms
  {
    if (|items| - CountSkippable(items)) % 2 == 1 then Failure(MapOddForms)
    else Success(Syntax(Map, ArrayList(items)))
  }

  /** The number of skippable elements in `items`. */
  function CountSkippable(items: seq<Form>): (n: nat)
    ensures n <= |items|
  {
    if items == [] then 0
    else CountSkippable(items[..|items| - 1]) + (if IsSkippable(items[|items| - 1]) then 1 else 0)
  }

  /** MetaReader's classification of the metadata form: the `:tag` entry for a symbol or a
      string, the `:keyword` entry for a keyword, the `:map` entry for a persistent map; anything
      else is refused. The
      result lists the tag, the keyword and the map, with null for the absent ones. */
  function MetaKind(m: Form): (r: Result<(Form, Form, Form), ReadError>)
    ensures r.Success? <==> m.Sym? || m.Str? || m.Kw? || IsPersistentMap(m)
    ensures r.Failure? ==> r.error == BadMetadata
  {
    if m.Sym? || m.Str? then Success((m, Nil, Nil))
    else if m.Kw? then Success((Nil, m, Nil))
    else if IsPersistentMap(m) then Success((Nil, Nil, m))
    else Failure(BadMetadata)
  }

  /** MetaReader: the metadata form, then the form it applies to, which must accept metadata. */
  function MetaF(s: string, p: nat, env: ReaderEnv, cx: Ctx): (r: Result<Step<Form>, ReadError>)
    requires p <= |s|
    ensures r.Success? ==> p < r.value.pos <= |s|
    decreases |s| - p, 4
  {
    var m :- ReadForm(s, p, env, cx);
    var kind :- MetaKind(m.value);
    var o :- ReadForm(s, m.pos, env, cx);
    if IsIMeta(o.value) then
      Success(Step(Syntax(Meta, MetaData(kind.0, kind.1, kind.2, o.value)), o.pos))
    else Failure(MetadataTarget)
  }

  /** The symbol clojure.core/unquote-splicing. */
  const UnquoteSplicingSymbol: Symbol := Symbol(Some("clojure.core"), "unquote-splicing")

  /** isUnquoteSplicing: a sequence whose first element is clojure.core/unquote-splicing. */
  predicate IsUnquoteSplicing(f: Form) {
    f.PList? && |f.items| > 0 && f.items[0] == Sym(UnquoteSplicingSymbol)
  }

  /** SyntaxQuoteReader.syntaxQuote: keywords, numbers, characters and strings stand for
      themselves; any other form is wrapped in a SYNTAX_QUOTE element; a form that is an
      unquote-splicing call outside a list is refused. */
  function SyntaxQuoteForm(f: Form): (r: Result<Form, ReadError>)
    ensures IsUnquoteSplicing(f) <==> r == Failure(SpliceNotInList)
    ensures r.Success? && (f.Kw? || f.Num? || f.Character? || f.Str?) ==> r.value == f
    ensures r.Success? && !(f.Kw? || f.Num? || f.Character? || f.Str?) ==> r.value == Syntax(SyntaxQuote, f)
  {
    if IsUnquoteSplicing(f) then Failure(SpliceNotInList)
    else if f.Kw? || f.Num? || f.Character? || f.Str? then Success(f)
    else Success(Syntax(SyntaxQuote, f))
  }

  /** SyntaxQuoteReader: the next form read with GENSYM_ENV bound, then syntax-quoted. */
  function SyntaxQuoteF(s: string, p: nat, env: ReaderEnv, cx: Ctx): (r: Result<Step<Form>, ReadError>)
    requires p <= |s|
    ensures r.Success? ==> p < r.value.pos <= |s|
    decreases |s| - p, 4
  {
    var f :- ReadForm(s, p, env, cx.(gensymEnv := true));
    var q :- SyntaxQuoteForm(f.value);
    Success(Step(q, f.pos))
  }

  /** UnquoteReader: `~@form` or `~form`. */
  function UnquoteF(s: string, p: nat, env: ReaderEnv, cx: Ctx): (r: Result<Step<Form>, ReadError>)
    requires p <= |s|
    ensures r.Success? ==> p < r.value.pos <= |s|
    decreases |s| - p, 4
  {
    if p == |s| then Failure(EofWhileReadingCharacter)
    else if s[p] == '@' then WrapF(s, p + 1, env, cx, UnquoteSplicing)
    else WrapF(s, p, env, cx, Unquote)
  }

  // ---------------------------------------------------------------- the dispatch table

  /** DispatchReader, the cursor after '#': the dispatch macro for the next character, or the
      constructor reader from that character on when there is none. A character outside the
      256-entry table indexes past its end. */
  function DispatchF(s: string, p: nat, env: ReaderEnv, cx: Ctx): (r: Result<Step<Form>, ReadError>)
    requires p <= |s|
    ensures r.Success? ==> p < r.value.pos <= |s|
    decreases |s| - p, 5
  {
    if p == |s| then Failure(EofWhileReadingCharacter)
    else
      var ch := s[p];
      if ch as int >= 256 then Failure(DispatchIndexOutOfRange(ch))
      else if IsDispatchMacro(ch) then
        match ch
        case '^' => MetaF(s, p + 1, env, cx)
        case '\'' => VarF(s, p + 1, env, cx)
        case '"' =>
          var b :- RegexAt(s, p + 1);
          Success(Step(Regex(b.value), b.pos))
        case '(' => FnF(s, p + 1, env, cx)
        case '{' => SetF(s, p + 1, env, cx)
        case '=' => EvalF(s, p + 1, env, cx)
        case '!' =>
          var c := CommentAt(s, p + 1);
          Success(Step(Syntax(MComment, Str(c.value)), c.pos))
        case '<' => Failure(UnreadableForm)
        case '_' => WrapF(s, p + 1, env, cx, Discard)
        case '?' => ConditionalF(s, p + 1, env, cx)
      else
        var c :- CtorF(s, p, env, cx);
        if c.value == Nil then Failure(NoDispatchMacro(ch)) else Success(c)
  }

  /** The symbol `var`. */
  const VarSymbol: Symbol := Symbol(None, "var")

  /** VarReader's payload as the source builds it: the list `(var form)`. */
  function VarPayloadAsWritten(f: Form): (r: Form)
    ensures r.PList? && |r.items| == 2 && r.items[0] == Sym(VarSymbol) && r.items[1] == f
  {
    PList([Sym(VarSymbol), f])
  }

  /** VarReader: `#'form`, the VAR element around the list `(var form)`, as the source builds it
      (the VAR printer then writes that list in full; see the Findings of this model). */
  function VarF(s: string, p: nat, env: ReaderEnv, cx: Ctx): (r: Result<Step<Form>, ReadError>)
    requires p <= |s|
    ensures r.Success? ==> p < r.value.pos <= |s|
    decreases |s| - p, 4
  {
    var f :- ReadForm(s, p, env, cx);
    Success(Step(Syntax(Var, VarPayloadAsWritten(f.value)), f.pos))
  }

  /** VarReader as its printer expects it: the form itself as the VAR element's payload. */
  function VarFIntended(s: string, p: nat, env: ReaderEnv, cx: Ctx): (r: Result<Step<Form>, ReadError>)
    requires p <= |s|
    ensures ReadForm(s, p, env, cx).Failure? ==> r == Failure(ReadForm(s, p, env, cx).error)
    ensures ReadForm(s, p, env, cx).Success? ==>
              r == Success(Step(Syntax(Var, ReadForm(s, p, env, cx).value.value), ReadForm(s, p, env, cx).value.pos))
  {
    var f :- ReadForm(s, p, env, cx);
    Success(Step(Syntax(Var, f.value), f.pos))
  }

  /** EvalReader: refused unless *read-eval* is true. */
  function EvalF(s: string, p: nat, env: ReaderEnv, cx: Ctx): (r: Result<Step<Form>, ReadError>)
    requires p <= |s|
    ensures env.readEval == EvalFalse ==> r == Failure(EvalNotAllowed)
    ensures r.Success? ==> p < r.value.pos <= |s|
    decreases |s| - p, 4
  {
    if env.readEval == EvalFalse then Failure(EvalNotAllowed)
    else WrapF(s, p, env, cx, Eval)
  }

  /** FnReader, the cursor after `#(`: refused inside another `#(`; otherwise the list that starts
      at the pushed-back '(' is read with ARG_ENV bound. */
  function FnF(s: string, p: nat, env: ReaderEnv, cx: Ctx): (r: Result<Step<Form>, ReadError>)
    requires 0 < p <= |s| && s[p - 1] == '('
    ensures cx.argEnv ==> r == Failure(NestedFnLiteral)
    ensures r.Success? ==> p <= r.value.pos <= |s|
    decreases |s| - p + 1, 3
  {
    if cx.argEnv then Failure(NestedFnLiteral)
    else
      var f :- ReadForm(s, p - 1, env, cx.(argEnv := true));
      Success(Step(Syntax(Fn, f.value), f.pos))
  }

  /** CtorReader, the cursor on the character after '#': the tag symbol, then the form; a tagged
      literal when conditionals are preserved or reads suppressed, else a record (a tag with a
      '.') or the data reader's value. */
  function CtorF(s: string, p: nat, env: ReaderEnv, cx: Ctx): (r: Result<Step<Form>, ReadError>)
    requires p <= |s|
    ensures r.Success? ==> p < r.value.pos <= |s|
    decreases |s| - p, 4
  {
    var n :- ReadForm(s, p, env, cx);
    if !n.value.Sym? then Failure(TagNotSymbol)
    else
      var tag := n.value.sym;
      var f :- ReadForm(s, n.pos, env, cx);
      var built :- if (cx.readCondEnv && env.readCond == CondPreserve) || env.suppressRead then Success(Tagged(tag, f.value))
                   else if '.' in tag.name then ReadRecord(f.value, tag, env)
                   else ReadTagged(f.value, tag, env);
      Success(Step(built, f.pos))
  }

  /** readTagged: the data reader's value, or an error when the tag has no reader. */
  function ReadTagged(f: Form, tag: Symbol, env: ReaderEnv): (r: Result<Form, ReadError>)
    ensures env.runtime.tagged(tag, f).None? <==> r == Failure(NoReaderFunction(tag))
    ensures env.runtime.tagged(tag, f).Some? && env.runtime.tagged(tag, f).value.Built? ==>
              r == Success(env.runtime.tagged(tag, f).value.value)
    ensures env.runtime.tagged(tag, f).Some? && env.runtime.tagged(tag, f).value.Raised? ==>
              r == Failure(Collaborator(env.runtime.tagged(tag, f).value.message))
  {
    match env.runtime.tagged(tag, f)
    case None => Failure(NoReaderFunction(tag))
    case Some(Built(v)) => Success(v)
    case Some(Raised(m)) => Failure(Collaborator(m))
  }

  /** Every key of a persistent map is a keyword. */
  predicate KeywordKeys(f: Form)
    requires IsPersistentMap(f)
  {
    match f
    case PMap(entries) => forall i :: 0 <= i < |entries| && i % 2 == 0 ==> entries[i].Kw?
    case _ => true
  }

  /** readRecord: only when *read-eval* is true, for a loadable class, from a map with keyword
      keys or from a vector. */
  function ReadRecord(f: Form, name: Symbol, env: ReaderEnv): (r: Result<Form, ReadError>)
    ensures env.readEval == EvalFalse ==> r == Failure(RecordNotAllowed)
    ensures env.readEval != EvalFalse && !env.runtime.recordClass(name) ==> r == Failure(ClassNotFound(name))
    ensures env.readEval != EvalFalse && env.runtime.recordClass(name) && !IsPersistentMap(f) && !f.PVector? ==>
              r == Failure(UnreadableConstructor(name))
    ensures env.readEval != EvalFalse && env.runtime.recordClass(name) && IsPersistentMap(f) && !KeywordKeys(f) ==>
              r == Failure(RecordKeyNotKeyword)
    ensures env.readEval != EvalFalse && env.runtime.recordClass(name) && ((IsPersistentMap(f) && KeywordKeys(f)) || f.PVector?) ==>
              r == Built(env.runtime.construct(name, f))
    ensures r.Success? ==> (IsPersistentMap(f) && KeywordKeys(f)) || f.PVector?
  {
    if env.readEval == EvalFalse then Failure(RecordNotAllowed)
    else if !env.runtime.recordClass(name) then Failure(ClassNotFound(name))
    else if IsPersistentMap(f) then
      if !KeywordKeys(f) then Failure(RecordKeyNotKeyword)
      else Built(env.runtime.construct(name, f))
    else if f.PVector? then Built(env.runtime.construct(name, f))
    else Failure(UnreadableConstructor(name))
  }

  /** A collaborator's outcome as a read result. */
  function Built(h: HostResult): (r: Result<Form, ReadError>)
    ensures h.Built? <==> r.Success?
  {
    match h
    case Built(v) => Success(v)
    case Raised(m) => Failure(Collaborator(m))
  }

  // ---------------------------------------------------------------- reader conditionals

  /** The feature names a conditional may not use. */
  predicate Reserved(k: Symbol) {
    k == Symbol(None, "else") || k == Symbol(None, "none")
  }

  /** ConditionalReader's check of the forms between the parentheses, from index `i` on: a
      keyword that is not reserved at every even index and, when splicing, a list at every odd
      index. The first offending index decides the error. */
  function CheckPairsFrom(items: seq<Form>, splicing: bool, i: nat): (r: Result<(), ReadError>)
    requires i <= |items|
    decreases |items| - i
  {
    if i == |items| then Success(())
    else if i % 2 == 0 && !items[i].Kw? then Failure(ConditionNotKeyword)
    else if i % 2 == 0 && Reserved(items[i].kw) then Failure(ReservedFeature(items[i].kw))
    else if i % 2 == 1 && splicing && !IsJavaList(items[i]) then Failure(SplicedNotList)
    else CheckPairsFrom(items, splicing, i + 1)
  }

  /** The whole check: an even number of forms, then the pairs. */
  function CheckConditional(items: seq<Form>, splicing: bool): Result<(), ReadError> {
    if |items| % 2 != 0 then Failure(OddConditionalForms) else CheckPairsFrom(items, splicing, 0)
  }

  /** ConditionalReader, the cursor after `#?`: only when :read-cond is :allow or :preserve; an
      optional '@', whitespace, then a list read with READ_COND_ENV bound. */
  function ConditionalF(s: string, p: nat, env: ReaderEnv, cx: Ctx): (r: Result<Step<Form>, ReadError>)
    requires p <= |s|
    ensures env.readCond == CondAbsent ==> r == Failure(ConditionalNotAllowed)
    ensures r.Success? ==> p < r.value.pos <= |s|
    decreases |s| - p, 4
  {
    if env.readCond == CondAbsent then Failure(ConditionalNotAllowed)
    else if p == |s| then Failure(EofWhileReadingCharacter)
    else
      var splicing := s[p] == '@';
      var q := SkipWhitespace(s, if splicing then p + 1 else p);
      if q == |s| then Failure(EofWhileReadingCharacter)
      else if s[q] != '(' then Failure(ReadCondBodyNotList)
      else
        CondListF(s, q + 1, env, cx, splicing)
  }

  /** The list of a reader conditional, the cursor after its '(': read with READ_COND_ENV bound,
      then validated. */
  function CondListF(s: string, p: nat, env: ReaderEnv, cx: Ctx, splicing: bool): (r: Result<Step<Form>, ReadError>)
    requires p <= |s|
    ensures r.Success? ==> p < r.value.pos <= |s| && r.value.value.Syntax? && r.value.value.kind == Conditional
    decreases |s| - p, 4
  {
    var items :- DelimitedF(s, p, env, cx.(readCondEnv := true), ')', []);
    var _ :- CheckConditional(items.value, splicing);
    Success(Step(Syntax(Conditional, CondData(splicing, PList(items.value))), items.pos))
  }

  // ---------------------------------------------------------------- the entry point

  /** read(r, opts) from position `p` under the bindings `cx`: the next form and where the cursor
      is left; at the end of the input an error when `eof` is None (the :eofthrow default), else
      the given value. */
  function ReadFirst(s: string, p: nat, env: ReaderEnv, cx: Ctx, eof: Option<Form>): (r: Result<Step<Form>, ReadError>)
    requires p <= |s|
    ensures r.Success? ==> p <= r.value.pos <= |s|
  {
    var st :- ReadF(s, p, env, cx, eof.None?, None);
    match st.value
    case Value(f) => Success(Step(f, st.pos))
    case AtEof => Success(Step(eof.value, st.pos))
    case AtDelim => Failure(EofWhileReading)
  }
}
