/**
 * The reader itself: the read driver and the reader macros as imperative code over the
 * push-back cursor, the thread bindings the macros push and pop, and the pending-forms queue the
 * driver serves first.
 *
 * Every method is proved to agree with its specification function in module ReaderSpec (same
 * value, same cursor on success, same error), to leave the thread bindings as it found them on
 * every exit, and to leave the pending-forms queue empty.
 */
module LispReader {
  import opened Wrappers
  import opened Chars
  import opened SyntaxElement
  import opened ReadErrors
  import opened SymbolGrammar
  import opened Scanners
  import opened ReaderSpec

  /** The thread bindings of ARG_ENV, READ_COND_ENV and GENSYM_ENV as Var.pushThreadBindings
      keeps them: a stack of frames, each holding every value in force after its push. */
  class Bindings {
    var frames: seq<Ctx>

    constructor ()
      ensures frames == []
    {
      frames := [];
    }

    /** The values in force: the top frame, or the root bindings when nothing is pushed. */
    function Current(): Ctx
      reads this
    {
      if frames == [] then RootCtx else frames[|frames| - 1]
    }

    method Push(c: Ctx)
      modifies this
      ensures frames == old(frames) + [c]
      ensures Current() == c
    {
      frames := frames + [c];
    }

    method Pop()
      requires frames != []
      modifies this
      ensures frames == old(frames)[..|old(frames)| - 1]
    {
      frames := frames[..|frames| - 1];
    }
  }

  /** The pending-forms list shared by the reads of one top-level call. */
  class PendingForms {
    var forms: seq<Form>

    constructor ()
      ensures forms == []
    {
      forms := [];
    }

    /** LinkedList.remove(0) */
    method RemoveFirst() returns (f: Form)
      requires forms != []
      modifies this
      ensures f == old(forms)[0] && forms == old(forms)[1..]
    {
      f := forms[0];
      forms := forms[1..];
    }
  }

  /** A form read by a scanner or a macro, as the driver returns it. */
  function AsGot(r: Result<Form, ReadError>): Result<Got, ReadError> {
    match r
    case Success(f) => Success(Value(f))
    case Failure(e) => Failure(e)
  }

  /** `while (isWhitespace(ch)) ch = read1(r);` with `ch` the character just read (or EOF): the
      first character that is not whitespace, read, or EOF. */
  method SkipSpace(rd: PushbackReader, ch0: Option<char>) returns (ch: Option<char>)
    requires rd.Valid()
    requires ch0.Some? ==> 0 < rd.pos && rd.input[rd.pos - 1] == ch0.value
    requires ch0.None? ==> rd.pos == |rd.input|
    modifies rd
    ensures rd.Valid()
    ensures var q := SkipWhitespace(rd.input, if ch0.Some? then old(rd.pos) - 1 else old(rd.pos));
            && (q == |rd.input| ==> ch.None? && rd.pos == q)
            && (q < |rd.input| ==> ch == Some(rd.input[q]) && rd.pos == q + 1)
  {
    ghost var s := rd.input;
    ghost var q := SkipWhitespace(s, if ch0.Some? then rd.pos - 1 else rd.pos);
    ch := ch0;
    while ch.Some? && IsWhitespace(ch.value)
      invariant rd.Valid()
      invariant ch.Some? ==> 0 < rd.pos && s[rd.pos - 1] == ch.value && SkipWhitespace(s, rd.pos - 1) == q
      invariant ch.None? ==> rd.pos == |s| && q == |s|
      decreases |s| - rd.pos + (if ch.Some? then 1 else 0)
    {
      ch := rd.Read1();
    }
  }

  // ---------------------------------------------------------------- the driver

  /** The read driver. A non-empty pending queue is served first; otherwise the driver agrees
      with `ReadF` and the queue stays empty. */
  method Read(rd: PushbackReader, b: Bindings, q: PendingForms, env: ReaderEnv, eofIsError: bool, returnOn: Option<char>)
    returns (r: Result<Got, ReadError>)
    requires rd.Valid()
    modifies rd, b, q
    ensures rd.Valid() && b.frames == old(b.frames)
    ensures env.readEval == EvalUnknown ==> r == Failure(ReadingDisallowed)
    ensures env.readEval != EvalUnknown && old(q.forms) != [] ==>
              r == Success(Value(old(q.forms)[0])) && q.forms == old(q.forms)[1..] && rd.pos == old(rd.pos)
    ensures old(q.forms) == [] ==>
              q.forms == [] && Agrees(r, rd.pos, ReadF(rd.input, old(rd.pos), env, old(b.Current()), eofIsError, returnOn))
    decreases |rd.input| - rd.pos, 1
  {
    if env.readEval == EvalUnknown {
      return Failure(ReadingDisallowed);
    }
    if q.forms != [] {
      var f := q.RemoveFirst();
      return Success(Value(f));
    }
    ghost var s := rd.input;
    ghost var p := rd.pos;
    var ch := rd.Read1();
    ch := SkipSpace(rd, ch);
    ghost var at := if ch.Some? then rd.pos - 1 else rd.pos;
    assert at == SkipWhitespace(s, p);
    assert ReadF(s, p, env, b.Current(), eofIsError, returnOn) == ReadAt(s, at, env, b.Current(), eofIsError, returnOn);
    r := ReadOn(rd, b, q, env, ch, eofIsError, returnOn);
  }

  /** The rest of the driver's loop body, `ch` the first character that is not whitespace (just
      read) or EOF. */
  method ReadOn(rd: PushbackReader, b: Bindings, q: PendingForms, env: ReaderEnv, ch: Option<char>, eofIsError: bool, returnOn: Option<char>)
    returns (r: Result<Got, ReadError>)
    requires rd.Valid() && q.forms == []
    requires ch.Some? ==> 0 < rd.pos && rd.input[rd.pos - 1] == ch.value
    requires ch.None? ==> rd.pos == |rd.input|
    modifies rd, b, q
    ensures rd.Valid() && b.frames == old(b.frames) && q.forms == []
    ensures var at := if ch.Some? then old(rd.pos) - 1 else old(rd.pos);
            Agrees(r, rd.pos, ReadAt(rd.input, at, env, old(b.Current()), eofIsError, returnOn))
    decreases |rd.input| - rd.pos + (if ch.Some? then 1 else 0), 0
  {
    ghost var s := rd.input;
    ghost var at := if ch.Some? then rd.pos - 1 else rd.pos;
    if ch.None? {
      if eofIsError {
        return Failure(EofWhileReading);
      }
      return Success(AtEof);
    }
    var c := ch.value;
    if returnOn == Some(c) {
      return Success(AtDelim);
    }
    if IsDigit(c) {
      var n := ReadNumber(rd, c);
      return AsGot(if n.Success? then Success(Num(n.value)) else Failure(n.error));
    }
    if IsMacro(c) {
      var m := MacroReader(rd, b, q, env, c);
      return AsGot(m);
    }
    var a := ReadAtom(rd, env, c);
    r := AsGot(a);
  }

  /** The driver's last two cases, `c` just read: a sign followed by a digit is a number (the
      digit is pushed back for readNumber), anything else is a token. */
  method ReadAtom(rd: PushbackReader, env: ReaderEnv, c: char) returns (r: Result<Form, ReadError>)
    requires rd.Valid() && 0 < rd.pos && rd.input[rd.pos - 1] == c
    modifies rd
    ensures rd.Valid()
    ensures Agrees(r, rd.pos, AtomAt(rd.input, old(rd.pos) - 1, env.ns))
  {
    ghost var s := rd.input;
    ghost var at := rd.pos - 1;
    if c == '+' || c == '-' {
      var ch2 := rd.Read1();
      if ch2.Some? && IsDigit(ch2.value) {
        rd.Unread(ch2);
        var n := ReadNumber(rd, c);
        return if n.Success? then Success(Num(n.value)) else Failure(n.error);
      }
      rd.Unread(ch2);
    }
    var token := ReadToken(rd, c);
    assert token == s[at..rd.pos];
    r := InterpretToken(token, env.ns);
  }

  /** read(r, true, null, true, opts, pendingForms): the nested read of the macros. */
  method ReadNested(rd: PushbackReader, b: Bindings, q: PendingForms, env: ReaderEnv) returns (r: Result<Form, ReadError>)
    requires rd.Valid() && q.forms == []
    modifies rd, b, q
    ensures rd.Valid() && b.frames == old(b.frames) && q.forms == []
    ensures Agrees(r, rd.pos, ReaderSpec.ReadForm(rd.input, old(rd.pos), env, old(b.Current())))
    decreases |rd.input| - rd.pos, 2
  {
    var g := Read(rd, b, q, env, true, None);
    r := match g
         case Success(Value(f)) => Success(f)
         case Success(_) => Failure(EofWhileReading)
         case Failure(e) => Failure(e);
  }

  /** readDelimitedList: forms are added to the list until the driver returns on the delimiter;
      the end of the input is an error. */
  method ReadDelimitedList(rd: PushbackReader, b: Bindings, q: PendingForms, env: ReaderEnv, delim: char)
    returns (r: Result<seq<Form>, ReadError>)
    requires rd.Valid() && q.forms == []
    modifies rd, b, q
    ensures rd.Valid() && b.frames == old(b.frames) && q.forms == []
    ensures Agrees(r, rd.pos, DelimitedF(rd.input, old(rd.pos), env, old(b.Current()), delim, []))
    decreases |rd.input| - rd.pos, 3
  {
    ghost var s := rd.input;
    ghost var p := rd.pos;
    ghost var cx := b.Current();
    var a: seq<Form> := [];
    while true
      invariant rd.Valid() && b.frames == old(b.frames) && q.forms == []
      invariant p <= rd.pos
      invariant DelimitedF(s, rd.pos, env, cx, delim, a) == DelimitedF(s, p, env, cx, delim, [])
      decreases |s| - rd.pos
    {
      var form := Read(rd, b, q, env, false, Some(delim));
      match form
      case Failure(e) =>
        return Failure(e);
      case Success(AtEof) =>
        return Failure(EofWhileReading);
      case Success(AtDelim) =>
        return Success(a);
      case Success(Value(f)) =>
        a := a + [f];
    }
  }

  // ---------------------------------------------------------------- the macro table

  /** getMacro(ch).invoke(...): the reader macro for `ch`, the cursor just after it. */
  method MacroReader(rd: PushbackReader, b: Bindings, q: PendingForms, env: ReaderEnv, ch: char)
    returns (r: Result<Form, ReadError>)
    requires rd.Valid() && q.forms == [] && IsMacro(ch)
    modifies rd, b, q
    ensures rd.Valid() && b.frames == old(b.frames) && q.forms == []
    ensures Agrees(r, rd.pos, MacroF(rd.input, old(rd.pos), env, old(b.Current()), ch))
    decreases |rd.input| - rd.pos, 6
  {
    match ch
    case '"' =>
      var st := ReadString(rd);
      r := if st.Success? then Success(Str(st.value)) else Failure(st.error);
    case ';' =>
      var text := ReadComment(rd);
      r := Success(Syntax(Comment, Str(text)));
    case ',' =>
      r := Success(CommaSyntax);
    case '\'' =>
      r := WrappingReader(rd, b, q, env, Quote);
    case '@' =>
      r := WrappingReader(rd, b, q, env, Deref);
    case '^' =>
      r := MetaReader(rd, b, q, env);
    case '`' =>
      r := SyntaxQuoteReader(rd, b, q, env);
    case '~' =>
      r := UnquoteReader(rd, b, q, env);
    case '(' =>
      r := ListReader(rd, b, q, env);
    case '[' =>
      r := VectorReader(rd, b, q, env);
    case '{' =>
      r := MapReader(rd, b, q, env);
    case ')' =>
      r := Failure(UnmatchedDelimiter(ch));
    case ']' =>
      r := Failure(UnmatchedDelimiter(ch));
    case '}' =>
      r := Failure(UnmatchedDelimiter(ch));
    case '\\' =>
      var c := ReadCharacter(rd);
      r := if c.Success? then Success(Syntax(Char, Character(c.value))) else Failure(c.error);
    case '%' =>
      ghost var p := rd.pos;
      var token := ReadToken(rd, '%');
      assert token == "%" + rd.input[p..rd.pos];
      var f := InterpretToken(token, env.ns);
      r := if f.Success? then Success(Syntax(Arg, f.value)) else Failure(f.error);
    case '#' =>
      r := DispatchReader(rd, b, q, env);
  }

  /** WrappingReader (and DiscardReader): the next form under the element type `t`. */
  method WrappingReader(rd: PushbackReader, b: Bindings, q: PendingForms, env: ReaderEnv, t: Type)
    returns (r: Result<Form, ReadError>)
    requires rd.Valid() && q.forms == []
    modifies rd, b, q
    ensures rd.Valid() && b.frames == old(b.frames) && q.forms == []
    ensures Agrees(r, rd.pos, WrapF(rd.input, old(rd.pos), env, old(b.Current()), t))
    decreases |rd.input| - rd.pos, 3
  {
    var o := ReadNested(rd, b, q, env);
    r := if o.Success? then Success(Syntax(t, o.value)) else Failure(o.error);
  }

  method ListReader(rd: PushbackReader, b: Bindings, q: PendingForms, env: ReaderEnv) returns (r: Result<Form, ReadError>)
    requires rd.Valid() && q.forms == []
    modifies rd, b, q
    ensures rd.Valid() && b.frames == old(b.frames) && q.forms == []
    ensures Agrees(r, rd.pos, ListF(rd.input, old(rd.pos), env, old(b.Current())))
    decreases |rd.input| - rd.pos, 4
  {
    var list := ReadDelimitedList(rd, b, q, env, ')');
    r := if list.Success? then Success(PList(list.value)) else Failure(list.error);
  }

  method VectorReader(rd: PushbackReader, b: Bindings, q: PendingForms, env: ReaderEnv) returns (r: Result<Form, ReadError>)
    requires rd.Valid() && q.forms == []
    modifies rd, b, q
    ensures rd.Valid() && b.frames == old(b.frames) && q.forms == []
    ensures Agrees(r, rd.pos, VectorF(rd.input, old(rd.pos), env, old(b.Current())))
    decreases |rd.input| - rd.pos, 4
  {
    var list := ReadDelimitedList(rd, b, q, env, ']');
    r := if list.Success? then Success(PVector(list.value)) else Failure(list.error);
  }

  /** MapReader's loop counting the skippable elements. */
  method CountSkipped(a: seq<Form>) returns (skipped: nat)
    ensures skipped == CountSkippable(a)
  {
    skipped := 0;
    var i := 0;
    while i < |a|
      invariant 0 <= i <= |a|
      invariant skipped == CountSkippable(a[..i])
    {
      assert a[..i + 1][..i] == a[..i];
      if IsSkippable(a[i]) {
        skipped := skipped + 1;
      }
      i := i + 1;
    }
    assert a[..i] == a;
  }

  method MapReader(rd: PushbackReader, b: Bindings, q: PendingForms, env: ReaderEnv) returns (r: Result<Form, ReadError>)
    requires rd.Valid() && q.forms == []
    modifies rd, b, q
    ensures rd.Valid() && b.frames == old(b.frames) && q.forms == []
    ensures Agrees(r, rd.pos, MapF(rd.input, old(rd.pos), env, old(b.Current())))
    decreases |rd.input| - rd.pos, 4
  {
    var a := ReadDelimitedList(rd, b, q, env, '}');
    if a.Failure? {
      return Failure(a.error);
    }
    var skipped := CountSkipped(a.value);
    if (|a.value| - skipped) % 2 == 1 {
      return Failure(MapOddForms);
    }
    r := Success(Syntax(Map, ArrayList(a.value)));
  }

  method SetReader(rd: PushbackReader, b: Bindings, q: PendingForms, env: ReaderEnv) returns (r: Result<Form, ReadError>)
    requires rd.Valid() && q.forms == []
    modifies rd, b, q
    ensures rd.Valid() && b.frames == old(b.frames) && q.forms == []
    ensures Agrees(r, rd.pos, SetF(rd.input, old(rd.pos), env, old(b.Current())))
    decreases |rd.input| - rd.pos, 4
  {
    var list := ReadDelimitedList(rd, b, q, env, '}');
    r := if list.Success? then Success(Syntax(Set, ArrayList(list.value))) else Failure(list.error);
  }

  method MetaReader(rd: PushbackReader, b: Bindings, q: PendingForms, env: ReaderEnv) returns (r: Result<Form, ReadError>)
    requires rd.Valid() && q.forms == []
    modifies rd, b, q
    ensures rd.Valid() && b.frames == old(b.frames) && q.forms == []
    ensures Agrees(r, rd.pos, MetaF(rd.input, old(rd.pos), env, old(b.Current())))
    decreases |rd.input| - rd.pos, 4
  {
    var meta := ReadNested(rd, b, q, env);
    if meta.Failure? {
      return Failure(meta.error);
    }
    var kind := MetaKind(meta.value);
    if kind.Failure? {
      return Failure(kind.error);
    }
    var o := ReadNested(rd, b, q, env);
    if o.Failure? {
      return Failure(o.error);
    }
    if !IsIMeta(o.value) {
      return Failure(MetadataTarget);
    }
    r := Success(Syntax(Meta, MetaData(kind.value.0, kind.value.1, kind.value.2, o.value)));
  }

  /** SyntaxQuoteReader: GENSYM_ENV is pushed around the nested read and popped on every exit. */
  method SyntaxQuoteReader(rd: PushbackReader, b: Bindings, q: PendingForms, env: ReaderEnv) returns (r: Result<Form, ReadError>)
    requires rd.Valid() && q.forms == []
    modifies rd, b, q
    ensures rd.Valid() && b.frames == old(b.frames) && q.forms == []
    ensures Agrees(r, rd.pos, SyntaxQuoteF(rd.input, old(rd.pos), env, old(b.Current())))
    decreases |rd.input| - rd.pos, 4
  {
    b.Push(b.Current().(gensymEnv := true));
    var form := ReadNested(rd, b, q, env);
    r := if form.Success? then SyntaxQuoteForm(form.value) else Failure(form.error);
    b.Pop();
  }

  method UnquoteReader(rd: PushbackReader, b: Bindings, q: PendingForms, env: ReaderEnv) returns (r: Result<Form, ReadError>)
    requires rd.Valid() && q.forms == []
    modifies rd, b, q
    ensures rd.Valid() && b.frames == old(b.frames) && q.forms == []
    ensures Agrees(r, rd.pos, UnquoteF(rd.input, old(rd.pos), env, old(b.Current())))
    decreases |rd.input| - rd.pos, 4
  {
    var ch := rd.Read1();
    if ch.None? {
      return Failure(EofWhileReadingCharacter);
    }
    if ch.value == '@' {
      r := WrappingReader(rd, b, q, env, UnquoteSplicing);
    } else {
      rd.Unread(ch);
      r := WrappingReader(rd, b, q, env, Unquote);
    }
  }

  // ---------------------------------------------------------------- the dispatch table

  /** DispatchReader: the dispatch macro for the character after '#', or the constructor reader
      from that character on (pushed back) when there is none. */
  method DispatchReader(rd: PushbackReader, b: Bindings, q: PendingForms, env: ReaderEnv) returns (r: Result<Form, ReadError>)
    requires rd.Valid() && q.forms == []
    modifies rd, b, q
    ensures rd.Valid() && b.frames == old(b.frames) && q.forms == []
    ensures Agrees(r, rd.pos, DispatchF(rd.input, old(rd.pos), env, old(b.Current())))
    decreases |rd.input| - rd.pos, 5
  {
    var ch := rd.Read1();
    if ch.None? {
      return Failure(EofWhileReadingCharacter);
    }
    var c := ch.value;
    if c as int >= 256 {
      return Failure(DispatchIndexOutOfRange(c));
    }
    if !IsDispatchMacro(c) {
      rd.Unread(ch);
      r := CtorReader(rd, b, q, env);
      if r.Success? && r.value == Nil {
        r := Failure(NoDispatchMacro(c));
      }
      return;
    }
    match c
    case '^' =>
      r := MetaReader(rd, b, q, env);
    case '\'' =>
      r := VarReader(rd, b, q, env);
    case '"' =>
      var body := ReadRegex(rd);
      r := if body.Success? then Success(Regex(body.value)) else Failure(body.error);
    case '(' =>
      r := FnReader(rd, b, q, env);
    case '{' =>
      r := SetReader(rd, b, q, env);
    case '=' =>
      r := EvalReader(rd, b, q, env);
    case '!' =>
      var text := ReadComment(rd);
      r := Success(Syntax(MComment, Str(text)));
    case '<' =>
      r := Failure(UnreadableForm);
    case '_' =>
      r := WrappingReader(rd, b, q, env, Discard);
    case '?' =>
      r := ConditionalReader(rd, b, q, env);
  }

  method VarReader(rd: PushbackReader, b: Bindings, q: PendingForms, env: ReaderEnv) returns (r: Result<Form, ReadError>)
    requires rd.Valid() && q.forms == []
    modifies rd, b, q
    ensures rd.Valid() && b.frames == old(b.frames) && q.forms == []
    ensures Agrees(r, rd.pos, VarF(rd.input, old(rd.pos), env, old(b.Current())))
    decreases |rd.input| - rd.pos, 4
  {
    var o := ReadNested(rd, b, q, env);
    r := if o.Success? then Success(Syntax(Var, PList([Sym(VarSymbol), o.value]))) else Failure(o.error);
  }

  method EvalReader(rd: PushbackReader, b: Bindings, q: PendingForms, env: ReaderEnv) returns (r: Result<Form, ReadError>)
    requires rd.Valid() && q.forms == []
    modifies rd, b, q
    ensures rd.Valid() && b.frames == old(b.frames) && q.forms == []
    ensures Agrees(r, rd.pos, EvalF(rd.input, old(rd.pos), env, old(b.Current())))
    decreases |rd.input| - rd.pos, 4
  {
    if env.readEval == EvalFalse {
      return Failure(EvalNotAllowed);
    }
    r := WrappingReader(rd, b, q, env, Eval);
  }

  /** FnReader, the cursor after `#(`: refused before any push when ARG_ENV is bound; otherwise
      ARG_ENV is pushed, the '(' pushed back and the list read, and the binding popped on every
      exit. */
  method FnReader(rd: PushbackReader, b: Bindings, q: PendingForms, env: ReaderEnv) returns (r: Result<Form, ReadError>)
    requires rd.Valid() && q.forms == [] && 0 < rd.pos && rd.input[rd.pos - 1] == '('
    modifies rd, b, q
    ensures rd.Valid() && b.frames == old(b.frames) && q.forms == []
    ensures Agrees(r, rd.pos, FnF(rd.input, old(rd.pos), env, old(b.Current())))
    decreases |rd.input| - rd.pos + 1, 3
  {
    if b.Current().argEnv {
      return Failure(NestedFnLiteral);
    }
    b.Push(b.Current().(argEnv := true));
    rd.Unread(Some('('));
    var form := ReadNested(rd, b, q, env);
    r := if form.Success? then Success(Syntax(Fn, form.value)) else Failure(form.error);
    b.Pop();
  }

  /** CtorReader, the cursor on the character after '#'. */
  method CtorReader(rd: PushbackReader, b: Bindings, q: PendingForms, env: ReaderEnv) returns (r: Result<Form, ReadError>)
    requires rd.Valid() && q.forms == []
    modifies rd, b, q
    ensures rd.Valid() && b.frames == old(b.frames) && q.forms == []
    ensures Agrees(r, rd.pos, CtorF(rd.input, old(rd.pos), env, old(b.Current())))
    decreases |rd.input| - rd.pos, 4
  {
    var name := ReadNested(rd, b, q, env);
    if name.Failure? {
      return Failure(name.error);
    }
    if !name.value.Sym? {
      return Failure(TagNotSymbol);
    }
    var tag := name.value.sym;
    var form := ReadNested(rd, b, q, env);
    if form.Failure? {
      return Failure(form.error);
    }
    if (b.Current().readCondEnv && env.readCond == CondPreserve) || env.suppressRead {
      return Success(Tagged(tag, form.value));
    }
    if '.' in tag.name {
      r := ReadRecord(form.value, tag, env);
    } else {
      r := ReadTagged(form.value, tag, env);
    }
  }

  // ---------------------------------------------------------------- reader conditionals

  /** ConditionalReader's loop over the forms read: the first offending index decides the error. */
  method CheckPairs(list: seq<Form>, splicing: bool) returns (r: Result<(), ReadError>)
    ensures r == CheckConditional(list, splicing)
  {
    if |list| % 2 != 0 {
      return Failure(OddConditionalForms);
    }
    var i := 0;
    while i < |list|
      invariant 0 <= i <= |list|
      invariant CheckPairsFrom(list, splicing, i) == CheckPairsFrom(list, splicing, 0)
    {
      var k := list[i];
      if i % 2 == 0 {
        if !k.Kw? {
          return Failure(ConditionNotKeyword);
        }
        if Reserved(k.kw) {
          return Failure(ReservedFeature(k.kw));
        }
      } else if splicing && !IsJavaList(k) {
        return Failure(SplicedNotList);
      }
      i := i + 1;
    }
    r := Success(());
  }

  /** ConditionalReader, the cursor after `#?`: an optional '@' marks splicing, whitespace is
      skipped, and the body must be a list. */
  method ConditionalReader(rd: PushbackReader, b: Bindings, q: PendingForms, env: ReaderEnv) returns (r: Result<Form, ReadError>)
    requires rd.Valid() && q.forms == []
    modifies rd, b, q
    ensures rd.Valid() && b.frames == old(b.frames) && q.forms == []
    ensures Agrees(r, rd.pos, ConditionalF(rd.input, old(rd.pos), env, old(b.Current())))
    decreases |rd.input| - rd.pos, 4
  {
    if env.readCond == CondAbsent {
      return Failure(ConditionalNotAllowed);
    }
    ghost var s, p, cx := rd.input, rd.pos, b.Current();
    var ch := rd.Read1();
    if ch.None? {
      return Failure(EofWhileReadingCharacter);
    }
    var splicing;
    splicing, ch := ConditionalPrefix(rd, ch.value);
    ghost var at := SkipWhitespace(s, if splicing then p + 1 else p);
    ConditionalBody(s, p, env, cx, splicing, at);
    if ch.None? {
      return Failure(EofWhileReadingCharacter);
    }
    if ch.value != '(' {
      return Failure(ReadCondBodyNotList);
    }
    ConditionalOpens(s, p, env, cx, splicing, at);
    r := ConditionalList(rd, b, q, env, splicing);
  }

  /** The optional '@' after `#?`, then whitespace: the first character of the body, if any. */
  method ConditionalPrefix(rd: PushbackReader, c: char) returns (splicing: bool, ch: Option<char>)
    requires rd.Valid() && 0 < rd.pos && rd.input[rd.pos - 1] == c
    modifies rd
    ensures rd.Valid() && splicing == (c == '@')
    ensures var at := SkipWhitespace(rd.input, if splicing then old(rd.pos) else old(rd.pos) - 1);
            && (at == |rd.input| ==> ch.None? && rd.pos == at)
            && (at < |rd.input| ==> ch == Some(rd.input[at]) && rd.pos == at + 1)
  {
    ch := Some(c);
    splicing := c == '@';
    if splicing {
      ch := rd.Read1();
    }
    ch := SkipSpace(rd, ch);
  }

  /** Past `#?` and an optional '@', the body starts at the first non-whitespace character. */
  lemma ConditionalBody(s: string, p: nat, env: ReaderEnv, cx: Ctx, splicing: bool, at: nat)
    requires env.readCond != CondAbsent && p < |s| && splicing == (s[p] == '@')
    requires at == SkipWhitespace(s, if splicing then p + 1 else p)
    ensures at == |s| ==> ConditionalF(s, p, env, cx) == Failure(EofWhileReadingCharacter)
    ensures at < |s| && s[at] != '(' ==> ConditionalF(s, p, env, cx) == Failure(ReadCondBodyNotList)
  {
  }

  /** Past `#?`, an optional '@' and whitespace, an opening '(' leaves the list to be read. */
  lemma ConditionalOpens(s: string, p: nat, env: ReaderEnv, cx: Ctx, splicing: bool, at: nat)
    requires env.readCond != CondAbsent && p < |s| && splicing == (s[p] == '@')
    requires at == SkipWhitespace(s, if splicing then p + 1 else p) && at < |s| && s[at] == '('
    ensures ConditionalF(s, p, env, cx) == CondListF(s, at + 1, env, cx, splicing)
  {
  }

  /** The list of a reader conditional, the cursor after its '(': READ_COND_ENV is pushed around
      the list read and its check, and popped on every exit. */
  method ConditionalList(rd: PushbackReader, b: Bindings, q: PendingForms, env: ReaderEnv, splicing: bool)
    returns (r: Result<Form, ReadError>)
    requires rd.Valid() && q.forms == []
    modifies rd, b, q
    ensures rd.Valid() && b.frames == old(b.frames) && q.forms == []
    ensures Agrees(r, rd.pos, CondListF(rd.input, old(rd.pos), env, old(b.Current()), splicing))
    decreases |rd.input| - rd.pos, 4
  {
    b.Push(b.Current().(readCondEnv := true));
    var list := ReadDelimitedList(rd, b, q, env, ')');
    if list.Failure? {
      r := Failure(list.error);
    } else {
      var check := CheckPairs(list.value, splicing);
      r := if check.Success? then Success(Syntax(Conditional, CondData(splicing, PList(list.value))))
           else Failure(check.error);
    }
    b.Pop();
  }

  // ---------------------------------------------------------------- the entry point

  /** read(r, opts): a fresh pending queue and the read of one form; at the end of the input an
      error when `eof` is None (the :eofthrow default), else the given value. */
  method ReadOne(rd: PushbackReader, b: Bindings, env: ReaderEnv, eof: Option<Form>) returns (r: Result<Form, ReadError>)
    requires rd.Valid()
    modifies rd, b
    ensures rd.Valid() && b.frames == old(b.frames)
    ensures Agrees(r, rd.pos, ReadFirst(rd.input, old(rd.pos), env, old(b.Current()), eof))
  {
    var q := new PendingForms();
    var g := Read(rd, b, q, env, eof.None?, None);
    r := match g
         case Success(Value(f)) => Success(f)
         case Success(AtEof) => Success(eof.value)
         case Success(AtDelim) => Failure(EofWhileReading)
         case Failure(e) => Failure(e);
  }
}
