/**
 * The concrete-syntax node (SyntaxElement) and the values it wraps.
 *
 * The reader hands out plain Java objects; `Form` is that universe of objects: null, booleans,
 * strings, boxed characters, numbers, symbols, keywords, the persistent collections, the array
 * lists the reader accumulates, the two small maps it builds as payloads of META and CONDITIONAL
 * elements, tagged literals, other host objects, and syntax elements themselves. A syntax element
 * is a `Type` tag with an untyped payload, exactly as in the source; the printer for each tag casts
 * its payload, and a payload of the wrong class makes emission fail with `ClassCast`.
 */
module SyntaxElement {
  import opened Wrappers

  /** clojure.lang.Symbol (and, wrapped in `Kw`, Keyword). */
  datatype Symbol = Symbol(ns: Option<string>, name: string)

  /** Symbol.toString: the name, prefixed by "ns/" when there is a namespace. */
  function SymbolText(sym: Symbol): string {
    match sym.ns
    case None => sym.name
    case Some(n) => n + "/" + sym.name
  }

  /** The numbers the reader produces. A ratio is kept as the numerator and denominator the
      grammar read; reducing it is the arithmetic library's business. */
  datatype Number =
    | Long(v: int)
    | BigInt(v: int)
    | Ratio(numerator: int, denominator: int)
    | Double(text: string)
    | BigDecimal(text: string)

  /** SyntaxElement.Type, in the source's order. */
  datatype Type =
    | Set | Comma | Comment | Quote | Deref | Meta | SyntaxQuote | Unquote | UnquoteSplicing
    | Char | Arg | Eval | Var | Fn | MComment | Discard | Conditional | Vector | List | Map | File

  datatype Form =
    | Nil                                        // null, and the value of `nil`
    | Bool(b: bool)
    | Str(s: string)
    | Character(c: char)                         // a boxed java.lang.Character
    | Num(n: Number)
    | Sym(sym: Symbol)
    | Kw(kw: Symbol)
    | Regex(source: string)                      // the verbatim body handed to the pattern engine
    | PList(items: seq<Form>)
    | PVector(items: seq<Form>)
    | PMap(entries: seq<Form>)                   // keys and values alternately
    | PSet(items: seq<Form>)
    | ArrayList(items: seq<Form>)                // java.util.ArrayList from readDelimitedList
    | MetaData(tag: Form, keyword: Form, mapValue: Form, object: Form)  // the map with keys :meta and :object
    | CondData(splicing: bool, form: Form)       // the map with keys :splice and :form
    | Tagged(tagSym: Symbol, tagged: Form)           // clojure.lang.TaggedLiteral
    | Host(id: nat)                              // any other object a collaborator returns
    | Syntax(kind: Type, data: Form)             // a SyntaxElement

  /** The single comma element every comma in the input is read as. */
  const CommaSyntax: Form := Syntax(Comma, Nil)

  /** Type.skippable(): elements left out of structural counts but kept for emission. */
  predicate Skippable(t: Type)
    ensures Skippable(t) <==> t in {Comma, Comment, MComment, Discard}
  {
    match t
    case Comma => true
    case Comment => true
    case MComment => true
    case Discard => true
    case _ => false
  }

  /** `e instanceof SyntaxElement && e.skippable()` */
  predicate IsSkippable(f: Form) {
    f.Syntax? && Skippable(f.kind)
  }

  /** Classes of the host library the reader and the printer test for. */
  predicate IsPersistentMap(f: Form) {
    f.PMap? || f.MetaData? || f.CondData?
  }

  /** java.util.List */
  predicate IsJavaList(f: Form) {
    f.PList? || f.PVector? || f.ArrayList?
  }

  /** clojure.lang.IMeta: the values that can carry metadata (symbols and the persistent
      collections; keywords, strings, numbers, characters and syntax elements cannot). */
  predicate IsIMeta(f: Form) {
    f.Sym? || f.PList? || f.PVector? || f.PMap? || f.PSet? || f.MetaData? || f.CondData?
  }

  /** The external value printer (RT.print), a parameter of emission. */
  type Printer = Form -> string

  datatype EmitError = ClassCast | UnknownMeta

  /** String.valueOf(e), as `";" + e` uses it: the text of a string, "null" for null; the
      toString of any other object is left to the printer. */
  function ToText(e: Form, printer: Printer): string {
    match e
    case Str(s) => s
    case Nil => "null"
    case _ => printer(e)
  }

  /** The fixed punctuation of the tags whose printer is `prefix + emit(payload)`. */
  function WrapperPrefix(t: Type): Option<string> {
    match t
    case Quote => Some("'")
    case Deref => Some("@")
    case SyntaxQuote => Some("`")
    case Unquote => Some("~")
    case UnquoteSplicing => Some("~@")
    case Eval => Some("#=")
    case Var => Some("#'")
    case Fn => Some("#")
    case MComment => Some("#!")
    case Discard => Some("#_")
    case _ => None
  }

  /** The opening and closing text of the bracketed tags. */
  function Brackets(t: Type): Option<(string, string)> {
    match t
    case List => Some(("(", ")"))
    case Vector => Some(("[", "]"))
    case Map => Some(("{", "}"))
    case Set => Some(("#{", "}"))
    case _ => None
  }

  /** The separator join places before element `i`: none before the first element or before
      the comma element, `sep` before every other one. */
  function SepBefore(sep: string, items: seq<Form>, i: nat): string
    requires i < |items|
  {
    if i == 0 || items[i] == CommaSyntax then "" else sep
  }

  /** SyntaxElement.emit(Object): persistent vectors, lists and sets go to the bracketed
      printers, syntax elements to their tag's printer, everything else to the value printer.
      A persistent set is not a java.util.List, so the SET printer's cast refuses it. */
  function Emit(o: Form, printer: Printer): Result<string, EmitError>
    decreases o, 1
  {
    match o
    case PVector(items) => Bracketed("[", items, "]", printer)
    case PList(items) => Bracketed("(", items, ")", printer)
    case PSet(_) => Failure(ClassCast)        // SET's printer casts its payload to java.util.List
    case Syntax(t, data) => TypeStr(t, data, printer)
    case _ => Success(printer(o))
  }

  /** Type.str(e): the text of an element of type `t` with payload `e`. */
  function TypeStr(t: Type, e: Form, printer: Printer): Result<string, EmitError>
    decreases e, 2
  {
    match t
    case Set => ListStr("#{", e, "}", printer)
    case Vector => ListStr("[", e, "]", printer)
    case List => ListStr("(", e, ")", printer)
    case Map => ListStr("{", e, "}", printer)
    case Comma => Success(",")
    case Comment => Success(";" + ToText(e, printer))
    case Meta => MetaStr(e, printer)
    case Char => CharStr(e)
    case Arg => if e == Nil then Success("%") else Emit(e, printer)
    case Conditional =>
      (match e
       case CondData(splicing, form) =>
         var f :- Emit(form, printer);
         Success("#?" + (if splicing then "@" else "") + f)
       case _ => Failure(ClassCast))
    case File =>
      (match e
       case PList(items) => Join("\n", items, printer)
       case PVector(items) => Join("\n", items, printer)
       case ArrayList(items) => Join("\n", items, printer)
       case PSet(items) => Join("\n", items, printer)
       case _ => Failure(ClassCast))
    case _ =>
      var s :- Emit(e, printer);
      Success(WrapperPrefix(t).value + s)
  }

  /** `open + spaceJoin((List) e) + close` */
  function ListStr(open: string, e: Form, close: string, printer: Printer): Result<string, EmitError>
    decreases e, 1
  {
    match e
    case PList(items) => Bracketed(open, items, close, printer)
    case PVector(items) => Bracketed(open, items, close, printer)
    case ArrayList(items) => Bracketed(open, items, close, printer)
    case _ => Failure(ClassCast)
  }

  function Bracketed(open: string, items: seq<Form>, close: string, printer: Printer): Result<string, EmitError>
    decreases items, 1
  {
    var inner :- Join(" ", items, printer);
    Success(open + inner + close)
  }

  /** META's printer: the tag if present, else the keyword, else the map; none of them is an error. */
  function MetaStr(e: Form, printer: Printer): Result<string, EmitError>
    decreases e, 1
  {
    match e
    case MetaData(tag, keyword, mapValue, form) =>
      if tag != Nil then
        var t :- Emit(tag, printer);
        var f :- Emit(form, printer);
        Success("^" + t + " " + f)
      else if keyword != Nil then
        (match keyword
         case Kw(k) =>
           var f :- Emit(form, printer);
           Success("^:" + SymbolText(k) + " " + f)
         case _ => Failure(ClassCast))
      else if mapValue != Nil then
        if IsPersistentMap(mapValue) then
          var m :- Emit(mapValue, printer);
          var f :- Emit(form, printer);
          Success("^" + m + " " + f)
        else Failure(ClassCast)
      else Failure(UnknownMeta)
    case _ => Failure(ClassCast)
  }

  /** CHAR's printer, which casts its payload to a string. Only the six named characters get a
      backslash; any other single character, and the `o` and `u` escapes, are printed bare. */
  function CharStr(e: Form): Result<string, EmitError> {
    match e
    case Str(d) =>
      if |d| == 1 then
        Success(match d[0]
                case '\n' => "\\newline"
                case ' ' => "\\space"
                case '\t' => "\\tab"
                case '\U{0008}' => "\\backspace"
                case '\U{000C}' => "\\formfeed"
                case '\r' => "\\return"
                case _ => d)
      else if |d| == 3 then Success("o" + d)
      else Success("u" + d)
    case _ => Failure(ClassCast)
  }

  /** CHAR's printer as evidently intended: every payload prints as a character literal, with
      the backslash the six names carry also in front of a bare character and of the `o` and `u`
      escapes. */
  function CharStrIntended(e: Form): (r: Result<string, EmitError>)
    ensures r.Success? <==> e.Str?
    ensures r.Success? ==> |r.value| >= 2 && r.value[0] == '\\'
  {
    match e
    case Str(d) =>
      if |d| == 1 then
        Success(match d[0]
                case '\n' => "\\newline"
                case ' ' => "\\space"
                case '\t' => "\\tab"
                case '\U{0008}' => "\\backspace"
                case '\U{000C}' => "\\formfeed"
                case '\r' => "\\return"
                case _ => "\\" + d)
      else if |d| == 3 then Success("\\o" + d)
      else Success("\\u" + d)
    case _ => Failure(ClassCast)
  }

  /** join(sep, c): the emitted elements in order, with `SepBefore` in front of each. */
  function Join(sep: string, items: seq<Form>, printer: Printer): Result<string, EmitError>
    decreases items, 0
  {
    if items == [] then Success("")
    else
      var init :- Join(sep, items[..|items| - 1], printer);
      var last :- Emit(items[|items| - 1], printer);
      Success(init + SepBefore(sep, items, |items| - 1) + last)
  }

  /** The imperative join: one pass over the collection appending to a buffer, with a flag
      marking the first element. */
  method JoinLoop(sep: string, c: seq<Form>, printer: Printer) returns (r: Result<string, EmitError>)
    ensures r == Join(sep, c, printer)
  {
    var sb := "";
    var first := true;
    var i := 0;
    while i < |c|
      invariant 0 <= i <= |c|
      invariant first <==> i == 0
      invariant Join(sep, c[..i], printer) == Success(sb)
    {
      var o := c[i];
      ghost var before := sb;
      if first {
        first := false;
      } else if o != CommaSyntax {
        sb := sb + sep;
      }
      var e := Emit(o, printer);
      assert c[..i + 1][..i] == c[..i];
      if e.Failure? {
        JoinFailurePersists(sep, c, i + 1, printer);
        return Failure(e.error);
      }
      sb := sb + e.value;
      assert sb == before + SepBefore(sep, c[..i + 1], i) + e.value;
      i := i + 1;
    }
    assert c[..i] == c;
    r := Success(sb);
  }

  /** Once a prefix of the collection fails to emit, the whole join fails with that error. */
  lemma {:induction false} JoinFailurePersists(sep: string, c: seq<Form>, k: nat, printer: Printer)
    requires k <= |c|
    requires Join(sep, c[..k], printer).Failure?
    ensures Join(sep, c, printer) == Join(sep, c[..k], printer)
    decreases |c| - k
  {
    if k < |c| {
      assert c[..k + 1][..k] == c[..k];
      JoinFailurePersists(sep, c, k + 1, printer);
    } else {
      assert c[..k] == c;
    }
  }
}
