/**
 * Tokens that are not numbers: the three literal words, symbols and keywords (interpretToken and
 * matchSymbol), with the symbol pattern modelled as the backtracking matcher runs it.
 */
module SymbolGrammar {
  import opened Wrappers
  import opened Chars
  import opened SyntaxElement
  import opened ReadErrors

  /** The namespace environment `::` keywords resolve against: the current namespace's name, its
      aliases (alias name to namespace name) and the names of the loaded namespaces. */
  datatype NsEnv = NsEnv(current: string, aliases: map<string, string>, loaded: set<string>)

  /** namespaceFor: an alias of the current namespace first, then a loaded namespace of that name. */
  function NamespaceFor(env: NsEnv, ns: string): Option<string> {
    if ns in env.aliases then Some(env.aliases[ns])
    else if ns in env.loaded then Some(ns)
    else None
  }

  /** Symbol.intern(String): split at the first '/', unless the text is "/" itself. */
  function Intern(t: string): (sym: Symbol)
    ensures SymbolText(sym) == t
  {
    if '/' in t && t != "/" then
      var i := FirstIndexOf(t, '/');
      assert t == t[..i] + "/" + t[i + 1..];
      Symbol(Some(t[..i]), t[i + 1..])
    else Symbol(None, t)
  }

  /** The first index of `c` in `t`. */
  function FirstIndexOf(t: string, c: char): (i: nat)
    requires c in t
    ensures i < |t| && t[i] == c && c !in t[..i]
  {
    if t[0] == c then 0
    else
      var i := FirstIndexOf(t[1..], c);
      assert t[..i + 1] == [t[0]] + t[1..][..i];
      i + 1
  }

  predicate StartsWith(s: string, p: string) {
    |p| <= |s| && s[..|p|] == p
  }

  predicate EndsWith(s: string, p: string) {
    |p| <= |s| && s[|s| - |p|..] == p
  }

  /** `s.indexOf("::", 1) != -1` */
  predicate DoubleColonAfterStart(s: string) {
    exists i :: 1 <= i < |s| - 1 && s[i] == ':' && s[i + 1] == ':'
  }

  /** `[\D&&[^/]]`: any character but an ASCII digit or a slash. */
  predicate Lead(c: char) {
    !IsDigit(c) && c != '/'
  }

  /** Group 2, `/|[\D&&[^/]][^/]*`, matching all of `r`. */
  predicate NameGroup(r: string) {
    r == "/" || (|r| >= 1 && Lead(r[0]) && '/' !in r[1..])
  }

  /** The first line terminator at or after `i`, or the end: `.` stops there. */
  function LineEnd(t: string, i: nat): (e: nat)
    requires i <= |t|
    ensures i <= e <= |t|
    ensures forall k :: i <= k < e ==> !IsLineTerminator(t[k])
    ensures e == |t| || IsLineTerminator(t[e])
    decreases |t| - i
  {
    if i == |t| || IsLineTerminator(t[i]) then i else LineEnd(t, i + 1)
  }

  /** The slash ending group 1, `[\D&&[^/]].*\/`: the greedy `.*` gives the split points from the
      right, and the first one after which group 2 matches the rest wins. */
  function SlashFrom(t: string, j: int): (r: Option<nat>)
    requires j < |t|
    ensures r.Some? ==> 1 <= r.value <= j && t[r.value] == '/' && NameGroup(t[r.value + 1..])
    decreases j
  {
    if j < 1 then None
    else if t[j] == '/' && NameGroup(t[j + 1..]) then Some(j)
    else SlashFrom(t, j - 1)
  }

  /** Where group 1 ends, if there is a group 1: `t` must start with a non-digit other than
      `/`, and `.*` cannot run past a line terminator. */
  function SplitSlash(t: string): (r: Option<nat>)
    ensures r.Some? ==> r.value < |t|
  {
    if |t| >= 2 && Lead(t[0]) then SlashFrom(t, if LineEnd(t, 1) < |t| then LineEnd(t, 1) else |t| - 1)
    else None
  }

  /** Groups 1 and 2 of the pattern after the optional colon, when they match all of `t`. */
  function GroupsOf(t: string): Option<(Option<string>, string)> {
    match SplitSlash(t)
    case Some(j) => Some((Some(t[..j + 1]), t[j + 1..]))
    case None => if NameGroup(t) then Some((None, t)) else None
  }

  /** The symbol pattern `[:]?([\D&&[^/]].*\/)?(/|[\D&&[^/]][^/]*)` matched against all of `s`:
      the optional colon is taken first and given back only when nothing else matches. */
  function SymbolGroups(s: string): Option<(Option<string>, string)> {
    if |s| >= 1 && s[0] == ':' && GroupsOf(s[1..]).Some? then GroupsOf(s[1..]) else GroupsOf(s)
  }

  /** matchSymbol: a symbol, a keyword, an auto-resolved keyword, or None (null). */
  function MatchSymbol(s: string, env: NsEnv): Option<Form> {
    match SymbolGroups(s)
    case None => None
    case Some((ns, name)) =>
      if (ns.Some? && EndsWith(ns.value, ":/")) || EndsWith(name, ":") || DoubleColonAfterStart(s) then None
      else if StartsWith(s, "::") then
        var ks := Intern(s[2..]);
        var kns := if ks.ns.Some? then NamespaceFor(env, ks.ns.value) else Some(env.current);
        if kns.Some? then Some(Kw(Symbol(kns, ks.name))) else None
      else if s[0] == ':' then Some(Kw(Intern(s[1..])))
      else Some(Sym(Intern(s)))
  }

  /** interpretToken: the three literal words first, then the symbol grammar. */
  function InterpretToken(s: string, env: NsEnv): Result<Form, ReadError> {
    if s == "nil" then Success(Nil)
    else if s == "true" then Success(Bool(true))
    else if s == "false" then Success(Bool(false))
    else
      match MatchSymbol(s, env)
      case Some(f) => Success(f)
      case None => Failure(InvalidToken(s))
  }

  /** matchSymbol answers only for text the symbol pattern matches, and then with a symbol or a
      keyword; interpretToken adds nil and the booleans, and its only error is the invalid-token
      error for the token itself. */
  lemma TokenResults(s: string, env: NsEnv)
    ensures var m := MatchSymbol(s, env);
            m.Some? ==> SymbolGroups(s).Some? && (m.value.Sym? || m.value.Kw?)
    ensures var r := InterpretToken(s, env);
            && (r.Failure? ==> r.error == InvalidToken(s))
            && (r.Success? ==> r.value.Nil? || r.value.Bool? || r.value.Sym? || r.value.Kw?)
  {
  }

  // ---------------------------------------------------------------- the pattern on plain texts

  lemma {:induction false} SlashFromFinds(t: string, j: int, k: nat)
    requires 1 <= k <= j < |t| && t[k] == '/' && NameGroup(t[k + 1..])
    requires forall i :: k < i <= j ==> t[i] != '/'
    ensures SlashFrom(t, j) == Some(k)
    decreases j
  {
    if j > k {
      SlashFromPasses(t, j);
      SlashFromFinds(t, j - 1, k);
    }
  }

  /** The backward search passes over a character that is not a slash. */
  lemma SlashFromPasses(t: string, j: nat)
    requires 1 <= j < |t| && t[j] != '/'
    ensures SlashFrom(t, j) == SlashFrom(t, j - 1)
  {
  }

  lemma {:induction false} SlashFromNone(t: string, j: int)
    requires j < |t|
    requires forall i :: 1 <= i <= j ==> t[i] != '/'
    ensures SlashFrom(t, j) == None
    decreases j
  {
    if j >= 1 {
      SlashFromNone(t, j - 1);
    }
  }

  /** A segment with no slash, starting with a character group 1 and group 2 may start with. */
  predicate Segment(a: string) {
    |a| >= 1 && Lead(a[0]) && '/' !in a
  }

  /** `a/b` splits at its only slash: group 1 is `a/`, group 2 is `b`. */
  lemma GroupsWithSlash(a: string, b: string)
    requires Segment(a) && Segment(b)
    requires forall i :: 0 <= i < |a| ==> !IsLineTerminator(a[i])
    ensures GroupsOf(a + "/" + b) == Some((Some(a + "/"), b))
  {
    var t := a + "/" + b;
    LineEndPastSlash(a, b);
    var j0 := if LineEnd(t, 1) < |t| then LineEnd(t, 1) else |t| - 1;
    SlashAfterSegment(a, b, j0);
    assert t[0] == a[0];
    GroupsAtSlash(t, |a|);
    assert t[..|a| + 1] == a + "/" && t[|a| + 1..] == b;
  }

  /** Group 1 ends at the slash the backward search finds. */
  lemma GroupsAtSlash(t: string, k: nat)
    requires |t| >= 2 && Lead(t[0])
    requires SlashFrom(t, if LineEnd(t, 1) < |t| then LineEnd(t, 1) else |t| - 1) == Some(k)
    ensures GroupsOf(t) == Some((Some(t[..k + 1]), t[k + 1..]))
  {
    assert SplitSlash(t) == Some(k);
  }

  /** Searching back from any point in `b`, the split is the slash after `a`. */
  lemma SlashAfterSegment(a: string, b: string, j: int)
    requires Segment(a) && Segment(b) && |a| <= j < |a| + 1 + |b|
    ensures SlashFrom(a + "/" + b, j) == Some(|a|)
  {
    var t := a + "/" + b;
    assert t[|a|] == '/' && t[|a| + 1..] == b;
    assert NameGroup(b) by {
      assert forall c :: c in b[1..] ==> c in b;
    }
    NoSlashInName(a, b, j);
    SlashFromFinds(t, j, |a|);
  }

  /** `.` runs over the first segment of `a/b` and its slash. */
  lemma LineEndPastSlash(a: string, b: string)
    requires |a| >= 1 && forall i :: 0 <= i < |a| ==> !IsLineTerminator(a[i])
    ensures LineEnd(a + "/" + b, 1) > |a|
  {
    var t := a + "/" + b;
    forall k | 1 <= k <= |a|
      ensures !IsLineTerminator(t[k])
    {
      assert t[k] == if k < |a| then a[k] else '/';
    }
  }

  /** No slash follows the one after `a`. */
  lemma NoSlashInName(a: string, b: string, j: int)
    requires '/' !in b && j < |a| + 1 + |b|
    ensures forall i :: |a| < i <= j ==> (a + "/" + b)[i] != '/'
  {
    var t := a + "/" + b;
    forall i | |a| < i <= j
      ensures t[i] != '/'
    {
      assert t[i] == b[i - |a| - 1];
    }
  }

  /** A segment is all group 2. */
  lemma GroupsWithoutSlash(a: string)
    requires Segment(a)
    ensures GroupsOf(a) == Some((None, a))
  {
    if |a| >= 2 {
      var j0 := if LineEnd(a, 1) < |a| then LineEnd(a, 1) else |a| - 1;
      SlashFromNone(a, j0);
    }
  }

  /** A symbol whose namespace and name are segments free of colons (and whose namespace is free
      of line terminators): the texts that read back as the symbol they print. */
  predicate PlainSymbol(sym: Symbol) {
    && Segment(sym.name) && ':' !in sym.name
    && (sym.ns.Some? ==>
          Segment(sym.ns.value) && ':' !in sym.ns.value
          && forall i :: 0 <= i < |sym.ns.value| ==> !IsLineTerminator(sym.ns.value[i]))
  }

  /** A character that does not occur in a string cannot end it. */
  lemma AbsentNotAtEnd(x: string, c: char)
    requires c !in x
    ensures !EndsWith(x, [c])
  {
    if |x| >= 1 {
      assert x[|x| - 1..] == [x[|x| - 1]];
      assert x[|x| - 1] in x;
    }
  }

  /** The first slash of `a/b`, when `a` has none, is right after `a`. */
  lemma FirstSlash(a: string, b: string)
    requires '/' !in a
    ensures FirstIndexOf(a + "/" + b, '/') == |a|
  {
    var t := a + "/" + b;
    var i := FirstIndexOf(t, '/');
    assert t[..|a|] == a && t[|a|] == '/';
    assert forall j :: 0 <= j < |a| ==> t[j] == a[j] && a[j] in a;
    assert i >= |a|;
    assert i <= |a| by {
      assert forall j :: 0 <= j < i ==> t[..i][j] == t[j];
    }
  }

  lemma InternPlain(sym: Symbol)
    requires PlainSymbol(sym)
    ensures Intern(SymbolText(sym)) == sym
    ensures ':' !in SymbolText(sym)
  {
    var t := SymbolText(sym);
    match sym.ns
    case None =>
    case Some(ns) =>
      assert t == ns + "/" + sym.name;
      FirstSlash(ns, sym.name);
      assert t[..|ns|] == ns && t[|ns| + 1..] == sym.name;
      assert forall c :: c in t ==> c in ns || c == '/' || c in sym.name;
  }

  /** The pattern's groups on the text of a plain symbol, with an optional leading colon
      in front of its first segment. */
  lemma GroupsPlain(sym: Symbol, colon: string)
    requires PlainSymbol(sym) && (colon == "" || colon == ":")
    ensures GroupsOf(colon + SymbolText(sym)) ==
              Some((if sym.ns.Some? then Some(colon + sym.ns.value + "/") else None,
                    if sym.ns.Some? then sym.name else colon + sym.name))
  {
    match sym.ns
    case None =>
      assert colon + SymbolText(sym) == colon + sym.name;
      GroupsWithoutSlash(colon + sym.name);
    case Some(ns) =>
      var a := colon + ns;
      assert colon + SymbolText(sym) == a + "/" + sym.name;
      assert forall i :: 0 <= i < |a| ==> !IsLineTerminator(a[i]) by {
        forall i | 0 <= i < |a|
          ensures !IsLineTerminator(a[i])
        {
          if colon == ":" && i > 0 {
            assert a[i] == ns[i - 1];
          }
        }
      }
      GroupsWithSlash(a, sym.name);
  }

  // ---------------------------------------------------------------- round trips

  /** No colon from index `k` <= 2 on leaves no "::" after the start. */
  lemma NoDoubleColon(s: string, k: nat)
    requires k <= 2 && k <= |s| && ':' !in s[k..]
    ensures !DoubleColonAfterStart(s)
  {
    forall i | k <= i < |s|
      ensures s[i] != ':'
    {
      assert s[i] == s[k..][i - k];
    }
  }

  /** Group 1 of a plain symbol's text, `ns/` or `:ns/`, does not end with ":/". */
  lemma PlainGroupOne(sym: Symbol, colon: string)
    requires PlainSymbol(sym) && sym.ns.Some?
    ensures !EndsWith(colon + sym.ns.value + "/", ":/")
  {
    var ns := sym.ns.value;
    var g := colon + ns + "/";
    assert g[|g| - 2] == ns[|ns| - 1];
    assert ns[|ns| - 1] in ns;
  }

  /** When the pattern matches and none of the refusals applies, a token without a leading colon
      is the symbol of its text. */
  lemma MatchAsSymbol(s: string, env: NsEnv, g: Option<string>, name: string)
    requires SymbolGroups(s) == Some((g, name))
    requires (g.None? || !EndsWith(g.value, ":/")) && !EndsWith(name, ":") && !DoubleColonAfterStart(s)
    requires |s| >= 1 && s[0] != ':'
    ensures MatchSymbol(s, env) == Some(Sym(Intern(s)))
  {
    assert !StartsWith(s, "::") by {
      if |s| >= 2 {
        assert s[..2][0] == s[0];
      }
    }
  }

  /** ... and a token with one leading colon is the keyword of the rest. */
  lemma MatchAsKeyword(s: string, env: NsEnv, g: Option<string>, name: string)
    requires SymbolGroups(s) == Some((g, name))
    requires (g.None? || !EndsWith(g.value, ":/")) && !EndsWith(name, ":") && !DoubleColonAfterStart(s)
    requires |s| >= 1 && s[0] == ':' && !StartsWith(s, "::")
    ensures MatchSymbol(s, env) == Some(Kw(Intern(s[1..])))
  {
  }

  /** ... and a token with two leading colons is resolved against the namespace environment. */
  lemma MatchAsAutoKeyword(s: string, env: NsEnv, g: Option<string>, name: string)
    requires SymbolGroups(s) == Some((g, name))
    requires (g.None? || !EndsWith(g.value, ":/")) && !EndsWith(name, ":") && !DoubleColonAfterStart(s)
    requires StartsWith(s, "::")
    ensures var ks := Intern(s[2..]);
            var kns := if ks.ns.Some? then NamespaceFor(env, ks.ns.value) else Some(env.current);
            MatchSymbol(s, env) == if kns.Some? then Some(Kw(Symbol(kns, ks.name))) else None
  {
  }

  /** A plain symbol's text reads back as the symbol, unless it is one of the literal words. */
  lemma SymbolRoundTrip(sym: Symbol, env: NsEnv)
    requires PlainSymbol(sym) && SymbolText(sym) !in {"nil", "true", "false"}
    ensures InterpretToken(SymbolText(sym), env) == Success(Sym(sym))
  {
    var s := SymbolText(sym);
    InternPlain(sym);
    GroupsPlain(sym, "");
    assert "" + s == s;
    assert s[0] in s;
    AbsentNotAtEnd(sym.name, ':');
    assert s[0..] == s;
    NoDoubleColon(s, 0);
    var g := if sym.ns.Some? then Some("" + sym.ns.value + "/") else None;
    assert SymbolGroups(s) == Some((g, sym.name));
    if sym.ns.Some? {
      PlainGroupOne(sym, "");
    }
    MatchAsSymbol(s, env, g, sym.name);
  }

  /** A colon in front of a plain symbol's text reads as the keyword of that symbol. */
  lemma KeywordRoundTrip(sym: Symbol, env: NsEnv)
    requires PlainSymbol(sym)
    ensures InterpretToken(":" + SymbolText(sym), env) == Success(Kw(sym))
  {
    var s := ":" + SymbolText(sym);
    var g := if sym.ns.Some? then Some("" + sym.ns.value + "/") else None;
    KeywordGroups(sym, s, g);
    KeywordChecks(sym, s, g);
    MatchAsKeyword(s, env, g, sym.name);
    InterpretColon(s, env);
  }

  /** The groups of `:` followed by a plain symbol's text, and the symbol its rest interns to. */
  lemma KeywordGroups(sym: Symbol, s: string, g: Option<string>)
    requires PlainSymbol(sym) && s == ":" + SymbolText(sym)
    requires g == (if sym.ns.Some? then Some("" + sym.ns.value + "/") else None)
    ensures SymbolGroups(s) == Some((g, sym.name)) && Intern(s[1..]) == sym
  {
    var t := SymbolText(sym);
    InternPlain(sym);
    assert s[1..] == t;
    GroupsPlain(sym, "");
    assert "" + t == t;
  }

  /** None of matchSymbol's refusals applies to `:` followed by a plain symbol's text. */
  lemma KeywordChecks(sym: Symbol, s: string, g: Option<string>)
    requires PlainSymbol(sym) && s == ":" + SymbolText(sym)
    requires g == (if sym.ns.Some? then Some("" + sym.ns.value + "/") else None)
    ensures !StartsWith(s, "::") && !DoubleColonAfterStart(s)
    ensures !EndsWith(sym.name, ":") && (g.None? || !EndsWith(g.value, ":/"))
  {
    var t := SymbolText(sym);
    InternPlain(sym);
    assert !StartsWith(s, "::") by {
      assert s[..2][1] == s[1] == t[0] && t[0] in t;
    }
    NoDoubleColon(s, 1);
    AbsentNotAtEnd(sym.name, ':');
    if sym.ns.Some? {
      PlainGroupOne(sym, "");
    }
  }

  /**
   * Two colons in front of a plain symbol's text: a keyword in the current namespace when there is
   * no namespace part, otherwise in the namespace the alias or namespace name resolves to; an
   * unresolvable namespace part makes the token invalid.
   */
  lemma AutoResolvedKeyword(sym: Symbol, env: NsEnv)
    requires PlainSymbol(sym)
    ensures var kns := if sym.ns.Some? then NamespaceFor(env, sym.ns.value) else Some(env.current);
            InterpretToken("::" + SymbolText(sym), env) ==
              if kns.Some? then Success(Kw(Symbol(kns, sym.name)))
              else Failure(InvalidToken("::" + SymbolText(sym)))
  {
    var s := "::" + SymbolText(sym);
    var g := if sym.ns.Some? then Some(":" + sym.ns.value + "/") else None;
    var name := if sym.ns.Some? then sym.name else ":" + sym.name;
    GroupsPlain(sym, ":");
    AutoKeywordGroups(sym, s);
    AutoKeywordIntern(sym, s);
    AutoKeywordChecks(sym, s, g, name);
    MatchAsAutoKeyword(s, env, g, name);
    InterpretColon(s, env);
  }

  /** The groups of `::` followed by a plain symbol's text are those of `:` and the text. */
  lemma AutoKeywordGroups(sym: Symbol, s: string)
    requires PlainSymbol(sym) && s == "::" + SymbolText(sym)
    ensures SymbolGroups(s) == GroupsOf(":" + SymbolText(sym))
  {
    assert s[1..] == ":" + SymbolText(sym);
    GroupsPlain(sym, ":");
    SymbolGroupsColon(s);
  }

  /** A token with a leading colon whose rest matches takes the groups of the rest. */
  lemma SymbolGroupsColon(s: string)
    requires |s| >= 1 && s[0] == ':' && GroupsOf(s[1..]).Some?
    ensures SymbolGroups(s) == GroupsOf(s[1..])
  {
  }

  /** The text after the `::` of an auto-resolved keyword interns as the symbol it spells. */
  lemma AutoKeywordIntern(sym: Symbol, s: string)
    requires PlainSymbol(sym) && s == "::" + SymbolText(sym)
    ensures StartsWith(s, "::") && Intern(s[2..]) == sym
  {
    InternPlain(sym);
    assert s[2..] == SymbolText(sym);
    assert s[..2] == "::";
  }

  /** The checks matchSymbol makes of those groups before its keyword branch all pass. */
  lemma AutoKeywordChecks(sym: Symbol, s: string, g: Option<string>, name: string)
    requires PlainSymbol(sym) && s == "::" + SymbolText(sym)
    requires g == (if sym.ns.Some? then Some(":" + sym.ns.value + "/") else None)
    requires name == (if sym.ns.Some? then sym.name else ":" + sym.name)
    ensures !DoubleColonAfterStart(s)
    ensures !EndsWith(name, ":") && (g.None? || !EndsWith(g.value, ":/"))
  {
    NoDoubleColon(s, 2);
    if sym.ns.Some? {
      AbsentNotAtEnd(sym.name, ':');
      PlainGroupOne(sym, ":");
    } else {
      assert name[|name| - 1] == sym.name[|sym.name| - 1];
      assert sym.name[|sym.name| - 1] in sym.name;
    }
  }

  /** A token starting with a colon is none of the literal words. */
  lemma InterpretColon(s: string, env: NsEnv)
    requires |s| >= 1 && s[0] == ':'
    ensures InterpretToken(s, env) == if MatchSymbol(s, env).Some? then Success(MatchSymbol(s, env).value)
                                      else Failure(InvalidToken(s))
  {
    assert s != "nil" && s != "true" && s != "false" by {
      assert "nil"[0] != ':' && "true"[0] != ':' && "false"[0] != ':';
    }
  }

  // ---------------------------------------------------------------- what the grammar refuses

  /** Group 2 runs to the end of the token, so a symbol or keyword never ends with a colon; nor
      does one have two colons anywhere but at its start. */
  lemma Refusals(s: string, env: NsEnv)
    ensures EndsWith(s, ":") ==> MatchSymbol(s, env) == None
    ensures DoubleColonAfterStart(s) ==> MatchSymbol(s, env) == None
  {
    if EndsWith(s, ":") && SymbolGroups(s).Some? {
      var (ns, name) := SymbolGroups(s).value;
      GroupsSuffix(s);
      assert name[|name| - 1] == s[|s| - 1];
    }
  }

  /** Group 2 is a non-empty suffix of the token. */
  lemma GroupsSuffix(s: string)
    requires SymbolGroups(s).Some?
    ensures var name := SymbolGroups(s).value.1; 1 <= |name| <= |s| && s[|s| - |name|..] == name
  {
    if |s| >= 1 && s[0] == ':' && GroupsOf(s[1..]).Some? {
      GroupsOfSuffix(s[1..]);
      SuffixOfTail(s, GroupsOf(s[1..]).value.1);
    } else {
      GroupsOfSuffix(s);
    }
  }

  lemma SuffixOfTail(s: string, name: string)
    requires 1 <= |s| && |name| <= |s| - 1 && s[1..][|s| - 1 - |name|..] == name
    ensures s[|s| - |name|..] == name
  {
    assert s[|s| - |name|..] == s[1..][|s| - 1 - |name|..];
  }

  /** ... and so it is of the text after the optional colon. */
  lemma GroupsOfSuffix(t: string)
    requires GroupsOf(t).Some?
    ensures var name := GroupsOf(t).value.1; 1 <= |name| <= |t| && t[|t| - |name|..] == name
  {
    var split := SplitSlash(t);
    if split.Some? {
      var j := split.value;
      assert GroupsOf(t).value.1 == t[j + 1..];
      assert t[|t| - |t[j + 1..]|..] == t[j + 1..];
    } else {
      assert GroupsOf(t).value.1 == t;
    }
  }

  /** A token that reads as a symbol or keyword prints back as itself: the symbol's text is the
      token, the keyword's text is the token without its colon, and an auto-resolved keyword's
      name is the part after the last namespace separator. */
  lemma ReadsBackAsText(s: string, env: NsEnv)
    requires MatchSymbol(s, env).Some?
    ensures var f := MatchSymbol(s, env).value;
            && (s[0] != ':' ==> f.Sym? && SymbolText(f.sym) == s)
            && (s[0] == ':' && !StartsWith(s, "::") ==> f.Kw? && ":" + SymbolText(f.kw) == s)
            && (StartsWith(s, "::") ==> f.Kw? && f.kw.ns.Some? && f.kw.name == Intern(s[2..]).name)
  {
    if s[0] == ':' {
      assert s == ":" + s[1..];
    }
  }
}
