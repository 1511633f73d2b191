/**
 What the scanner of backend/source_module_preloads.py reads: where strings, comments, regular expressions and
 templates end, which tokens a source text has, and which of them name a static import.
 */
module ModuleGrammar {
  import opened Wrappers
  import opened Collections

  const MAX_MODULES: nat := 512
  const MAX_CLAUSE_TOKENS: nat := 256
  const MAX_NESTING: nat := 32

  datatype Kind = StringToken | Opaque | Punct | Word

  /** A token with the half-open span of source it was read from; None for an unusable literal. */
  datatype Token = Token(kind: Kind, value: Option<string>, start: nat, end: nat)

  /** Python's character classes, left open. */
  datatype Classes = Classes(space: char -> bool, alpha: char -> bool, alnum: char -> bool)

  predicate StartsAt(source: string, pattern: string, i: nat) {
    i + |pattern| <= |source| && source[i..i + |pattern|] == pattern
  }

  // ---- where things end ---------------------------------------------------------------------

  /** From inside a literal: where scanning stops, and whether a quote closed it without any escape. */
  function StringEnd(source: string, index: nat, quote: char, escaped: bool): (r: (nat, bool))
    requires index <= |source| + 1
    ensures index <= r.0 <= |source| + 1
    decreases |source| + 1 - index
  {
    if index >= |source| then (index, false)
    else if source[index] == '\\' then StringEnd(source, index + 2, quote, true)
    else if source[index] == quote then (index + 1, !escaped)
    else if source[index] == '\r' || source[index] == '\n' then (index, false)
    else StringEnd(source, index + 1, quote, escaped)
  }

  /** The first occurrence of a pattern at or after from, or the end of the source. */
  function IndexOf(source: string, pattern: string, from: nat): (at: nat)
    requires from <= |source|
    ensures from <= at <= |source|
    ensures at < |source| ==> StartsAt(source, pattern, at)
    ensures forall i: nat | from <= i < at :: !StartsAt(source, pattern, i)
    decreases |source| - from
  {
    if from == |source| || StartsAt(source, pattern, from) then from else IndexOf(source, pattern, from + 1)
  }

  predicate LineCommentAt(source: string, i: nat) {
    i + 1 < |source| && source[i] == '/' && source[i + 1] == '/'
  }

  predicate CommentAt(source: string, i: nat) {
    LineCommentAt(source, i) || (i + 1 < |source| && source[i] == '/' && source[i + 1] == '*')
  }

  predicate ExpressionAt(source: string, i: nat) {
    i + 1 < |source| && source[i] == '$' && source[i + 1] == '{'
  }

  function CommentEnd(source: string, start: nat): (end: nat)
    requires CommentAt(source, start)
    ensures start + 2 <= end <= |source|
  {
    if LineCommentAt(source, start) then IndexOf(source, "\n", start + 2)
    else
      var at := IndexOf(source, "*/", start + 2);
      if at == |source| then |source| else at + 2
  }

  /** The slash that closes a regular expression on its own line, outside a character class. */
  function ClosingSlash(source: string, index: nat, inClass: bool): (r: Option<nat>)
    ensures r.Some? ==> index <= r.value < |source| && source[r.value] == '/'
    decreases |source| - index
  {
    if index >= |source| || source[index] == '\r' || source[index] == '\n' then None
    else if source[index] == '\\' then ClosingSlash(source, index + 2, inClass)
    else if source[index] == '/' && !inClass then Some(index)
    else ClosingSlash(source, index + 1, if source[index] == '[' then true else if source[index] == ']' then false
        else inClass)
  }

  /** Where a run of characters of one class ends. */
  function RunEnd(member: char -> bool, source: string, index: nat): (end: nat)
    requires index <= |source|
    ensures index <= end <= |source| && (end < |source| ==> !member(source[end]))
    ensures forall i | index <= i < end :: member(source[i])
    decreases |source| - index
  {
    if index == |source| || !member(source[index]) then index else RunEnd(member, source, index + 1)
  }

  /** Past the closing slash and its flags; a slash that opens nothing ends at once. */
  function RegexEnd(c: Classes, source: string, start: nat): (end: nat)
    requires start < |source|
    ensures start < end <= |source|
  {
    match ClosingSlash(source, start + 1, false)
    case None => start + 1
    case Some(slash) => RunEnd(c.alpha, source, slash + 1)
  }

  /** A template that opens at start; below 32 levels the rest of the source is given up. */
  function TemplateEnd(c: Classes, source: string, start: nat, nesting: nat): (end: nat)
    requires start < |source| && nesting <= MAX_NESTING
    ensures start < end <= |source| + 1
    decreases MAX_NESTING - nesting, 1, 0
  {
    if nesting == MAX_NESTING then |source| else TemplateRest(c, source, start + 1, nesting)
  }

  /** From inside a template: past the first backquote that is neither escaped nor part of an expression. */
  function TemplateRest(c: Classes, source: string, index: nat, nesting: nat): (end: nat)
    requires index <= |source| + 1 && nesting < MAX_NESTING
    ensures index <= end <= |source| + 1
    decreases MAX_NESTING - nesting, 0, |source| + 1 - index
  {
    if index >= |source| then index
    else if source[index] == '\\' then TemplateRest(c, source, index + 2, nesting)
    else if source[index] == '`' then index + 1
    else if ExpressionAt(source, index) then
      TemplateRest(c, source, ExpressionEnd(c, source, index + 2, 1, nesting + 1), nesting)
    else TemplateRest(c, source, index + 1, nesting)
  }

  /** From inside a template expression with depth open braces: past the brace that closes it. */
  function ExpressionEnd(c: Classes, source: string, index: nat, depth: nat, nesting: nat): (end: nat)
    requires index <= |source| + 1 && nesting <= MAX_NESTING && depth >= 1
    ensures index <= end <= |source| + 1
    decreases MAX_NESTING - nesting, 2, |source| + 1 - index
  {
    if index >= |source| then index else
      var x := source[index];
      if x == '"' || x == '\'' then ExpressionEnd(c, source, StringEnd(source, index + 1, x, false).0, depth, nesting)
      else if x == '`' then ExpressionEnd(c, source, TemplateEnd(c, source, index, nesting), depth, nesting)
      else if CommentAt(source, index) then ExpressionEnd(c, source, CommentEnd(source, index), depth, nesting)
      else if x == '/' then ExpressionEnd(c, source, RegexEnd(c, source, index), depth, nesting)
      else if x == '}' && depth == 1 then index + 1
      else ExpressionEnd(c, source, index + 1, if x == '{' then depth + 1 else if x == '}' then depth - 1
          else depth, nesting)
  }

  // ---- tokens -------------------------------------------------------------------------------

  predicate WordChar(c: Classes, x: char) {
    c.alnum(x) || x in "_$"
  }

  predicate WordStart(c: Classes, x: char) {
    c.alpha(x) || x in "_$"
  }

  /** The token that starts at a position which is neither space nor comment. */
  function TokenAt(c: Classes, source: string, i: nat): (t: Token)
    requires i < |source|
    ensures t.start == i < t.end <= |source| + 1
  {
    var x := source[i];
    if x == '"' || x == '\'' then
      var (end, closed) := StringEnd(source, i + 1, x, false);
      Token(StringToken, if closed && i + 1 < end <= |source| then Some(source[i + 1..end - 1]) else None, i, end)
    else if x == '`' then Token(Opaque, None, i, TemplateEnd(c, source, i, 0))
    else if x == '/' then
      var end := RegexEnd(c, source, i);
      if end > i + 1 then Token(Opaque, None, i, end) else Token(Punct, Some("/"), i, end)
    else if WordStart(c, x) then
      var end := RunEnd(y => WordChar(c, y), source, i + 1);
      Token(Word, Some(source[i..end]), i, end)
    else Token(Punct, Some([x]), i, i + 1)
  }

  /** The first position from i on that is neither space nor inside a comment. */
  function SkipBlank(c: Classes, source: string, i: nat): (r: nat)
    requires i <= |source| + 1
    ensures i <= r <= |source| + 1
    decreases |source| + 1 - i
  {
    if i >= |source| then i
    else if c.space(source[i]) then SkipBlank(c, source, i + 1)
    else if CommentAt(source, i) then SkipBlank(c, source, CommentEnd(source, i))
    else i
  }

  /** The tokens from position i on: blank, token, blank, token, until the source ends. */
  function TokensFrom(c: Classes, source: string, i: nat): seq<Token>
    requires i <= |source| + 1
    decreases |source| + 1 - i
  {
    var at := SkipBlank(c, source, i);
    if at >= |source| then [] else
      var t := TokenAt(c, source, at);
      [t] + TokensFrom(c, source, t.end)
  }

  // ---- static specifiers --------------------------------------------------------------------

  predicate IsPunct(t: Token, p: string) {
    t.kind == Punct && t.value == Some(p)
  }

  predicate IsWord(t: Token, w: string) {
    t.kind == Word && t.value == Some(w)
  }

  predicate PunctAt(tokens: seq<Token>, i: nat, p: string) {
    i < |tokens| && IsPunct(tokens[i], p)
  }

  predicate WordAt(tokens: seq<Token>, i: nat, w: string) {
    i < |tokens| && IsWord(tokens[i], w)
  }

  predicate KindAt(tokens: seq<Token>, i: nat, k: Kind) {
    i < |tokens| && tokens[i].kind == k
  }

  predicate ClauseToken(t: Token) {
    t.kind == Word || t.kind == StringToken || IsPunct(t, ",")
  }

  /** `{ a, b as c }` from i up to j, within 256 tokens. */
  predicate NamedClause(tokens: seq<Token>, i: nat, j: nat) {
    && PunctAt(tokens, i, "{") && i + 1 < j <= i + MAX_CLAUSE_TOKENS && PunctAt(tokens, j - 1, "}")
    && forall t | i < t < j - 1 :: ClauseToken(tokens[t])
  }

  /** `* as name` from i up to j. */
  predicate NamespaceClause(tokens: seq<Token>, i: nat, j: nat) {
    j == i + 3 && PunctAt(tokens, i, "*") && WordAt(tokens, i + 1, "as") && KindAt(tokens, i + 2, Word)
  }

  predicate Clause(tokens: seq<Token>, i: nat, j: nat) {
    NamedClause(tokens, i, j) || NamespaceClause(tokens, i, j)
  }

  /** `from "specifier"`, the literal being token k. */
  predicate FromAt(tokens: seq<Token>, j: nat, k: nat) {
    k == j + 1 && WordAt(tokens, j, "from") && KindAt(tokens, k, StringToken)
  }

  /** Where the word `from` of an import may stand. After a default name and a comma the clause may be missing. */
  predicate ImportClauseEnds(tokens: seq<Token>, start: nat, j: nat) {
    || (KindAt(tokens, start + 1, Word) && j == start + 2)
    || (KindAt(tokens, start + 1, Word) && PunctAt(tokens, start + 2, ",")
        && (Clause(tokens, start + 3, j) || j == start + 3))
    || Clause(tokens, start + 1, j)
  }

  predicate ExportClauseEnds(tokens: seq<Token>, start: nat, j: nat) {
    Clause(tokens, start + 1, j) || (PunctAt(tokens, start + 1, "*") && j == start + 2)
  }

  /** The import or export declaration at start names its module by token k. */
  predicate Specifies(tokens: seq<Token>, start: nat, k: nat) {
    || (WordAt(tokens, start, "import") && k == start + 1 && KindAt(tokens, k, StringToken))
    || (WordAt(tokens, start, "import") && k >= 1 && FromAt(tokens, k - 1, k) && ImportClauseEnds(tokens, start, k - 1))
    || (WordAt(tokens, start, "export") && k >= 1 && FromAt(tokens, k - 1, k) && ExportClauseEnds(tokens, start, k - 1))
  }

  lemma ClauseUnique(tokens: seq<Token>, i: nat, j: nat, j': nat)
    requires Clause(tokens, i, j) && Clause(tokens, i, j')
    ensures j == j'
  {
  }

  /** A declaration names at most one module. */
  lemma SpecifierUnique(tokens: seq<Token>, start: nat, k: nat, k': nat)
    requires Specifies(tokens, start, k) && Specifies(tokens, start, k')
    ensures k == k'
  {
    if Clause(tokens, start + 1, k - 1) && Clause(tokens, start + 1, k' - 1) {
      ClauseUnique(tokens, start + 1, k - 1, k' - 1);
    }
    if Clause(tokens, start + 3, k - 1) && Clause(tokens, start + 3, k' - 1) {
      ClauseUnique(tokens, start + 3, k - 1, k' - 1);
    }
  }

  ghost function SpecifierOf(tokens: seq<Token>, start: nat): Option<string> {
    if k: nat :| Specifies(tokens, start, k) then tokens[k].value else None
  }

  /** How many brackets of one kind are open after the tokens; a stray closer never counts below zero. */
  function OpenAfter(tokens: seq<Token>, opener: string, closer: string): nat {
    if tokens == [] then 0 else
      var n := OpenAfter(tokens[..|tokens| - 1], opener, closer);
      var last := tokens[|tokens| - 1];
      if IsPunct(last, opener) then n + 1
      else if IsPunct(last, closer) then (if n == 0 then 0 else n - 1)
      else n
  }

  predicate TopLevel(tokens: seq<Token>) {
    OpenAfter(tokens, "{", "}") == 0 && OpenAfter(tokens, "(", ")") == 0 && OpenAfter(tokens, "[", "]") == 0
  }

  /** A static declaration: import or export, outside every bracket and not a member name. */
  predicate DeclarationAt(tokens: seq<Token>, i: nat) {
    && i < |tokens| && (IsWord(tokens[i], "import") || IsWord(tokens[i], "export"))
    && TopLevel(tokens[..i]) && (i > 0 ==> !IsPunct(tokens[i - 1], "."))
  }

  /** The modules named by the first n tokens' declarations, in order of first appearance. */
  ghost function Declared(tokens: seq<Token>, n: nat): seq<string> {
    if n == 0 then [] else
      var earlier := Declared(tokens, n - 1);
      if DeclarationAt(tokens, n - 1) && SpecifierOf(tokens, n - 1).Some?
          && SpecifierOf(tokens, n - 1).value !in earlier
      then earlier + [SpecifierOf(tokens, n - 1).value] else earlier
  }

  ghost predicate Declares(tokens: seq<Token>, i: nat, s: string) {
    DeclarationAt(tokens, i) && exists k: nat :: Specifies(tokens, i, k) && tokens[k].value == Some(s)
  }

  lemma SpecifierOfMeaning(tokens: seq<Token>, i: nat, s: string)
    ensures SpecifierOf(tokens, i) == Some(s) <==>
        exists k: nat :: Specifies(tokens, i, k) && tokens[k].value == Some(s)
  {
    if k: nat :| Specifies(tokens, i, k) && tokens[k].value == Some(s) {
      var k': nat :| Specifies(tokens, i, k') && SpecifierOf(tokens, i) == tokens[k'].value;
      SpecifierUnique(tokens, i, k, k');
    }
  }

  /** Exactly the named modules are listed, each once. */
  lemma {:induction false} DeclaredMeaning(tokens: seq<Token>, n: nat, s: string)
    ensures s in Declared(tokens, n) <==> exists i: nat :: i < n && Declares(tokens, i, s)
    ensures Distinct(Declared(tokens, n))
  {
    if n > 0 {
      DeclaredMeaning(tokens, n - 1, s);
      SpecifierOfMeaning(tokens, n - 1, s);
      var earlier := Declared(tokens, n - 1);
      assert s in Declared(tokens, n) <==> s in earlier || Declares(tokens, n - 1, s);
      if i: nat :| i < n && Declares(tokens, i, s) { assert i < n - 1 || i == n - 1; }
      if s in earlier { var i: nat :| i < n - 1 && Declares(tokens, i, s); assert i < n; }
    }
  }

  lemma {:induction false} DeclaredPrefix(tokens: seq<Token>, n: nat, m: nat)
    requires n <= m
    ensures Declared(tokens, n) <= Declared(tokens, m)
    decreases m
  {
    if n < m { DeclaredPrefix(tokens, n, m - 1); }
  }

  function Limited(s: seq<string>): seq<string> {
    if |s| <= MAX_MODULES then s else s[..MAX_MODULES]
  }
}
