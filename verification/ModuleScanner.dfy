/** The conservative JavaScript scanner of backend/source_module_preloads.py, loop by loop. */
module ModuleScanner {
  import opened Wrappers
  import opened Collections
  import opened ModuleGrammar

  // ---- skipping -----------------------------------------------------------------------------

  predicate Plain(c: char, quote: char) {
    c != quote && c != '\\' && c != '\r' && c != '\n'
  }

  /** The characters strictly between two positions end no literal and escape nothing. */
  predicate PlainBetween(source: string, start: nat, end: nat, quote: char)
    requires end <= |source|
  {
    forall i | start < i < end :: Plain(source[i], quote)
  }

  /** A literal without escapes opens at start and closes at k. */
  predicate ClosesAt(source: string, start: nat, k: nat) {
    start < k < |source| && source[k] == source[start] && PlainBetween(source, start, k, source[start])
  }

  /** `_skip_string`: a literal is returned exactly when it closes on its line without an escape. */
  method SkipString(source: string, start: nat) returns (end: nat, literal: Option<string>)
    requires start < |source| && source[start] != '\\'
    ensures (end, literal.Some?) == StringEnd(source, start + 1, source[start], false)
    ensures literal.Some? <==> exists k: nat :: ClosesAt(source, start, k)
    ensures literal.Some? ==> ClosesAt(source, start, end - 1) && literal.value == source[start + 1..end - 1]
  {
    var quote := source[start];
    var index, escaped := start + 1, false;
    ghost var stop := start + 1;
    while index < |source|
      invariant start < index <= |source| + 1 && start < stop <= index && stop <= |source|
      invariant StringEnd(source, index, quote, escaped) == StringEnd(source, start + 1, quote, false)
      invariant PlainBetween(source, start, stop, quote)
      invariant if escaped then stop < |source| && source[stop] == '\\' else stop == index
      decreases |source| - index
    {
      var c := source[index];
      if c == '\\' {
        escaped := true;
        index := index + 2;
      } else if c == quote {
        assert !escaped ==> ClosesAt(source, start, index);
        NoOtherClose(source, start, stop, escaped);
        return index + 1, if escaped then None else Some(source[start + 1..index]);
      } else if c == '\r' || c == '\n' {
        NoOtherClose(source, start, stop, escaped);
        return index, None;
      } else {
        index := index + 1;
        if !escaped {
          stop := index;
        }
      }
    }
    return index, None;
  }

  /** Nothing closes past the first character that is not plain, unless that character is the quote. */
  lemma NoOtherClose(source: string, start: nat, stop: nat, escaped: bool)
    requires start < stop < |source| && PlainBetween(source, start, stop, source[start])
    requires !Plain(source[stop], source[start]) && (escaped ==> source[stop] == '\\') && source[start] != '\\'
    ensures forall k: nat | ClosesAt(source, start, k) :: k == stop && source[stop] == source[start]
  {
  }

  method Find(source: string, pattern: string, from: nat) returns (at: nat)
    requires from <= |source|
    ensures at == IndexOf(source, pattern, from)
  {
    at := from;
    while at < |source| && !StartsAt(source, pattern, at)
      invariant from <= at <= |source| && IndexOf(source, pattern, at) == IndexOf(source, pattern, from)
    {
      at := at + 1;
    }
  }

  /** `_skip_comment`: to the line end, or past the first closing mark. */
  method SkipComment(source: string, start: nat) returns (end: nat)
    requires CommentAt(source, start)
    ensures end == CommentEnd(source, start)
    ensures LineCommentAt(source, start) ==>
              (end == |source| || source[end] == '\n') && forall i | start + 2 <= i < end :: source[i] != '\n'
    ensures !LineCommentAt(source, start) ==>
              && (forall i: nat | start + 2 <= i < end - 2 :: !StartsAt(source, "*/", i))
              && (end < |source| ==> end >= start + 4 && StartsAt(source, "*/", end - 2))
  {
    if LineCommentAt(source, start) {
      end := Find(source, "\n", start + 2);
      forall i | start + 2 <= i < end ensures source[i] != '\n' { assert !StartsAt(source, "\n", i); }
      return;
    }
    var at := Find(source, "*/", start + 2);
    end := if at == |source| then |source| else at + 2;
  }

  /** `_skip_regex`: past a slash-delimited body and its flags, or just past the slash. */
  method SkipRegex(c: Classes, source: string, start: nat) returns (end: nat)
    requires start < |source|
    ensures end == RegexEnd(c, source, start)
  {
    var index, inClass := start + 1, false;
    while index < |source| && source[index] != '\r' && source[index] != '\n'
      invariant start < index
      invariant ClosingSlash(source, index, inClass) == ClosingSlash(source, start + 1, false)
      decreases |source| - index
    {
      var x := source[index];
      if x == '\\' {
        index := index + 2;
        continue;
      }
      if x == '[' {
        inClass := true;
      } else if x == ']' {
        inClass := false;
      } else if x == '/' && !inClass {
        index := SkipRun(c.alpha, source, index + 1);
        return index;
      }
      index := index + 1;
    }
    return start + 1;
  }

  method SkipRun(member: char -> bool, source: string, start: nat) returns (index: nat)
    requires start <= |source|
    ensures index == RunEnd(member, source, start)
  {
    index := start;
    while index < |source| && member(source[index])
      invariant start <= index <= |source| && RunEnd(member, source, index) == RunEnd(member, source, start)
    {
      index := index + 1;
    }
  }

  /** `_skip_template`: always advances; templates nest at most 32 deep. */
  method SkipTemplate(c: Classes, source: string, start: nat, nesting: nat) returns (end: nat)
    requires start < |source| && nesting <= MAX_NESTING
    ensures end == TemplateEnd(c, source, start, nesting)
    decreases MAX_NESTING - nesting, 0
  {
    if nesting >= MAX_NESTING {
      return |source|;
    }
    var index := start + 1;
    ghost var goal := TemplateRest(c, source, index, nesting);
    assert goal == TemplateEnd(c, source, start, nesting);
    while index < |source|
      invariant start < index <= |source| + 1 && TemplateRest(c, source, index, nesting) == goal
      decreases |source| - index
    {
      TemplateStep(c, source, index, nesting);
      if source[index] == '\\' {
        index := index + 2;
      } else if source[index] == '`' {
        return index + 1;
      } else if ExpressionAt(source, index) {
        index := SkipTemplateExpression(c, source, index + 2, nesting + 1);
      } else {
        index := index + 1;
      }
    }
    return index;
  }

  /** One step inside a template. */
  lemma TemplateStep(c: Classes, source: string, index: nat, nesting: nat)
    requires index < |source| && nesting < MAX_NESTING
    ensures TemplateRest(c, source, index, nesting) ==
              if source[index] == '\\' then TemplateRest(c, source, index + 2, nesting)
              else if source[index] == '`' then index + 1
              else if ExpressionAt(source, index) then
                TemplateRest(c, source, ExpressionEnd(c, source, index + 2, 1, nesting + 1), nesting)
              else TemplateRest(c, source, index + 1, nesting)
  {
  }

  /** `_skip_template_expression`: to the brace that closes the expression. */
  method SkipTemplateExpression(c: Classes, source: string, start: nat, nesting: nat) returns (end: nat)
    requires start <= |source| && nesting <= MAX_NESTING
    ensures end == ExpressionEnd(c, source, start, 1, nesting)
    decreases MAX_NESTING - nesting, 1
  {
    var index, depth := start, 1;
    while index < |source|
      invariant start <= index <= |source| + 1 && depth >= 1
      invariant ExpressionEnd(c, source, index, depth, nesting) == ExpressionEnd(c, source, start, 1, nesting)
      decreases |source| - index
    {
      var x := source[index];
      if x == '"' || x == '\'' {
        var next, _ := SkipString(source, index);
        index := next;
      } else if x == '`' {
        index := SkipTemplate(c, source, index, nesting);
      } else if CommentAt(source, index) {
        index := SkipComment(source, index);
      } else if x == '/' {
        index := SkipRegex(c, source, index);
      } else {
        if x == '{' {
          depth := depth + 1;
        } else if x == '}' {
          depth := depth - 1;
          if depth == 0 {
            return index + 1;
          }
        }
        index := index + 1;
      }
    }
    return index;
  }

  // ---- tokens -------------------------------------------------------------------------------

  /** A reported literal is verbatim source between equal quotes, without backslash or line break. */
  ghost predicate Verbatim(source: string, start: nat, s: string) {
    && start + |s| + 1 < |source| && (source[start] == '"' || source[start] == '\'')
    && ClosesAt(source, start, start + |s| + 1) && s == source[start + 1..start + |s| + 1]
  }

  ghost predicate TokenFits(c: Classes, source: string, t: Token) {
    && t.start < t.end <= |source| + 1 && t.start < |source|
    && match t.kind
       case StringToken =>
         (t.value.Some? <==> exists k: nat :: ClosesAt(source, t.start, k))
         && (t.value.Some? ==> Verbatim(source, t.start, t.value.value) && t.end == t.start + |t.value.value| + 2)
       case Opaque => t.value.None?
       case Punct => t.end == t.start + 1 && t.value == Some([source[t.start]])
       case Word =>
         && t.end <= |source| && t.value == Some(source[t.start..t.end]) && WordStart(c, source[t.start])
         && (forall i | t.start < i < t.end :: WordChar(c, source[i]))
         && (t.end < |source| ==> !WordChar(c, source[t.end]))
  }

  /** Spans are in order and disjoint, and each token is what its span says. */
  ghost predicate TokensFit(c: Classes, source: string, tokens: seq<Token>) {
    && (forall t | t in tokens :: TokenFits(c, source, t))
    && (forall i, j | 0 <= i < j < |tokens| :: tokens[i].end <= tokens[j].start)
  }

  /** The tokens found so far fit and end by index. */
  ghost predicate FitBefore(c: Classes, source: string, tokens: seq<Token>, index: nat) {
    TokensFit(c, source, tokens) && forall t | t in tokens :: t.end <= index
  }

  lemma FitAppended(c: Classes, source: string, tokens: seq<Token>, t: Token)
    requires FitBefore(c, source, tokens, t.start) && TokenFits(c, source, t)
    ensures FitBefore(c, source, tokens + [t], t.end)
  {
    var longer := tokens + [t];
    forall x | x in longer ensures TokenFits(c, source, x) && x.end <= t.end {
      assert x in tokens || x == t;
    }
    forall i, j | 0 <= i < j < |longer| ensures longer[i].end <= longer[j].start {
      if j == |tokens| { assert tokens[i] in tokens; }
    }
  }

  lemma BlankStep(c: Classes, source: string, index: nat, next: nat)
    requires index < next <= |source| + 1 && SkipBlank(c, source, index) == SkipBlank(c, source, next)
    ensures TokensFrom(c, source, index) == TokensFrom(c, source, next)
  {
  }

  lemma TokenStep(c: Classes, source: string, index: nat)
    requires index < |source| && SkipBlank(c, source, index) == index
    ensures var t := TokenAt(c, source, index); TokensFrom(c, source, index) == [t] + TokensFrom(c, source, t.end)
  {
  }

  lemma Regroup(tokens: seq<Token>, t: Token, rest: seq<Token>, all: seq<Token>)
    requires tokens + ([t] + rest) == all
    ensures (tokens + [t]) + rest == all
  {
  }

  /** `_tokens` */
  method Tokens(c: Classes, source: string) returns (tokens: seq<Token>)
    ensures tokens == TokensFrom(c, source, 0)
    ensures TokensFit(c, source, tokens)
  {
    tokens := [];
    var index := 0;
    ghost var all := TokensFrom(c, source, 0);
    while index < |source|
      invariant index <= |source| + 1 && FitBefore(c, source, tokens, index)
      invariant tokens + TokensFrom(c, source, index) == all
      decreases |source| - index
    {
      ghost var before := index;
      if c.space(source[index]) {
        index := index + 1;
        BlankStep(c, source, before, index);
      } else if CommentAt(source, index) {
        index := SkipComment(source, index);
        BlankStep(c, source, before, index);
      } else {
        var t := NextToken(c, source, index);
        TokenStep(c, source, index);
        Regroup(tokens, t, TokensFrom(c, source, t.end), all);
        FitAppended(c, source, tokens, t);
        tokens := tokens + [t];
        index := t.end;
      }
    }
  }

  method NextToken(c: Classes, source: string, index: nat) returns (t: Token)
    requires index < |source|
    ensures t == TokenAt(c, source, index) && TokenFits(c, source, t)
  {
    var x := source[index];
    if x == '"' || x == '\'' {
      var end, literal := SkipString(source, index);
      t := Token(StringToken, literal, index, end);
    } else if x == '`' {
      var end := SkipTemplate(c, source, index, 0);
      t := Token(Opaque, None, index, end);
    } else if x == '/' {
      var end := SkipRegex(c, source, index);
      t := if end > index + 1 then Token(Opaque, None, index, end) else Token(Punct, Some("/"), index, end);
    } else if WordStart(c, x) {
      var end := SkipRun(y => WordChar(c, y), source, index + 1);
      t := Token(Word, Some(source[index..end]), index, end);
    } else {
      t := Token(Punct, Some([x]), index, index + 1);
    }
  }

  /** A space, or a position inside a comment. */
  ghost predicate BlankAt(c: Classes, source: string, k: nat) {
    k < |source| && (c.space(source[k]) || exists a: nat | a <= k :: CommentAt(source, a) && k < CommentEnd(source, a))
  }

  lemma {:induction false} SkippedIsBlank(c: Classes, source: string, i: nat, k: nat)
    requires i <= k < |source| && k < SkipBlank(c, source, i)
    ensures BlankAt(c, source, k)
    decreases |source| - i
  {
    if c.space(source[i]) {
      if k > i { SkippedIsBlank(c, source, i + 1, k); }
    } else if k >= CommentEnd(source, i) {
      SkippedIsBlank(c, source, CommentEnd(source, i), k);
    }
  }

  /** Nothing is overlooked: every position belongs to a token, is a space, or lies in a comment. */
  lemma {:induction false} TokensCover(c: Classes, source: string, i: nat, k: nat)
    requires i <= k < |source|
    ensures BlankAt(c, source, k) || exists t | t in TokensFrom(c, source, i) :: t.start <= k < t.end
    decreases |source| - i
  {
    var at := SkipBlank(c, source, i);
    if k < at {
      SkippedIsBlank(c, source, i, k);
    } else {
      var t := TokenAt(c, source, at);
      var rest := TokensFrom(c, source, t.end);
      assert TokensFrom(c, source, i) == [t] + rest;
      if k < t.end {
        assert t in TokensFrom(c, source, i);
      } else {
        TokensCover(c, source, t.end, k);
        assert forall x | x in rest :: x in TokensFrom(c, source, i);
      }
    }
  }

  // ---- static specifiers --------------------------------------------------------------------

  method AfterNamedClause(tokens: seq<Token>, index: nat) returns (r: Option<nat>)
    requires PunctAt(tokens, index, "{")
    ensures r.Some? <==> exists j: nat :: NamedClause(tokens, index, j)
    ensures r.Some? ==> NamedClause(tokens, index, r.value)
  {
    var end := if |tokens| < index + MAX_CLAUSE_TOKENS then |tokens| else index + MAX_CLAUSE_TOKENS;
    var current := index + 1;
    while current < end
      invariant index < current && (current <= end || current == index + 1)
      invariant forall t | index < t < current :: ClauseToken(tokens[t])
    {
      if IsPunct(tokens[current], "}") {
        assert NamedClause(tokens, index, current + 1);
        return Some(current + 1);
      }
      if tokens[current].kind != Word && tokens[current].kind != StringToken && !IsPunct(tokens[current], ",") {
        forall j: nat ensures !NamedClause(tokens, index, j) { NoClausePast(tokens, index, current, j); }
        return None;
      }
      current := current + 1;
    }
    return None;
  }

  lemma NoClausePast(tokens: seq<Token>, i: nat, current: nat, j: nat)
    requires i < current < |tokens| && (forall t | i < t < current :: ClauseToken(tokens[t]))
    requires !ClauseToken(tokens[current]) && !IsPunct(tokens[current], "}")
    ensures !NamedClause(tokens, i, j)
  {
  }

  /** The literal of the only token that can specify the module, or nothing. */
  lemma SpecifiedBy(tokens: seq<Token>, start: nat, k: nat)
    requires Specifies(tokens, start, k)
    ensures SpecifierOf(tokens, start) == tokens[k].value
  {
    var k': nat :| Specifies(tokens, start, k') && SpecifierOf(tokens, start) == tokens[k'].value;
    SpecifierUnique(tokens, start, k, k');
  }

  /** The clause that begins at index ends at j; an import may also have none, an export may have a bare star. */
  predicate ClauseEndsAt(tokens: seq<Token>, index: nat, isImport: bool, j: nat) {
    || Clause(tokens, index, j)
    || (isImport && WordAt(tokens, index, "from") && j == index)
    || (!isImport && PunctAt(tokens, index, "*") && !WordAt(tokens, index + 1, "as") && j == index + 1)
  }

  method ClauseEnd(tokens: seq<Token>, index: nat, isImport: bool) returns (r: Option<nat>)
    requires index < |tokens|
    ensures forall j: nat :: ClauseEndsAt(tokens, index, isImport, j) <==> r == Some(j)
  {
    if IsPunct(tokens[index], "{") {
      r := AfterNamedClause(tokens, index);
      forall j: nat | NamedClause(tokens, index, j) && r.Some? ensures r == Some(j) {
        ClauseUnique(tokens, index, j, r.value);
      }
    } else if IsPunct(tokens[index], "*") {
      if index + 1 < |tokens| && IsWord(tokens[index + 1], "as") {
        if index + 2 >= |tokens| || tokens[index + 2].kind != Word {
          return None;
        }
        return Some(index + 3);
      }
      return if isImport then None else Some(index + 1);
    } else {
      return if IsWord(tokens[index], "from") && isImport then Some(index) else None;
    }
  }

  /** `_static_specifier` */
  method StaticSpecifier(tokens: seq<Token>, start: nat) returns (r: Option<string>)
    requires start < |tokens| && (IsWord(tokens[start], "import") || IsWord(tokens[start], "export"))
    ensures r == SpecifierOf(tokens, start)
  {
    var isImport := IsWord(tokens[start], "import");
    var index := start + 1;
    if index >= |tokens| {
      return None;
    }
    if isImport && tokens[index].kind == StringToken {
      SpecifiedBy(tokens, start, index);
      return tokens[index].value;
    }
    if isImport && tokens[index].kind == Word {
      index := index + 1;
      if index < |tokens| && IsPunct(tokens[index], ",") {
        index := index + 1;
      } else if index < |tokens| && !IsWord(tokens[index], "from") {
        return None;
      }
    }
    if index >= |tokens| {
      return None;
    }
    var clause := ClauseEnd(tokens, index, isImport);
    SpecifierFollowsClause(tokens, start, index, isImport);
    if clause.None? {
      return None;
    }
    index := clause.value;
    if index + 1 < |tokens| && IsWord(tokens[index], "from") && tokens[index + 1].kind == StringToken {
      SpecifiedBy(tokens, start, index + 1);
      return tokens[index + 1].value;
    }
    return None;
  }

  /** Once a default name has been passed, the specifier is the literal after the clause and the word `from`. */
  lemma SpecifierFollowsClause(tokens: seq<Token>, start: nat, index: nat, isImport: bool)
    requires if isImport then WordAt(tokens, start, "import") else WordAt(tokens, start, "export")
    requires isImport ==> !KindAt(tokens, start + 1, StringToken)
    requires if isImport && KindAt(tokens, start + 1, Word)
             then (PunctAt(tokens, start + 2, ",") && index == start + 3)
                 || (WordAt(tokens, start + 2, "from") && index == start + 2)
             else index == start + 1
    ensures forall k: nat :: Specifies(tokens, start, k) <==>
              k >= 1 && FromAt(tokens, k - 1, k) && ClauseEndsAt(tokens, index, isImport, k - 1)
  {
  }

  method CollectSpecifiers(tokens: seq<Token>) returns (result: seq<string>)
    ensures result == Limited(Declared(tokens, |tokens|))
  {
    result := [];
    var braces, parens, brackets := 0, 0, 0;
    for i := 0 to |tokens|
      invariant |result| < MAX_MODULES && result == Declared(tokens, i)
      invariant braces == OpenAfter(tokens[..i], "{", "}") && parens == OpenAfter(tokens[..i], "(", ")")
      invariant brackets == OpenAfter(tokens[..i], "[", "]")
    {
      var t := tokens[i];
      assert tokens[..i + 1][..i] == tokens[..i];
      if (IsWord(t, "import") || IsWord(t, "export")) && braces == 0 && parens == 0 && brackets == 0
        && (i == 0 || !IsPunct(tokens[i - 1], ".")) {
        assert DeclarationAt(tokens, i);
        var found := StaticSpecifier(tokens, i);
        if found.Some? && found.value !in result {
          result := result + [found.value];
          if |result| >= MAX_MODULES {
            DeclaredPrefix(tokens, i + 1, |tokens|);
            return;
          }
        }
      }
      braces := Counted(t, "{", "}", braces);
      parens := Counted(t, "(", ")", parens);
      brackets := Counted(t, "[", "]", brackets);
    }
  }

  function Counted(t: Token, opener: string, closer: string, n: nat): nat {
    if IsPunct(t, opener) then n + 1 else if IsPunct(t, closer) && n > 0 then n - 1 else n
  }

  /**
   `_static_specifiers`: for every text the scan ends. It reports the first 512 modules named by top-level
   declarations, in order and without repeats, and each occurs verbatim between equal quotes in the source.
   */
  method StaticSpecifiers(c: Classes, source: string) returns (result: seq<string>)
    ensures var tokens := TokensFrom(c, source, 0); var declared := Declared(tokens, |tokens|);
            result <= declared && |result| == if |declared| < 512 then |declared| else 512
    ensures Distinct(result)
    ensures forall s | s in result :: exists at: nat :: Quoted(source, at, s)
    ensures |result| < 512 ==>
              forall s, i: nat | Declares(TokensFrom(c, source, 0), i, s) :: s in result
  {
    var tokens := Tokens(c, source);
    result := CollectSpecifiers(tokens);
    ghost var declared := Declared(tokens, |tokens|);
    DeclaredMeaning(tokens, |tokens|, "");
    forall s | s in result ensures exists at: nat :: Quoted(source, at, s) {
      assert s in declared;
      DeclaredIsQuoted(c, source, tokens, s);
    }
    forall s, i: nat | |result| < MAX_MODULES && Declares(tokens, i, s) ensures s in result {
      DeclaredMeaning(tokens, |tokens|, s);
      assert s in declared;
    }
  }

  /** s stands between two equal quotes and holds no such quote, no backslash and no line break. */
  ghost predicate Quoted(source: string, at: nat, s: string) {
    && Verbatim(source, at, s) && source[at + |s| + 1] == source[at]
    && forall x | x in s :: Plain(x, source[at])
  }

  lemma VerbatimIsQuoted(source: string, at: nat, s: string)
    requires Verbatim(source, at, s)
    ensures Quoted(source, at, s)
  {
    forall x | x in s ensures Plain(x, source[at]) {
      var i :| 0 <= i < |s| && s[i] == x;
      assert source[at + 1 + i] == x;
    }
  }

  lemma DeclaredIsQuoted(c: Classes, source: string, tokens: seq<Token>, s: string)
    requires TokensFit(c, source, tokens) && s in Declared(tokens, |tokens|)
    ensures exists at: nat :: Quoted(source, at, s)
  {
    DeclaredMeaning(tokens, |tokens|, s);
    var i: nat :| i < |tokens| && Declares(tokens, i, s);
    var k: nat :| Specifies(tokens, i, k) && tokens[k].value == Some(s);
    SpecifierIsString(tokens, i, k);
    assert tokens[k] in tokens && TokenFits(c, source, tokens[k]);
    VerbatimIsQuoted(source, tokens[k].start, s);
  }

  lemma SpecifierIsString(tokens: seq<Token>, i: nat, k: nat)
    requires Specifies(tokens, i, k)
    ensures k < |tokens| && tokens[k].kind == StringToken
  {
  }
}
