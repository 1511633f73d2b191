/** The scanner's marks, tokens and declarations, written out on characters and single tokens. */
module ModuleForms {
  import opened Wrappers
  import opened ModuleGrammar
  import opened ModuleEnds

  // ---- marks --------------------------------------------------------------------------------

  /** A comment opens with two slashes or a slash and a star, a template expression with a dollar and a brace. */
  lemma MarksMeaning(source: string, i: nat)
    ensures CommentAt(source, i) <==> i + 2 <= |source| && (source[i..i + 2] == "//" || source[i..i + 2] == "/*")
    ensures ExpressionAt(source, i) <==> i + 2 <= |source| && source[i..i + 2] == "${"
  {
  }

  predicate ClosingMarkAt(source: string, k: nat) {
    k + 1 < |source| && source[k] == '*' && source[k + 1] == '/'
  }

  /** A line comment ends before the first line feed, a block comment past its first closing mark, or at the end. */
  lemma CommentMeaning(source: string, i: nat)
    requires CommentAt(source, i)
    ensures var end := CommentEnd(source, i);
            if source[i + 1] == '/' then
              && (forall k | i + 2 <= k < end :: source[k] != '\n') && (end < |source| ==> source[end] == '\n')
            else
              && (forall k | i + 2 <= k < end - 2 :: !ClosingMarkAt(source, k))
              && (end < |source| ==> i + 4 <= end && ClosingMarkAt(source, end - 2))
  {
    var end := CommentEnd(source, i);
    if source[i + 1] == '/' {
      forall k: nat | i + 2 <= k < end ensures source[k] != '\n' {
        assert !StartsAt(source, "\n", k) && source[k..k + 1] == [source[k]];
      }
      if end < |source| { assert source[end..end + 1][0] == '\n'; }
    } else {
      var at := IndexOf(source, "*/", i + 2);
      forall k: nat | i + 2 <= k < at ensures !ClosingMarkAt(source, k) { MarkMeaning(source, k); }
      if at < |source| { MarkMeaning(source, at); }
    }
  }

  lemma MarkMeaning(source: string, k: nat)
    ensures StartsAt(source, "*/", k) <==> ClosingMarkAt(source, k)
  {
    if k + 2 <= |source| { assert source[k..k + 2] == [source[k], source[k + 1]]; }
  }

  // ---- tokens -------------------------------------------------------------------------------

  predicate Quote(x: char) {
    x == '"' || x == '\''
  }

  predicate NameChar(c: Classes, x: char) {
    c.alnum(x) || x == '_' || x == '$'
  }

  /** What the first character decides; a slash opens a regular expression only if one closes on its line. */
  lemma KindMeaning(c: Classes, source: string, i: nat, next: nat)
    requires i < |source| && next == i + 1
    ensures var x := source[i]; var kind := TokenAt(c, source, i).kind;
            && (kind == StringToken <==> Quote(x))
            && (kind == Opaque <==> x == '`' || (x == '/' && exists k: nat :: RegexClosesAt(source, next, k, false)))
            && (kind == Word <==> !Quote(x) && x != '`' && x != '/' && (c.alpha(x) || x == '_' || x == '$'))
  {
    if source[i] == '/' { RegexEndMeaning(c, source, i, next); }
  }

  /** The text of each token. */
  lemma TextMeaning(c: Classes, source: string, i: nat)
    requires i < |source|
    ensures var t := TokenAt(c, source, i);
            && t.start == i
            && (t.kind == Punct ==> t.value == Some([source[i]]) && t.end == i + 1)
            && (t.kind == Opaque ==> t.value == None)
            && (t.kind == Word ==>
                  && t.end <= |source| && t.value == Some(source[i..t.end])
                  && (forall k | i < k < t.end :: NameChar(c, source[k]))
                  && (t.end < |source| ==> !NameChar(c, source[t.end])))
            && (source[i] == '`' ==> t.end == TemplateRest(c, source, i + 1, 0))
  {
    if WordStart(c, source[i]) && !Quote(source[i]) && source[i] != '`' && source[i] != '/' {
      var end := RunEnd(y => WordChar(c, y), source, i + 1);
      assert TokenAt(c, source, i).end == end;
    }
  }

  /** Templates are followed through 32 levels; one that opens deeper gives up the rest of the source. */
  lemma NestingMeaning(c: Classes, source: string, start: nat, nesting: nat)
    requires start < |source| && nesting <= 32
    ensures TemplateEnd(c, source, start, nesting)
            == if nesting < 32 then TemplateRest(c, source, start + 1, nesting) else |source|
  {
  }

  // ---- declarations -------------------------------------------------------------------------

  predicate Is(tokens: seq<Token>, i: int, kind: Kind, text: string) {
    0 <= i < |tokens| && tokens[i].kind == kind && tokens[i].value == Some(text)
  }

  predicate IsWordAt(tokens: seq<Token>, i: int) {
    0 <= i < |tokens| && tokens[i].kind == Word
  }

  /** `{ ... }` or `* as name`, from i up to j; braces count only within 256 tokens. */
  predicate Group(tokens: seq<Token>, i: nat, j: int) {
    || (&& Is(tokens, i, Punct, "{") && i + 2 <= j <= i + 256 && Is(tokens, j - 1, Punct, "}")
        && forall t | i < t < j - 1 ::
             tokens[t].kind == Word || tokens[t].kind == StringToken || Is(tokens, t, Punct, ","))
    || (Is(tokens, i, Punct, "*") && Is(tokens, i + 1, Word, "as") && IsWordAt(tokens, i + 2) && j == i + 3)
  }

  /** Between `import` at s and `from` at f: a name, a group, or a name, a comma and perhaps a group. */
  predicate ImportPart(tokens: seq<Token>, s: nat, f: int) {
    || (IsWordAt(tokens, s + 1) && f == s + 2)
    || (IsWordAt(tokens, s + 1) && Is(tokens, s + 2, Punct, ",") && (f == s + 3 || Group(tokens, s + 3, f)))
    || Group(tokens, s + 1, f)
  }

  /** Between `export` at s and `from` at f: a group or a bare star. */
  predicate ExportPart(tokens: seq<Token>, s: nat, f: int) {
    Group(tokens, s + 1, f) || (Is(tokens, s + 1, Punct, "*") && f == s + 2)
  }

  /** The forms that name a module: `import "m"`, `import ... from "m"` and `export ... from "m"`. */
  lemma FormsMeaning(tokens: seq<Token>, s: nat, k: nat)
    ensures Specifies(tokens, s, k) <==>
              && k < |tokens| && tokens[k].kind == StringToken
              && ((Is(tokens, s, Word, "import") && k == s + 1)
                  || (Is(tokens, s, Word, "import") && Is(tokens, k - 1, Word, "from") && ImportPart(tokens, s, k - 1))
                  || (Is(tokens, s, Word, "export") && Is(tokens, k - 1, Word, "from") && ExportPart(tokens, s, k - 1)))
  {
    if k >= 1 {
      GroupMeaning(tokens, s + 1, k - 1);
      GroupMeaning(tokens, s + 3, k - 1);
    }
  }

  lemma GroupMeaning(tokens: seq<Token>, i: nat, j: nat)
    ensures Clause(tokens, i, j) <==> Group(tokens, i, j)
  {
  }

  // ---- nesting ------------------------------------------------------------------------------

  /** How many more of the tokens are openers than closers. */
  function Surplus(tokens: seq<Token>, opener: string, closer: string): int {
    if tokens == [] then 0 else
      Surplus(tokens[1..], opener, closer)
      + (if Is(tokens, 0, Punct, opener) then 1 else if Is(tokens, 0, Punct, closer) then -1 else 0)
  }

  lemma {:induction false} SurplusLast(tokens: seq<Token>, t: Token, opener: string, closer: string)
    ensures Surplus(tokens + [t], opener, closer)
            == Surplus(tokens, opener, closer) + Surplus([t], opener, closer)
  {
    var all := tokens + [t];
    if tokens == [] {
      assert all == [t];
    } else {
      assert all[1..] == tokens[1..] + [t];
      SurplusLast(tokens[1..], t, opener, closer);
    }
  }

  /** The open brackets are those that some tail of the tokens opens and does not close. */
  lemma {:induction false} OpenMeaning(tokens: seq<Token>, opener: string, closer: string)
    requires opener != closer
    ensures forall j | 0 <= j <= |tokens| :: Surplus(tokens[j..], opener, closer) <= OpenAfter(tokens, opener, closer)
    ensures exists j :: 0 <= j <= |tokens| && Surplus(tokens[j..], opener, closer) == OpenAfter(tokens, opener, closer)
  {
    assert tokens[|tokens|..] == [];
    if tokens != [] {
      var front, last := tokens[..|tokens| - 1], tokens[|tokens| - 1];
      OpenMeaning(front, opener, closer);
      LastCounts(last, opener, closer);
      forall j | 0 <= j < |tokens|
        ensures Surplus(tokens[j..], opener, closer)
                == Surplus(front[j..], opener, closer) + Surplus([last], opener, closer)
      {
        assert tokens[j..] == front[j..] + [last];
        SurplusLast(front[j..], last, opener, closer);
      }
      var j :| 0 <= j <= |front| && Surplus(front[j..], opener, closer) == OpenAfter(front, opener, closer);
      assert Surplus(tokens[j..], opener, closer) == OpenAfter(tokens, opener, closer)
             || Surplus(tokens[|tokens|..], opener, closer) == OpenAfter(tokens, opener, closer);
    }
  }

  lemma LastCounts(t: Token, opener: string, closer: string)
    requires opener != closer
    ensures Surplus([t], opener, closer) == if IsPunct(t, opener) then 1 else if IsPunct(t, closer) then -1 else 0
  {
    assert [t][1..] == [];
  }

  /** Every tail of the tokens closes at least what it opens. */
  ghost predicate AllClosed(tokens: seq<Token>, opener: string, closer: string) {
    forall j | 0 <= j <= |tokens| :: Surplus(tokens[j..], opener, closer) <= 0
  }

  lemma ClosedMeaning(tokens: seq<Token>, opener: string, closer: string)
    requires opener != closer
    ensures OpenAfter(tokens, opener, closer) == 0 <==> AllClosed(tokens, opener, closer)
  {
    OpenMeaning(tokens, opener, closer);
  }

  /** A declaration stands where all brackets are closed, and not after a dot. */
  lemma DeclarationMeaning(tokens: seq<Token>, i: nat)
    ensures DeclarationAt(tokens, i) <==>
              && (Is(tokens, i, Word, "import") || Is(tokens, i, Word, "export"))
              && AllClosed(tokens[..i], "{", "}") && AllClosed(tokens[..i], "(", ")")
                  && AllClosed(tokens[..i], "[", "]")
              && !Is(tokens, i - 1, Punct, ".")
  {
    if i < |tokens| {
      ClosedMeaning(tokens[..i], "{", "}");
      ClosedMeaning(tokens[..i], "(", ")");
      ClosedMeaning(tokens[..i], "[", "]");
    }
  }
}
