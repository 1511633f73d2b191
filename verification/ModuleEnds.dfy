/**
 Where regular expressions, templates and template expressions end, described by the units a scan passes over rather
 than by the scan itself.
 */
module ModuleEnds {
  import opened Wrappers
  import opened ModuleGrammar

  /** Every position is one of the source. */
  predicate Inside(source: string, passed: seq<nat>) {
    forall i | 0 <= i < |passed| :: passed[i] < |source|
  }

  // ---- strings ------------------------------------------------------------------------------

  /** passed are the units of a literal from start up to end: none closes it, and none breaks the line. */
  predicate StringBody(source: string, quote: char, start: nat, passed: seq<nat>, end: nat) {
    && Inside(source, passed)
    && (if passed == [] then start == end else passed[0] == start && UnitEnd(source, passed[|passed| - 1]) == end)
    && (forall i | 0 <= i < |passed| - 1 :: passed[i + 1] == UnitEnd(source, passed[i]))
    && (forall i | 0 <= i < |passed| :: source[passed[i]] != quote && !LineBreak(source[passed[i]]))
  }

  /** Some unit is an escape. */
  predicate Escapes(source: string, passed: seq<nat>)
    requires Inside(source, passed)
  {
    exists i :: 0 <= i < |passed| && source[passed[i]] == '\\'
  }

  /** A literal ends past its closing quote, or where the line or the source ends; only the former makes it usable. */
  lemma {:induction false} StringEndMeaning(source: string, index: nat, quote: char, escaped: bool)
    returns (passed: seq<nat>, stop: nat)
    requires index <= |source| + 1 && quote != '\\'
    ensures StringBody(source, quote, index, passed, stop)
    ensures stop < |source| ==> source[stop] == quote || LineBreak(source[stop])
    ensures StringEnd(source, index, quote, escaped)
            == if stop < |source| && source[stop] == quote then (stop + 1, !escaped && !Escapes(source, passed))
               else (stop, false)
    decreases |source| + 1 - index
  {
    if index >= |source| || source[index] == quote || LineBreak(source[index]) {
      passed, stop := [], index;
    } else {
      var rest;
      rest, stop := StringEndMeaning(
        source, UnitEnd(source, index), quote, escaped || source[index] == '\\');
      passed := [index] + rest;
      assert Escapes(source, passed) <==> source[index] == '\\' || Escapes(source, rest) by {
        assert passed[0] == index;
        if i :| 0 <= i < |rest| && source[rest[i]] == '\\' { assert passed[i + 1] == rest[i]; }
      }
    }
  }

  // ---- regular expressions ------------------------------------------------------------------

  predicate LineBreak(x: char) {
    x == '\r' || x == '\n'
  }

  /** An escape takes two characters, anything else one. */
  function UnitEnd(source: string, i: nat): nat
    requires i < |source|
  {
    if source[i] == '\\' then i + 2 else i + 1
  }

  /** A position is inside a character class when the last bracket passed opens one. */
  function InClass(source: string, passed: seq<nat>, before: bool): bool
    requires Inside(source, passed)
  {
    if passed == [] then before else
      var last := passed[|passed| - 1];
      if source[last] == '[' then true
      else if source[last] == ']' then false
      else InClass(source, passed[..|passed| - 1], before)
  }

  /** passed are the units from start up to end: none breaks the line, and none is a slash outside a class. */
  predicate RegexBody(source: string, start: nat, passed: seq<nat>, end: nat, before: bool) {
    && Inside(source, passed)
    && (if passed == [] then start == end else passed[0] == start && UnitEnd(source, passed[|passed| - 1]) == end)
    && (forall i | 0 <= i < |passed| - 1 :: passed[i + 1] == UnitEnd(source, passed[i]))
    && (forall i | 0 <= i < |passed| ::
          !LineBreak(source[passed[i]]) && (source[passed[i]] == '/' ==> InClass(source, passed[..i], before)))
  }

  /** The slash at k closes the expression whose body begins at start. */
  ghost predicate RegexClosesAt(source: string, start: nat, k: nat, before: bool) {
    k < |source| && source[k] == '/' && exists passed ::
        RegexBody(source, start, passed, k, before) && !InClass(source, passed, before)
  }

  function ClassAfter(x: char, before: bool): bool {
    if x == '[' then true else if x == ']' then false else before
  }

  lemma {:induction false} InClassFrom(source: string, first: nat, rest: seq<nat>, before: bool)
    requires first < |source| && Inside(source, rest)
    ensures Inside(source, [first] + rest)
    ensures InClass(source, [first] + rest, before) == InClass(source, rest, ClassAfter(source[first], before))
  {
    var all := [first] + rest;
    if rest == [] {
      assert all[..0] == [];
    } else {
      var front := rest[..|rest| - 1];
      assert all[..|all| - 1] == [first] + front;
      InClassFrom(source, first, front, before);
    }
  }

  lemma BodyFrom(source: string, start: nat, rest: seq<nat>, end: nat, before: bool)
    requires start < |source| && !LineBreak(source[start]) && (source[start] == '/' ==> before)
    requires RegexBody(source, UnitEnd(source, start), rest, end, ClassAfter(source[start], before))
    ensures RegexBody(source, start, [start] + rest, end, before)
    ensures InClass(source, [start] + rest, before) == InClass(source, rest, ClassAfter(source[start], before))
  {
    var all := [start] + rest;
    InClassFrom(source, start, rest, before);
    forall i | 0 <= i < |all| && source[all[i]] == '/' ensures InClass(source, all[..i], before) {
      if i > 0 {
        InClassFrom(source, start, rest[..i - 1], before);
        assert all[..i] == [start] + rest[..i - 1];
      }
    }
  }

  lemma BodyTail(source: string, start: nat, passed: seq<nat>, end: nat, before: bool)
    requires RegexBody(source, start, passed, end, before) && passed != []
    ensures start < |source| && !LineBreak(source[start]) && (source[start] == '/' ==> before)
    ensures RegexBody(source, UnitEnd(source, start), passed[1..], end, ClassAfter(source[start], before))
    ensures InClass(source, passed, before) == InClass(source, passed[1..], ClassAfter(source[start], before))
  {
    var rest := passed[1..];
    assert passed == [start] + rest && passed[..0] == [];
    InClassFrom(source, start, rest, before);
    forall i | 0 <= i < |rest| && source[rest[i]] == '/'
      ensures InClass(source, rest[..i], ClassAfter(source[start], before))
    {
      InClassFrom(source, start, rest[..i], before);
      assert passed[..i + 1] == [start] + rest[..i];
    }
  }

  /** The closing slash is the first unescaped slash outside a class, on the same line. */
  lemma {:induction false} ClosingSlashFound(source: string, start: nat, before: bool)
    requires ClosingSlash(source, start, before).Some?
    ensures RegexClosesAt(source, start, ClosingSlash(source, start, before).value, before)
    decreases |source| - start
  {
    var k := ClosingSlash(source, start, before).value;
    if source[start] == '/' && !before {
      assert RegexBody(source, start, [], k, before);
    } else {
      var next := ClassAfter(source[start], before);
      ClosingSlashFound(source, UnitEnd(source, start), next);
      var rest :| RegexBody(source, UnitEnd(source, start), rest, k, next) && !InClass(source, rest, next);
      BodyFrom(source, start, rest, k, before);
    }
  }

  lemma {:induction false} ClosingSlashOnly(source: string, start: nat, passed: seq<nat>, k: nat, before: bool)
    requires k < |source| && source[k] == '/' && RegexBody(source, start, passed, k, before)
    requires !InClass(source, passed, before)
    ensures ClosingSlash(source, start, before) == Some(k)
    decreases |passed|
  {
    if passed != [] {
      BodyTail(source, start, passed, k, before);
      ClosingSlashOnly(source, UnitEnd(source, start), passed[1..], k, ClassAfter(source[start], before));
    }
  }

  /** A regular expression ends past the flags of its closing slash if it has one, and at its own slash otherwise. */
  lemma RegexEndMeaning(c: Classes, source: string, start: nat, body: nat)
    requires start < |source| && body == start + 1
    ensures if k: nat :| RegexClosesAt(source, body, k, false)
            then RegexEnd(c, source, start) == RunEnd(c.alpha, source, k + 1)
            else RegexEnd(c, source, start) == body
    ensures RegexEnd(c, source, start) > body <==> exists k: nat :: RegexClosesAt(source, body, k, false)
  {
    forall k: nat | RegexClosesAt(source, body, k, false) ensures ClosingSlash(source, body, false) == Some(k) {
      var passed :| RegexBody(source, body, passed, k, false) && !InClass(source, passed, false);
      ClosingSlashOnly(source, body, passed, k, false);
    }
    if ClosingSlash(source, body, false).Some? {
      ClosingSlashFound(source, body, false);
    }
  }

  // ---- templates ----------------------------------------------------------------------------

  /** A template's units: an escape, a whole expression, or one character. */
  function TemplateUnitEnd(c: Classes, source: string, nesting: nat, i: nat): nat
    requires i < |source| && nesting < MAX_NESTING
  {
    if source[i] == '\\' then i + 2
    else if ExpressionAt(source, i) then ExpressionEnd(c, source, i + 2, 1, nesting + 1)
    else i + 1
  }

  /** passed are the units of a template from start up to end, none of them a backquote. */
  predicate TemplateBody(c: Classes, source: string, nesting: nat, start: nat, passed: seq<nat>, end: nat)
    requires nesting < MAX_NESTING
  {
    && (forall i | 0 <= i < |passed| :: passed[i] < |source| && source[passed[i]] != '`')
    && (if passed == [] then start == end
        else passed[0] == start && TemplateUnitEnd(c, source, nesting, passed[|passed| - 1]) == end)
    && (forall i | 0 <= i < |passed| - 1 :: passed[i + 1] == TemplateUnitEnd(c, source, nesting, passed[i]))
  }

  /** A template ends just past its first backquote that is a unit of its own, or where the source ends. */
  lemma {:induction false} TemplateRestMeaning(c: Classes, source: string, index: nat, nesting: nat)
    returns (passed: seq<nat>, close: nat)
    requires index <= |source| + 1 && nesting < MAX_NESTING
    ensures TemplateBody(c, source, nesting, index, passed, close)
    ensures if close < |source| then source[close] == '`' && TemplateRest(c, source, index, nesting) == close + 1
            else TemplateRest(c, source, index, nesting) == close
    decreases |source| + 1 - index
  {
    if index >= |source| || source[index] == '`' {
      passed, close := [], index;
    } else {
      var next := TemplateUnitEnd(c, source, nesting, index);
      var rest;
      rest, close := TemplateRestMeaning(c, source, next, nesting);
      passed := [index] + rest;
    }
  }

  // ---- template expressions -----------------------------------------------------------------

  /** An expression's units: a string, a nested template, a comment, a regular expression, or one character. */
  function ExpressionUnitEnd(c: Classes, source: string, nesting: nat, i: nat): nat
    requires i < |source| && nesting <= MAX_NESTING
  {
    var x := source[i];
    if x == '"' || x == '\'' then StringEnd(source, i + 1, x, false).0
    else if x == '`' then TemplateEnd(c, source, i, nesting)
    else if CommentAt(source, i) then CommentEnd(source, i)
    else if x == '/' then RegexEnd(c, source, i)
    else i + 1
  }

  /** The braces open after the units passed. */
  function OpenBraces(source: string, passed: seq<nat>, before: int): int
    requires Inside(source, passed)
  {
    if passed == [] then before else
      var last := passed[|passed| - 1];
      OpenBraces(source, passed[..|passed| - 1], before)
      + (if source[last] == '{' then 1 else if source[last] == '}' then -1 else 0)
  }

  /** passed are the units of an expression from start up to end; some brace stays open after each of them. */
  predicate ExpressionBody(
      c: Classes, source: string, nesting: nat, start: nat, passed: seq<nat>, end: nat, before: int)
    requires nesting <= MAX_NESTING
  {
    && Inside(source, passed)
    && (if passed == [] then start == end
        else passed[0] == start && ExpressionUnitEnd(c, source, nesting, passed[|passed| - 1]) == end)
    && (forall i | 0 <= i < |passed| - 1 :: passed[i + 1] == ExpressionUnitEnd(c, source, nesting, passed[i]))
    && (forall i | 0 <= i <= |passed| :: OpenBraces(source, passed[..i], before) >= 1)
  }

  function BraceStep(x: char): int {
    if x == '{' then 1 else if x == '}' then -1 else 0
  }

  lemma {:induction false} OpenBracesFrom(source: string, first: nat, rest: seq<nat>, before: int)
    requires first < |source| && Inside(source, rest)
    ensures Inside(source, [first] + rest)
    ensures OpenBraces(source, [first] + rest, before) == OpenBraces(source, rest, before + BraceStep(source[first]))
  {
    var all := [first] + rest;
    if rest == [] {
      assert all[..0] == [];
    } else {
      var front := rest[..|rest| - 1];
      assert all[..|all| - 1] == [first] + front;
      OpenBracesFrom(source, first, front, before);
    }
  }

  lemma ExpressionBodyFrom(
    c: Classes, source: string, nesting: nat, start: nat, rest: seq<nat>, end: nat, before: nat)
    requires nesting <= MAX_NESTING && start < |source| && before >= 1
    requires var next := ExpressionUnitEnd(c, source, nesting, start);
             ExpressionBody(c, source, nesting, next, rest, end, before + BraceStep(source[start]))
    ensures ExpressionBody(c, source, nesting, start, [start] + rest, end, before)
    ensures OpenBraces(source, [start] + rest, before) == OpenBraces(source, rest, before + BraceStep(source[start]))
  {
    var all := [start] + rest;
    OpenBracesFrom(source, start, rest, before);
    forall i | 0 <= i <= |all| ensures OpenBraces(source, all[..i], before) >= 1 {
      if i > 0 {
        OpenBracesFrom(source, start, rest[..i - 1], before);
        assert all[..i] == [start] + rest[..i - 1];
      }
    }
  }

  lemma ExpressionStep(c: Classes, source: string, index: nat, depth: nat, nesting: nat, next: nat, more: nat)
    requires index < |source| && nesting <= MAX_NESTING && depth >= 1 && (source[index] == '}' ==> depth > 1)
    requires next == ExpressionUnitEnd(c, source, nesting, index) && more == depth + BraceStep(source[index])
    ensures index < next <= |source| + 1
    ensures ExpressionEnd(c, source, index, depth, nesting) == ExpressionEnd(c, source, next, more, nesting)
  {
  }

  /** An expression ends just past the brace that closes its last open one, or where the source ends. */
  lemma {:induction false} ExpressionEndMeaning(c: Classes, source: string, index: nat, depth: nat, nesting: nat)
    returns (passed: seq<nat>, close: nat)
    requires index <= |source| + 1 && nesting <= MAX_NESTING && depth >= 1
    ensures ExpressionBody(c, source, nesting, index, passed, close, depth)
    ensures if close < |source|
            then source[close] == '}' && OpenBraces(source, passed, depth) == 1
                 && ExpressionEnd(c, source, index, depth, nesting) == close + 1
            else ExpressionEnd(c, source, index, depth, nesting) == close
    decreases |source| + 1 - index
  {
    if index >= |source| || (source[index] == '}' && depth == 1) {
      passed, close := [], index;
      assert passed[..0] == [];
    } else {
      var next, more := ExpressionUnitEnd(c, source, nesting, index), depth + BraceStep(source[index]);
      ExpressionStep(c, source, index, depth, nesting, next, more);
      var rest;
      rest, close := ExpressionEndMeaning(c, source, next, more, nesting);
      ExpressionBodyFrom(c, source, nesting, index, rest, close, depth);
      passed := [index] + rest;
    }
  }
}
