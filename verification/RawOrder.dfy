/** The order of revisions, described on their text alone. */
module RawOrder {
  import opened RawReading

  // ---- text ---------------------------------------------------------------------------------

  /** At the first difference a has the smaller character, or it ends there. */
  ghost predicate TextBefore(a: string, b: string) {
    exists i: nat :: i <= |a| && i < |b| && a[..i] == b[..i] && (i == |a| || a[i] < b[i])
  }

  lemma TextBeforeTail(x: char, a: string, b: string)
    ensures TextBefore([x] + a, [x] + b) <==> TextBefore(a, b)
  {
    var c, d := [x] + a, [x] + b;
    if i: nat :| i <= |c| && i < |d| && c[..i] == d[..i] && (i == |c| || c[i] < d[i]) {
      assert i > 0;
      assert a[..i - 1] == c[..i][1..] && b[..i - 1] == d[..i][1..];
      assert i - 1 <= |a| && i - 1 < |b| && a[..i - 1] == b[..i - 1] && (i - 1 == |a| || a[i - 1] < b[i - 1]);
    }
    if i: nat :| i <= |a| && i < |b| && a[..i] == b[..i] && (i == |a| || a[i] < b[i]) {
      assert c[..i + 1] == [x] + a[..i] && d[..i + 1] == [x] + b[..i];
      assert i + 1 <= |c| && i + 1 < |d| && c[..i + 1] == d[..i + 1] && (i + 1 == |c| || c[i + 1] < d[i + 1]);
    }
  }

  lemma {:induction false} LessMeaning(a: string, b: string)
    ensures Less(a, b) <==> TextBefore(a, b)
  {
    if b == "" {
    } else if a == "" || a[0] < b[0] {
      assert a[..0] == b[..0];
    } else if a[0] == b[0] {
      LessMeaning(a[1..], b[1..]);
      TextBeforeTail(a[0], a[1..], b[1..]);
      assert a == [a[0]] + a[1..] && b == [b[0]] + b[1..];
    } else {
      forall i: nat | i <= |a| && i < |b| && a[..i] == b[..i] ensures i == 0 {}
    }
  }

  // ---- numbers ------------------------------------------------------------------------------

  predicate IsNumber(s: string) {
    s != "" && forall c | c in s :: c in "0123456789"
  }

  lemma DigitChar(c: char)
    ensures c in "0123456789" <==> '0' <= c <= '9'
  {
  }

  lemma DigitsMeaning(s: string)
    ensures Digits(s) <==> IsNumber(s)
  {
    forall c | c in s ensures c in "0123456789" <==> '0' <= c <= '9' { DigitChar(c); }
  }

  function Power(n: nat): nat {
    if n == 0 then 1 else 10 * Power(n - 1)
  }

  /** A leading digit counts by its position; a leading zero changes nothing. */
  lemma {:induction false} DecimalHead(c: char, s: string)
    ensures Decimal([c] + s) == (c as int - '0' as int) * Power(|s|) + Decimal(s)
  {
    var all := [c] + s;
    if s == "" {
      assert all[..|all| - 1] == "" && Decimal("") == 0;
    } else {
      assert all[..|all| - 1] == [c] + s[..|s| - 1];
      DecimalHead(c, s[..|s| - 1]);
      assert Power(|s|) == 10 * Power(|s| - 1);
      assert 10 * ((c as int - '0' as int) * Power(|s| - 1)) == (c as int - '0' as int) * Power(|s|);
    }
  }

  lemma LeadingZero(s: string)
    ensures Decimal("0" + s) == Decimal(s)
  {
    DecimalHead('0', s);
  }

  lemma {:induction false} DecimalBelow(s: string)
    requires forall i | 0 <= i < |s| :: '0' <= s[i] <= '9'
    ensures 0 <= Decimal(s) < Power(|s|)
  {
    if s != "" {
      DecimalBelow(s[..|s| - 1]);
    }
  }

  lemma ProductAtLeast(k: int, p: int)
    requires k >= 1 && p >= 0
    ensures k * p >= p
  {
    if k > 1 { ProductAtLeast(k - 1, p); assert k * p == (k - 1) * p + p; }
  }

  /** Without a leading zero the longer number is the larger one. */
  lemma LongerIsLarger(a: string, b: string)
    requires forall i | 0 <= i < |a| :: '0' <= a[i] <= '9'
    requires forall i | 0 <= i < |b| :: '0' <= b[i] <= '9'
    requires |a| < |b| && b[0] != '0'
    ensures Decimal(a) < Decimal(b)
  {
    DecimalBelow(a);
    AtLeastItsPower(b);
    PowerGrows(|a|, |b| - 1);
  }

  lemma AtLeastItsPower(b: string)
    requires b != "" && b[0] != '0' && forall i | 0 <= i < |b| :: '0' <= b[i] <= '9'
    ensures Decimal(b) >= Power(|b| - 1)
  {
    var head, tail, power := b[0] as int - '0' as int, b[1..], Power(|b| - 1);
    assert b == [b[0]] + tail;
    DecimalHead(b[0], tail);
    DecimalBelow(tail);
    ProductAtLeast(head, power);
  }

  lemma {:induction false} PowerGrows(m: nat, n: nat)
    requires m <= n
    ensures 1 <= Power(m) <= Power(n)
    decreases n
  {
    if m < n { PowerGrows(m, n - 1); } else if n > 0 { PowerGrows(m - 1, n - 1); }
  }

  /** Numbers of equal length compare as text. */
  lemma {:induction false} EqualLengthsCompare(a: string, b: string)
    requires |a| == |b|
    requires forall i | 0 <= i < |a| :: '0' <= a[i] <= '9' && '0' <= b[i] <= '9'
    ensures Decimal(a) < Decimal(b) <==> Less(a, b)
    ensures Decimal(a) == Decimal(b) ==> a == b
  {
    if a != "" {
      EqualLengthsCompare(a[1..], b[1..]);
      FirstDigitDecides(a[0], b[0], a[1..], b[1..]);
      assert a == [a[0]] + a[1..] && b == [b[0]] + b[1..];
    }
  }

  lemma FirstDigitDecides(c: char, d: char, a: string, b: string)
    requires |a| == |b|
    requires forall i | 0 <= i < |a| :: '0' <= a[i] <= '9' && '0' <= b[i] <= '9'
    ensures c < d ==> Decimal([c] + a) < Decimal([d] + b)
    ensures c > d ==> Decimal([c] + a) > Decimal([d] + b)
    ensures c == d ==> (Decimal([c] + a) < Decimal([d] + b) <==> Decimal(a) < Decimal(b))
    ensures c == d ==> (Decimal([c] + a) == Decimal([d] + b) <==> Decimal(a) == Decimal(b))
  {
    DecimalHead(c, a);
    DecimalHead(d, b);
    DecimalBelow(a);
    DecimalBelow(b);
    HeadsDecide(c as int - '0' as int, d as int - '0' as int, Power(|a|), Decimal(a), Decimal(b));
  }

  lemma HeadsDecide(x: int, y: int, p: int, r: int, s: int)
    requires 0 <= r < p && 0 <= s < p
    ensures x < y ==> x * p + r < y * p + s
    ensures x > y ==> x * p + r > y * p + s
  {
    var u, v := x * p, y * p;
    if x < y {
      ProductAtLeast(y - x, p);
      Difference(y, x, p);
    } else if x > y {
      ProductAtLeast(x - y, p);
      Difference(x, y, p);
    }
  }

  lemma Difference(x: int, y: int, p: int)
    ensures (x - y) * p == x * p - y * p
  {
  }

  function Stripped(s: string): (r: string)
    ensures r == "" || r[0] != '0'
  {
    if s != "" && s[0] == '0' then Stripped(s[1..]) else s
  }

  lemma {:induction false} StrippedValue(s: string)
    requires forall i | 0 <= i < |s| :: '0' <= s[i] <= '9'
    ensures Decimal(Stripped(s)) == Decimal(s)
    ensures forall i | 0 <= i < |Stripped(s)| :: '0' <= Stripped(s)[i] <= '9'
  {
    if s != "" && s[0] == '0' {
      StrippedValue(s[1..]);
      LeadingZero(s[1..]);
      assert s == "0" + s[1..];
    }
  }

  /** a is the larger number: once leading zeros are dropped it is longer, or as long and not before as text. */
  ghost predicate LargerNumber(a: string, b: string) {
    var x, y := Stripped(a), Stripped(b);
    |x| > |y| || (|x| == |y| && TextBefore(y, x))
  }

  lemma LargerMeaning(a: string, b: string)
    requires Digits(a) && Digits(b)
    ensures LargerNumber(a, b) <==> Decimal(a) > Decimal(b)
    ensures Stripped(a) == Stripped(b) <==> Decimal(a) == Decimal(b)
  {
    var x, y := Stripped(a), Stripped(b);
    assert forall i | 0 <= i < |a| :: a[i] in a;
    assert forall i | 0 <= i < |b| :: b[i] in b;
    StrippedValue(a);
    StrippedValue(b);
    LessMeaning(y, x);
    if |x| == |y| {
      EqualLengthsCompare(y, x);
    } else if |x| > |y| {
      LongerIsLarger(y, x);
    } else {
      LongerIsLarger(x, y);
    }
  }

  // ---- revisions ----------------------------------------------------------------------------

  /** x comes after y: by number where both are numbers, a number after other text, and else by the text. */
  ghost predicate RevisionAfter(x: string, y: string) {
    if IsNumber(x) && IsNumber(y) then LargerNumber(x, y) || (Stripped(x) == Stripped(y) && TextBefore(y, x))
    else IsNumber(x) || (!IsNumber(y) && TextBefore(y, x))
  }

  lemma NewerMeaning(x: string, y: string)
    ensures Newer(x, y) <==> RevisionAfter(x, y)
  {
    DigitsMeaning(x);
    DigitsMeaning(y);
    LessMeaning(y, x);
    if Digits(x) { assert forall i | 0 <= i < |x| :: x[i] in x; DecimalBelow(x); }
    if Digits(y) { assert forall i | 0 <= i < |y| :: y[i] in y; DecimalBelow(y); }
    if Digits(x) && Digits(y) { LargerMeaning(x, y); }
  }

  ghost predicate AfterAllOthers(x: string, s: set<string>) {
    x in s && forall y | y in s && y != x :: RevisionAfter(x, y)
  }

  /** The latest revision comes after every other one. */
  lemma LatestMeaning(s: set<string>, x: string)
    requires s != {}
    ensures LatestOf(s) == x <==> AfterAllOthers(x, s)
  {
    var latest := LatestOf(s);
    forall y | y in s && y != latest ensures RevisionAfter(latest, y) { NewerMeaning(latest, y); }
    if x != latest && AfterAllOthers(x, s) {
      NewerMeaning(x, latest);
      NewerMeaning(latest, x);
      NewerIsTotal();
    }
  }

  /** Of two revisions the second one is the latest; text that is no number comes before any number. */
  lemma LatestOfThree()
    ensures LatestOf({"00", "01"}) == "01" && LatestOf({"draft", "2", "10"}) == "10"
  {
    assert Digits("00") && Digits("01") && Digits("2") && Digits("10") && !Digits("draft") by {
      assert "draft"[0] == 'd' && 'd' in "draft";
    }
    assert Decimal("0") == 0 by { assert "0"[..0] == ""; }
    assert Decimal("1") == 1 by { assert "1"[..0] == ""; }
    assert Decimal("2") == 2 by { assert "2"[..0] == ""; }
    assert Decimal("00") == 0 by { assert "00"[..1] == "0"; }
    assert Decimal("01") == 1 by { assert "01"[..1] == "0"; }
    assert Decimal("10") == 10 by { assert "10"[..1] == "1"; }
    NewerIsTotal();
    assert Newer("01", "00") && Newer("10", "2") && Newer("10", "draft");
    var two, three := {"00", "01"}, {"draft", "2", "10"};
    assert LatestOf(two) in two && LatestOf(three) in three;
  }
}
