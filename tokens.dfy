/**
 * Chapter numbers as the downloaders write them: a run of digits, in the
 * bot optionally followed by a dot and more digits ("12", "12.5"), and
 * their exact decimal values.
 */
module Tokens {
  import opened Wrappers
  import opened Text

  /** `re.fullmatch(r"\d+(?:\.\d+)?", t)`: digits, then optionally a dot and digits. */
  predicate IsChapterToken(t: string)
  {
    var k := IndexOf(t, '.');
    IsDigits(t[..k]) && (k == |t| || IsDigits(t[k + 1..]))
  }

  /** Both shapes of a chapter token, and nothing else. */
  lemma {:induction false} ChapterTokenShape(t: string)
    ensures IsChapterToken(t) <==>
      (IsDigits(t) ||
       exists k :: 0 < k < |t| - 1 && t[k] == '.' && IsDigits(t[..k]) && IsDigits(t[k + 1..]))
  {
    var k := IndexOf(t, '.');
    if IsDigits(t) {
      assert k < |t| ==> IsDigit(t[k]);
    }
    if exists j :: 0 < j < |t| - 1 && t[j] == '.' && IsDigits(t[..j]) && IsDigits(t[j + 1..]) {
      var j :| 0 < j < |t| - 1 && t[j] == '.' && IsDigits(t[..j]) && IsDigits(t[j + 1..]);
      assert forall i :: 0 <= i < j ==> t[..j][i] == t[i];
      assert k == j;
    }
    if IsChapterToken(t) && k < |t| {
      assert 0 < k < |t| - 1;
    }
  }

  /** Which numbers a variant accepts: the bot takes decimals, the older downloaders digits only. */
  datatype NumberForm = Integer | Decimal {
    predicate Accepts(t: string)
    {
      match this
      case Integer => IsDigits(t)
      case Decimal => IsChapterToken(t)
    }
  }

  lemma IntegerTokenIsChapterToken(t: string)
    requires IsDigits(t)
    ensures IsChapterToken(t)
  {
    var k := IndexOf(t, '.');
    assert k < |t| ==> IsDigit(t[k]);
    assert t[..k] == t;
  }

  function Pow10(k: nat): (p: nat)
    ensures p >= 1
  {
    if k == 0 then 1 else 10 * Pow10(k - 1)
  }

  lemma {:induction false} DigitsValueBound(s: string)
    requires AllDigits(s)
    ensures DigitsValue(s) < Pow10(|s|)
    decreases |s|
  {
    if s != [] {
      DigitsValueBound(s[..|s| - 1]);
    }
  }

  lemma FractionBelowOne(f: nat, p: nat)
    requires f < p
    ensures 0.0 <= f as real / p as real < 1.0
  {
    assert f as real < p as real;
  }

  /** `Decimal(t)` for a chapter token, as an exact rational number. */
  function TokenValue(t: string): (v: real)
    requires IsChapterToken(t)
    ensures var k := IndexOf(t, '.');
      DigitsValue(t[..k]) as real <= v < DigitsValue(t[..k]) as real + 1.0
  {
    var k := IndexOf(t, '.');
    var w := DigitsValue(t[..k]) as real;
    if k == |t| then
      assert t[..k] == t;
      w
    else
      var f := t[k + 1..];
      DigitsValueBound(f);
      FractionBelowOne(DigitsValue(f), Pow10(|f|));
      w + DigitsValue(f) as real / Pow10(|f|) as real
  }

  /** `str(n)` reads back as `n`. */
  lemma TokenValueOfNat(n: nat)
    ensures IsChapterToken(NatToString(n))
    ensures TokenValue(NatToString(n)) == n as real
  {
    var t := NatToString(n);
    IntegerTokenIsChapterToken(t);
    var k := IndexOf(t, '.');
    assert k < |t| ==> IsDigit(t[k]);
    assert k == |t| && t[..k] == t;
    assert DigitsValue(t) == n;
    assert TokenValue(t) == DigitsValue(t[..k]) as real;
  }

  /** `_token_decimal`: the exact value of a chapter token, and no value for anything else. */
  function TokenDecimal(t: string): (r: Option<real>)
    ensures r.Some? <==> IsChapterToken(t)
    ensures r.Some? ==> r.value >= 0.0
  {
    if IsChapterToken(t) then Some(TokenValue(t)) else None
  }

  predicate NotDigit(c: char) { !IsDigit(c) }

  /** Where a match lies in the searched text: `s[start..end]`. */
  datatype Span = Span(start: nat, end: nat)

  /**
   * Length of the greedy match of `\d+` (Integer) or `\d+(?:\.\d+)?`
   * (Decimal) at the start of `t`, which begins with a digit.
   */
  function NumberLength(t: string, form: NumberForm): (n: nat)
    requires t != [] && IsDigit(t[0])
    ensures 0 < n <= |t|
    ensures form.Accepts(t[..n]) && IsChapterToken(t[..n])
    ensures n == |t| || !IsDigit(t[n])
    ensures form.Integer? || '.' in t[..n] || !(n + 1 < |t| && t[n] == '.' && IsDigit(t[n + 1]))
  {
    var a := DigitRun(t);
    if form.Decimal? && a + 1 < |t| && t[a] == '.' && IsDigit(t[a + 1]) then
      var b := DigitRun(t[a + 1..]);
      DecimalRun(t, a, b);
      AcceptsToken(form, t[..a + 1 + b]);
      a + 1 + b
    else
      AcceptsToken(form, t[..a]);
      a
  }

  lemma AcceptsToken(form: NumberForm, u: string)
    requires IsChapterToken(u) && (form.Integer? ==> IsDigits(u))
    ensures form.Accepts(u)
  {
  }

  /** Length of the leading run of digits, which is a chapter token. */
  function DigitRun(t: string): (a: nat)
    requires t != [] && IsDigit(t[0])
    ensures 0 < a <= |t|
    ensures IsDigits(t[..a]) && IsChapterToken(t[..a])
    ensures a == |t| || !IsDigit(t[a])
  {
    var a := RunLength(t, NotDigit);
    assert forall i :: 0 <= i < a ==> t[..a][i] == t[i];
    IntegerTokenIsChapterToken(t[..a]);
    a
  }

  /** Digits, a dot and more digits make a decimal chapter token. */
  lemma DecimalRun(t: string, a: nat, b: nat)
    requires 0 < a && a + 1 < |t| && t[a] == '.' && IsDigits(t[..a])
    requires 0 < b <= |t| - a - 1 && IsDigits(t[a + 1..][..b])
    requires b == |t| - a - 1 || !IsDigit(t[a + 1..][b])
    ensures IsChapterToken(t[..a + 1 + b]) && '.' in t[..a + 1 + b]
    ensures a + 1 + b == |t| || !IsDigit(t[a + 1 + b])
  {
    var n := a + 1 + b;
    var u := t[..n];
    assert u[..a] == t[..a];
    assert IndexOf(u, '.') == a by {
      IndexOfConcat(t[..a], t[a..n], '.');
      assert u == t[..a] + t[a..n];
    }
    assert u[a + 1..] == t[a + 1..][..b];
    assert u[a] == '.';
  }

  /**
   * `re.search(r"(\d+)", s)` or `re.search(r"(\d+(?:\.\d+)?)", s)`: the
   * match starts at the first digit and is as long as the pattern allows.
   */
  function SearchNumber(s: string, form: NumberForm): (m: Option<Span>)
    ensures m.None? <==> NoneOf(s, IsDigit)
    ensures m.Some? ==> m.value.start < m.value.end <= |s|
    ensures m.Some? ==> NoneOf(s[..m.value.start], IsDigit)
    ensures m.Some? ==> form.Accepts(s[m.value.start..m.value.end]) && IsChapterToken(s[m.value.start..m.value.end])
    ensures m.Some? ==> m.value.end == |s| || !IsDigit(s[m.value.end])
  {
    var i := RunLength(s, IsDigit);
    if i == |s| then None
    else
      var m := Span(i, i + NumberLength(s[i..], form));
      SearchFrom(s, m, form);
      Some(m)
  }

  /** The number found at the first digit, stated on the searched text. */
  lemma SearchFrom(s: string, m: Span, form: NumberForm)
    requires m.start < |s| && IsDigit(s[m.start]) && forall j :: 0 <= j < m.start ==> !IsDigit(s[j])
    requires m.end == m.start + NumberLength(s[m.start..], form)
    ensures m.start < m.end <= |s|
    ensures NoneOf(s[..m.start], IsDigit)
    ensures form.Accepts(s[m.start..m.end]) && IsChapterToken(s[m.start..m.end])
    ensures m.end == |s| || !IsDigit(s[m.end])
  {
    var i := m.start;
    var t := s[i..];
    var n := NumberLength(t, form);
    DropTake(s, i, n);
    PrefixNone(s, i);
  }

  lemma DropTake(s: string, i: nat, n: nat)
    requires i + n <= |s|
    ensures s[i..][..n] == s[i..i + n]
    ensures i + n < |s| ==> s[i..][n] == s[i + n]
  {
  }

  lemma PrefixNone(s: string, i: nat)
    requires i <= |s| && forall j :: 0 <= j < i ==> !IsDigit(s[j])
    ensures NoneOf(s[..i], IsDigit)
  {
    assert forall j :: 0 <= j < i ==> s[..i][j] == s[j];
  }

  /** The matched text of `SearchNumber`, or None. */
  function FirstNumber(s: string, form: NumberForm): (r: Option<string>)
    ensures r.None? <==> NoneOf(s, IsDigit)
    ensures r.Some? ==> form.Accepts(r.value) && IsChapterToken(r.value)
  {
    match SearchNumber(s, form)
    case None => None
    case Some(m) => Some(s[m.start..m.end])
  }

  /** A number standing alone between non-digits is what the search finds. */
  lemma FirstNumberFinds(a: string, n: string, b: string, form: NumberForm)
    requires NoneOf(a, IsDigit) && IsDigits(n)
    requires b == [] || (!IsDigit(b[0]) && b[0] != '.')
    ensures FirstNumber(a + n + b, form) == Some(n)
  {
    var s := a + n + b;
    assert s == a + (n + b);
    SkipNonDigits(a, n + b);
    assert s[|a|..] == n + b;
    NumberAlone(n, b, form);
    assert s[|a|..|a| + |n|] == n;
  }

  /** The search skips exactly the leading non-digits. */
  lemma SkipNonDigits(a: string, t: string)
    requires NoneOf(a, IsDigit) && t != [] && IsDigit(t[0])
    ensures RunLength(a + t, IsDigit) == |a|
  {
    var s := a + t;
    var i := RunLength(s, IsDigit);
    assert s[|a|] == t[0];
    assert forall j :: 0 <= j < |a| ==> s[j] == a[j];
  }

  /** Digits followed by neither a digit nor a dot are matched whole. */
  lemma NumberAlone(n: string, b: string, form: NumberForm)
    requires IsDigits(n)
    requires b == [] || (!IsDigit(b[0]) && b[0] != '.')
    ensures NumberLength(n + b, form) == |n|
  {
    DigitRunOf(n, b);
    assert |n| < |n + b| ==> (n + b)[|n|] == b[0];
  }

  /** The digit run of digits followed by a non-digit is those digits. */
  lemma DigitRunOf(d: string, r: string)
    requires IsDigits(d) && (r == [] || !IsDigit(r[0]))
    ensures (d + r)[0] == d[0]
    ensures DigitRun(d + r) == |d|
  {
    var t := d + r;
    assert forall j :: 0 <= j < |d| ==> t[j] == d[j];
    if |d| < |t| {
      assert t[|d|] == r[0];
    }
  }

  /** A chapter token followed by neither a digit nor a dot is matched whole. */
  lemma TokenAlone(n: string, t: string, form: NumberForm)
    requires form.Accepts(n)
    requires t == [] || (!IsDigit(t[0]) && t[0] != '.')
    ensures n != [] && IsDigit(n[0])
    ensures NumberLength(n + t, form) == |n|
  {
    if form.Integer? {
      IntegerTokenIsChapterToken(n);
    }
    var k := IndexOf(n, '.');
    assert n[..k] != [] && n[0] == n[..k][0];
    if k == |n| {
      assert n[..k] == n;
      NumberAlone(n, t, form);
    } else {
      var d1 := n[..k];
      var d2 := n[k + 1..];
      var s := n + t;
      assert n == d1 + ("." + d2);
      assert s == d1 + ("." + d2 + t);
      DigitRunOf(d1, "." + d2 + t);
      assert s[k + 1..] == d2 + t;
      DigitRunOf(d2, t);
    }
  }

  /** A number standing alone after non-digits is what the search finds. */
  lemma FirstTokenFinds(a: string, n: string, b: string, form: NumberForm)
    requires NoneOf(a, IsDigit) && form.Accepts(n)
    requires b == [] || (!IsDigit(b[0]) && b[0] != '.')
    ensures FirstNumber(a + n + b, form) == Some(n)
  {
    TokenAlone(n, b, form);
    var s := a + n + b;
    assert s == a + (n + b);
    SkipNonDigits(a, n + b);
    assert s[|a|..] == n + b;
    assert s[|a|..|a| + |n|] == n;
  }
}
