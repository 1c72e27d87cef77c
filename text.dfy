/**
 * Character classes and string helpers with the meaning Python gives them.
 * `\d` and the letters are the ASCII ones; whitespace and line breaks are
 * Python's own sets (`str.isspace`, the `\s` class of a str pattern, and the
 * boundaries of `str.splitlines`).
 */
module Text {
  import opened Wrappers

  predicate IsDigit(c: char) { '0' <= c <= '9' }
  predicate IsUpper(c: char) { 'A' <= c <= 'Z' }
  predicate IsLower(c: char) { 'a' <= c <= 'z' }
  predicate IsLetter(c: char) { IsUpper(c) || IsLower(c) }
  predicate IsAlnum(c: char) { IsLetter(c) || IsDigit(c) }

  /** `str.isspace()`, which is also the `\s` class and the separator of `str.split()`. */
  predicate IsSpace(c: char)
  {
    || c in {' ', '\t', '\n', '\U{0B}', '\U{0C}', '\r', '\U{1C}', '\U{1D}', '\U{1E}', '\U{1F}'}
    || c in {'\U{85}', '\U{A0}', '\U{1680}', '\U{2028}', '\U{2029}', '\U{202F}', '\U{205F}', '\U{3000}'}
    || ('\U{2000}' <= c <= '\U{200A}')
  }

  /** The characters at which `str.splitlines()` ends a line ("\r\n" counts once). */
  predicate IsLineBreak(c: char)
  {
    c in {'\n', '\r', '\U{0B}', '\U{0C}', '\U{1C}', '\U{1D}', '\U{1E}', '\U{85}', '\U{2028}', '\U{2029}'}
  }

  function ToLowerChar(c: char): (d: char)
    ensures !IsUpper(d)
    ensures IsLetter(d) == IsLetter(c) && IsDigit(d) == IsDigit(c) && IsSpace(d) == IsSpace(c)
  {
    if IsUpper(c) then (c as int + 32) as char else c
  }

  function ToUpperChar(c: char): (d: char)
    ensures !IsLower(d)
    ensures IsLetter(d) == IsLetter(c) && IsDigit(d) == IsDigit(c)
  {
    if IsLower(c) then (c as int - 32) as char else c
  }

  /** `str.lower()` on the ASCII letters. */
  function Lower(s: string): (r: string)
    ensures |r| == |s|
    ensures forall i :: 0 <= i < |s| ==> r[i] == ToLowerChar(s[i])
  {
    seq(|s|, i requires 0 <= i < |s| => ToLowerChar(s[i]))
  }

  /** `s.replace(a, b)` for one character `a` and one character `b`. */
  function ReplaceChar(s: string, a: char, b: char): (r: string)
    ensures |r| == |s|
    ensures forall i :: 0 <= i < |s| ==> r[i] == if s[i] == a then b else s[i]
  {
    seq(|s|, i requires 0 <= i < |s| => if s[i] == a then b else s[i])
  }

  predicate NoneOf(s: string, p: char -> bool)
  {
    forall i :: 0 <= i < |s| ==> !p(s[i])
  }

  predicate StartsWith(s: string, prefix: string)
  {
    |prefix| <= |s| && s[..|prefix|] == prefix
  }

  predicate EndsWith(s: string, suffix: string)
  {
    |suffix| <= |s| && s[|s| - |suffix|..] == suffix
  }

  /** Python's `sub in s`. */
  predicate Contains(s: string, sub: string)
    decreases |s|
  {
    StartsWith(s, sub) || (s != [] && Contains(s[1..], sub))
  }

  /** `s.lstrip(chars)`, the characters to drop given as a predicate. */
  function LStripBy(s: string, drop: char -> bool): (r: string)
    ensures |r| <= |s| && r == s[|s| - |r|..]
    ensures r == [] || !drop(r[0])
    ensures forall i :: 0 <= i < |s| - |r| ==> drop(s[i])
    decreases |s|
  {
    if s != [] && drop(s[0]) then
      var r := LStripBy(s[1..], drop);
      assert forall i :: 1 <= i < |s| - |r| ==> s[i] == s[1..][i - 1];
      assert s[1..][|s| - 1 - |r|..] == s[|s| - |r|..];
      r
    else s
  }

  /** `s.rstrip(chars)`, the characters to drop given as a predicate. */
  function RStripBy(s: string, drop: char -> bool): (r: string)
    ensures |r| <= |s| && r == s[..|r|]
    ensures r == [] || !drop(r[|r| - 1])
    ensures forall i :: |r| <= i < |s| ==> drop(s[i])
    decreases |s|
  {
    if s != [] && drop(s[|s| - 1]) then RStripBy(s[..|s| - 1], drop) else s
  }

  /** `rstrip` never removes a character it does not drop, nor anything before it. */
  lemma RStripByKeeps(s: string, drop: char -> bool, k: nat)
    requires k < |s| && !drop(s[k])
    ensures |RStripBy(s, drop)| > k
  {
  }

  /** `s.strip()`: leading and trailing whitespace removed, nothing else. */
  function Strip(s: string): (r: string)
    ensures r == [] || (!IsSpace(r[0]) && !IsSpace(r[|r| - 1]))
    ensures forall c :: c in r ==> c in s
    ensures NoneOf(s, IsSpace) ==> r == s
  {
    RStripBy(LStripBy(s, IsSpace), IsSpace)
  }

  /** Stripping keeps a property every character has. */
  lemma StripKeeps(s: string, p: char -> bool)
    requires NoneOf(s, p)
    ensures NoneOf(Strip(s), p)
  {
    StripByKeeps(s, IsSpace, p);
  }

  lemma StripByKeeps(s: string, drop: char -> bool, p: char -> bool)
    requires NoneOf(s, p)
    ensures NoneOf(RStripBy(LStripBy(s, drop), drop), p)
  {
    var l := LStripBy(s, drop);
    NoneOfSlice(s, p, |s| - |l|, |s|);
    NoneOfSlice(l, p, 0, |RStripBy(l, drop)|);
  }

  lemma NoneOfSlice(s: string, p: char -> bool, i: nat, j: nat)
    requires NoneOf(s, p) && i <= j <= |s|
    ensures NoneOf(s[i..j], p)
  {
    assert forall k :: 0 <= k < j - i ==> s[i..j][k] == s[i + k];
  }

  /** A suffix keeps a property every character has. */
  lemma NoneOfSuffix(s: string, t: string, p: char -> bool)
    requires NoneOf(s, p) && |t| <= |s| && t == s[|s| - |t|..]
    ensures NoneOf(t, p)
  {
    NoneOfSlice(s, p, |s| - |t|, |s|);
  }

  /** Lower-cased text has no capital letters. */
  lemma LowerNoUpper(s: string)
    ensures NoneOf(Lower(s), IsUpper)
  {
  }

  /** Text without capital letters is its own lower case. */
  lemma LowerUnchanged(s: string)
    requires NoneOf(s, IsUpper)
    ensures Lower(s) == s
  {
  }

  /** Lowercasing works character by character, so it splits over a concatenation. */
  lemma LowerConcat(a: string, b: string)
    ensures Lower(a + b) == Lower(a) + Lower(b)
  {
  }

  lemma StripUnchanged(s: string)
    requires s == [] || (!IsSpace(s[0]) && !IsSpace(s[|s| - 1]))
    ensures Strip(s) == s
  {
  }

  /** Every character of `w` is one the strip drops. */
  predicate AllOf(w: string, drop: char -> bool)
  {
    forall i :: 0 <= i < |w| ==> drop(w[i])
  }

  /** A text whose first character is kept is not changed by the left strip. */
  lemma LStripByKept(s: string, drop: char -> bool)
    requires s != [] && !drop(s[0])
    ensures LStripBy(s, drop) == s
  {
  }

  /** A suffix of a suffix is a suffix. */
  lemma SuffixOfSuffix(s: string, t: string, r: string)
    requires |t| <= |s| && t == s[|s| - |t|..]
    requires |r| <= |t| && r == t[|t| - |r|..]
    ensures r == s[|s| - |r|..]
  {
    assert t[|t| - |r|..] == s[|s| - |r|..];
  }

  /** Characters the left strip drops anyway change nothing in front. */
  lemma {:induction false} LStripByPadded(w: string, x: string, drop: char -> bool)
    requires AllOf(w, drop)
    ensures LStripBy(w + x, drop) == LStripBy(x, drop)
    decreases |w|
  {
    if w != [] {
      assert (w + x)[1..] == w[1..] + x;
      assert AllOf(w[1..], drop) by {
        assert forall i :: 0 <= i < |w| - 1 ==> w[1..][i] == w[i + 1];
      }
      LStripByPadded(w[1..], x, drop);
    } else {
      assert w + x == x;
    }
  }

  /** Behind a kept last character, the right strip only works on what follows. */
  lemma {:induction false} RStripByAfter(x: string, y: string, drop: char -> bool)
    requires x != [] && !drop(x[|x| - 1])
    ensures RStripBy(x + y, drop) == x + RStripBy(y, drop)
    decreases |y|
  {
    if y == [] {
      assert x + y == x;
    } else {
      assert (x + y)[..|x + y| - 1] == x + y[..|y| - 1];
      if drop(y[|y| - 1]) {
        RStripByAfter(x, y[..|y| - 1], drop);
      }
    }
  }

  /** Characters the right strip drops anyway change nothing behind. */
  lemma {:induction false} RStripByPadded(x: string, w: string, drop: char -> bool)
    requires AllOf(w, drop)
    ensures RStripBy(x + w, drop) == RStripBy(x, drop)
    decreases |w|
  {
    if w != [] {
      assert (x + w)[..|x + w| - 1] == x + w[..|w| - 1];
      assert AllOf(w[..|w| - 1], drop);
      RStripByPadded(x, w[..|w| - 1], drop);
    } else {
      assert x + w == x;
    }
  }

  /** Stripping both ends ignores trailing characters it drops. */
  lemma {:induction false} StripByPadded(x: string, w: string, drop: char -> bool)
    requires AllOf(w, drop)
    ensures RStripBy(LStripBy(x + w, drop), drop) == RStripBy(LStripBy(x, drop), drop)
    decreases |x|
  {
    var l := LStripBy(x + w, drop);
    if x == [] {
      assert x + w == w + [];
      LStripByPadded(w, [], drop);
      assert l == [];
    } else if drop(x[0]) {
      assert (x + w)[1..] == x[1..] + w;
      assert l == LStripBy(x[1..] + w, drop);
      assert LStripBy(x, drop) == LStripBy(x[1..], drop);
      StripByPadded(x[1..], w, drop);
    } else {
      assert (x + w)[0] == x[0];
      assert l == x + w;
      assert LStripBy(x, drop) == x;
      RStripByPadded(x, w, drop);
    }
  }

  /** Stripping text that starts and ends on kept characters only trims what follows it. */
  lemma StripAfterKept(x: string, y: string)
    requires x != [] && !IsSpace(x[0]) && !IsSpace(x[|x| - 1])
    ensures Strip(x + y) == x + RStripBy(y, IsSpace)
  {
    StripByAfterKept(x, y, IsSpace);
  }

  lemma StripByAfterKept(x: string, y: string, drop: char -> bool)
    requires x != [] && !drop(x[0]) && !drop(x[|x| - 1])
    ensures RStripBy(LStripBy(x + y, drop), drop) == x + RStripBy(y, drop)
  {
    assert (x + y)[0] == x[0];
    LStripByKept(x + y, drop);
    RStripByAfter(x, y, drop);
  }

  /** `s.strip()` ignores whitespace added on either side. */
  lemma StripPadded(w1: string, p: string, w2: string)
    requires AllOf(w1, IsSpace) && AllOf(w2, IsSpace)
    ensures Strip(w1 + p + w2) == Strip(p)
  {
    assert w1 + p + w2 == w1 + (p + w2);
    LStripByPadded(w1, p + w2, IsSpace);
    StripByPadded(p, w2, IsSpace);
  }

  predicate AllDigits(s: string)
  {
    forall i :: 0 <= i < |s| ==> IsDigit(s[i])
  }

  /** `str.isdigit()`: non-empty and made of digits. */
  predicate IsDigits(s: string)
  {
    |s| > 0 && AllDigits(s)
  }

  function DigitValue(c: char): nat
    requires IsDigit(c)
  {
    c as int - '0' as int
  }

  function DigitChar(d: nat): (c: char)
    requires d < 10
    ensures IsDigit(c) && DigitValue(c) == d
  {
    ('0' as int + d) as char
  }

  /** `int(s)` for a string of decimal digits. */
  function DigitsValue(s: string): nat
    requires AllDigits(s)
    decreases |s|
  {
    if s == [] then 0 else DigitsValue(s[..|s| - 1]) * 10 + DigitValue(s[|s| - 1])
  }

  /** `str(n)` for a natural number: its decimal digits without leading zeros. */
  function NatToString(n: nat): (r: string)
    ensures IsDigits(r)
    ensures DigitsValue(r) == n
    ensures r[0] == '0' ==> r == "0"
    decreases n
  {
    if n < 10 then [DigitChar(n)]
    else
      var p := NatToString(n / 10);
      var r := p + [DigitChar(n % 10)];
      assert r[..|r| - 1] == p;
      r
  }

  lemma NatToStringInjective(a: nat, b: nat)
    requires NatToString(a) == NatToString(b)
    ensures a == b
  {
  }

  /** Length of the longest prefix of `s` holding no separator. */
  function RunLength(s: string, sep: char -> bool): (k: nat)
    ensures k <= |s|
    ensures forall i :: 0 <= i < k ==> !sep(s[i])
    ensures k == |s| || sep(s[k])
    decreases |s|
  {
    if s == [] || sep(s[0]) then 0 else 1 + RunLength(s[1..], sep)
  }

  /**
   * The maximal runs of non-separator characters, in order. With `IsSpace`
   * this is `str.split()`; it is also `re.split(r"[...]+", s)` with the
   * empty pieces dropped.
   */
  function Fields(s: string, sep: char -> bool): (r: seq<string>)
    ensures forall f :: f in r ==> f != [] && NoneOf(f, sep)
    ensures forall f :: f in r ==> forall c :: c in f ==> c in s
    decreases |s|
  {
    if s == [] then []
    else if sep(s[0]) then Fields(s[1..], sep)
    else
      var k := RunLength(s, sep);
      [s[..k]] + Fields(s[k..], sep)
  }

  /** What follows the first field and the separators after it. */
  function AfterField(s: string, sep: char -> bool): string
  {
    LStripBy(s[RunLength(s, sep)..], sep)
  }

  /** What follows the first field is a suffix of the text. */
  lemma AfterFieldSuffix(s: string, sep: char -> bool)
    ensures |AfterField(s, sep)| <= |s| && AfterField(s, sep) == s[|s| - |AfterField(s, sep)|..]
  {
    var t := s[RunLength(s, sep)..];
    SuffixOfSuffix(s, t, LStripBy(t, sep));
  }

  /** Text without separators is a single field. */
  lemma FieldsWhole(s: string, sep: char -> bool)
    requires s != [] && NoneOf(s, sep)
    ensures Fields(s, sep) == [s]
  {
    assert RunLength(s, sep) == |s| by {
      RunLengthWhole(s, sep);
    }
    assert !sep(s[0]);
    assert s[..|s|] == s;
    assert Fields(s[|s|..], sep) == [];
  }

  /** A field followed by a separator comes first, and the split goes on after it. */
  lemma FieldsAfterWord(w: string, u: string, sep: char -> bool)
    requires w != [] && NoneOf(w, sep) && (u == [] || sep(u[0]))
    ensures Fields(w + u, sep) == [w] + Fields(u, sep)
  {
    var s := w + u;
    assert s[0] == w[0];
    if u == [] {
      assert s == w;
      RunLengthWhole(w, sep);
    } else {
      RunLengthConcat(w, u, sep);
    }
    assert s[..|w|] == w && s[|w|..] == u;
  }

  /** In a field, a separator, a second field and then a separator or nothing, the second field is the second of the split. */
  lemma SecondField(w: string, c: char, v: string, r: string, sep: char -> bool)
    requires w != [] && NoneOf(w, sep) && sep(c)
    requires v != [] && NoneOf(v, sep) && (r == [] || sep(r[0]))
    ensures |Fields(w + [c] + v + r, sep)| >= 2 && Fields(w + [c] + v + r, sep)[1] == v
  {
    var u := v + r;
    var cu := [c] + u;
    assert cu[0] == c;
    assert w + [c] + v + r == w + cu;
    FieldsAfterWord(v, r, sep);
    FieldsAfterSeparator(c, u, sep);
    FieldsAfterWord(w, cu, sep);
    var tail := Fields(r, sep);
    assert Fields(w + cu, sep) == [w] + ([v] + tail);
  }

  /** A leading separator is skipped. */
  lemma FieldsAfterSeparator(c: char, u: string, sep: char -> bool)
    requires sep(c)
    ensures Fields([c] + u, sep) == Fields(u, sep)
  {
    assert ([c] + u)[1..] == u;
  }

  lemma {:induction false} RunLengthWhole(s: string, sep: char -> bool)
    requires NoneOf(s, sep)
    ensures RunLength(s, sep) == |s|
    decreases |s|
  {
    if s != [] {
      assert NoneOf(s[1..], sep) by {
        assert forall i :: 0 <= i < |s| - 1 ==> s[1..][i] == s[i + 1];
      }
      RunLengthWhole(s[1..], sep);
    }
  }

  /** The run stops where the text after a separator-free prefix starts with a separator. */
  lemma {:induction false} RunLengthConcat(w: string, u: string, sep: char -> bool)
    requires NoneOf(w, sep) && u != [] && sep(u[0])
    ensures RunLength(w + u, sep) == |w|
    decreases |w|
  {
    if w == [] {
      assert w + u == u;
    } else {
      assert (w + u)[1..] == w[1..] + u;
      assert (w + u)[0] == w[0];
      assert NoneOf(w[1..], sep) by {
        assert forall i :: 0 <= i < |w| - 1 ==> w[1..][i] == w[i + 1];
      }
      RunLengthConcat(w[1..], u, sep);
    }
  }

  /** Index of the first `c` in `s`, or `|s|` when there is none. */
  function IndexOf(s: string, c: char): (k: nat)
    ensures k <= |s|
    ensures forall i :: 0 <= i < k ==> s[i] != c
    ensures k == |s| || s[k] == c
    decreases |s|
  {
    if s == [] || s[0] == c then 0 else 1 + IndexOf(s[1..], c)
  }

  /** The parts of a concatenation, taken back by slicing. */
  lemma ConcatParts(a: string, b: string)
    ensures (a + b)[..|a|] == a && (a + b)[|a|..] == b
  {
  }

  lemma ConcatAssoc(a: string, b: string, c: string)
    ensures a + b + c == a + (b + c)
  {
  }

  lemma TakeInFirst(a: string, r: string, k: nat)
    requires k <= |a|
    ensures (a + r)[..k] == a[..k]
  {
  }

  lemma DropInFirst(a: string, r: string, k: nat)
    requires k <= |a|
    ensures (a + r)[k..] == a[k..] + r
  {
  }

  lemma {:induction false} IndexOfConcat(a: string, t: string, c: char)
    ensures IndexOf(a + t, c) == if IndexOf(a, c) < |a| then IndexOf(a, c) else |a| + IndexOf(t, c)
    decreases |a|
  {
    if a != [] {
      assert (a + t)[1..] == a[1..] + t;
      IndexOfConcat(a[1..], t, c);
    } else {
      assert a + t == t;
    }
  }

  /** `s.split(c)` for a single character: the pieces between the occurrences of `c`. */
  function Split(s: string, c: char): (r: seq<string>)
    ensures |r| >= 1
    decreases |s|
  {
    var k := IndexOf(s, c);
    if k == |s| then [s] else [s[..k]] + Split(s[k + 1..], c)
  }

  /** No piece holds the separator. */
  lemma {:induction false} SplitPieces(s: string, c: char)
    ensures forall i :: 0 <= i < |Split(s, c)| ==> c !in Split(s, c)[i]
    decreases |s|
  {
    var k := IndexOf(s, c);
    if k < |s| {
      SplitPieces(s[k + 1..], c);
    }
  }

  /** Index of the last `c` in `s`, if any. */
  function LastIndexOf(s: string, c: char): (r: Option<nat>)
    ensures r.None? <==> c !in s
    ensures r.Some? ==> r.value < |s| && s[r.value] == c && c !in s[r.value + 1..]
    decreases |s|
  {
    if s == [] then None
    else if s[|s| - 1] == c then Some(|s| - 1)
    else
      assert forall x :: x in s ==> x in s[..|s| - 1] || x == s[|s| - 1];
      LastIndexOf(s[..|s| - 1], c)
  }

  /** `c.join(parts)`. */
  function Join(parts: seq<string>, c: char): string
  {
    if |parts| == 0 then ""
    else if |parts| == 1 then parts[0]
    else parts[0] + [c] + Join(parts[1..], c)
  }

  lemma SplitNoSeparator(s: string, c: char)
    requires c !in s
    ensures Split(s, c) == [s]
  {
  }

  lemma {:induction false} JoinSplit(s: string, c: char)
    ensures Join(Split(s, c), c) == s
    decreases |s|
  {
    var k := IndexOf(s, c);
    if k < |s| {
      var rest := Split(s[k + 1..], c);
      JoinSplit(s[k + 1..], c);
      var parts := Split(s, c);
      assert parts == [s[..k]] + rest;
      assert parts[0] == s[..k] && parts[1..] == rest;
      assert Join(parts, c) == s[..k] + [c] + Join(rest, c);
      assert s == s[..k] + [c] + s[k + 1..];
    }
  }

  /**
   * `s.splitlines()`: the lines of `s` without their line breaks; a final
   * line break does not start an empty last line.
   */
  function SplitLines(s: string): seq<string>
    decreases |s|
  {
    if s == [] then []
    else
      var k := RunLength(s, IsLineBreak);
      if k == |s| then [s]
      else
        var skip := if s[k] == '\r' && k + 1 < |s| && s[k + 1] == '\n' then 2 else 1;
        [s[..k]] + SplitLines(s[k + skip..])
  }

  /** No line holds a line break. */
  lemma {:induction false} SplitLinesNoBreaks(s: string)
    ensures forall l :: l in SplitLines(s) ==> NoneOf(l, IsLineBreak)
    decreases |s|
  {
    if s != [] {
      var k := RunLength(s, IsLineBreak);
      if k < |s| {
        var skip := if s[k] == '\r' && k + 1 < |s| && s[k + 1] == '\n' then 2 else 1;
        SplitLinesNoBreaks(s[k + skip..]);
      }
    }
  }

  /** Python's `<` on strings: code-point lexicographic order. */
  predicate LexLess(a: string, b: string)
    decreases |a|
  {
    if a == [] then b != []
    else if b == [] then false
    else if a[0] != b[0] then a[0] < b[0]
    else LexLess(a[1..], b[1..])
  }

  lemma {:induction false} LexLessTotal(a: string, b: string)
    ensures a == b || LexLess(a, b) || LexLess(b, a)
    decreases |a|
  {
    if a != [] && b != [] && a[0] == b[0] {
      LexLessTotal(a[1..], b[1..]);
      if a[1..] == b[1..] {
        assert a == [a[0]] + a[1..] && b == [b[0]] + b[1..];
      }
    }
  }

  lemma {:induction false} LexLessIrreflexive(a: string)
    ensures !LexLess(a, a)
    decreases |a|
  {
    if a != [] {
      LexLessIrreflexive(a[1..]);
    }
  }

  lemma {:induction false} LexLessTransitive(a: string, b: string, c: string)
    requires LexLess(a, b) && LexLess(b, c)
    ensures LexLess(a, c)
    decreases |a|
  {
    if a != [] && b != [] && c != [] && a[0] == b[0] && b[0] == c[0] {
      LexLessTransitive(a[1..], b[1..], c[1..]);
    }
  }
}
