/**
 * The small decisions of the chapter downloaders: clean file names, the
 * sequence the user typed ("+5", "next:5", "12,13,14"), whether a written
 * PDF is good enough, and the chapters the older downloader fetches for
 * "next N".
 */
module Downloader {
  import opened Wrappers
  import opened Text
  import opened Sequences
  import opened Tokens
  import opened Urls
  import Planning

  /** The three downloaders whose helpers differ in small ways. */
  datatype Variant =
    | Bot      // bot/verman2.py
    | Buenos   // buenos/verman2.py
    | Verman4  // buenos/verman4_ok.py
  {
    /** The words that may introduce "next N". */
    function NextWords(): seq<string>
    {
      if Verman4? then ["siguientes"] else ["siguientes", "next"]
    }

    /** Which tokens a chapter list keeps: decimals in the bot, digits elsewhere. */
    function ListForm(): NumberForm
    {
      if Bot? then Decimal else Integer
    }

    /** What `sanitize_filename` returns when nothing is left. */
    function Fallback(): (r: string)
      ensures r != [] && NoneOf(r, Forbidden)
      ensures !IsSpace(r[0]) && !IsSpace(r[|r| - 1])
    {
      if Verman4? then "Archivo" else "File"
    }
  }

  // ----- sanitize_filename -----

  // The nine characters a file name may not hold: \ / * ? : " < > |
  predicate Forbidden(c: char)
  {
    c in {'\\', '/', '*', '?', ':', '"', '<', '>', '|'}
  }

  predicate Allowed(c: char) { !Forbidden(c) }

  // re.sub(r'[\\/*?:"<>|]+', "_", s): every run of forbidden characters becomes one "_".
  function Collapse(s: string): (r: string)
    ensures NoneOf(r, Forbidden)
    ensures |r| <= |s|
    decreases |s|
  {
    if s == [] then []
    else if Forbidden(s[0]) then
      var k := RunLength(s, Allowed);
      "_" + Collapse(s[k..])
    else [s[0]] + Collapse(s[1..])
  }

  /** A name with no forbidden character is left as it is. */
  lemma {:induction false} CollapsePlain(s: string)
    requires NoneOf(s, Forbidden)
    ensures Collapse(s) == s
    decreases |s|
  {
    if s != [] {
      CollapsePlain(s[1..]);
    }
  }

  /** After allowed text, a whole run of forbidden characters turns into a single "_". */
  lemma {:induction false} CollapseRun(a: string, f: string, b: string)
    requires NoneOf(a, Forbidden)
    requires f != [] && forall i :: 0 <= i < |f| ==> Forbidden(f[i])
    requires b == [] || Allowed(b[0])
    ensures Collapse(a + f + b) == a + "_" + Collapse(b)
    decreases |a|
  {
    if a == [] {
      var s := f + b;
      assert a + f + b == s;
      assert forall i :: 0 <= i < |f| ==> s[i] == f[i];
      assert |f| < |s| ==> s[|f|] == b[0];
      assert RunLength(s, Allowed) == |f|;
      assert s[|f|..] == b;
    } else {
      assert (a + f + b)[0] == a[0];
      assert (a + f + b)[1..] == a[1..] + f + b;
      CollapseRun(a[1..], f, b);
    }
  }

  /** `sanitize_filename`: runs of forbidden characters to "_", stripped, with a fallback. */
  function SanitizeFilename(s: string, v: Variant): (r: string)
    ensures r != [] && NoneOf(r, Forbidden)
    ensures !IsSpace(r[0]) && !IsSpace(r[|r| - 1])
  {
    var t := Strip(Collapse(s));
    StripKeeps(Collapse(s), Forbidden);
    if t == [] then v.Fallback() else t
  }

  /** Cleaning a clean name changes nothing. */
  lemma SanitizeIdempotent(s: string, v: Variant)
    ensures SanitizeFilename(SanitizeFilename(s, v), v) == SanitizeFilename(s, v)
  {
    var r := SanitizeFilename(s, v);
    CollapsePlain(r);
    StripUnchanged(r);
    assert Strip(Collapse(r)) == r;
  }

  // ----- parse_sequence_input -----

  datatype Mode = Single | NextN | List

  /** The `(mode, payload)` pair the downloader runs. */
  datatype Request = Request(mode: Mode, payload: seq<string>)

  /** The separators of `re.split(r"[,\s]+", s)`. */
  predicate IsListSep(c: char) { c == ',' || IsSpace(c) }

  /** The characters `\s*[: ]\s*` may consume. */
  predicate IsGap(c: char) { c == ':' || IsSpace(c) }

  predicate NotGap(c: char) { !IsGap(c) }

  /** Text that `\s*[: ]\s*` matches whole: blanks around one ':' or at least one ' '. */
  predicate GapMatches(g: string)
  {
    NoneOf(g, NotGap) &&
    (multiset(g)[':'] == 1 || (multiset(g)[':'] == 0 && ' ' in g))
  }

  /** `w\s*[: ]\s*(\d+)` matching all of `s`: the number it gives. */
  function KeywordCount(s: string, w: string): (r: Option<nat>)
    ensures r.Some? ==> StartsWith(s, w)
  {
    if !StartsWith(s, w) then None
    else
      var rest := s[|w|..];
      var k := RunLength(rest, NotGap);
      if GapMatches(rest[..k]) && IsDigits(rest[k..]) then Some(DigitsValue(rest[k..])) else None
  }

  /** The first of the words that introduces a count. */
  function WordsCount(s: string, words: seq<string>): Option<nat>
  {
    if words == [] then None
    else
      var r := KeywordCount(s, words[0]);
      if r.Some? then r else WordsCount(s, words[1..])
  }

  /** `re.match(r"^((?:siguientes|next)\s*[: ]\s*(\d+)|\+(\d+))$", s)` and its count. */
  function NextCount(s: string, v: Variant): Option<nat>
  {
    if |s| > 1 && s[0] == '+' && IsDigits(s[1..]) then Some(DigitsValue(s[1..]))
    else WordsCount(s, v.NextWords())
  }

  /** The list-mode tokens: the fields between separators that the variant accepts. */
  function ListTokens(s: string, v: Variant): seq<string>
  {
    Filter(Fields(s, IsListSep), v.ListForm().Accepts)
  }

  /**
   * `parse_sequence_input`: blank input is the start link alone; "+N" or a
   * next word with N asks for N chapters; otherwise the accepted numbers are
   * a list; with none, the start link alone again.
   */
  function ParseSequenceInput(input: string, startUrl: string, v: Variant): (r: Request)
    ensures r.mode == Single ==> r.payload == [startUrl]
    ensures r.mode == NextN ==> |r.payload| == 1 && IsDigits(r.payload[0])
    ensures r.mode == List ==> r.payload != []
  {
    Decide(Lower(Strip(input)), startUrl, v)
  }

  /** The decision on the stripped, lower-case text. */
  function Decide(s: string, startUrl: string, v: Variant): (r: Request)
    ensures r.mode == Single ==> r.payload == [startUrl]
    ensures r.mode == NextN ==> |r.payload| == 1 && IsDigits(r.payload[0])
    ensures r.mode == List ==> r.payload != []
  {
    if s == [] then Request(Single, [startUrl])
    else
      match NextCount(s, v)
      case Some(n) => Request(NextN, [NatToString(n)])
      case None =>
        var nums := ListTokens(s, v);
        if nums != [] then Request(List, nums) else Request(Single, [startUrl])
  }

  /** Blank input asks for the start link alone. */
  lemma ParseBlank(input: string, startUrl: string, v: Variant)
    requires Strip(input) == []
    ensures ParseSequenceInput(input, startUrl, v) == Request(Single, [startUrl])
  {
  }

  /** A digit is neither blank, nor a capital, nor a gap, nor a list separator. */
  lemma DigitIsPlain(c: char)
    requires IsDigit(c)
    ensures !IsSpace(c) && !IsUpper(c) && !IsGap(c) && !IsListSep(c) && c != '+'
  {
  }

  /** Input the parser sees as it is: no blank at either end and no capital. */
  lemma SeenAsIs(s: string)
    requires s != [] && !IsSpace(s[0]) && !IsSpace(s[|s| - 1]) && NoneOf(s, IsUpper)
    ensures Lower(Strip(s)) == s
  {
    StripUnchanged(s);
    LowerUnchanged(s);
  }

  /** "+N" asks for N chapters, N written without leading zeros. */
  lemma ParsePlus(d: string, startUrl: string, v: Variant)
    requires IsDigits(d)
    ensures ParseSequenceInput("+" + d, startUrl, v) == Request(NextN, [NatToString(DigitsValue(d))])
  {
    var s := "+" + d;
    PlusPlain(d);
    SeenAsIs(s);
    assert s[1..] == d;
    DecideCount(s, startUrl, v, DigitsValue(d));
  }

  lemma PlusPlain(d: string)
    requires IsDigits(d)
    ensures var s := "+" + d; s != [] && !IsSpace(s[0]) && !IsSpace(s[|s| - 1]) && NoneOf(s, IsUpper)
  {
    var s := "+" + d;
    DigitIsPlain(d[|d| - 1]);
    assert s[|s| - 1] == d[|d| - 1];
    forall i | 0 <= i < |s|
      ensures !IsUpper(s[i])
    {
      if i > 0 {
        assert s[i] == d[i - 1];
        DigitIsPlain(d[i - 1]);
      }
    }
  }

  /** Text that gives a count asks for that many chapters. */
  lemma DecideCount(s: string, startUrl: string, v: Variant, n: nat)
    requires s != [] && NextCount(s, v) == Some(n)
    ensures Decide(s, startUrl, v) == Request(NextN, [NatToString(n)])
  {
  }

  /** The number after the gap of a next word. */
  lemma KeywordFinds(w: string, g: string, d: string)
    requires GapMatches(g) && IsDigits(d)
    ensures KeywordCount(w + g + d, w) == Some(DigitsValue(d))
  {
    var s := w + g + d;
    assert StartsWith(s, w) by {
      assert s[..|w|] == w;
    }
    var rest := s[|w|..];
    assert rest == g + d;
    DigitIsPlain(d[0]);
    GapRun(g, d);
    assert rest[..|g|] == g && rest[|g|..] == d;
  }

  lemma GapRun(g: string, d: string)
    requires NoneOf(g, NotGap) && d != [] && NotGap(d[0])
    ensures RunLength(g + d, NotGap) == |g|
    decreases |g|
  {
    if g != [] {
      assert (g + d)[1..] == g[1..] + d;
      assert NoneOf(g[1..], NotGap) by {
        assert forall i :: 0 <= i < |g| - 1 ==> g[1..][i] == g[i + 1];
      }
      GapRun(g[1..], d);
    }
  }

  /** The words of a variant start with a small letter and hold no capital. */
  lemma NextWordShape(v: Variant, w: string)
    requires w in v.NextWords()
    ensures w != [] && IsLower(w[0]) && NoneOf(w, IsUpper)
    ensures w == "next" || w == "siguientes"
  {
  }

  /** The characters of a gap are no capitals. */
  lemma GapNotUpper(g: string)
    requires NoneOf(g, NotGap)
    ensures NoneOf(g, IsUpper)
  {
    forall i | 0 <= i < |g|
      ensures !IsUpper(g[i])
    {
      assert IsGap(g[i]);
    }
  }

  /**
   * A next word, a gap and a number ("next:5", "siguientes 12") ask for that
   * many chapters, in every variant whose words include it.
   */
  lemma ParseNextWord(w: string, g: string, d: string, startUrl: string, v: Variant)
    requires w in v.NextWords() && GapMatches(g) && IsDigits(d)
    ensures ParseSequenceInput(w + g + d, startUrl, v) == Request(NextN, [NatToString(DigitsValue(d))])
  {
    var s := w + g + d;
    NextWordShape(v, w);
    GapNotUpper(g);
    PlainConcat(w, g, d);
    SeenAsIs(s);
    WordCount(w, g, d, v);
    DecideCount(s, startUrl, v, DigitsValue(d));
  }

  lemma WordCount(w: string, g: string, d: string, v: Variant)
    requires w in v.NextWords() && GapMatches(g) && IsDigits(d)
    ensures NextCount(w + g + d, v) == Some(DigitsValue(d))
  {
    var s := w + g + d;
    NextWordShape(v, w);
    KeywordFinds(w, g, d);
    assert s[0] == w[0];
    WordsOfVariant(s, v);
    if w == "next" {
      KeywordNeedsWord(s, "siguientes");
    }
  }

  lemma KeywordNeedsWord(s: string, w: string)
    requires s != [] && w != [] && s[0] != w[0]
    ensures KeywordCount(s, w) == None
  {
    assert !StartsWith(s, w) by {
      if |w| <= |s| {
        assert s[..|w|][0] == s[0];
      }
    }
  }

  /** Text not starting with '+' is tried against the words, "siguientes" first. */
  lemma WordsOfVariant(s: string, v: Variant)
    requires s != [] && s[0] != '+'
    ensures NextCount(s, v) ==
      if KeywordCount(s, "siguientes").Some? || v.Verman4? then KeywordCount(s, "siguientes")
      else KeywordCount(s, "next")
  {
    var words := v.NextWords();
    assert words[0] == "siguientes";
    if !v.Verman4? {
      assert words[1..] == ["next"];
      var last: seq<string> := ["next"];
      assert last[0] == "next" && last[1..] == [];
      assert WordsCount(s, last[1..]) == None;
      assert WordsCount(s, last) == KeywordCount(s, "next");
    } else {
      assert words[1..] == [];
      assert WordsCount(s, words[1..]) == None;
    }
  }

  /** Word, gap and digits together: no capital, and no blank at either end. */
  lemma PlainConcat(w: string, g: string, d: string)
    requires w != [] && IsLower(w[0]) && NoneOf(w, IsUpper) && NoneOf(g, IsUpper) && IsDigits(d)
    ensures var s := w + g + d; s != [] && !IsSpace(s[0]) && !IsSpace(s[|s| - 1]) && NoneOf(s, IsUpper)
  {
    var s := w + g + d;
    assert s[0] == w[0];
    assert s[|s| - 1] == d[|d| - 1];
    DigitIsPlain(d[|d| - 1]);
    forall i | 0 <= i < |s|
      ensures !IsUpper(s[i])
    {
      if i < |w| {
        assert s[i] == w[i];
      } else if i < |w| + |g| {
        assert s[i] == g[i - |w|];
      } else {
        assert s[i] == d[i - |w| - |g|];
        DigitIsPlain(d[i - |w| - |g|]);
      }
    }
  }

  /** The older Spanish-only downloader does not know "next": "next:5" is no count there. */
  lemma Verman4IgnoresNext(g: string, d: string, startUrl: string)
    requires GapMatches(g) && IsDigits(d)
    ensures ParseSequenceInput("next" + g + d, startUrl, Verman4).mode != NextN
  {
    var s := "next" + g + d;
    GapNotUpper(g);
    PlainConcat("next", g, d);
    SeenAsIs(s);
    assert s[0] == 'n';
    WordsOfVariant(s, Verman4);
    KeywordNeedsWord(s, "siguientes");
    DecideNoCount(s, startUrl, Verman4);
  }

  /** Without a count, the list of accepted fields, or the start link when there is none. */
  lemma DecideNoCount(s: string, startUrl: string, v: Variant)
    requires s != [] && NextCount(s, v).None?
    ensures Decide(s, startUrl, v) ==
      if ListTokens(s, v) != [] then Request(List, ListTokens(s, v)) else Request(Single, [startUrl])
  {
  }

  /**
   * One chapter number alone: the bot lists "12" and "12.5"; the other
   * downloaders list "12" and fall back to the start link for "12.5".
   */
  lemma ParseOneNumber(t: string, startUrl: string, v: Variant)
    requires IsChapterToken(t)
    ensures ParseSequenceInput(t, startUrl, v) ==
      if v.ListForm().Accepts(t) then Request(List, [t]) else Request(Single, [startUrl])
  {
    NumberPlain(t);
    SeenAsIs(t);
    TokenAlone(t, [], Decimal);
    WordsOfVariant(t, v);
    KeywordNeedsWord(t, "siguientes");
    KeywordNeedsWord(t, "next");
    DecideNoCount(t, startUrl, v);
    FieldsWhole(t, IsListSep);
    assert ListTokens(t, v) == Filter([t], v.ListForm().Accepts);
    assert Filter([t], v.ListForm().Accepts) == if v.ListForm().Accepts(t) then [t] else [];
  }

  /** A chapter number has no capital, no separator, and no blank at either end. */
  lemma NumberPlain(t: string)
    requires IsChapterToken(t)
    ensures t != [] && !IsSpace(t[0]) && !IsSpace(t[|t| - 1]) && NoneOf(t, IsUpper) && NoneOf(t, IsListSep)
  {
    ChapterTokenChars(t);
    forall i | 0 <= i < |t|
      ensures !IsUpper(t[i]) && !IsListSep(t[i])
    {
      assert t[i] in t;
      if IsDigit(t[i]) {
        DigitIsPlain(t[i]);
      }
    }
    TokenAlone(t, [], Decimal);
    ChapterTokenLast(t);
    DigitIsPlain(t[0]);
    DigitIsPlain(t[|t| - 1]);
  }

  lemma ChapterTokenLast(t: string)
    requires IsChapterToken(t)
    ensures t != [] && IsDigit(t[|t| - 1])
  {
    var k := IndexOf(t, '.');
    if k == |t| {
      assert t[..k] == t;
    } else {
      assert t[|t| - 1] == t[k + 1..][|t| - k - 2];
    }
  }

  /**
   * What each mode carries: a count has no leading zeros; a list holds only
   * fields of the input the variant accepts, and falls back to the start link
   * only when no field qualifies.
   */
  lemma ParseShape(input: string, startUrl: string, v: Variant)
    ensures var r := ParseSequenceInput(input, startUrl, v);
      r.mode == NextN ==> r.payload[0] == NatToString(DigitsValue(r.payload[0]))
    ensures var r := ParseSequenceInput(input, startUrl, v);
      r.mode == List ==> forall x :: x in r.payload ==>
        v.ListForm().Accepts(x) && x in Fields(Lower(Strip(input)), IsListSep)
    ensures var r := ParseSequenceInput(input, startUrl, v);
      var s := Lower(Strip(input));
      r.mode == Single && s != [] ==>
        NextCount(s, v).None? && forall x :: x in Fields(s, IsListSep) ==> !v.ListForm().Accepts(x)
  {
    var s := Lower(Strip(input));
    FilterMembers(Fields(s, IsListSep), v.ListForm().Accepts);
  }

  // ----- validate_pdf -----

  const PdfMinSizeBytes := 100000
  const PdfMinPageBytes := 100000
  const PdfMinTotalForMulti := 200000
  const PdfMultiPageThreshold := 2

  /** The default `min_size` of the older downloader. */
  const BuenosPdfMinSizeBytes := 30000

  /** `(is_valid, page_count, size_bytes)`. */
  datatype PdfCheck = PdfCheck(valid: bool, pages: int, size: int)

  /** `if expected_pages:` is false for None and for 0. */
  predicate Given(expected: Option<int>) { expected.Some? && expected.value != 0 }

  /** `max(1, expected_pages // 2)`; Python's `//` and Dafny's `/` agree for a positive divisor. */
  function MinPages(expected: int): int
  {
    Max(1, expected / 2)
  }

  function Max(a: int, b: int): int { if a >= b then a else b }

  /**
   * `validate_pdf` of the bot. `size` is None when the file cannot be read;
   * `pages` is what `pdf_page_count` counted.
   */
  function ValidatePdf(size: Option<int>, pages: int, expected: Option<int>, minSize: int): (r: PdfCheck)
    ensures size.None? ==> r == PdfCheck(false, 0, 0)
    ensures size.Some? ==> r.pages == pages && r.size == size.value
    ensures r.valid <==>
      size.Some? && pages > 0 &&
      size.value >= minSize && size.value >= 100000 && size.value >= pages * 100000 &&
      (pages > 2 ==> size.value >= 200000) &&
      (Given(expected) ==> pages >= 1 && pages >= expected.value / 2)
  {
    if size.None? then PdfCheck(false, 0, 0)
    else if pages <= 0 then PdfCheck(false, pages, size.value)
    else
      var minTotal := Max(minSize, PdfMinSizeBytes);
      var minTotal := Max(minTotal, pages * PdfMinPageBytes);
      var minTotal := if pages > PdfMultiPageThreshold then Max(minTotal, PdfMinTotalForMulti) else minTotal;
      if size.value < minTotal then PdfCheck(false, pages, size.value)
      else if Given(expected) && pages < MinPages(expected.value) then PdfCheck(false, pages, size.value)
      else PdfCheck(true, pages, size.value)
  }

  /** `validate_pdf` of the older downloader, which counts pages only after the size check. */
  function ValidatePdfBuenos(size: Option<int>, pages: int, expected: Option<int>, minSize: int): (r: PdfCheck)
    ensures size.None? ==> r == PdfCheck(false, 0, 0)
    ensures size.Some? ==> r.size == size.value
    ensures r.valid <==>
      size.Some? && size.value >= 1 && size.value >= minSize && pages > 0 &&
      (Given(expected) ==> pages >= 1 && pages >= expected.value / 2)
    ensures size.Some? ==> r.pages == if size.value < Max(1, minSize) then 0 else pages
  {
    if size.None? then PdfCheck(false, 0, 0)
    else if size.value < Max(1, minSize) then PdfCheck(false, 0, size.value)
    else if pages <= 0 then PdfCheck(false, pages, size.value)
    else if Given(expected) && pages < MinPages(expected.value) then PdfCheck(false, pages, size.value)
    else PdfCheck(true, pages, size.value)
  }

  /** The bot's rule is the stricter one: what it accepts, the older rule accepts at its default. */
  lemma BotRuleStricter(size: Option<int>, pages: int, expected: Option<int>)
    requires ValidatePdf(size, pages, expected, PdfMinSizeBytes).valid
    ensures ValidatePdfBuenos(size, pages, expected, BuenosPdfMinSizeBytes).valid
  {
  }

  // ----- nextN in the older downloader's main -----

  /** One chapter to fetch: its link and the number it should carry. */
  datatype Job = Job(url: Url, expected: Option<string>)

  /** The all-digit chapter number of the start link, as an integer. */
  function StartNumber(start: Url): (r: Option<nat>)
    ensures r.Some? <==> ChapterNumberFromUrl(start, Integer).Some?
  {
    match ChapterNumberFromUrl(start, Integer)
    case Some(s) => Some(DigitsValue(s))
    case None => None
  }

  /**
   * The chapters the older downloader fetches for "next N": with an all-digit
   * start number s, the chapters `str(s + i)` for i below n, each built from
   * the series base; otherwise the start link alone.
   */
  function BuenosNextN(start: Url, n: nat): (jobs: seq<Job>)
    ensures StartNumber(start).None? ==> jobs == [Job(start, None)]
    ensures StartNumber(start).Some? ==> |jobs| == n
    ensures StartNumber(start).Some? ==>
      jobs == Consecutive(DeriveSeriesBase(start, Integer), StartNumber(start).value, n)
  {
    match StartNumber(start)
    case Some(first) => Consecutive(DeriveSeriesBase(start, Integer), first, n)
    case None => [Job(start, None)]
  }

  /** n chapters numbered `first`, `first + 1`, ... from the series base. */
  function Consecutive(base: Url, first: nat, n: nat): (jobs: seq<Job>)
    ensures |jobs| == n
  {
    seq(n, i requires 0 <= i < n => ChapterJob(base, NatToString(first + i)))
  }

  /** The `for i in range(n)` loop that visits the consecutive chapters. */
  method PlanConsecutive(base: Url, first: nat, n: nat) returns (jobs: seq<Job>)
    ensures jobs == Consecutive(base, first, n)
  {
    jobs := [];
    var i := 0;
    while i < n
      invariant i <= n
      invariant |jobs| == i
      invariant forall k :: 0 <= k < i ==> jobs[k] == ChapterJob(base, NatToString(first + k))
    {
      jobs := jobs + [ChapterJob(base, NatToString(first + i))];
      i := i + 1;
    }
  }

  /** One chapter: the link built from the base, expecting that number. */
  function ChapterJob(base: Url, chap: string): (j: Job)
    ensures j.expected == Some(chap)
    ensures j.url.Parsed? && j.url.fragment == "1" && EndsWith(j.url.path, chap + "/")
    ensures j.url.scheme == base.Scheme() && j.url.netloc == base.Netloc()
  {
    Job(BuildChapterUrl(base, chap), Some(chap))
  }

  /**
   * The consecutive chapters carry the numbers `first + i`, written without
   * leading zeros, and their links end in those numbers.
   */
  lemma ConsecutivePlan(base: Url, first: nat, n: nat)
    ensures forall i :: 0 <= i < n ==>
      Consecutive(base, first, n)[i].expected.Some? &&
      IsDigits(Consecutive(base, first, n)[i].expected.value) &&
      DigitsValue(Consecutive(base, first, n)[i].expected.value) == first + i &&
      EndsWith(Consecutive(base, first, n)[i].url.path, NatToString(first + i) + "/")
  {
    forall i | 0 <= i < n
      ensures Consecutive(base, first, n)[i] == ChapterJob(base, NatToString(first + i))
    {
    }
  }

  /** Different positions of the plan fetch different chapters. */
  lemma ConsecutiveDistinct(base: Url, first: nat, n: nat)
    ensures forall i, j :: 0 <= i < j < n ==>
      Consecutive(base, first, n)[i].expected != Consecutive(base, first, n)[j].expected
  {
    ConsecutivePlan(base, first, n);
  }

  // ----- the nextN download loop of run_download_job -----

  /**
   * The chapters the bot downloads for "next N": the planned tokens in order,
   * the start token in first place from the link the user gave, every other
   * one from a link built on the series base.
   */
  function BotNextN(fetched: seq<string>, start: Url, n: nat): (jobs: seq<Job>)
  {
    var token := ChapterNumberFromUrl(start, Decimal);
    var plan := Planning.NextNPlan(fetched, token, n);
    var base := DeriveSeriesBase(start, Decimal);
    seq(|plan|, i requires 0 <= i < |plan| =>
      if i == 0 && Planning.Truthy(token) && plan[i] == token.value then Job(start, Some(plan[i]))
      else ChapterJob(base, plan[i]))
  }

  /**
   * One download per planned chapter, expecting that chapter; with a start
   * token the first download is the start link itself, and every later one
   * is built from the series base.
   */
  lemma BotNextNJobs(fetched: seq<string>, start: Url, n: nat)
    ensures var token := ChapterNumberFromUrl(start, Decimal);
      var plan := Planning.NextNPlan(fetched, token, n);
      var jobs := BotNextN(fetched, start, n);
      |jobs| == |plan| &&
      (forall i :: 0 <= i < |plan| ==> jobs[i].expected == Some(plan[i])) &&
      (Planning.Truthy(token) ==> jobs[0] == Job(start, token)) &&
      (forall i :: 0 < i < |plan| ==> jobs[i] == ChapterJob(DeriveSeriesBase(start, Decimal), plan[i]))
  {
    var token := ChapterNumberFromUrl(start, Decimal);
    if Planning.Truthy(token) {
      Planning.NextNPlanStart(fetched, token, n);
    }
  }
}
