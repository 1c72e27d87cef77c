/**
 * The chapter comparison tool: chapter codes read from the titles of a
 * published chapter list and from the names in a local folder, and the
 * report that marks each published chapter as downloaded or missing and
 * lists the local chapters that the published list does not have.
 */
module MissingChapters {
  import opened Wrappers
  import opened Text
  import opened Sequences
  import opened Tokens

  // ----- extract_chapter_code -----

  /** A chapter token holds no comma, so replacing commas leaves it unchanged. */
  lemma TokenWithoutComma(t: string)
    requires IsChapterToken(t)
    ensures ',' !in t && ReplaceChar(t, ',', '.') == t
  {
    var k := IndexOf(t, '.');
    forall i | 0 <= i < |t|
      ensures t[i] != ','
    {
      if i < k {
        assert t[..k][i] == t[i];
      } else if i > k {
        assert t[k + 1..][i - k - 1] == t[i];
      }
    }
  }

  /**
   * `extract_chapter_code`: the first number of the text once commas are read
   * as dots. `CHAPTER_CODE_RE` takes a dot or a comma between the two digit
   * runs, but no comma is left after the replacement, so the search is the
   * decimal search of the downloaders.
   */
  function ExtractChapterCode(text: string): (r: Option<string>)
    ensures r.None? <==> NoneOf(text, IsDigit)
    ensures r.Some? ==> IsChapterToken(r.value) && ',' !in r.value
  {
    if text == "" then None
    else
      var normalized := ReplaceChar(text, ',', '.');
      assert NoneOf(normalized, IsDigit) <==> NoneOf(text, IsDigit);
      match FirstNumber(normalized, Decimal)
      case None => None
      case Some(m) =>
        TokenWithoutComma(m);
        Some(ReplaceChar(m, ',', '.'))
  }

  lemma ReplaceCharConcat(x: string, y: string, a: char, b: char)
    ensures ReplaceChar(x + y, a, b) == ReplaceChar(x, a, b) + ReplaceChar(y, a, b)
  {
  }

  /**
   * A number written with a dot or a comma, after text without digits and
   * before a character that cannot continue it, is the code found, with its
   * comma turned into a dot.
   */
  lemma ExtractChapterCodeFinds(a: string, n: string, b: string)
    requires NoneOf(a, IsDigit)
    requires IsChapterToken(ReplaceChar(n, ',', '.'))
    requires b == [] || (!IsDigit(b[0]) && b[0] != '.' && b[0] != ',')
    ensures ExtractChapterCode(a + n + b) == Some(ReplaceChar(n, ',', '.'))
  {
    var a' := ReplaceChar(a, ',', '.');
    var n' := ReplaceChar(n, ',', '.');
    var b' := ReplaceChar(b, ',', '.');
    ReplaceCharConcat(a, n, ',', '.');
    ReplaceCharConcat(a + n, b, ',', '.');
    assert NoneOf(a', IsDigit);
    assert b' == [] || b'[0] == b[0];
    FirstTokenFinds(a', n', b', Decimal);
    TokenWithoutComma(n');
    assert |a + n + b| >= |n'| > 0;
  }

  /** The code of a text, or "" when it has none. */
  function CodeText(text: string): string
  {
    match ExtractChapterCode(text)
    case Some(c) => c
    case None => ""
  }

  // ----- chapter_sort_key -----

  /** The key tuple: `(0, Decimal(code))` or `(1, code)`. */
  datatype SortKey = Numeric(value: real) | Textual(code: string)

  /**
   * `chapter_sort_key`: `Decimal(code)` succeeds on a chapter token and is
   * taken here to fail on anything else.
   */
  function ChapterSortKey(code: string): SortKey
  {
    match TokenDecimal(code)
    case Some(v) => Numeric(v)
    case None => Textual(code)
  }

  /** Python's `<=` on the key tuples. */
  predicate KeyLe(x: SortKey, y: SortKey)
  {
    match (x, y)
    case (Numeric(a), Numeric(b)) => a <= b
    case (Numeric(_), Textual(_)) => true
    case (Textual(_), Numeric(_)) => false
    case (Textual(a), Textual(b)) => !LexLess(b, a)
  }

  predicate CodeLe(a: string, b: string)
  {
    KeyLe(ChapterSortKey(a), ChapterSortKey(b))
  }

  /**
   * Numeric codes come by value, before every other code, and the other
   * codes come in text order.
   */
  lemma CodeOrder(a: string, b: string)
    ensures IsChapterToken(a) && IsChapterToken(b) ==> (CodeLe(a, b) <==> TokenValue(a) <= TokenValue(b))
    ensures IsChapterToken(a) && !IsChapterToken(b) ==> CodeLe(a, b) && !CodeLe(b, a)
    ensures !IsChapterToken(a) && !IsChapterToken(b) ==> (CodeLe(a, b) <==> a == b || LexLess(a, b))
  {
    LexLessTotal(a, b);
    if LexLess(a, b) && LexLess(b, a) {
      LexLessTransitive(a, b, a);
      LexLessIrreflexive(a);
    }
    LexLessIrreflexive(a);
  }

  lemma LexLessChain(a: string, b: string, c: string)
    ensures LexLess(a, b) && LexLess(b, c) ==> LexLess(a, c)
  {
    if LexLess(a, b) && LexLess(b, c) {
      LexLessTransitive(a, b, c);
    }
  }

  /** The code order is total and transitive. */
  lemma CodeLeFacts(a: string, b: string, c: string)
    ensures CodeLe(a, b) || CodeLe(b, a)
    ensures CodeLe(a, b) && CodeLe(b, c) ==> CodeLe(a, c)
  {
    LexLessTotal(a, b);
    LexLessChain(a, b, a);
    LexLessIrreflexive(a);
    LexLessChain(c, a, b);
  }

  // ----- fetch_chapter_list -----

  /** An anchor `a.xanh[href]` of the chapter list: its title attribute, its stripped text, its link. */
  datatype Anchor = Anchor(title: string, text: string, href: string)

  datatype RemoteChapter = RemoteChapter(code: string, title: string, url: string)

  datatype ReportError = ContainerMissing | NoChapters | PathMissing

  /** `anchor.get("title") or anchor.get_text(strip=True)`. */
  function AnchorTitle(a: Anchor): string
  {
    if a.title != "" then a.title else a.text
  }

  predicate HasCode(a: Anchor)
  {
    ExtractChapterCode(AnchorTitle(a)).Some?
  }

  function CodeOf(c: RemoteChapter): string { c.code }

  /** The chapter an anchor stands for; `join` is `urljoin`. */
  function ChapterWith(url: string, join: (string, string) -> string): Anchor -> RemoteChapter
  {
    (a: Anchor) => RemoteChapter(CodeText(AnchorTitle(a)), AnchorTitle(a), join(url, a.href))
  }

  /** The chapters of the anchors that carry a code, in page order. */
  function Candidates(url: string, anchors: seq<Anchor>, join: (string, string) -> string): seq<RemoteChapter>
  {
    Keys(Filter(anchors, HasCode), ChapterWith(url, join))
  }

  /** What `chapters.setdefault(code, ...)` keeps: the first chapter per code. */
  function FirstPerCode(url: string, anchors: seq<Anchor>, join: (string, string) -> string): seq<RemoteChapter>
  {
    FirstPerKey(Candidates(url, anchors, join), CodeOf)
  }

  /** `reverse=True`: a chapter comes before those with a smaller key. */
  predicate ChapterGe(a: RemoteChapter, b: RemoteChapter)
  {
    CodeLe(b.code, a.code)
  }

  lemma ChapterGeTotal()
    ensures TotalPreorder(ChapterGe)
  {
    forall a: RemoteChapter, b: RemoteChapter
      ensures ChapterGe(a, b) || ChapterGe(b, a)
    {
      CodeLeFacts(a.code, b.code, b.code);
    }
    forall a: RemoteChapter, b: RemoteChapter, c: RemoteChapter | ChapterGe(a, b) && ChapterGe(b, c)
      ensures ChapterGe(a, c)
    {
      CodeLeFacts(c.code, b.code, a.code);
    }
  }

  /** The code an anchor carries, if any. */
  function AnchorCode(a: Anchor): Option<string>
  {
    ExtractChapterCode(AnchorTitle(a))
  }

  /** The chapters kept have distinct codes, and each is the chapter of an anchor with a code. */
  lemma FirstPerCodeImages(url: string, anchors: seq<Anchor>, join: (string, string) -> string)
    ensures Distinct(Keys(FirstPerCode(url, anchors, join), CodeOf))
    ensures forall c :: c in FirstPerCode(url, anchors, join) ==>
      exists a :: a in anchors && AnchorCode(a).Some? && c == ChapterWith(url, join)(a)
  {
    FirstPerKeyKeys(Candidates(url, anchors, join), CodeOf);
    FirstWinsImages(anchors, HasCode, ChapterWith(url, join), CodeOf);
  }

  lemma ChapterWithCode(url: string, join: (string, string) -> string, a: Anchor)
    ensures HasCode(a) <==> AnchorCode(a).Some?
    ensures CodeOf(ChapterWith(url, join)(a)) == CodeText(AnchorTitle(a))
    ensures HasCode(a) ==> CodeText(AnchorTitle(a)) == AnchorCode(a).value
  {
  }

  /** A code is kept exactly when some anchor carries it. */
  lemma FirstPerCodeKeys(url: string, anchors: seq<Anchor>, join: (string, string) -> string)
    ensures forall code :: code in Keys(FirstPerCode(url, anchors, join), CodeOf) <==>
      exists a :: a in anchors && AnchorCode(a) == Some(code)
  {
    var f := ChapterWith(url, join);
    FirstWinsKeys(anchors, HasCode, f, CodeOf);
    forall code | exists a :: a in anchors && AnchorCode(a) == Some(code)
      ensures exists a :: a in anchors && HasCode(a) && CodeOf(f(a)) == code
    {
      var a :| a in anchors && AnchorCode(a) == Some(code);
      ChapterWithCode(url, join, a);
    }
    forall code | exists a :: a in anchors && HasCode(a) && CodeOf(f(a)) == code
      ensures exists a :: a in anchors && AnchorCode(a) == Some(code)
    {
      var a :| a in anchors && HasCode(a) && CodeOf(f(a)) == code;
      ChapterWithCode(url, join, a);
    }
  }

  /** Each kept chapter is the first candidate with its code. */
  lemma FirstPerCodeEarliest(url: string, anchors: seq<Anchor>, join: (string, string) -> string)
    ensures forall j :: 0 <= j < |FirstPerCode(url, anchors, join)| ==>
      exists i :: 0 <= i < |Candidates(url, anchors, join)|
        && Candidates(url, anchors, join)[i] == FirstPerCode(url, anchors, join)[j]
        && (forall m :: 0 <= m < i ==> CodeOf(Candidates(url, anchors, join)[m]) != CodeOf(FirstPerCode(url, anchors, join)[j]))
  {
    var c := Candidates(url, anchors, join);
    var r := FirstPerCode(url, anchors, join);
    FirstWinsEarliest(c, CodeOf);
    forall j | 0 <= j < |r|
      ensures exists i :: 0 <= i < |c| && c[i] == r[j] && (forall m :: 0 <= m < i ==> CodeOf(c[m]) != CodeOf(r[j]))
    {
      var i :| 0 <= i < |c| && c[i] == r[j] && forall m :: 0 <= m < i ==> CodeOf(c[m]) != CodeOf(r[j]);
    }
  }

  /** The `setdefault` loop of `fetch_chapter_list` over the anchors of the list. */
  method CollectChapters(url: string, anchors: seq<Anchor>, join: (string, string) -> string)
    returns (chapters: seq<RemoteChapter>)
    ensures chapters == FirstPerCode(url, anchors, join)
  {
    chapters := [];
    for i := 0 to |anchors|
      invariant chapters == FirstPerCode(url, anchors[..i], join)
    {
      var a := anchors[i];
      CandidatesStep(url, anchors, i, join);
      var title := if a.title != "" then a.title else a.text;
      var code := ExtractChapterCode(if title != "" then title else a.text);
      if code.None? {
        continue;
      }
      var fullUrl := join(url, a.href);
      var chapter := RemoteChapter(code.value, title, fullUrl);
      FirstPerKeySnoc(Candidates(url, anchors[..i], join), chapter, CodeOf);
      if code.value !in Keys(chapters, CodeOf) {
        chapters := chapters + [chapter];
      }
    }
    assert anchors[..|anchors|] == anchors;
  }

  lemma CandidatesStep(url: string, anchors: seq<Anchor>, i: nat, join: (string, string) -> string)
    requires i < |anchors|
    ensures Candidates(url, anchors[..i + 1], join) ==
      if HasCode(anchors[i]) then Candidates(url, anchors[..i], join) + [ChapterWith(url, join)(anchors[i])]
      else Candidates(url, anchors[..i], join)
  {
    assert anchors[..i + 1] == anchors[..i] + [anchors[i]];
    KeysFilterSnoc(anchors[..i], anchors[i], HasCode, ChapterWith(url, join));
  }

  /**
   * `fetch_chapter_list` after the page is read: `container` is the
   * `div.chapter-list` element's anchors, or None when the page has none.
   * The first chapter per code is kept, and the result is sorted by key,
   * largest first.
   */
  method FetchChapterList(url: string, container: Option<seq<Anchor>>, join: (string, string) -> string)
    returns (r: Result<seq<RemoteChapter>, ReportError>)
    ensures container.None? <==> r == Err(ContainerMissing)
    ensures r == Err(NoChapters) <==>
      container.Some? && (forall i :: 0 <= i < |container.value| ==> !HasCode(container.value[i]))
    ensures r.Ok? ==>
      && container.Some?
      && SortedBy(r.value, ChapterGe)
      && multiset(r.value) == multiset(FirstPerCode(url, container.value, join))
      && Distinct(Keys(r.value, CodeOf))
  {
    if container.None? {
      return Err(ContainerMissing);
    }
    var chapters := CollectChapters(url, container.value, join);
    FirstPerKeyEmpty(Candidates(url, container.value, join), CodeOf);
    FilterEmpty(container.value, HasCode);
    if chapters == [] {
      return Err(NoChapters);
    }
    ChapterGeTotal();
    FirstPerKeyKeys(Candidates(url, container.value, join), CodeOf);
    var ordered := SortBy(chapters, ChapterGe);
    DistinctKeysPermutation(chapters, ordered, CodeOf);
    r := Ok(ordered);
  }

  // ----- collect_local_chapters -----

  /** An entry of the folder: its name, whether it is a file, and its stem. */
  datatype DirEntry = DirEntry(name: string, isFile: bool, stem: string)

  /** `entry.stem if entry.is_file() else entry.name`. */
  function RawName(e: DirEntry): string
  {
    if e.isFile then e.stem else e.name
  }

  function EntryCode(e: DirEntry): Option<string>
  {
    ExtractChapterCode(RawName(e))
  }

  /** Not a hidden name, and a name with a chapter code. */
  predicate IsLocalChapter(e: DirEntry)
  {
    !StartsWith(e.name, ".") && EntryCode(e).Some?
  }

  /** The `(code, raw_name)` item an entry adds to the map. */
  function LocalPair(e: DirEntry): (string, string)
  {
    (CodeText(RawName(e)), RawName(e))
  }

  function PairCode(p: (string, string)): string { p.0 }

  function LocalCandidates(entries: seq<DirEntry>): seq<(string, string)>
  {
    Keys(Filter(entries, IsLocalChapter), LocalPair)
  }

  /** The items of the returned dict, in insertion order. */
  function LocalChapters(entries: seq<DirEntry>): seq<(string, string)>
  {
    FirstPerKey(LocalCandidates(entries), PairCode)
  }

  lemma LocalCandidatesStep(entries: seq<DirEntry>, i: nat)
    requires i < |entries|
    ensures LocalCandidates(entries[..i + 1]) ==
      if IsLocalChapter(entries[i]) then LocalCandidates(entries[..i]) + [LocalPair(entries[i])]
      else LocalCandidates(entries[..i])
  {
    assert entries[..i + 1] == entries[..i] + [entries[i]];
    KeysFilterSnoc(entries[..i], entries[i], IsLocalChapter, LocalPair);
  }

  /**
   * `collect_local_chapters`: `present` says whether the folder exists and
   * `entries` is its listing in the order `iterdir` gives it.
   */
  method CollectLocalChapters(present: bool, entries: seq<DirEntry>) returns (r: Result<seq<(string, string)>, ReportError>)
    ensures r == if present then Ok(LocalChapters(entries)) else Err(PathMissing)
  {
    if !present {
      return Err(PathMissing);
    }
    var chapters: seq<(string, string)> := [];
    for i := 0 to |entries|
      invariant chapters == LocalChapters(entries[..i])
    {
      var entry := entries[i];
      LocalCandidatesStep(entries, i);
      if StartsWith(entry.name, ".") {
        continue;
      }
      var rawName := if entry.isFile then entry.stem else entry.name;
      var code := ExtractChapterCode(rawName);
      if code.Some? {
        FirstPerKeySnoc(LocalCandidates(entries[..i]), (code.value, rawName), PairCode);
        if code.value !in Keys(chapters, PairCode) {
          chapters := chapters + [(code.value, rawName)];
        }
      }
    }
    assert entries[..|entries|] == entries;
    r := Ok(chapters);
  }

  lemma LocalPairCode(e: DirEntry)
    ensures IsLocalChapter(e) ==> EntryCode(e) == Some(PairCode(LocalPair(e)))
    ensures LocalPair(e).1 == RawName(e)
  {
  }

  /**
   * The local codes are distinct, and each recorded item is the code and raw
   * name of an entry whose name does not start with '.'.
   */
  lemma LocalChaptersImages(entries: seq<DirEntry>)
    ensures Distinct(Keys(LocalChapters(entries), PairCode))
    ensures forall p :: p in LocalChapters(entries) ==>
      exists e :: e in entries && !StartsWith(e.name, ".") && EntryCode(e) == Some(p.0) && p.1 == RawName(e)
  {
    FirstPerKeyKeys(LocalCandidates(entries), PairCode);
    FirstWinsImages(entries, IsLocalChapter, LocalPair, PairCode);
    forall p | p in LocalChapters(entries)
      ensures exists e :: e in entries && !StartsWith(e.name, ".") && EntryCode(e) == Some(p.0) && p.1 == RawName(e)
    {
      var e :| e in entries && IsLocalChapter(e) && LocalPair(e) == p;
      LocalPairCode(e);
    }
  }

  /** A code is recorded exactly when some entry that is not hidden carries it. */
  lemma LocalChaptersKeys(entries: seq<DirEntry>)
    ensures forall code :: code in Keys(LocalChapters(entries), PairCode) <==>
      exists e :: e in entries && !StartsWith(e.name, ".") && EntryCode(e) == Some(code)
  {
    FirstWinsKeys(entries, IsLocalChapter, LocalPair, PairCode);
    forall code | exists e :: e in entries && !StartsWith(e.name, ".") && EntryCode(e) == Some(code)
      ensures exists e :: e in entries && IsLocalChapter(e) && PairCode(LocalPair(e)) == code
    {
      var e :| e in entries && !StartsWith(e.name, ".") && EntryCode(e) == Some(code);
      LocalPairCode(e);
    }
    forall code | exists e :: e in entries && IsLocalChapter(e) && PairCode(LocalPair(e)) == code
      ensures exists e :: e in entries && !StartsWith(e.name, ".") && EntryCode(e) == Some(code)
    {
      var e :| e in entries && IsLocalChapter(e) && PairCode(LocalPair(e)) == code;
      LocalPairCode(e);
    }
  }

  /** Each recorded item is the first candidate with its code. */
  lemma LocalChaptersEarliest(entries: seq<DirEntry>)
    ensures forall j :: 0 <= j < |LocalChapters(entries)| ==>
      exists i :: 0 <= i < |LocalCandidates(entries)|
        && LocalCandidates(entries)[i] == LocalChapters(entries)[j]
        && (forall m :: 0 <= m < i ==> LocalCandidates(entries)[m].0 != LocalChapters(entries)[j].0)
  {
    var c := LocalCandidates(entries);
    var r := LocalChapters(entries);
    FirstWinsEarliest(c, PairCode);
    forall j | 0 <= j < |r|
      ensures exists i :: 0 <= i < |c| && c[i] == r[j] && (forall m :: 0 <= m < i ==> c[m].0 != r[j].0)
    {
      var i :| 0 <= i < |c| && c[i] == r[j] && forall m :: 0 <= m < i ==> PairCode(c[m]) != PairCode(r[j]);
    }
  }

  // ----- generate_csv_report -----

  /** A CSV line of the report. */
  datatype ReportRow = ReportRow(chapter: string, title: string, status: string, link: string, localName: string)

  const Header := ReportRow("capitulo", "titulo", "estado", "enlace", "nombre_local")

  /** `local_map.get(code, "")`. */
  function LocalName(local: seq<(string, string)>, code: string): string
  {
    if code in Keys(local, PairCode) then local[FirstIndex(Keys(local, PairCode), code)].1 else ""
  }

  /** The name looked up is the name recorded with the code, and "" for a code not recorded. */
  lemma LocalNameOf(local: seq<(string, string)>, code: string)
    ensures code in Keys(local, PairCode) ==> (code, LocalName(local, code)) in local
    ensures code !in Keys(local, PairCode) ==> LocalName(local, code) == ""
  {
    if code in Keys(local, PairCode) {
      var k := FirstIndex(Keys(local, PairCode), code);
      assert local[k].0 == code;
      assert local[k] == (code, LocalName(local, code));
    }
  }

  /** The row of a published chapter. */
  function RemoteRow(local: seq<(string, string)>, c: RemoteChapter): ReportRow
  {
    var status := if c.code in Keys(local, PairCode) then "descargado" else "faltante";
    ReportRow(c.code, c.title, status, c.url, LocalName(local, c.code))
  }

  function RemoteRows(remote: seq<RemoteChapter>, local: seq<(string, string)>): seq<ReportRow>
  {
    Keys(remote, (c: RemoteChapter) => RemoteRow(local, c))
  }

  /** `code not in remote_codes`. */
  function NotRemote(remote: seq<RemoteChapter>): ((string, string)) -> bool
  {
    (p: (string, string)) => p.0 !in Keys(remote, CodeOf)
  }

  /** `extra_local`: the local items whose code is not published. */
  function ExtraLocal(remote: seq<RemoteChapter>, local: seq<(string, string)>): seq<(string, string)>
  {
    Filter(local, NotRemote(remote))
  }

  /** `key=lambda item: chapter_sort_key(item[0])`. */
  predicate PairLe(a: (string, string), b: (string, string))
  {
    CodeLe(a.0, b.0)
  }

  lemma PairLeTotal()
    ensures TotalPreorder(PairLe)
  {
    forall a: (string, string), b: (string, string)
      ensures PairLe(a, b) || PairLe(b, a)
    {
      CodeLeFacts(a.0, b.0, b.0);
    }
    forall a: (string, string), b: (string, string), c: (string, string) | PairLe(a, b) && PairLe(b, c)
      ensures PairLe(a, c)
    {
      CodeLeFacts(a.0, b.0, c.0);
    }
  }

  function LocalRow(p: (string, string)): ReportRow
  {
    ReportRow(p.0, "", "solo_local", "", p.1)
  }

  function SortedExtra(remote: seq<RemoteChapter>, local: seq<(string, string)>): seq<(string, string)>
  {
    PairLeTotal();
    SortBy(ExtraLocal(remote, local), PairLe)
  }

  function LocalOnlyRows(remote: seq<RemoteChapter>, local: seq<(string, string)>): seq<ReportRow>
  {
    Keys(SortedExtra(remote, local), LocalRow)
  }

  /** The lines `generate_csv_report` writes, header first. */
  function ReportRows(remote: seq<RemoteChapter>, local: seq<(string, string)>): seq<ReportRow>
  {
    [Header] + RemoteRows(remote, local) + LocalOnlyRows(remote, local)
  }

  /** The loop over the published chapters. */
  method WriteRemoteRows(remote: seq<RemoteChapter>, local: seq<(string, string)>) returns (rows: seq<ReportRow>)
    ensures rows == RemoteRows(remote, local)
  {
    rows := [];
    for i := 0 to |remote|
      invariant rows == Keys(remote[..i], (c: RemoteChapter) => RemoteRow(local, c))
    {
      KeysStep(remote, i, (c: RemoteChapter) => RemoteRow(local, c));
      var chapter := remote[i];
      var status := if chapter.code in Keys(local, PairCode) then "descargado" else "faltante";
      var localName := LocalName(local, chapter.code);
      rows := rows + [ReportRow(chapter.code, chapter.title, status, chapter.url, localName)];
    }
    assert remote[..|remote|] == remote;
  }

  /** The loop over the sorted local-only items. */
  method WriteLocalOnlyRows(remote: seq<RemoteChapter>, local: seq<(string, string)>) returns (rows: seq<ReportRow>)
    ensures rows == LocalOnlyRows(remote, local)
  {
    rows := [];
    var extra := ExtraLocal(remote, local);
    if extra != [] {
      var sorted := SortedExtra(remote, local);
      for j := 0 to |sorted|
        invariant rows == Keys(sorted[..j], LocalRow)
      {
        KeysStep(sorted, j, LocalRow);
        var (code, localName) := sorted[j];
        rows := rows + [ReportRow(code, "", "solo_local", "", localName)];
      }
      assert sorted[..|sorted|] == sorted;
    }
  }

  /** `generate_csv_report`, with the CSV writer replaced by the list of rows it is given. */
  method GenerateReport(remote: seq<RemoteChapter>, local: seq<(string, string)>) returns (rows: seq<ReportRow>)
    ensures rows == ReportRows(remote, local)
  {
    var published := WriteRemoteRows(remote, local);
    var extra := WriteLocalOnlyRows(remote, local);
    rows := [Header] + published + extra;
  }

  /**
   * After the header, each published chapter has its row, in order:
   * "descargado" with the recorded name exactly when the code is recorded
   * locally, and "faltante" with an empty name otherwise.
   */
  lemma ReportRemoteRows(remote: seq<RemoteChapter>, local: seq<(string, string)>)
    ensures |ReportRows(remote, local)| == 1 + |remote| + |ExtraLocal(remote, local)|
    ensures ReportRows(remote, local)[0] == Header
    ensures forall i :: 0 <= i < |remote| ==>
      RemoteRowFacts(local, remote[i], ReportRows(remote, local)[1 + i])
  {
    ReportLength(remote, local);
    var rows := ReportRows(remote, local);
    forall i | 0 <= i < |remote|
      ensures RemoteRowFacts(local, remote[i], rows[1 + i])
    {
      assert rows[1 + i] == RemoteRows(remote, local)[i];
      RemoteRowOf(local, remote[i]);
    }
  }

  lemma ReportLength(remote: seq<RemoteChapter>, local: seq<(string, string)>)
    ensures |ReportRows(remote, local)| == 1 + |remote| + |ExtraLocal(remote, local)|
  {
    var sorted := SortedExtra(remote, local);
    assert |sorted| == |multiset(sorted)| == |multiset(ExtraLocal(remote, local))|;
  }

  /** What the row of one published chapter says. */
  predicate RemoteRowFacts(local: seq<(string, string)>, c: RemoteChapter, row: ReportRow)
  {
    && row.chapter == c.code
    && row.title == c.title
    && row.link == c.url
    && (row.status == "descargado" <==> c.code in Keys(local, PairCode))
    && (row.status == "descargado" ==> (c.code, row.localName) in local)
    && (row.status != "descargado" ==> row.status == "faltante" && row.localName == "")
  }

  lemma RemoteRowOf(local: seq<(string, string)>, c: RemoteChapter)
    ensures RemoteRowFacts(local, c, RemoteRow(local, c))
  {
    LocalNameOf(local, c.code);
  }

  /** Each local-only row is "solo_local" for a recorded item whose code is not published. */
  lemma LocalOnlyFrom(remote: seq<RemoteChapter>, local: seq<(string, string)>)
    ensures var solo := LocalOnlyRows(remote, local);
      forall j :: 0 <= j < |solo| ==>
        && solo[j].status == "solo_local" && solo[j].title == "" && solo[j].link == ""
        && (solo[j].chapter, solo[j].localName) in local
        && solo[j].chapter !in Keys(remote, CodeOf)
  {
    var extra := ExtraLocal(remote, local);
    var sorted := SortedExtra(remote, local);
    var solo := LocalOnlyRows(remote, local);
    FilterMembers(local, NotRemote(remote));
    forall j | 0 <= j < |solo|
      ensures (solo[j].chapter, solo[j].localName) in local && solo[j].chapter !in Keys(remote, CodeOf)
    {
      assert sorted[j] in multiset(extra);
      assert sorted[j] in extra;
      assert solo[j] == LocalRow(sorted[j]);
    }
  }

  /** Every recorded code that is not published has a local-only row. */
  lemma LocalOnlyCovers(remote: seq<RemoteChapter>, local: seq<(string, string)>, code: string)
    requires code in Keys(local, PairCode) && code !in Keys(remote, CodeOf)
    ensures exists j :: 0 <= j < |LocalOnlyRows(remote, local)| && LocalOnlyRows(remote, local)[j].chapter == code
  {
    var extra := ExtraLocal(remote, local);
    var sorted := SortedExtra(remote, local);
    var solo := LocalOnlyRows(remote, local);
    var m :| 0 <= m < |local| && Keys(local, PairCode)[m] == code;
    FilterMembers(local, NotRemote(remote));
    assert local[m] in extra;
    assert local[m] in multiset(sorted);
    var j :| 0 <= j < |sorted| && sorted[j] == local[m];
    assert solo[j].chapter == code;
  }

  /** The local-only rows have distinct codes, in ascending key order. */
  lemma LocalOnlyOrder(remote: seq<RemoteChapter>, local: seq<(string, string)>)
    requires Distinct(Keys(local, PairCode))
    ensures var solo := LocalOnlyRows(remote, local);
      forall j, k :: 0 <= j < k < |solo| ==> solo[j].chapter != solo[k].chapter && CodeLe(solo[j].chapter, solo[k].chapter)
  {
    var extra := ExtraLocal(remote, local);
    var sorted := SortedExtra(remote, local);
    var solo := LocalOnlyRows(remote, local);
    PairLeTotal();
    FilterDistinctKeys(local, NotRemote(remote), PairCode);
    DistinctKeysPermutation(extra, sorted, PairCode);
    forall j, k | 0 <= j < k < |solo|
      ensures solo[j].chapter != solo[k].chapter && CodeLe(solo[j].chapter, solo[k].chapter)
    {
      assert Keys(sorted, PairCode)[j] == solo[j].chapter;
      assert Keys(sorted, PairCode)[k] == solo[k].chapter;
      assert PairLe(sorted[j], sorted[k]);
    }
  }

  /**
   * The local-only rows come after every published row, in ascending key
   * order, one per recorded code that is not published.
   */
  lemma ReportLocalOnly(remote: seq<RemoteChapter>, local: seq<(string, string)>)
    requires Distinct(Keys(local, PairCode))
    ensures var rows := ReportRows(remote, local);
      var n := 1 + |remote|;
      && (forall j :: n <= j < |rows| ==> rows[j].status == "solo_local" && (rows[j].chapter, rows[j].localName) in local)
      && (forall code :: code in Keys(local, PairCode) && code !in Keys(remote, CodeOf) <==>
            exists j :: n <= j < |rows| && rows[j].chapter == code)
      && (forall j, k :: n <= j < k < |rows| ==> rows[j].chapter != rows[k].chapter && CodeLe(rows[j].chapter, rows[k].chapter))
  {
    var rows := ReportRows(remote, local);
    var n := 1 + |remote|;
    var solo := LocalOnlyRows(remote, local);
    LocalOnlyFrom(remote, local);
    LocalOnlyOrder(remote, local);
    assert |RemoteRows(remote, local)| == |remote|;
    forall j | n <= j < |rows|
      ensures rows[j] == solo[j - n]
    {
    }
    forall code | exists j :: n <= j < |rows| && rows[j].chapter == code
      ensures code in Keys(local, PairCode) && code !in Keys(remote, CodeOf)
    {
      var j :| n <= j < |rows| && rows[j].chapter == code;
      KeysHas(local, (code, rows[j].localName), PairCode);
    }
    forall code | code in Keys(local, PairCode) && code !in Keys(remote, CodeOf)
      ensures exists j :: n <= j < |rows| && rows[j].chapter == code
    {
      LocalOnlyCovers(remote, local, code);
      var j :| 0 <= j < |solo| && solo[j].chapter == code;
      assert rows[n + j] == solo[j];
    }
  }

  // ----- the missing list of main -----

  function NotLocal(local: seq<(string, string)>): RemoteChapter -> bool
  {
    (c: RemoteChapter) => c.code !in Keys(local, PairCode)
  }

  /** `missing = [chap for chap in remote_chapters if chap.code not in local_chapters]`. */
  function Missing(remote: seq<RemoteChapter>, local: seq<(string, string)>): seq<RemoteChapter>
  {
    Filter(remote, NotLocal(local))
  }

  predicate IsMissingRow(row: ReportRow)
  {
    row.status == "faltante"
  }

  /**
   * The missing chapters are the published chapters whose code is not
   * recorded locally, and there are as many of them as "faltante" rows.
   */
  lemma MissingCount(remote: seq<RemoteChapter>, local: seq<(string, string)>)
    ensures forall c :: c in Missing(remote, local) <==> c in remote && c.code !in Keys(local, PairCode)
    ensures |Missing(remote, local)| == |Filter(ReportRows(remote, local), IsMissingRow)|
  {
    var a := RemoteRows(remote, local);
    var b := LocalOnlyRows(remote, local);
    FilterMembers(remote, NotLocal(local));
    FilterAppend([Header] + a, b, IsMissingRow);
    FilterAppend([Header], a, IsMissingRow);
    assert Filter([Header], IsMissingRow) == [] by {
      assert [Header][..0] == [];
    }
    FilterNone(b, IsMissingRow);
    FilterKeysCount(remote, (c: RemoteChapter) => RemoteRow(local, c), IsMissingRow, NotLocal(local));
  }
}
