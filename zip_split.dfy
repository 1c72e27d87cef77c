/**
 * The ZIP splitter: files are read in chapter order and cut greedily into
 * parts of about one GiB, and each part is named after the chapter labels
 * it holds.
 */
module ZipSplit {
  import opened Wrappers
  import opened Text
  import opened Sequences
  import opened Tokens

  /** `ZIP_PART_TARGET`, one GiB. */
  const ZipPartTarget := 1073741824

  /**
   * `FileEntry`: the path relative to the chosen folder (as `as_posix()`
   * writes it), the size in bytes, and the chapter found in the file name.
   */
  datatype FileEntry = FileEntry(rel: string, size: nat, chapterLabel: string, chapterValue: Option<real>)

  // ----- extract_chapter -----

  predicate NotSpace(c: char) { !IsSpace(c) }

  /**
   * The number matched by `ch\s*([0-9]+(?:\.[0-9]+)?)`, any case, when the
   * match starts at `i`.
   */
  function MatchAt(name: string, i: nat): (r: Option<string>)
    ensures r.Some? ==> IsChapterToken(r.value)
  {
    if i + 2 <= |name| && ToLowerChar(name[i]) == 'c' && ToLowerChar(name[i + 1]) == 'h' then
      var rest := name[i + 2..];
      var w := RunLength(rest, NotSpace);
      if w < |rest| && IsDigit(rest[w]) then
        var t := rest[w..];
        Some(t[..NumberLength(t, Decimal)])
      else None
    else None
  }

  /**
   * `re.search`: the match at the leftmost position from `i` on where `at`
   * finds one, and None exactly when no position from `i` on matches.
   */
  function Leftmost(name: string, i: nat, at: (string, nat) -> Option<string>): (r: Option<string>)
    ensures r.None? <==> forall j :: i <= j < |name| ==> at(name, j).None?
    ensures r.Some? ==> exists p :: i <= p < |name| && at(name, p) == r &&
                                    forall j :: i <= j < p ==> at(name, j).None?
    decreases |name| - i
  {
    if i >= |name| then None
    else
      match at(name, i)
      case Some(t) => Some(t)
      case None => Leftmost(name, i + 1, at)
  }

  /** The search passes over positions where nothing matches. */
  lemma {:induction false} LeftmostSkips(name: string, i: nat, p: nat, at: (string, nat) -> Option<string>)
    requires i <= p
    requires forall j :: i <= j < p ==> at(name, j) == None
    ensures Leftmost(name, i, at) == Leftmost(name, p, at)
    decreases p - i
  {
    if i < p {
      LeftmostSkips(name, i + 1, p, at);
    }
  }

  /**
   * `extract_chapter`: the matched number and its exact decimal value, or
   * ("", None). The number always reads as a decimal, so the `except`
   * branch of the source cannot be taken.
   */
  function ExtractChapter(name: string): (r: (string, Option<real>))
    ensures r.1.None? <==> r.0 == ""
    ensures r.0 != "" ==> IsChapterToken(r.0) && r.1 == Some(TokenValue(r.0))
  {
    match Leftmost(name, 0, MatchAt)
    case None => ("", None)
    case Some(t) => (t, Some(TokenValue(t)))
  }

  /**
   * A name has no chapter exactly when no position starts a match, and a
   * chapter found is the match at the first position where one starts.
   */
  lemma ExtractChapterLeftmost(name: string)
    ensures ExtractChapter(name).0 == "" <==> forall j :: 0 <= j < |name| ==> MatchAt(name, j).None?
    ensures ExtractChapter(name).0 != "" ==>
      exists p :: 0 <= p < |name| && MatchAt(name, p) == Some(ExtractChapter(name).0) &&
                  forall j :: 0 <= j < p ==> MatchAt(name, j).None?
  {
    var r := Leftmost(name, 0, MatchAt);
    assert r.Some? ==> r.value != "";
  }

  /** No position of a name without digits starts a match. */
  lemma NoMatchWithoutDigits(name: string, i: nat)
    requires NoneOf(name, IsDigit)
    ensures MatchAt(name, i) == None
  {
    if i + 2 <= |name| {
      var rest := name[i + 2..];
      var w := RunLength(rest, NotSpace);
      assert w < |rest| ==> rest[w] == name[i + 2 + w];
    }
  }

  /** A name without digits has no chapter. */
  lemma ExtractChapterNone(name: string)
    requires NoneOf(name, IsDigit)
    ensures ExtractChapter(name) == ("", None)
  {
    forall j | 0 <= j < |name|
      ensures MatchAt(name, j) == None
    {
      NoMatchWithoutDigits(name, j);
    }
    LeftmostSkips(name, 0, |name|, MatchAt);
  }

  /**
   * No match starts inside a digit-free text that is followed by "ch": the
   * spaces after a "ch" in `a` end at a non-digit of `a` or at the "c".
   */
  lemma NoMatchBefore(a: string, t: string, i: nat)
    requires NoneOf(a, IsDigit) && i < |a|
    requires |t| >= 1 && ToLowerChar(t[0]) == 'c'
    ensures MatchAt(a + t, i) == None
  {
    var name := a + t;
    assert name[|a|] == t[0];
    if i + 2 <= |a| {
      var rest := name[i + 2..];
      var w := RunLength(rest, NotSpace);
      var j := |a| - i - 2;
      assert j < |rest| && rest[j] == t[0];
      assert j < w ==> !NotSpace(rest[j]);
      assert w < |rest| ==> rest[w] == name[i + 2 + w];
      assert i + 2 + w < |a| ==> name[i + 2 + w] == a[i + 2 + w];
    }
  }

  /** "ch", spaces and a chapter number standing alone match that number. */
  lemma MatchHere(name: string, p: nat, w: string, n: string, b: string)
    requires p + 2 <= |name| && ToLowerChar(name[p]) == 'c' && ToLowerChar(name[p + 1]) == 'h'
    requires name[p + 2..] == w + (n + b)
    requires NoneOf(w, NotSpace)
    requires IsChapterToken(n)
    requires b == [] || (!IsDigit(b[0]) && b[0] != '.')
    ensures MatchAt(name, p) == Some(n)
  {
    TokenAlone(n, b, Decimal);
    assert NotSpace((n + b)[0]);
    RunLengthConcat(w, n + b, NotSpace);
    var rest := name[p + 2..];
    assert rest[|w|..] == n + b;
    assert (n + b)[..|n|] == n;
  }

  /**
   * The first "ch" (any case), spaces and a chapter number after a
   * digit-free prefix give that number and its value.
   */
  lemma ExtractChapterFinds(a: string, h: string, w: string, n: string, b: string)
    requires NoneOf(a, IsDigit)
    requires |h| == 2 && ToLowerChar(h[0]) == 'c' && ToLowerChar(h[1]) == 'h'
    requires NoneOf(w, NotSpace)
    requires IsChapterToken(n)
    requires b == [] || (!IsDigit(b[0]) && b[0] != '.')
    ensures ExtractChapter(a + h + w + n + b) == (n, Some(TokenValue(n)))
  {
    var t := h + (w + (n + b));
    var name := a + t;
    assert a + h + w + n + b == name;
    assert name[|a|] == h[0] && name[|a| + 1] == h[1];
    assert name[|a| + 2..] == w + (n + b);
    NoMatchInPrefix(a, t);
    MatchHere(name, |a|, w, n, b);
    ExtractChapterAt(name, |a|, n);
  }

  /** The match at the first position that has one is the chapter found. */
  lemma ExtractChapterAt(name: string, p: nat, n: string)
    requires forall j :: 0 <= j < p ==> MatchAt(name, j) == None
    requires MatchAt(name, p) == Some(n)
    ensures ExtractChapter(name) == (n, Some(TokenValue(n)))
  {
    LeftmostSkips(name, 0, p, MatchAt);
  }

  /** No match starts anywhere in a digit-free text followed by a "c". */
  lemma NoMatchInPrefix(a: string, t: string)
    requires NoneOf(a, IsDigit)
    requires |t| >= 1 && ToLowerChar(t[0]) == 'c'
    ensures forall j :: 0 <= j < |a| ==> MatchAt(a + t, j) == None
  {
    forall j | 0 <= j < |a|
      ensures MatchAt(a + t, j) == None
    {
      NoMatchBefore(a, t, j);
    }
  }

  // ----- sanitize_base_name, sanitize_label -----

  predicate IsLabelChar(c: char) { IsDigit(c) || c == '.' }

  /** `sanitize_base_name`: only the ASCII letters and digits, or "Archive". */
  function SanitizeBaseName(name: string): (r: string)
    ensures r != [] && NoneOf(r, NotAlnum)
    ensures Filter(name, IsAlnum) != [] ==> r == Filter(name, IsAlnum)
    ensures Filter(name, IsAlnum) == [] ==> r == "Archive"
  {
    var compact := Filter(name, IsAlnum);
    FilterMembers(name, IsAlnum);
    if compact != [] then compact else "Archive"
  }

  predicate NotAlnum(c: char) { !IsAlnum(c) }

  /** `sanitize_label`: only the digits and dots, or "part". */
  function SanitizeLabel(text: string): (r: string)
    ensures r != []
    ensures r == "part" || NoneOf(r, NotLabelChar)
    ensures Filter(text, IsLabelChar) != [] ==> r == Filter(text, IsLabelChar)
    ensures Filter(text, IsLabelChar) == [] ==> r == "part"
  {
    var cleaned := Filter(text, IsLabelChar);
    FilterMembers(text, IsLabelChar);
    if cleaned != [] then cleaned else "part"
  }

  predicate NotLabelChar(c: char) { !IsLabelChar(c) }

  /** Sanitizing a sanitized name or label again changes nothing. */
  lemma SanitizeIdempotent(name: string, text: string)
    ensures SanitizeBaseName(SanitizeBaseName(name)) == SanitizeBaseName(name)
    ensures SanitizeLabel(SanitizeLabel(text)) == SanitizeLabel(text)
  {
    var r := SanitizeBaseName(name);
    assert forall i :: 0 <= i < |r| ==> !NotAlnum(r[i]);
    FilterAll(r, IsAlnum);
    var l := SanitizeLabel(text);
    if l != "part" {
      assert forall i :: 0 <= i < |l| ==> !NotLabelChar(l[i]);
      FilterAll(l, IsLabelChar);
    } else {
      assert forall i :: 0 <= i < |l| ==> !IsLabelChar(l[i]);
      FilterNone(l, IsLabelChar);
    }
  }

  // ----- collect_entries -----

  /** What the walk over the folder reads of each file. */
  datatype FileInfo = FileInfo(name: string, rel: string, size: nat)

  /** The entry built for one file. */
  function MakeEntry(f: FileInfo): (e: FileEntry)
    ensures e.rel == f.rel && e.size == f.size
    ensures (e.chapterLabel, e.chapterValue) == ExtractChapter(f.name)
  {
    var chapter := ExtractChapter(f.name);
    FileEntry(f.rel, f.size, chapter.0, chapter.1)
  }

  /** `a.rel.as_posix() <= b.rel.as_posix()`. */
  predicate RelLe(a: string, b: string) { !LexLess(b, a) }

  /**
   * The sort key `(value is None, value or Infinity, rel)` compared as a
   * tuple: entries with a chapter first, by value, then by path.
   */
  predicate EntryLe(a: FileEntry, b: FileEntry)
  {
    match (a.chapterValue, b.chapterValue)
    case (Some(x), Some(y)) => x < y || (x == y && RelLe(a.rel, b.rel))
    case (Some(_), None) => true
    case (None, Some(_)) => false
    case (None, None) => RelLe(a.rel, b.rel)
  }

  lemma LexLessChain(a: string, b: string, c: string)
    ensures LexLess(a, b) && LexLess(b, c) ==> LexLess(a, c)
  {
    if LexLess(a, b) && LexLess(b, c) {
      LexLessTransitive(a, b, c);
    }
  }

  lemma RelLeTotal(a: string, b: string, c: string)
    ensures RelLe(a, b) || RelLe(b, a)
    ensures RelLe(a, b) && RelLe(b, c) ==> RelLe(a, c)
  {
    LexLessTotal(a, b);
    LexLessChain(a, b, a);
    LexLessIrreflexive(a);
    LexLessChain(c, a, b);
  }

  lemma EntryLeTotal()
    ensures TotalPreorder(EntryLe)
  {
    forall a: FileEntry, b: FileEntry
      ensures EntryLe(a, b) || EntryLe(b, a)
    {
      RelLeTotal(a.rel, b.rel, b.rel);
    }
    forall a: FileEntry, b: FileEntry, c: FileEntry | EntryLe(a, b) && EntryLe(b, c)
      ensures EntryLe(a, c)
    {
      RelLeTotal(a.rel, b.rel, c.rel);
    }
  }

  /**
   * Sorted by the key: entries with a chapter come first, their values do
   * not decrease, and entries with the same value are in path order.
   */
  predicate ChapterOrdered(entries: seq<FileEntry>)
  {
    && (forall i, j :: 0 <= i < j < |entries| && entries[i].chapterValue.None? ==> entries[j].chapterValue.None?)
    && (forall i, j :: 0 <= i < j < |entries| && entries[i].chapterValue.Some? && entries[j].chapterValue.Some? ==>
          entries[i].chapterValue.value <= entries[j].chapterValue.value)
    && (forall i, j :: 0 <= i < j < |entries| && entries[i].chapterValue == entries[j].chapterValue ==>
          RelLe(entries[i].rel, entries[j].rel))
  }

  /** What sorting by the tuple key means. */
  lemma SortedByKey(entries: seq<FileEntry>)
    requires SortedBy(entries, EntryLe)
    ensures ChapterOrdered(entries)
  {
    forall i, j | 0 <= i < j < |entries|
      ensures EntryLe(entries[i], entries[j])
    {
    }
  }

  /** The entries of the walked files, one per file, in walk order. */
  method BuildEntries(files: seq<FileInfo>) returns (entries: seq<FileEntry>)
    ensures entries == Keys(files, MakeEntry)
  {
    entries := [];
    for k := 0 to |files|
      invariant entries == Keys(files[..k], MakeEntry)
    {
      KeysSnoc(files[..k], files[k], MakeEntry);
      assert files[..k + 1] == files[..k] + [files[k]];
      entries := entries + [MakeEntry(files[k])];
    }
    assert files[..|files|] == files;
  }

  /**
   * `collect_entries` once the folder has been walked: one entry per file,
   * then sorted in place by the key.
   */
  method CollectEntries(files: seq<FileInfo>) returns (entries: seq<FileEntry>)
    ensures multiset(entries) == multiset(Keys(files, MakeEntry))
    ensures ChapterOrdered(entries)
  {
    entries := BuildEntries(files);
    EntryLeTotal();
    entries := SortBy(entries, EntryLe);
    SortedByKey(entries);
  }

  // ----- chunk_entries -----

  function Total(chunk: seq<FileEntry>): nat
  {
    if chunk == [] then 0 else chunk[0].size + Total(chunk[1..])
  }

  function Flatten(chunks: seq<seq<FileEntry>>): seq<FileEntry>
  {
    if chunks == [] then [] else chunks[0] + Flatten(chunks[1..])
  }

  lemma {:induction false} TotalAppend(a: seq<FileEntry>, b: seq<FileEntry>)
    ensures Total(a + b) == Total(a) + Total(b)
    decreases |a|
  {
    if a == [] {
      assert a + b == b;
    } else {
      assert (a + b)[1..] == a[1..] + b;
      TotalAppend(a[1..], b);
    }
  }

  lemma {:induction false} FlattenSnoc(chunks: seq<seq<FileEntry>>, c: seq<FileEntry>)
    ensures Flatten(chunks + [c]) == Flatten(chunks) + c
    decreases |chunks|
  {
    if chunks == [] {
      assert Flatten([c][1..]) == [];
    } else {
      assert (chunks + [c])[1..] == chunks[1..] + [c];
      FlattenSnoc(chunks[1..], c);
    }
  }

  /** A part fits: it holds one file, or no more than the target. */
  predicate Fits(chunk: seq<FileEntry>)
  {
    |chunk| <= 1 || Total(chunk) <= ZipPartTarget
  }

  /** No part is empty and every part fits. */
  predicate AllFit(chunks: seq<seq<FileEntry>>)
  {
    forall k :: 0 <= k < |chunks| ==> chunks[k] != [] && Fits(chunks[k])
  }

  /** Every part was closed only because the next file would not have fitted. */
  predicate Closed(chunks: seq<seq<FileEntry>>)
  {
    forall k :: 1 <= k < |chunks| ==> chunks[k] != [] && Total(chunks[k - 1]) + chunks[k][0].size > ZipPartTarget
  }

  /** The parts are the entries in order, none empty, each fits, each closed greedily. */
  predicate IsGreedySplit(chunks: seq<seq<FileEntry>>, entries: seq<FileEntry>)
  {
    Flatten(chunks) == entries && AllFit(chunks) && Closed(chunks)
  }

  /** A file too big for the open part starts a new part after it. */
  lemma SplitClose(chunks: seq<seq<FileEntry>>, current: seq<FileEntry>, done: seq<FileEntry>, e: FileEntry)
    requires IsGreedySplit(chunks + [current], done)
    requires Total(current) + e.size > ZipPartTarget
    ensures IsGreedySplit(chunks + [current] + [[e]], done + [e])
  {
    var cs := chunks + [current];
    FlattenSnoc(cs, [e]);
    assert forall k :: 0 <= k < |cs| ==> (cs + [[e]])[k] == cs[k];
    assert Fits([e]);
  }

  /** A file that fits in the open part joins it. */
  lemma SplitExtend(chunks: seq<seq<FileEntry>>, current: seq<FileEntry>, done: seq<FileEntry>, e: FileEntry)
    requires IsGreedySplit(chunks + [current], done)
    requires Total(current) + e.size <= ZipPartTarget
    ensures IsGreedySplit(chunks + [current + [e]], done + [e])
  {
    var cs := chunks + [current];
    var cs' := chunks + [current + [e]];
    FlattenSnoc(chunks, current);
    FlattenSnoc(chunks, current + [e]);
    FitsSnoc(current, e);
    assert cs[|chunks|] == current;
    assert current != [];
    assert forall k :: 0 <= k < |chunks| ==> cs'[k] == cs[k];
    assert cs'[|chunks|][0] == current[0];
  }

  /** Adding a file to a part that is empty or has room for it keeps it fitting. */
  lemma FitsSnoc(current: seq<FileEntry>, e: FileEntry)
    requires current == [] || Total(current) + e.size <= ZipPartTarget
    ensures Fits(current + [e]) && Total(current + [e]) == Total(current) + e.size
  {
    TotalAppend(current, [e]);
    assert Total([e]) == e.size;
  }

  /**
   * `chunk_entries`. Between files, the closed parts and the open one are
   * the greedy split of the files read so far.
   */
  method ChunkEntries(entries: seq<FileEntry>) returns (chunks: seq<seq<FileEntry>>)
    ensures IsGreedySplit(chunks, entries)
    ensures entries == [] <==> chunks == []
  {
    chunks := [];
    var current: seq<FileEntry> := [];
    var currentBytes := 0;
    for i := 0 to |entries|
      invariant i == 0 ==> chunks == [] && current == []
      invariant i > 0 ==> current != [] && IsGreedySplit(chunks + [current], entries[..i])
      invariant currentBytes == Total(current)
    {
      var entry := entries[i];
      assert entries[..i + 1] == entries[..i] + [entry];
      if current != [] && currentBytes + entry.size > ZipPartTarget {
        SplitClose(chunks, current, entries[..i], entry);
        chunks := chunks + [current];
        current := [entry];
        currentBytes := entry.size;
        assert Total(current) == entry.size;
      } else if current != [] {
        SplitExtend(chunks, current, entries[..i], entry);
        FitsSnoc(current, entry);
        current := current + [entry];
        currentBytes := currentBytes + entry.size;
      } else {
        assert Flatten([[entry]]) == [entry] by {
          assert Flatten([[entry]][1..]) == [];
        }
        assert chunks + [[entry]] == [[entry]];
        current := [entry];
        currentBytes := entry.size;
        assert Total(current) == entry.size;
      }
    }
    assert entries[..|entries|] == entries;
    if current != [] {
      chunks := chunks + [current];
    }
  }

  /** The first part of a split is a non-empty prefix of the entries, and the rest splits the rest. */
  lemma SplitFirst(a: seq<seq<FileEntry>>, entries: seq<FileEntry>)
    requires IsGreedySplit(a, entries) && a != []
    ensures a[0] != [] && |a[0]| <= |entries| && entries[..|a[0]|] == a[0]
    ensures IsGreedySplit(a[1..], entries[|a[0]|..])
  {
    assert entries == a[0] + Flatten(a[1..]);
    assert forall k :: 0 <= k < |a| - 1 ==> a[1..][k] == a[k + 1];
  }

  /** A split is empty exactly when there are no entries. */
  lemma SplitEmpty(a: seq<seq<FileEntry>>, entries: seq<FileEntry>)
    requires IsGreedySplit(a, entries)
    ensures a == [] <==> entries == []
  {
    if a != [] {
      SplitFirst(a, entries);
    }
  }

  /** The entry after the first part would not have fitted in it. */
  lemma FirstPartEnds(a: seq<seq<FileEntry>>, entries: seq<FileEntry>)
    requires IsGreedySplit(a, entries) && a != [] && |a[0]| < |entries|
    ensures Total(entries[..|a[0]| + 1]) > ZipPartTarget
  {
    var m := |a[0]|;
    SplitFirst(a, entries);
    SplitEmpty(a[1..], entries[m..]);
    var rest := a[1..];
    assert rest[0] == a[1];
    SplitFirst(rest, entries[m..]);
    assert entries[m] == a[1][0];
    assert entries[..m + 1] == a[0] + [a[1][0]];
    TotalAppend(a[0], [a[1][0]]);
    assert Total([a[1][0]]) == a[1][0].size;
  }

  /** Every prefix of two or more files of a fitting part fits. */
  lemma FitsPrefix(c: seq<FileEntry>, m: nat)
    ensures Fits(c) && 2 <= m <= |c| ==> Total(c[..m]) <= ZipPartTarget
  {
    if m <= |c| {
      assert c == c[..m] + c[m..];
      TotalAppend(c[..m], c[m..]);
    }
  }

  lemma PrefixOfPrefix(c: seq<FileEntry>, e: seq<FileEntry>, k: nat)
    ensures k <= |c| <= |e| && e[..|c|] == c ==> c[..k] == e[..k]
  {
  }

  /** A greedy split cannot begin with a shorter part than another one. */
  lemma FirstNotShorter(a: seq<seq<FileEntry>>, b: seq<seq<FileEntry>>, entries: seq<FileEntry>)
    requires IsGreedySplit(a, entries) && IsGreedySplit(b, entries)
    requires a != [] && b != []
    ensures |a[0]| >= |b[0]|
  {
    var m := |a[0]|;
    SplitFirst(a, entries);
    SplitFirst(b, entries);
    if m < |entries| {
      FirstPartEnds(a, entries);
    }
    FitsPrefix(b[0], m + 1);
    PrefixOfPrefix(b[0], entries, m + 1);
  }

  /** The greedy split of a sequence of entries is unique. */
  lemma {:induction false} GreedySplitUnique(a: seq<seq<FileEntry>>, b: seq<seq<FileEntry>>, entries: seq<FileEntry>)
    requires IsGreedySplit(a, entries) && IsGreedySplit(b, entries)
    ensures a == b
    decreases |a|
  {
    SplitEmpty(a, entries);
    SplitEmpty(b, entries);
    if a != [] && b != [] {
      FirstNotShorter(a, b, entries);
      FirstNotShorter(b, a, entries);
      SplitFirst(a, entries);
      SplitFirst(b, entries);
      var m := |a[0]|;
      GreedySplitUnique(a[1..], b[1..], entries[m..]);
      assert a == [a[0]] + a[1..] && b == [b[0]] + b[1..];
    }
  }

  // ----- chunk_label_range -----

  /** `str(i)` for an integer. */
  function IntToString(i: int): (r: string)
    ensures r != []
  {
    if i < 0 then "-" + NatToString(-i) else NatToString(i)
  }

  predicate HasLabel(e: FileEntry) { e.chapterLabel != "" }

  /**
   * `chunk_label_range`: the sanitized labels of the first and the last
   * labelled entries, or the prefix and the part number at both ends.
   */
  function ChunkLabelRange(chunk: seq<FileEntry>, fallbackPrefix: string, chunkIndex: int): (r: (string, string))
    ensures (exists e :: e in chunk && HasLabel(e)) ==>
      (exists i :: 0 <= i < |chunk| && HasLabel(chunk[i]) && r.0 == SanitizeLabel(chunk[i].chapterLabel) &&
        forall k :: 0 <= k < i ==> !HasLabel(chunk[k])) &&
      (exists j :: 0 <= j < |chunk| && HasLabel(chunk[j]) && r.1 == SanitizeLabel(chunk[j].chapterLabel) &&
        forall k :: j < k < |chunk| ==> !HasLabel(chunk[k]))
    ensures (forall e :: e in chunk ==> !HasLabel(e)) ==>
      r == (fallbackPrefix + IntToString(chunkIndex), fallbackPrefix + IntToString(chunkIndex))
  {
    var labelled := Filter(chunk, HasLabel);
    FilterMembers(chunk, HasLabel);
    if labelled != [] then
      FilterFirst(chunk, HasLabel);
      FilterLast(chunk, HasLabel);
      (SanitizeLabel(labelled[0].chapterLabel), SanitizeLabel(labelled[|labelled| - 1].chapterLabel))
    else
      var start := fallbackPrefix + IntToString(chunkIndex);
      (start, start)
  }
}
