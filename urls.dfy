/**
 * The URL helpers of the downloaders: page-1 links, cache keys, image
 * extensions, the chapter number in a chapter link, the series base link
 * and the chapter link built back from it, and the title guessed from a
 * link.
 */
module Urls {
  import opened Wrappers
  import opened Text
  import opened Tokens

  /**
   * A URL as `urlparse` splits it into its six components; `params` is the
   * `;...` tail of the last path segment, kept apart from `path`. `Empty` is
   * the empty string; every other string is given by its components.
   */
  datatype Url =
    | Empty
    | Parsed(scheme: string, netloc: string, path: string, params: string, query: string, fragment: string)
  {
    function Path(): string { if Empty? then "" else path }
    function Scheme(): string { if Empty? then "" else scheme }
    function Netloc(): string { if Empty? then "" else netloc }
  }

  predicate IsSlash(c: char) { c == '/' }

  /** `p if p.endswith("/") else p + "/"`. */
  function SlashEnded(p: string): (r: string)
    ensures EndsWith(r, "/")
    ensures r == p || r == p + "/"
    ensures EndsWith(p, "/") ==> r == p
  {
    if EndsWith(p, "/") then p else p + "/"
  }

  /** `with_page1`: the same page with a trailing slash on the path and fragment "1". */
  function WithPage1(u: Url): (r: Url)
    ensures u.Empty? ==> r.Empty?
    ensures u.Parsed? ==> r.Parsed? && EndsWith(r.path, "/") && r.fragment == "1"
    ensures u.Parsed? ==> r.scheme == u.scheme && r.netloc == u.netloc && r.params == u.params && r.query == u.query
    ensures u.Parsed? ==> r.path == u.path || r.path == u.path + "/"
  {
    if u.Empty? then u else u.(path := SlashEnded(u.path), fragment := "1")
  }

  lemma WithPage1Idempotent(u: Url)
    ensures WithPage1(WithPage1(u)) == WithPage1(u)
  {
  }

  /** `normalize_key`: `scheme://netloc/path`, without params, query or fragment. */
  function NormalizeKey(u: Url): (r: string)
    ensures r == "" <==> u.Empty?
    ensures u.Parsed? ==> StartsWith(r, u.scheme + "://") && EndsWith(r, u.path)
  {
    if u.Empty? then "" else u.scheme + "://" + u.netloc + u.path
  }

  /** Two links that differ only in params, query and fragment have the same key. */
  lemma NormalizeKeyIgnoresQuery(u: Url, params: string, query: string, fragment: string)
    requires u.Parsed?
    ensures NormalizeKey(u.(params := params, query := query, fragment := fragment)) == NormalizeKey(u)
  {
  }

  /** Links with different components have different keys. */
  lemma {:induction false} NormalizeKeyInjective(u: Url, v: Url)
    requires u.Parsed? && v.Parsed? && u.scheme == v.scheme && u.netloc == v.netloc
    requires NormalizeKey(u) == NormalizeKey(v)
    ensures u.path == v.path
  {
    var h := u.scheme + "://" + u.netloc;
    assert NormalizeKey(u) == h + u.path && NormalizeKey(v) == h + v.path;
    assert u.path == NormalizeKey(u)[|h|..];
  }

  /** What `abs_url` returns: a link, or the document base and a relative reference for `urljoin`. */
  datatype Resolved = Absolute(url: string) | Joined(base: string, reference: string)

  /** `abs_url`: "" stays "", "//x" gets "https:", "http..." is kept (stripped). */
  function AbsUrl(u: string, base: string): (r: Resolved)
    ensures u == "" ==> r == Absolute("")
    ensures u != "" && StartsWith(Strip(u), "//") ==> r == Absolute("https:" + Strip(u))
    ensures u != "" && StartsWith(Strip(u), "http") ==> r == Absolute(Strip(u))
    ensures r.Joined? ==> r.base == base && r.reference == Strip(u)
  {
    if u == "" then Absolute("")
    else
      var s := Strip(u);
      if StartsWith(s, "//") then Absolute("https:" + s)
      else if StartsWith(s, "http") then Absolute(s)
      else Joined(base, s)
  }

  /** An absolute result is passed through unchanged a second time. */
  lemma AbsUrlIdempotent(u: string, base: string)
    requires AbsUrl(u, base).Absolute?
    ensures AbsUrl(AbsUrl(u, base).url, base) == AbsUrl(u, base)
  {
    if u != "" {
      var s := Strip(u);
      if StartsWith(s, "//") {
        HttpsKept(s, base);
      } else {
        HttpKept(s, base);
      }
    }
  }

  /** A stripped link starting with "http" is kept as it is. */
  lemma HttpKept(s: string, base: string)
    requires StartsWith(s, "http") && !IsSpace(s[0]) && !IsSpace(s[|s| - 1])
    ensures AbsUrl(s, base) == Absolute(s)
  {
    StripUnchanged(s);
    assert s[..2][1] != "//"[1];
  }

  /** "https:" put before a stripped "//..." link starts with "http" and is kept as it is. */
  lemma HttpsKept(s: string, base: string)
    requires s != [] && !IsSpace(s[|s| - 1])
    ensures AbsUrl("https:" + s, base) == Absolute("https:" + s)
  {
    var r := "https:" + s;
    assert r[..4] == "http" && r[0] == 'h' && r[|r| - 1] == s[|s| - 1];
    HttpKept(r, base);
  }

  // ----- image extensions -----

  /** The alternatives of `IMG_EXT_RE`, in the order the pattern tries them. */
  const ImageExtensions: seq<string> := ["jpg", "jpeg", "png", "webp", "avif"]

  /** The alternatives of the content-type pattern, in the order it tries them. */
  const TypeExtensions: seq<string> := ["jpeg", "jpg", "png", "webp", "avif"]

  /** The lower-case word `w` appears at `i`, compared without case. */
  predicate WordAt(s: string, i: nat, w: string)
  {
    i + |w| <= |s| && Lower(s[i..i + |w|]) == w
  }

  /** `(?:\?|$)` at position `j`: a '?', the end, or a final newline. */
  predicate QueryOrEnd(s: string, j: nat)
  {
    j == |s| || (j < |s| && s[j] == '?') || (j == |s| - 1 && s[j] == '\n')
  }

  /** The first alternative that matches at `i` (followed by `QueryOrEnd` when `anchored`). */
  function AlternativeAt(s: string, i: nat, words: seq<string>, anchored: bool): (r: Option<string>)
    ensures r.Some? ==> r.value in words && WordAt(s, i, r.value)
    ensures r.Some? && anchored ==> QueryOrEnd(s, i + |r.value|)
    ensures r.None? <==> forall k :: 0 <= k < |words| ==>
      !(WordAt(s, i, words[k]) && (!anchored || QueryOrEnd(s, i + |words[k]|)))
    decreases |words|
  {
    if words == [] then None
    else if WordAt(s, i, words[0]) && (!anchored || QueryOrEnd(s, i + |words[0]|)) then Some(words[0])
    else AlternativeAt(s, i, words[1..], anchored)
  }

  /** `IMG_EXT_RE.search(url)` from position `from`: ".ext" followed by '?' or the end. */
  function UrlExtension(s: string, from: nat): (r: Option<string>)
    requires from <= |s|
    ensures r.Some? ==> r.value in ImageExtensions
    ensures r.None? <==> forall j :: from <= j < |s| ==> !ExtensionAt(s, j)
    decreases |s| - from
  {
    if from == |s| then None
    else if ExtensionAt(s, from) then AlternativeAt(s, from + 1, ImageExtensions, true)
    else UrlExtension(s, from + 1)
  }

  /** A '.' at `j` followed by an image extension and then '?' or the end. */
  predicate ExtensionAt(s: string, j: nat)
  {
    j < |s| && s[j] == '.' && AlternativeAt(s, j + 1, ImageExtensions, true).Some?
  }

  /** `re.search(r"(jpeg|jpg|png|webp|avif)", ct, re.I)` from position `from`. */
  function TypeExtension(s: string, from: nat): (r: Option<string>)
    requires from <= |s|
    ensures r.Some? ==> r.value in TypeExtensions
    ensures r.None? <==> forall j :: from <= j < |s| ==> !TypeWordAt(s, j)
    decreases |s| - from
  {
    if from == |s| then None
    else if TypeWordAt(s, from) then AlternativeAt(s, from, TypeExtensions, false)
    else TypeExtension(s, from + 1)
  }

  /** One of the content-type words starts at `j`. */
  predicate TypeWordAt(s: string, j: nat)
  {
    AlternativeAt(s, j, TypeExtensions, false).Some?
  }

  /** `infer_ext`: the link's extension, else one named in the content type, else "jpg". */
  function InferExt(url: string, contentType: string): (r: string)
    ensures r in ImageExtensions
    ensures UrlExtension(url, 0).Some? ==> r == UrlExtension(url, 0).value
    ensures UrlExtension(url, 0).None? && TypeExtension(contentType, 0).Some? ==>
      r == TypeExtension(contentType, 0).value
    ensures UrlExtension(url, 0).None? && TypeExtension(contentType, 0).None? ==> r == "jpg"
  {
    match UrlExtension(url, 0)
    case Some(e) => e
    case None => TypeExtension(contentType, 0).GetOr("jpg")
  }

  /** A link ending in ".ext" (or ".ext?...") gets that extension when nothing earlier matched. */
  lemma {:induction false} InferExtOfSuffix(p: string, w: string, q: string, contentType: string)
    requires w in ImageExtensions
    requires q == [] || q[0] == '?'
    requires UrlExtension(p, 0).None?
    ensures InferExt(p + "." + w + q, contentType) == w
  {
    UrlExtensionOfSuffix(p, w, q, 0);
  }

  lemma {:induction false} UrlExtensionOfSuffix(p: string, w: string, q: string, from: nat)
    requires w in ImageExtensions
    requires q == [] || q[0] == '?'
    requires from <= |p| && UrlExtension(p, from).None?
    ensures UrlExtension(p + "." + w + q, from) == Some(w)
    decreases |p| - from
  {
    var s := p + "." + w + q;
    if from == |p| {
      assert s[from] == '.';
      assert s[from + 1..from + 1 + |w|] == w;
      assert Lower(w) == w;
      assert QueryOrEnd(s, from + 1 + |w|);
      ExtensionAlternative(s, from + 1, w);
    } else {
      NoAlternativeInPrefix(p, "." + w + q, from);
      assert s == p + ("." + w + q);
      UrlExtensionOfSuffix(p, w, q, from + 1);
    }
  }

  /** Two words matched at the same place agree on their common length. */
  lemma OtherWordAbsent(s: string, i: nat, w: string, v: string, j: nat)
    requires WordAt(s, i, w)
    requires j < |w| && j < |v| && w[j] != v[j]
    ensures !WordAt(s, i, v)
  {
    assert Lower(s[i..i + |w|])[j] == ToLowerChar(s[i + j]);
    if i + |v| <= |s| {
      assert Lower(s[i..i + |v|])[j] == ToLowerChar(s[i + j]);
    }
  }

  /** Exactly `w` is tried first and matches when `w` is followed by '?' or the end. */
  lemma ExtensionAlternative(s: string, i: nat, w: string)
    requires w in ImageExtensions
    requires WordAt(s, i, w) && QueryOrEnd(s, i + |w|)
    ensures AlternativeAt(s, i, ImageExtensions, true) == Some(w)
  {
    var e := ImageExtensions;
    var k :| 0 <= k < |e| && e[k] == w;
    if k == 1 {
      OtherWordAbsent(s, i, w, e[0], 2);
    } else if k >= 2 {
      forall j | 0 <= j < k
        ensures !WordAt(s, i, e[j])
      {
        OtherWordAbsent(s, i, w, e[j], 0);
      }
    }
    AlternativeFirst(s, i, e, true, k);
  }

  /** The first alternative that matches is the one found. */
  lemma {:induction false} AlternativeFirst(s: string, i: nat, words: seq<string>, anchored: bool, k: nat)
    requires k < |words| && WordAt(s, i, words[k]) && (!anchored || QueryOrEnd(s, i + |words[k]|))
    requires forall j :: 0 <= j < k ==> !WordAt(s, i, words[j])
    ensures AlternativeAt(s, i, words, anchored) == Some(words[k])
    decreases k
  {
    if k > 0 {
      AlternativeFirst(s, i, words[1..], anchored, k - 1);
    }
  }

  /** Some alternative matching at `i` means the first matching one is found. */
  lemma {:induction false} AlternativeFound(s: string, i: nat, words: seq<string>, anchored: bool, w: string)
    requires w in words && WordAt(s, i, w) && (!anchored || QueryOrEnd(s, i + |w|))
    ensures AlternativeAt(s, i, words, anchored).Some?
    decreases |words|
  {
    if words[0] != w {
      assert w in words[1..];
      AlternativeFound(s, i, words[1..], anchored, w);
    }
  }

  /** None of the image extensions contains a dot. */
  lemma WordAvoidsDot(s: string, i: nat, w: string)
    requires w in ImageExtensions && WordAt(s, i, w)
    ensures forall k :: i <= k < i + |w| ==> s[k] != '.'
  {
    forall k | i <= k < i + |w|
      ensures s[k] != '.'
    {
      assert Lower(s[i..i + |w|])[k - i] == ToLowerChar(s[k]);
      assert w[k - i] != '.';
    }
  }

  /** A match at `from` in `p + t`, where `t` starts with a dot, is a match in `p`. */
  lemma PrefixMatch(p: string, t: string, from: nat)
    requires from < |p| && |t| > 0 && t[0] == '.'
    ensures (p[from] == '.' && AlternativeAt(p + t, from + 1, ImageExtensions, true).Some?) ==>
      UrlExtension(p, from).Some?
  {
    var s := p + t;
    if p[from] == '.' && AlternativeAt(s, from + 1, ImageExtensions, true).Some? {
      var w := AlternativeAt(s, from + 1, ImageExtensions, true).value;
      WordInPrefix(p, t, from + 1, w);
      AlternativeFound(p, from + 1, ImageExtensions, true, w);
    }
  }

  /** An extension matched in `p + t`, where `t` starts with a dot, lies inside `p`. */
  lemma WordInPrefix(p: string, t: string, i: nat, w: string)
    requires i <= |p| && |t| > 0 && t[0] == '.'
    requires w in ImageExtensions && WordAt(p + t, i, w) && QueryOrEnd(p + t, i + |w|)
    ensures WordAt(p, i, w) && QueryOrEnd(p, i + |w|)
  {
    var s := p + t;
    var j := i + |w|;
    WordAvoidsDot(s, i, w);
    assert s[|p|] == '.';
    assert j <= |p|;
    assert s[i..j] == p[i..j];
    assert j < |p| ==> s[j] == p[j];
  }

  /** A match found at `from` in `p + t` would also be found in `p`. */
  lemma NoAlternativeInPrefix(p: string, t: string, from: nat)
    requires from < |p| && |t| > 0 && t[0] == '.'
    requires UrlExtension(p, from).None?
    ensures !(p[from] == '.' && (p + t)[from] == '.' && AlternativeAt(p + t, from + 1, ImageExtensions, true).Some?)
    ensures (p + t)[from] == p[from]
  {
    PrefixMatch(p, t, from);
  }

  // ----- chapter numbers in links -----

  /** All characters of a chapter token are digits or the dot. */
  lemma ChapterTokenChars(t: string)
    requires IsChapterToken(t)
    ensures forall c :: c in t ==> IsDigit(c) || c == '.'
    ensures '/' !in t && '#' !in t && '?' !in t
  {
    var k := IndexOf(t, '.');
    assert t == t[..k] + (if k == |t| then [] else [t[k]] + t[k + 1..]);
  }

  const LeerHead: string := "/leer/"

  /** `([^/]+)/` at the start of `t`: a non-empty segment, then what follows its slash. */
  function Segment(t: string): (r: Option<(string, string)>)
    ensures r.Some? ==> r.value.0 != "" && '/' !in r.value.0 && t == r.value.0 + "/" + r.value.1
  {
    var i := IndexOf(t, '/');
    if i == 0 || i == |t| then None
    else
      assert t == t[..i] + [t[i]] + t[i + 1..];
      Some((t[..i], t[i + 1..]))
  }

  lemma SegmentOf(a: string, u: string)
    requires a != "" && '/' !in a
    ensures Segment(a + "/" + u) == Some((a, u))
  {
    IndexOfConcat(a, "/" + u, '/');
    assert a + "/" + u == a + ("/" + u);
    assert (a + "/" + u)[|a| + 1..] == u;
  }

  /** `^/leer/([^/]+)/([^/]+)/`: the two segments after "/leer/" and what follows them. */
  function LeerPrefix(p: string): (r: Option<(string, string, string)>)
    ensures r.Some? ==> r.value.0 != "" && r.value.1 != "" && '/' !in r.value.0 && '/' !in r.value.1
    ensures r.Some? ==> p == LeerHead + (r.value.0 + "/" + (r.value.1 + "/" + r.value.2))
  {
    if !StartsWith(p, LeerHead) then None
    else
      assert p == LeerHead + p[6..];
      TwoSegments(p[6..])
  }

  /** `([^/]+)/([^/]+)/` at the start of `t`. */
  function TwoSegments(t: string): (r: Option<(string, string, string)>)
    ensures r.Some? ==> r.value.0 != "" && r.value.1 != "" && '/' !in r.value.0 && '/' !in r.value.1
    ensures r.Some? ==> t == r.value.0 + "/" + (r.value.1 + "/" + r.value.2)
  {
    match Segment(t)
    case None => None
    case Some((a, u)) =>
      match Segment(u)
      case None => None
      case Some((b, rest)) => Some((a, b, rest))
  }

  lemma LeerPrefixOf(a: string, b: string, rest: string)
    requires a != "" && b != "" && '/' !in a && '/' !in b
    ensures LeerPrefix(LeerHead + (a + "/" + (b + "/" + rest))) == Some((a, b, rest))
  {
    var u := b + "/" + rest;
    var p := LeerHead + (a + "/" + u);
    assert p[6..] == a + "/" + u;
    SegmentOf(a, u);
    SegmentOf(b, rest);
  }

  /** `/?(?:[#?].*)?$` matches the whole of `t`. */
  predicate TailOk(t: string)
  {
    var t1 := if t != [] && t[0] == '/' then t[1..] else t;
    t1 == [] || t1 == "\n" ||
    ((t1[0] == '#' || t1[0] == '?') && forall k :: 1 <= k < |t1| && t1[k] == '\n' ==> k == |t1| - 1)
  }

  /**
   * `re.search(r"/(\d+)/?(?:[#?].*)?$", s)` and its decimal form: the
   * leftmost '/' followed by a number after which the rest of `s` is an
   * optional '/' and an optional `#...` or `?...` part.
   */
  function TrailingNumber(s: string, form: NumberForm): (r: Option<string>)
    ensures r.Some? ==> form.Accepts(r.value)
    decreases |s|
  {
    if |s| < 2 then None
    else if NumberAt(s, form).Some? then NumberAt(s, form)
    else TrailingNumber(s[1..], form)
  }

  /** The search finds nothing exactly when no position matches. */
  lemma {:induction false} TrailingNumberNone(s: string, form: NumberForm)
    ensures TrailingNumber(s, form).None? <==> forall j :: 0 <= j <= |s| - 2 ==> NumberAt(s[j..], form).None?
    decreases |s|
  {
    if |s| >= 2 {
      assert s[0..] == s;
      if NumberAt(s, form).None? {
        TrailingNumberNone(s[1..], form);
        DropShift(s, form);
      }
    }
  }

  /** What the search finds is the match at the first position that has one. */
  lemma {:induction false} TrailingNumberFirst(s: string, form: NumberForm, p: nat)
    requires p <= |s| - 2 && NumberAt(s[p..], form).Some?
    requires forall j :: 0 <= j < p ==> NumberAt(s[j..], form).None?
    ensures TrailingNumber(s, form) == NumberAt(s[p..], form)
    decreases p
  {
    assert s[0..] == s;
    if p > 0 {
      var t := s[1..];
      assert t[p - 1..] == s[p..];
      forall j | 0 <= j < p - 1
        ensures NumberAt(t[j..], form).None?
      {
        assert t[j..] == s[j + 1..];
      }
      TrailingNumberFirst(t, form, p - 1);
    }
  }

  /** Position j of `s[1..]` is position j + 1 of `s`. */
  lemma DropShift(s: string, form: NumberForm)
    requires |s| >= 2
    ensures forall j :: 1 <= j <= |s| - 2 ==> NumberAt(s[j..], form) == NumberAt(s[1..][j - 1..], form)
  {
    forall j | 1 <= j <= |s| - 2
      ensures s[j..] == s[1..][j - 1..]
    {
    }
  }

  /** The match of the trailing-number pattern starting at the first character of `s`, if any. */
  function NumberAt(s: string, form: NumberForm): (r: Option<string>)
    requires |s| >= 2
    ensures r.Some? ==> form.Accepts(r.value)
  {
    if s[0] == '/' && IsDigit(s[1]) && TailOk(s[1 + NumberLength(s[1..], form)..]) then
      Some(s[1..][..NumberLength(s[1..], form)])
    else None
  }

  lemma TokenLeadingDigit(n: string, form: NumberForm)
    requires form.Accepts(n)
    ensures n != [] && IsDigit(n[0])
  {
    if form.Integer? {
      IntegerTokenIsChapterToken(n);
    }
    var k := IndexOf(n, '.');
    assert n[..k] != [] && n[0] == n[..k][0];
  }

  /** `/?(?:[#?].*)?$` cannot match text that still holds "/" and a digit further on. */
  lemma TailRejects(w: string, r: string, n: string, t: string)
    requires '#' !in w && '?' !in w
    requires r == "/" + n + t && n != [] && IsDigit(n[0])
    ensures !TailOk(w + r)
  {
    var x := w + r;
    SlashConcat(n, t);
    if w == [] {
      assert x == r;
      assert (n + t)[0] == n[0];
    } else if w[0] == '/' {
      DropInFirst(w, r, 1);
      assert |x[1..]| >= 2 && x[1..][0] == if |w| > 1 then w[1] else '/';
    } else {
      assert x[0] == w[0];
    }
  }

  /** No digit of a number is a '/'. */
  lemma NumberHasNoSlash(s: string, form: NumberForm)
    requires s != [] && IsDigit(s[0])
    ensures forall j :: 0 <= j < NumberLength(s, form) ==> s[j] != '/'
  {
    var m := NumberLength(s, form);
    ChapterTokenChars(s[..m]);
    assert forall j :: 0 <= j < m ==> s[..m][j] == s[j];
  }

  /** With no `#` or `?` in front, a '/' and a number at the very start are not the match. */
  lemma NoMatchAtStart(a: string, r: string, n: string, t: string, form: NumberForm)
    requires a != [] && '#' !in a && '?' !in a
    requires r == "/" + n + t && n != [] && IsDigit(n[0])
    ensures |a + r| >= 2 && NumberAt(a + r, form).None?
  {
    SlashConcat(n, t);
    var s := a + r;
    assert s[0] == a[0] && s[1] == if |a| >= 2 then a[1] else '/';
    if a[0] == '/' && |a| >= 2 && IsDigit(a[1]) {
      NumberInFront(a, r, form);
      var m := NumberLength(s[1..], form);
      DropInFirst(a, r, 1 + m);
      assert forall c :: c in a[1 + m..] ==> c in a;
      TailRejects(a[1 + m..], r, n, t);
    }
  }

  /** A number starting inside `a` ends before the '/' that follows `a`. */
  lemma NumberInFront(a: string, r: string, form: NumberForm)
    requires |a| >= 2 && IsDigit(a[1]) && r != [] && r[0] == '/'
    ensures (a + r)[1..] != [] && IsDigit((a + r)[1..][0])
    ensures 1 + NumberLength((a + r)[1..], form) <= |a|
  {
    var s1 := (a + r)[1..];
    DropInFirst(a, r, 1);
    assert s1[0] == a[1];
    NumberHasNoSlash(s1, form);
    assert s1[|a| - 1] == '/';
  }

  /** The number right before the tail is found when nothing in front can start a `#`/`?` part. */
  lemma {:induction false} TrailingNumberFinds(a: string, r: string, n: string, t: string, form: NumberForm)
    requires '#' !in a && '?' !in a
    requires r == "/" + n + t
    requires form.Accepts(n) && TailOk(t)
    requires t == [] || t[0] == '/' || t[0] == '#' || t[0] == '?' || t[0] == '\n'
    ensures TrailingNumber(a + r, form) == Some(n)
    decreases |a|
  {
    if a == [] {
      assert a + r == r;
      TrailingNumberHere(n, t, form);
    } else {
      TrailingNumberSkip(a, r, n, t, form);
      assert forall c :: c in a[1..] ==> c in a;
      TrailingNumberFinds(a[1..], r, n, t, form);
    }
  }

  /** A '/' and the number right before the tail: the match is here. */
  lemma TrailingNumberHere(n: string, t: string, form: NumberForm)
    requires form.Accepts(n) && TailOk(t)
    requires t == [] || t[0] == '/' || t[0] == '#' || t[0] == '?' || t[0] == '\n'
    ensures TrailingNumber("/" + n + t, form) == Some(n)
  {
    TokenAlone(n, t, form);
    SlashConcat(n, t);
    NumberHere("/" + n + t, n, t, form);
  }

  lemma SlashConcat(n: string, t: string)
    ensures |"/" + n + t| >= 1 && ("/" + n + t)[0] == '/' && ("/" + n + t)[1..] == n + t
  {
  }

  lemma NumberHere(s: string, n: string, t: string, form: NumberForm)
    requires |s| >= 2 && s[0] == '/' && s[1..] == n + t
    requires n != [] && IsDigit(n[0]) && NumberLength(n + t, form) == |n| && TailOk(t)
    ensures NumberAt(s, form) == Some(n)
  {
    ConcatParts(n, t);
    assert s[1 + |n|..] == s[1..][|n|..];
  }

  /** No match at the first character: the search goes on from the second. */
  lemma TrailingNumberSkip(a: string, r: string, n: string, t: string, form: NumberForm)
    requires a != [] && '#' !in a && '?' !in a
    requires r == "/" + n + t && form.Accepts(n)
    ensures TrailingNumber(a + r, form) == TrailingNumber(a[1..] + r, form)
  {
    TokenLeadingDigit(n, form);
    NoMatchAtStart(a, r, n, t, form);
    DropInFirst(a, r, 1);
  }

  /** `extract_chapter_number_from_url` on the link's path. */
  function ChapterNumberFromUrl(u: Url, form: NumberForm): (r: Option<string>)
    ensures r.Some? ==> form.Accepts(r.value)
    ensures LeerPrefix(u.Path()).None? ==> r == TrailingNumber(u.Path(), form)
  {
    ChapterNumberInPath(u.Path(), form)
  }

  /** The `/leer/<a>/<b>/<n>/` form first, else a trailing number. */
  function ChapterNumberInPath(p: string, form: NumberForm): (r: Option<string>)
    ensures r.Some? ==> form.Accepts(r.value)
    ensures LeerPrefix(p).None? ==> r == TrailingNumber(p, form)
  {
    match LeerPrefix(p)
    case Some((_, _, rest)) =>
      var k := IndexOf(rest, '/');
      if k < |rest| && form.Accepts(rest[..k]) then Some(rest[..k])
      else TrailingNumber(p, form)
    case None => TrailingNumber(p, form)
  }

  /** The series path of a link that is not of the `/leer/<a>/<b>/` form. */
  function SeriesPath(p: string, form: NumberForm): (b: string)
    ensures EndsWith(b, "/")
    ensures b == "/" || StartsWith(p, b) || b == p + "/"
    ensures forall c :: c in b ==> c in p || c == '/'
  {
    var t := RStripBy(p, IsSlash);
    var k := LastIndexOf(t, '/');
    var last := if k.Some? then t[k.value + 1..] else t;
    if form.Accepts(last) then
      if k.Some? then
        assert t[..k.value + 1][k.value] == '/';
        assert p[..k.value + 1] == t[..k.value + 1];
        t[..k.value + 1]
      else "/"
    else SlashEnded(p)
  }

  /** The series path `/leer/<a>/<b>/`. */
  function LeerBase(a: string, b: string): string
  {
    LeerHead + (a + "/" + (b + "/"))
  }

  /**
   * `derive_series_base`: the series link, with no query or fragment and a
   * path ending in "/"; for `/leer/<a>/<b>/...` the path is `/leer/<a>/<b>/`.
   */
  function DeriveSeriesBase(u: Url, form: NumberForm): (r: Url)
    ensures r.Parsed? && r.params == "" && r.query == "" && r.fragment == "" && EndsWith(r.path, "/")
    ensures r.scheme == u.Scheme() && r.netloc == u.Netloc()
    ensures LeerPrefix(u.Path()).Some? ==>
      r.path == LeerBase(LeerPrefix(u.Path()).value.0, LeerPrefix(u.Path()).value.1)
  {
    var base := match LeerPrefix(u.Path())
      case Some((a, b, _)) => LeerBase(a, b)
      case None => SeriesPath(u.Path(), form);
    Parsed(u.Scheme(), u.Netloc(), base, "", "", "")
  }

  /** `build_chapter_url_from_base`: "<n>/" appended to the base path, fragment "1". */
  function BuildChapterUrl(base: Url, n: string): (r: Url)
    ensures r.Parsed? && r.fragment == "1" && EndsWith(r.path, n + "/")
    ensures r.scheme == base.Scheme() && r.netloc == base.Netloc()
    ensures base.Parsed? ==> r.params == base.params && r.query == base.query
    ensures StartsWith(r.path, SlashEnded(base.Path()))
  {
    var p := SlashEnded(base.Path());
    var path := p + n + "/";
    assert path[..|p|] == p;
    assert path[|path| - |n| - 1..] == n + "/";
    if base.Empty? then Parsed("", "", path, "", "", "1")
    else base.(path := path, fragment := "1")
  }

  lemma SegmentExtend(t: string, z: string)
    requires Segment(t).Some?
    ensures Segment(t + z) == Some((Segment(t).value.0, Segment(t).value.1 + z))
  {
    var i := IndexOf(t, '/');
    IndexOfConcat(t, z, '/');
    assert (t + z)[..i] == t[..i];
    assert (t + z)[i + 1..] == t[i + 1..] + z;
  }

  /** Text after a `/leer/<a>/<b>/` prefix does not change the two segments. */
  lemma LeerPrefixExtend(p: string, z: string)
    requires LeerPrefix(p).Some?
    ensures LeerPrefix(p + z).Some? && LeerPrefix(p + z).value.0 == LeerPrefix(p).value.0
    ensures LeerPrefix(p + z).value.1 == LeerPrefix(p).value.1
    ensures LeerPrefix(p + z).value.2 == LeerPrefix(p).value.2 + z
  {
    TakeInFirst(p, z, 6);
    DropInFirst(p, z, 6);
    TwoSegmentsExtend(p[6..], z);
  }

  lemma TwoSegmentsExtend(t: string, z: string)
    requires TwoSegments(t).Some?
    ensures TwoSegments(t + z).Some? && TwoSegments(t + z).value.0 == TwoSegments(t).value.0
    ensures TwoSegments(t + z).value.1 == TwoSegments(t).value.1
    ensures TwoSegments(t + z).value.2 == TwoSegments(t).value.2 + z
  {
    SegmentExtend(t, z);
    SegmentExtend(Segment(t).value.1, z);
  }

  lemma LeerBaseParts(a: string, b: string)
    requires a != "" && b != "" && '/' !in a && '/' !in b
    ensures LeerPrefix(LeerBase(a, b)) == Some((a, b, ""))
    ensures |LeerBase(a, b)| > |LeerHead| && EndsWith(LeerBase(a, b), "/")
  {
    assert b + "/" + "" == b + "/";
    LeerPrefixOf(a, b, "");
  }

  lemma LeerBaseConcat(a: string, b: string, rest: string)
    ensures LeerHead + (a + "/" + (b + "/" + rest)) == LeerBase(a, b) + rest
  {
  }

  /** A path that starts with a `/leer/<a>/<b>/` path has that prefix too. */
  lemma LeerPrefixStarts(h: string, p: string)
    requires LeerPrefix(h).Some?
    ensures StartsWith(p, h) ==> LeerPrefix(p).Some?
  {
    if StartsWith(p, h) {
      assert p == h + p[|h|..];
      LeerPrefixExtend(h, p[|h|..]);
    }
  }

  /** In `b + n + "/"` with no '/' in `n`, a '/' before the last character lies inside `b`. */
  lemma SlashInBase(b: string, n: string, h: string, rest: string)
    requires '/' !in n && b + n + "/" == h + rest
    requires rest != "" && EndsWith(h, "/")
    ensures |h| <= |b| && b[..|h|] == h
  {
    var x := b + n + "/";
    assert x[|h| - 1] == '/';
    assert forall j :: |b| <= j < |b| + |n| ==> x[j] == n[j - |b|];
    assert |h| <= |b|;
    assert x[..|h|] == h;
    assert x[..|b|] == b;
  }

  /**
   * When the series path of a link with no `/leer/<a>/<b>/` prefix gets a
   * chapter appended, such a prefix can only end at the chapter's slash or
   * right before the chapter.
   */
  lemma LeerPrefixInBase(b: string, n: string, p: string)
    requires EndsWith(b, "/") && '/' !in n
    requires b == "/" || StartsWith(p, b) || b == p + "/"
    requires LeerPrefix(p).None?
    requires LeerPrefix(b + n + "/").Some?
    ensures LeerPrefix(b + n + "/").value.2 == "" || LeerPrefix(b + n + "/").value.2 == n + "/"
  {
    var x := b + n + "/";
    var (a1, b1, rest) := LeerPrefix(x).value;
    var h := LeerBase(a1, b1);
    LeerBaseConcat(a1, b1, rest);
    LeerBaseParts(a1, b1);
    if rest != "" {
      SlashInBase(b, n, h, rest);
      PrefixOfPrefix(p, b, h);
      LeerPrefixStarts(h, p);
      RestAfterBase(b, n, h, rest);
    }
  }

  /** A shorter prefix of a prefix of `p`, or of `p` and a slash, is a prefix of `p`. */
  lemma PrefixOfPrefix(p: string, b: string, h: string)
    ensures |h| < |b| && (StartsWith(p, b) || b == p + "/") && b[..|h|] == h ==> StartsWith(p, h)
  {
    if |h| < |b| && (StartsWith(p, b) || b == p + "/") && b[..|h|] == h {
      assert p[..|h|] == b[..|h|];
    }
  }

  /** What follows a prefix as long as the base is the appended chapter. */
  lemma RestAfterBase(b: string, n: string, h: string, rest: string)
    requires b + n + "/" == h + rest && |h| == |b|
    ensures rest == n + "/"
  {
    ConcatParts(h, rest);
    assert b + n + "/" == b + (n + "/");
    ConcatParts(b, n + "/");
  }

  /** A chapter token followed by '/' is the first segment of `n + "/"`. */
  lemma TokenSegment(n: string, form: NumberForm)
    requires form.Accepts(n)
    ensures '/' !in n && '#' !in n && '?' !in n
    ensures IndexOf(n + "/", '/') == |n| && (n + "/")[..|n|] == n
  {
    if form.Integer? {
      IntegerTokenIsChapterToken(n);
    }
    ChapterTokenChars(n);
    IndexOfConcat(n, "/", '/');
  }

  /**
   * A third segment holding a chapter token and its slash is the chapter
   * number, whatever follows it: the `/leer/` form wins over a trailing number.
   */
  lemma ThirdSegment(p: string, n: string, t: string, form: NumberForm)
    requires LeerPrefix(p).Some? && LeerPrefix(p).value.2 == n + "/" + t
    requires form.Accepts(n)
    ensures ChapterNumberInPath(p, form) == Some(n)
  {
    TokenSegment(n, form);
    IndexOfConcat(n + "/", t, '/');
    assert (n + "/" + t)[..|n|] == (n + "/")[..|n|];
  }

  /** Nothing after the two segments: the trailing-number search decides. */
  lemma NoThirdSegment(p: string, form: NumberForm)
    requires LeerPrefix(p).Some? && LeerPrefix(p).value.2 == ""
    ensures ChapterNumberInPath(p, form) == TrailingNumber(p, form)
  {
  }

  /** A chapter appended to a `/leer/<a>/<b>/` base is read back from the third segment. */
  lemma LeerRoundTrip(b: string, n: string, form: NumberForm)
    requires LeerPrefix(b).Some? && LeerPrefix(b).value.2 == ""
    requires form.Accepts(n)
    ensures ChapterNumberInPath(b + n + "/", form) == Some(n)
  {
    LeerPrefixExtend(b, n + "/");
    ConcatAssoc(b, n, "/");
    assert n + "/" + "" == n + "/";
    ThirdSegment(b + n + "/", n, "", form);
  }

  /** A base ending in '/' with no `#` or `?` and a chapter after it: the chapter is the trailing number. */
  lemma LastSlash(b: string, n: string)
    requires EndsWith(b, "/")
    ensures b + n + "/" == b[..|b| - 1] + ("/" + n + "/")
  {
    assert b == b[..|b| - 1] + "/";
  }

  lemma TrailingOfBase(b: string, n: string, form: NumberForm)
    requires EndsWith(b, "/") && '#' !in b && '?' !in b
    requires form.Accepts(n)
    ensures TrailingNumber(b + n + "/", form) == Some(n)
  {
    TokenSegment(n, form);
    var a := b[..|b| - 1];
    assert forall c :: c in a ==> c in b;
    LastSlash(b, n);
    TrailingNumberFinds(a, "/" + n + "/", n, "/", form);
  }

  /** A chapter appended to any other series base is read back as the trailing number. */
  lemma PlainRoundTrip(b: string, n: string, p: string, form: NumberForm)
    requires EndsWith(b, "/") && (b == "/" || StartsWith(p, b) || b == p + "/")
    requires '#' !in b && '?' !in b && LeerPrefix(p).None?
    requires form.Accepts(n)
    ensures ChapterNumberInPath(b + n + "/", form) == Some(n)
  {
    TokenSegment(n, form);
    TrailingOfBase(b, n, form);
    var x := b + n + "/";
    if LeerPrefix(x).Some? {
      LeerPrefixInBase(b, n, p);
      LeerCases(x, n, form);
    }
  }

  /** Either `/leer/` case reads back a chapter that is also the trailing number. */
  lemma LeerCases(x: string, n: string, form: NumberForm)
    requires LeerPrefix(x).Some? && form.Accepts(n) && TrailingNumber(x, form) == Some(n)
    requires LeerPrefix(x).value.2 == "" || LeerPrefix(x).value.2 == n + "/"
    ensures ChapterNumberInPath(x, form) == Some(n)
  {
    if LeerPrefix(x).value.2 == "" {
      NoThirdSegment(x, form);
    } else {
      assert n + "/" + "" == n + "/";
      ThirdSegment(x, n, "", form);
    }
  }

  /**
   * The chapter link built from the series base of any link, for any chapter
   * number, yields that number again (a path from `urlparse` holds no '?' or '#').
   */
  lemma ChapterNumberRoundTrip(u: Url, n: string, form: NumberForm)
    requires form.Accepts(n)
    requires '#' !in u.Path() && '?' !in u.Path()
    ensures ChapterNumberFromUrl(BuildChapterUrl(DeriveSeriesBase(u, form), n), form) == Some(n)
  {
    var base := DeriveSeriesBase(u, form);
    var b := base.path;
    assert BuildChapterUrl(base, n).Path() == b + n + "/";
    match LeerPrefix(u.Path())
    case Some((a1, b1, _)) =>
      LeerBaseParts(a1, b1);
      LeerRoundTrip(b, n, form);
    case None =>
      assert '#' !in b && '?' !in b;
      PlainRoundTrip(b, n, u.Path(), form);
  }

  /**
   * `extract_chapter_number` of the oldest downloader: the same trailing-number
   * search over the whole link text (query and fragment included), "NA" when
   * there is none.
   */
  function ExtractChapterNumber(url: string): (r: string)
    ensures r == "NA" || IsDigits(r)
    ensures r == "NA" <==> TrailingNumber(url, Integer).None?
  {
    match TrailingNumber(url, Integer)
    case Some(n) => assert n == "NA" ==> !IsDigit(n[0]); n
    case None => "NA"
  }

  // ----- titles -----

  /** The character as `re.sub(r"[^a-z0-9 ]+", " ", ..., flags=re.I)` leaves it, after '_' and '-' became spaces. */
  function TitleChar(c: char): (d: char)
    ensures IsAlnum(d) || d == ' '
  {
    if IsAlnum(c) then c else ' '
  }

  /** `str.title()` on ASCII text: a letter after a non-letter is upper case, any other letter lower case. */
  function TitleCase(s: string): (r: string)
    ensures |r| == |s|
    ensures forall i :: 0 <= i < |s| ==> IsLetter(r[i]) == IsLetter(s[i]) && IsDigit(r[i]) == IsDigit(s[i])
    ensures forall i :: 0 <= i < |s| && !IsLetter(s[i]) ==> r[i] == s[i]
    ensures forall i :: 0 <= i < |s| && IsLetter(s[i]) ==>
      if i == 0 || !IsLetter(s[i - 1]) then IsUpper(r[i]) else IsLower(r[i])
  {
    seq(|s|, i requires 0 <= i < |s| => TitleAt(s, i))
  }

  /** Character `i` of `str.title()`: a letter upper case when it starts a word, else lower case. */
  function TitleAt(s: string, i: nat): (d: char)
    requires i < |s|
    ensures IsLetter(d) == IsLetter(s[i]) && IsDigit(d) == IsDigit(s[i])
    ensures !IsLetter(s[i]) ==> d == s[i]
    ensures IsLetter(s[i]) ==> if i == 0 || !IsLetter(s[i - 1]) then IsUpper(d) else IsLower(d)
  {
    if !IsLetter(s[i]) then s[i]
    else if i == 0 || !IsLetter(s[i - 1]) then ToUpperChar(s[i])
    else ToLowerChar(s[i])
  }

  /** The slug `derive_title_from_url` starts from. */
  function TitleCandidate(u: Url): string
  {
    var parts := Fields(u.Path(), IsSlash);
    if |parts| >= 3 && Lower(parts[0]) == "leer" then parts[2]
    else if |parts| >= 2 then parts[|parts| - 2]
    else if |parts| == 1 then parts[0]
    else if u.Netloc() != "" then u.Netloc()
    else "Chapter"
  }

  predicate SingleSpaced(s: string)
  {
    forall i :: 0 <= i < |s| - 1 ==> !(s[i] == ' ' && s[i + 1] == ' ')
  }

  lemma {:induction false} JoinWords(words: seq<string>)
    requires forall w :: w in words ==> w != [] && NoneOf(w, IsSpace) && forall c :: c in w ==> IsAlnum(c)
    ensures var r := Join(words, ' ');
      (r == [] <==> words == []) &&
      (forall c :: c in r ==> IsAlnum(c) || c == ' ') &&
      (r == [] || (r[0] != ' ' && r[|r| - 1] != ' ')) &&
      SingleSpaced(r)
    decreases |words|
  {
    if |words| >= 2 {
      var rest := Join(words[1..], ' ');
      assert forall w :: w in words[1..] ==> w in words;
      JoinWords(words[1..]);
      var w := words[0];
      assert words[0] in words;
      var r := w + [' '] + rest;
      assert r == Join(words, ' ');
      assert forall c :: c in r ==> c in w || c == ' ' || c in rest;
      assert w[|w| - 1] in w && rest[0] != ' ';
      assert forall i :: |w| + 1 <= i < |r| ==> r[i] == rest[i - |w| - 1];
    } else if |words| == 1 {
      assert words[0] in words;
      assert words[0][0] in words[0] && words[0][|words[0]| - 1] in words[0];
    }
  }

  /** The slug with every character other than a letter or digit made a space. */
  function CleanedSlug(slug: string): (r: string)
    ensures |r| == |slug|
    ensures forall c :: c in r ==> IsAlnum(c) || c == ' '
  {
    seq(|slug|, i requires 0 <= i < |slug| => TitleChar(slug[i]))
  }

  /** The words of the cleaned slug joined by single spaces. */
  function TitleWords(slug: string): (r: string)
    ensures forall c :: c in r ==> IsAlnum(c) || c == ' '
    ensures r == [] || (r[0] != ' ' && r[|r| - 1] != ' ')
    ensures SingleSpaced(r)
  {
    var cleaned := CleanedSlug(slug);
    var words := Fields(cleaned, IsSpace);
    assert forall w :: w in words ==> forall c :: c in w ==> IsAlnum(c) by {
      assert forall c :: c in cleaned ==> IsAlnum(c) || c == ' ';
    }
    JoinWords(words);
    Join(words, ' ')
  }

  /** Title-casing changes no space and makes no new one. */
  lemma TitleCaseKeeps(s: string)
    requires forall c :: c in s ==> IsAlnum(c) || c == ' '
    requires s != [] && s[0] != ' ' && s[|s| - 1] != ' ' && SingleSpaced(s)
    ensures var r := TitleCase(s);
      (forall c :: c in r ==> IsAlnum(c) || c == ' ') &&
      r != [] && r[0] != ' ' && r[|r| - 1] != ' ' && SingleSpaced(r)
  {
    var r := TitleCase(s);
    assert forall i :: 0 <= i < |r| ==> (r[i] == ' ' <==> s[i] == ' ') by {
      forall i | 0 <= i < |r|
        ensures r[i] == ' ' <==> s[i] == ' '
      {
        assert s[i] in s;
      }
    }
    forall c | c in r
      ensures IsAlnum(c) || c == ' '
    {
      var i :| 0 <= i < |r| && r[i] == c;
      assert s[i] in s;
    }
  }

  /**
   * `derive_title_from_url`: "Chapter" for the empty link; otherwise the
   * slug with every run of other characters made one space, trimmed and
   * title-cased, or "Chapter" when nothing is left.
   */
  function DeriveTitle(u: Url): (r: string)
    ensures r != ""
    ensures u.Empty? ==> r == "Chapter"
    ensures forall c :: c in r ==> IsAlnum(c) || c == ' '
    ensures r[0] != ' ' && r[|r| - 1] != ' ' && SingleSpaced(r)
  {
    if u.Empty? then "Chapter"
    else
      var joined := TitleWords(TitleCandidate(u));
      if joined == "" then "Chapter"
      else
        TitleCaseKeeps(joined);
        TitleCase(joined)
  }

  /** A `/leer/<a>/<b>/...` link is titled after its third segment `<b>`. */
  lemma DeriveTitleLeer(u: Url)
    requires u.Parsed?
    requires var parts := Fields(u.path, IsSlash);
      |parts| >= 3 && Lower(parts[0]) == "leer" && TitleWords(parts[2]) != ""
    ensures DeriveTitle(u) == TitleCase(TitleWords(Fields(u.path, IsSlash)[2]))
  {
  }

  /** Any other link with two or more segments is titled after the second-to-last one. */
  lemma DeriveTitleSecondLast(u: Url)
    requires u.Parsed?
    requires var parts := Fields(u.path, IsSlash);
      |parts| >= 2 && !(|parts| >= 3 && Lower(parts[0]) == "leer") && TitleWords(parts[|parts| - 2]) != ""
    ensures var parts := Fields(u.path, IsSlash);
      DeriveTitle(u) == TitleCase(TitleWords(parts[|parts| - 2]))
  {
  }
}
