/**
 * De-duplication and download planning of the bot's downloader: the
 * order-preserving unique list, page de-duplication of image targets, the
 * chapter-token order and the "next N chapters" plan that wraps around the
 * list of available chapters.
 */
module Planning {
  import opened Wrappers
  import opened Sequences
  import opened Tokens

  predicate NonEmpty(s: string) { s != "" }

  function Same(s: string): string { s }

  lemma KeysSame(s: seq<string>)
    ensures Keys(s, Same) == s
  {
  }

  // ----- _unique_preserve -----

  /** The non-empty items, each once, where it first occurs. */
  function Unique(items: seq<string>): seq<string>
  {
    FirstPerKey(Filter(items, NonEmpty), Same)
  }

  /** One more item: appended exactly when it is non-empty and new. */
  lemma UniqueSnoc(s: seq<string>, x: string)
    ensures Unique(s + [x]) == if x != "" && x !in Unique(s) then Unique(s) + [x] else Unique(s)
  {
    assert (s + [x])[..|s|] == s;
    var f := Filter(s, NonEmpty);
    KeysSame(FirstPerKey(f, Same));
    if x != "" {
      assert Filter(s + [x], NonEmpty) == f + [x];
      FirstPerKeySnoc(f, x, Same);
    } else {
      assert Filter(s + [x], NonEmpty) == f;
    }
  }

  lemma UniqueMembers(items: seq<string>)
    ensures forall x :: x in Unique(items) <==> x in items && x != ""
  {
    FirstPerKeyKeys(Filter(items, NonEmpty), Same);
    FilterMembers(items, NonEmpty);
    KeysSame(Unique(items));
    KeysSame(Filter(items, NonEmpty));
  }

  /**
   * `_unique_preserve` keeps exactly the non-empty items, none twice, in the
   * order of their first occurrences.
   */
  lemma UniqueProperties(items: seq<string>)
    ensures Distinct(Unique(items))
    ensures forall x :: x in Unique(items) <==> x in items && x != ""
    ensures forall i, j :: 0 <= i < j < |Unique(items)| ==>
      Unique(items)[i] in items && Unique(items)[j] in items &&
      FirstIndex(items, Unique(items)[i]) < FirstIndex(items, Unique(items)[j])
  {
    var f := Filter(items, NonEmpty);
    var r := Unique(items);
    FilterMembers(items, NonEmpty);
    FirstPerKeyKeys(f, Same);
    FirstPerKeyFirst(f, Same);
    KeysSame(r);
    KeysSame(f);
    forall i, j | 0 <= i < j < |r|
      ensures r[i] in items && r[j] in items && FirstIndex(items, r[i]) < FirstIndex(items, r[j])
    {
      assert r[i] in r && r[j] in r;
      FilterFirstIndex(items, NonEmpty, r[i], r[j]);
    }
  }

  /** A list of distinct non-empty items is its own unique list. */
  lemma {:induction false} UniqueOfDistinct(s: seq<string>)
    requires Distinct(s) && "" !in s
    ensures Unique(s) == s
    decreases |s|
  {
    if s != [] {
      var s' := s[..|s| - 1];
      assert s == s' + [s[|s| - 1]];
      UniqueOfDistinct(s');
      UniqueSnoc(s', s[|s| - 1]);
    }
  }

  lemma UniqueSnocNew(t: seq<string>, x: string)
    requires x != "" && x !in t
    ensures Unique(t + [x]) == Unique(t) + [x]
  {
    UniqueMembers(t);
    UniqueSnoc(t, x);
  }

  /** Items that are all new are appended as they are. */
  lemma {:induction false} UniqueExtend(s: seq<string>, b: seq<string>)
    requires Distinct(b) && "" !in b
    requires forall x :: x in b ==> x !in s
    ensures Unique(s + b) == Unique(s) + b
    decreases |b|
  {
    if b == [] {
      assert s + b == s;
    } else {
      var b' := b[..|b| - 1];
      var x := b[|b| - 1];
      assert forall k :: 0 <= k < |b'| ==> b'[k] == b[k];
      assert Distinct(b');
      assert forall y :: y in b' ==> y in b;
      UniqueExtend(s, b');
      assert x !in b';
      assert x in b;
      UniqueSnocNew(s + b', x);
      AppendSplit(s, b);
      AppendSplit(Unique(s), b);
    }
  }

  /** Items that are all already kept change nothing. */
  lemma {:induction false} UniqueAbsorb(s: seq<string>, b: seq<string>)
    requires forall x :: x in b ==> x in Unique(s)
    ensures Unique(s + b) == Unique(s)
    decreases |b|
  {
    if b != [] {
      var b' := b[..|b| - 1];
      AppendSplit(s, b);
      UniqueAbsorb(s, b');
      UniqueSnoc(s + b', b[|b| - 1]);
    } else {
      assert s + b == s;
    }
  }

  /** `_unique_preserve`: one pass with a `seen` set. */
  method UniquePreserve(items: seq<string>) returns (out: seq<string>)
    ensures out == Unique(items)
  {
    var seen: set<string> := {};
    out := [];
    for i := 0 to |items|
      invariant out == Unique(items[..i])
      invariant forall x :: x in seen <==> x in out
    {
      var item := items[i];
      assert items[..i + 1] == items[..i] + [item];
      UniqueSnoc(items[..i], item);
      if item != "" && item !in seen {
        seen := seen + {item};
        out := out + [item];
      }
    }
    assert items[..|items|] == items;
  }

  // ----- _sort_chapter_tokens -----

  /**
   * The sort key `(dec is None, dec or 0)`: chapter tokens by their value,
   * then every other text, all equal to each other.
   */
  predicate ChapterKeyLe(a: string, b: string)
  {
    match (TokenDecimal(a), TokenDecimal(b))
    case (Some(x), Some(y)) => x <= y
    case (Some(_), None) => true
    case (None, Some(_)) => false
    case (None, None) => true
  }

  lemma ChapterKeyTotal()
    ensures TotalPreorder(ChapterKeyLe)
  {
  }

  /** `_sort_chapter_tokens`: sorted by chapter value, then made unique. */
  function ChapterOrder(tokens: seq<string>): (r: seq<string>)
  {
    ChapterKeyTotal();
    Unique(SortBy(tokens, ChapterKeyLe))
  }

  /** The chapter order is sorted, holds each non-empty token once, and nothing else. */
  lemma ChapterOrderProperties(tokens: seq<string>)
    ensures SortedBy(ChapterOrder(tokens), ChapterKeyLe)
    ensures Distinct(ChapterOrder(tokens)) && "" !in ChapterOrder(tokens)
    ensures forall x :: x in ChapterOrder(tokens) <==> x in tokens && x != ""
  {
    ChapterKeyTotal();
    var s := SortBy(tokens, ChapterKeyLe);
    UniqueProperties(s);
    FilterSorted(s, NonEmpty, ChapterKeyLe);
    FirstPerKeySorted(Filter(s, NonEmpty), Same, ChapterKeyLe);
    assert forall x :: x in s <==> x in multiset(s);
  }

  method SortChapterTokens(tokens: seq<string>) returns (r: seq<string>)
    ensures r == ChapterOrder(tokens)
  {
    ChapterKeyTotal();
    r := UniquePreserve(SortBy(tokens, ChapterKeyLe));
  }

  function Min(a: int, b: int): int { if a <= b then a else b }

  function Max(a: int, b: int): int { if a >= b then a else b }

  // ----- dedupe_targets_by_page -----

  /** An image of a reader page: its page number and its cache key. */
  datatype Target = Target(page: int, key: string)

  predicate Usable(t: Target) { t.page > 0 && t.key != "" }

  function PageOf(t: Target): int { t.page }

  /** How many of `m` entries a limit lets through: the loop stops only after an append. */
  function Cap(limit: Option<int>, m: nat): nat
  {
    if limit.None? then m else Min(m, Max(limit.value, 1))
  }

  /** The usable targets, the first one per page, cut at the limit. */
  function PageTargets(targets: seq<Target>, limit: Option<int>): seq<Target>
  {
    var f := FirstPerKey(Filter(targets, Usable), PageOf);
    f[..Cap(limit, |f|)]
  }

  /** `dedupe_targets_by_page` keeps only usable targets it was given, each page once. */
  lemma PageTargetsUsable(targets: seq<Target>, limit: Option<int>)
    ensures forall t :: t in PageTargets(targets, limit) ==> Usable(t) && t in targets
    ensures Distinct(Keys(PageTargets(targets, limit), PageOf))
  {
    var u := Filter(targets, Usable);
    var f := FirstPerKey(u, PageOf);
    var r := PageTargets(targets, limit);
    FilterMembers(targets, Usable);
    FirstPerKeyKeys(u, PageOf);
    assert forall t :: t in r ==> t in f;
    KeysPrefix(f, |r|, PageOf);
  }

  /** Never more than the limit, or one for a limit below one; without a limit, every usable page. */
  lemma PageTargetsBound(targets: seq<Target>, limit: Option<int>)
    ensures limit.Some? ==> |PageTargets(targets, limit)| <= Max(limit.value, 1)
    ensures limit.None? ==> forall t :: t in targets && Usable(t) ==> t.page in Keys(PageTargets(targets, limit), PageOf)
  {
    if limit.None? {
      var u := Filter(targets, Usable);
      FilterMembers(targets, Usable);
      FirstPerKeyKeys(u, PageOf);
      forall t | t in targets && Usable(t)
        ensures t.page in Keys(u, PageOf)
      {
        KeysHas(u, t, PageOf);
      }
    }
  }

  /**
   * Each kept target is the first usable target of its page, and the kept
   * targets come in the order in which their pages first occur.
   */
  lemma PageTargetsFirst(targets: seq<Target>, limit: Option<int>)
    ensures var u := Filter(targets, Usable);
      forall j :: 0 <= j < |PageTargets(targets, limit)| ==>
        PageTargets(targets, limit)[j].page in Keys(u, PageOf) &&
        PageTargets(targets, limit)[j] == u[FirstIndex(Keys(u, PageOf), PageTargets(targets, limit)[j].page)]
    ensures var u := Filter(targets, Usable);
      forall i, j :: 0 <= i < j < |PageTargets(targets, limit)| ==>
        PageTargets(targets, limit)[i].page in Keys(u, PageOf) && PageTargets(targets, limit)[j].page in Keys(u, PageOf) &&
        FirstIndex(Keys(u, PageOf), PageTargets(targets, limit)[i].page) < FirstIndex(Keys(u, PageOf), PageTargets(targets, limit)[j].page)
  {
    var u := Filter(targets, Usable);
    var f := FirstPerKey(u, PageOf);
    var r := PageTargets(targets, limit);
    FirstPerKeyFirst(u, PageOf);
    assert forall j :: 0 <= j < |r| ==> r[j] == f[j];
  }

  /** Targets before position `i` keep a prefix of what all targets keep. */
  lemma PageTargetsPrefix(targets: seq<Target>, i: nat)
    requires i <= |targets|
    ensures var g := FirstPerKey(Filter(targets[..i], Usable), PageOf);
      var f := FirstPerKey(Filter(targets, Usable), PageOf);
      |g| <= |f| && f[..|g|] == g
  {
    assert targets == targets[..i] + targets[i..];
    FilterAppend(targets[..i], targets[i..], Usable);
    FirstPerKeyPrefix(Filter(targets[..i], Usable), Filter(targets[i..], Usable), PageOf);
  }

  /** Stopping once the limit is reached leaves exactly the capped result. */
  lemma PageTargetsCut(targets: seq<Target>, i: nat, limit: Option<int>)
    requires i <= |targets| && limit.Some?
    requires |FirstPerKey(Filter(targets[..i], Usable), PageOf)| == Max(limit.value, 1)
    ensures FirstPerKey(Filter(targets[..i], Usable), PageOf) == PageTargets(targets, limit)
  {
    PageTargetsPrefix(targets, i);
  }

  /** Finishing the pass below the limit leaves everything kept. */
  lemma PageTargetsWhole(targets: seq<Target>, limit: Option<int>)
    requires limit.Some? ==> |FirstPerKey(Filter(targets, Usable), PageOf)| < Max(limit.value, 1)
    ensures FirstPerKey(Filter(targets, Usable), PageOf) == PageTargets(targets, limit)
  {
  }

  /** What the loop has kept after `i` targets: one step per target. */
  function KeptBefore(targets: seq<Target>, i: nat): seq<Target>
    requires i <= |targets|
    decreases i
  {
    if i == 0 then []
    else
      var d := KeptBefore(targets, i - 1);
      var t := targets[i - 1];
      if Usable(t) && t.page !in Keys(d, PageOf) then d + [t] else d
  }

  /** The loop's steps keep the first usable target of each page. */
  lemma {:induction false} KeptBeforeFirst(targets: seq<Target>, i: nat)
    requires i <= |targets|
    ensures KeptBefore(targets, i) == FirstPerKey(Filter(targets[..i], Usable), PageOf)
    decreases i
  {
    if i > 0 {
      KeptBeforeFirst(targets, i - 1);
      PageTargetsStep(targets, i);
    }
  }

  /** A pass stopped when the limit is reached has kept the capped result. */
  lemma KeptBeforeCut(targets: seq<Target>, i: nat, limit: Option<int>)
    requires i <= |targets| && limit.Some?
    requires |KeptBefore(targets, i)| == Max(limit.value, 1)
    ensures KeptBefore(targets, i) == PageTargets(targets, limit)
  {
    KeptBeforeFirst(targets, i);
    PageTargetsCut(targets, i, limit);
  }

  /** A pass that ends below the limit has kept the capped result too. */
  lemma KeptBeforeWhole(targets: seq<Target>, limit: Option<int>)
    requires limit.Some? ==> |KeptBefore(targets, |targets|)| < Max(limit.value, 1)
    ensures KeptBefore(targets, |targets|) == PageTargets(targets, limit)
  {
    KeptBeforeFirst(targets, |targets|);
    assert targets[..|targets|] == targets;
    PageTargetsWhole(targets, limit);
  }

  /** One more target: kept exactly when it is usable and its page is new. */
  lemma PageTargetsStep(s: seq<Target>, i: nat)
    requires 0 < i <= |s|
    ensures var d := FirstPerKey(Filter(s[..i - 1], Usable), PageOf);
      FirstPerKey(Filter(s[..i], Usable), PageOf) ==
        if Usable(s[i - 1]) && s[i - 1].page !in Keys(d, PageOf) then d + [s[i - 1]] else d
  {
    assert s[..i] == s[..i - 1] + [s[i - 1]];
    assert s[..i][..i - 1] == s[..i - 1];
    if Usable(s[i - 1]) {
      FirstPerKeySnoc(Filter(s[..i - 1], Usable), s[i - 1], PageOf);
    }
  }

  /** `dedupe_targets_by_page`: one pass with a set of seen pages and an optional limit. */
  method DedupeTargetsByPage(targets: seq<Target>, limit: Option<int>) returns (deduped: seq<Target>)
    ensures deduped == PageTargets(targets, limit)
  {
    var seenPages: set<int> := {};
    deduped := [];
    for i := 0 to |targets|
      invariant deduped == KeptBefore(targets, i)
      invariant forall p :: p in seenPages <==> p in Keys(deduped, PageOf)
      invariant limit.Some? ==> |deduped| < Max(limit.value, 1)
    {
      var t := targets[i];
      if t.page > 0 && t.key != "" && t.page !in seenPages {
        KeysSnoc(deduped, t, PageOf);
        deduped := deduped + [t];
        seenPages := seenPages + {t.page};
        if limit.Some? && |deduped| >= limit.value {
          KeptBeforeCut(targets, i + 1, limit);
          return;
        }
      }
    }
    KeptBeforeWhole(targets, limit);
  }

  // ----- collect_ordered_targets -----

  predicate PageLe(a: Target, b: Target) { a.page <= b.page }

  predicate HasKey(t: Target) { t.key != "" }

  function KeyOf(t: Target): string { t.key }

  lemma PageLeTotal()
    ensures TotalPreorder(PageLe)
  {
  }

  /** Sorted by page (stable), then the first target per non-empty key. */
  function OrderedTargets(items: seq<Target>): seq<Target>
  {
    PageLeTotal();
    FirstPerKey(Filter(SortBy(items, PageLe), HasKey), KeyOf)
  }

  /**
   * `collect_ordered_targets` returns targets sorted by page, with distinct
   * non-empty keys, the first target per key in page order, and only
   * targets it was given.
   */
  lemma OrderedTargetsProperties(items: seq<Target>)
    ensures SortedBy(OrderedTargets(items), PageLe)
    ensures Distinct(Keys(OrderedTargets(items), KeyOf))
    ensures forall t :: t in OrderedTargets(items) ==> t in items && t.key != ""
    ensures forall t :: t in items && t.key != "" ==> t.key in Keys(OrderedTargets(items), KeyOf)
  {
    PageLeTotal();
    var s := SortBy(items, PageLe);
    var u := Filter(s, HasKey);
    FilterMembers(s, HasKey);
    FilterSorted(s, HasKey, PageLe);
    FirstPerKeySorted(u, KeyOf, PageLe);
    FirstPerKeyKeys(u, KeyOf);
    assert forall t :: t in s <==> t in multiset(s);
    forall t | t in items && t.key != ""
      ensures t.key in Keys(OrderedTargets(items), KeyOf)
    {
      assert t in multiset(items);
      assert t in u;
      var k :| 0 <= k < |u| && u[k] == t;
      assert Keys(u, KeyOf)[k] == t.key;
    }
  }

  /** One more target: kept exactly when its key is non-empty and new. */
  lemma KeyedStep(s: seq<Target>, i: nat)
    requires i < |s|
    ensures var d := FirstPerKey(Filter(s[..i], HasKey), KeyOf);
      FirstPerKey(Filter(s[..i + 1], HasKey), KeyOf) ==
        if HasKey(s[i]) && s[i].key !in Keys(d, KeyOf) then d + [s[i]] else d
  {
    assert s[..i + 1] == s[..i] + [s[i]];
    assert s[..i + 1][..i] == s[..i];
    if HasKey(s[i]) {
      FirstPerKeySnoc(Filter(s[..i], HasKey), s[i], KeyOf);
    }
  }

  /** The loop of `collect_ordered_targets` over the page-sorted items, with a `seen` set. */
  method CollectOrderedTargets(items: seq<Target>) returns (ordered: seq<Target>)
    ensures ordered == OrderedTargets(items)
  {
    PageLeTotal();
    var sorted := SortBy(items, PageLe);
    var seen: set<string> := {};
    ordered := [];
    for i := 0 to |sorted|
      invariant ordered == FirstPerKey(Filter(sorted[..i], HasKey), KeyOf)
      invariant forall k :: k in seen <==> k in Keys(ordered, KeyOf)
    {
      var it := sorted[i];
      KeyedStep(sorted, i);
      if it.key != "" && it.key !in seen {
        KeysSnoc(ordered, it, KeyOf);
        ordered := ordered + [it];
        seen := seen + {it.key};
      }
    }
    assert sorted[..|sorted|] == sorted;
  }

  // ----- nextN planning in run_download_job -----

  /** `if start_token`: a token is present and non-empty. */
  predicate Truthy(start: Option<string>) { start.Some? && start.value != "" }

  /**
   * `available` as the planner uses it: the fetched tokens in chapter order,
   * with the start token inserted and the list re-sorted when it is missing.
   */
  function Available(fetched: seq<string>, start: Option<string>): seq<string>
  {
    var a := ChapterOrder(fetched);
    if Truthy(start) && start.value !in a then ChapterOrder([start.value] + a) else a
  }

  /** The available list holds exactly the fetched tokens and a present start token. */
  lemma AvailableProperties(fetched: seq<string>, start: Option<string>)
    ensures Distinct(Available(fetched, start)) && "" !in Available(fetched, start)
    ensures SortedBy(Available(fetched, start), ChapterKeyLe)
    ensures Truthy(start) ==> start.value in Available(fetched, start)
    ensures forall x :: x in Available(fetched, start) <==>
      (x in fetched && x != "") || (Truthy(start) && x == start.value)
  {
    var a := ChapterOrder(fetched);
    ChapterOrderProperties(fetched);
    if Truthy(start) && start.value !in a {
      ChapterOrderProperties([start.value] + a);
    }
  }

  /** The list read from position `idx` to its end and then from its front. */
  function Rotation(a: seq<string>, idx: nat): seq<string>
    requires idx <= |a|
  {
    a[idx..] + a[..idx]
  }

  /** Position `i` of the rotation is position `idx + i` of the list, wrapping round. */
  function Wrapped(a: seq<string>, idx: nat, i: nat): string
    requires idx < |a| && i < |a|
  {
    if idx + i < |a| then a[idx + i] else a[idx + i - |a|]
  }

  lemma RotationAt(a: seq<string>, idx: nat, i: nat)
    requires idx < |a| && i < |a|
    ensures Rotation(a, idx)[i] == Wrapped(a, idx, i)
  {
    if idx + i < |a| {
      assert Rotation(a, idx)[i] == a[idx..][i];
    } else {
      assert Rotation(a, idx)[i] == a[..idx][idx + i - |a|];
    }
  }

  /**
   * What the planner promises: with a start token and n >= 1, n chapters
   * (or all of them when there are fewer) going round the sorted list from the
   * start token; with n == 0 only the start token; without a start token the
   * first n chapters of the sorted list.
   */
  function NextNPlan(fetched: seq<string>, start: Option<string>, n: nat): seq<string>
  {
    AvailableStart(fetched, start);
    PlanOver(Available(fetched, start), start, n)
  }

  /** The plan over a given available list that holds a present start token. */
  function PlanOver(a: seq<string>, start: Option<string>, n: nat): seq<string>
    requires Truthy(start) ==> start.value in a
  {
    if Truthy(start) then
      if n == 0 then [start.value]
      else Rotation(a, FirstIndex(a, start.value))[..Min(n, |a|)]
    else a[..Min(n, |a|)]
  }

  lemma DistinctSlice(a: seq<string>, i: nat, j: nat)
    requires Distinct(a) && "" !in a && i <= j <= |a|
    ensures Distinct(a[i..j]) && "" !in a[i..j]
  {
    assert forall x :: x in a[i..j] ==> x in a;
  }

  /** A rotation cut short before it comes back to its start has no repeats. */
  lemma DistinctRotation(a: seq<string>, idx: nat, j: nat)
    requires Distinct(a) && "" !in a && j <= idx <= |a|
    ensures Distinct(a[idx..] + a[..j]) && "" !in a[idx..] + a[..j]
  {
    var r := a[idx..] + a[..j];
    forall p, q | 0 <= p < q < |r|
      ensures r[p] != r[q]
    {
      var p' := if p < |a| - idx then idx + p else p - (|a| - idx);
      var q' := if q < |a| - idx then idx + q else q - (|a| - idx);
      assert r[p] == a[p'] && r[q] == a[q'];
    }
    assert forall x :: x in r ==> x in a;
  }

  lemma RotationPrefix(a: seq<string>, idx: nat, k: nat)
    requires idx + k <= |a|
    ensures Rotation(a, idx)[..k] == a[idx..idx + k]
  {
  }

  lemma RotationWrapped(a: seq<string>, idx: nat, j: nat)
    requires j <= idx <= |a|
    ensures Rotation(a, idx)[..|a| - idx + j] == a[idx..] + a[..j]
  {
  }

  /** The slices the planner takes when it runs past the end of the list and wraps. */
  lemma WrappedUnique(a: seq<string>, idx: nat, k: nat)
    requires Distinct(a) && "" !in a && idx <= |a| && k <= |a|
    ensures Unique(a[idx..] + a[..k]) == a[idx..] + a[..Min(k, idx)]
  {
    var j := Min(k, idx);
    DistinctRotation(a, idx, j);
    UniqueOfDistinct(a[idx..] + a[..j]);
    var rest := a[j..k];
    assert a[..k] == a[..j] + rest;
    assert a[idx..] + a[..k] == (a[idx..] + a[..j]) + rest;
    UniqueMembers(a[idx..] + a[..j]);
    assert forall x :: x in rest ==> x in a[idx..];
    UniqueAbsorb(a[idx..] + a[..j], rest);
  }

  lemma RotationMembers(a: seq<string>, idx: nat, m: nat)
    requires Distinct(a) && "" !in a && idx <= |a| && m <= |a|
    ensures Distinct(Rotation(a, idx)[..m]) && "" !in Rotation(a, idx)[..m]
    ensures forall x :: x in Rotation(a, idx)[..m] ==> x in a
    ensures m == |a| ==> forall x :: x in a ==> x in Rotation(a, idx)[..m]
  {
    var r := Rotation(a, idx);
    DistinctRotation(a, idx, idx);
    DistinctSlice(r, 0, m);
    assert forall x :: x in r[..m] ==> x in r;
    assert forall x :: x in r <==> x in a[idx..] || x in a[..idx];
    assert a == a[..idx] + a[idx..];
    if m == |a| {
      assert r[..m] == r;
    }
  }

  /** With a start token the plan begins with it, whatever n is. */
  lemma NextNPlanStart(fetched: seq<string>, start: Option<string>, n: nat)
    requires Truthy(start)
    ensures NextNPlan(fetched, start, n) != [] && NextNPlan(fetched, start, n)[0] == start.value
  {
    AvailableProperties(fetched, start);
    var a := Available(fetched, start);
    if n > 0 {
      var k := FirstIndex(a, start.value);
      assert Rotation(a, k)[0] == a[k];
    }
  }

  /**
   * The plan holds no chapter twice and no empty token, at most n of them (one
   * when n is 0), each fetched from the site or the start token itself.
   */
  lemma NextNPlanShape(fetched: seq<string>, start: Option<string>, n: nat)
    ensures Distinct(NextNPlan(fetched, start, n)) && "" !in NextNPlan(fetched, start, n)
    ensures |NextNPlan(fetched, start, n)| <= Max(n, 1)
    ensures forall x :: x in NextNPlan(fetched, start, n) ==>
      (x in fetched && x != "") || (Truthy(start) && x == start.value)
  {
    AvailableProperties(fetched, start);
    var a := Available(fetched, start);
    if Truthy(start) && n > 0 {
      RotationMembers(a, FirstIndex(a, start.value), Min(n, |a|));
    } else if !Truthy(start) {
      DistinctSlice(a, 0, Min(n, |a|));
      assert forall x :: x in a[..Min(n, |a|)] ==> x in a;
    }
  }

  /**
   * With a start token and n >= 1 the plan takes n chapters (all of them when
   * there are fewer) from the start token onwards, wrapping round to the front
   * of the sorted list.
   */
  lemma NextNPlanWraps(fetched: seq<string>, start: Option<string>, n: nat)
    requires Truthy(start) && n >= 1
    ensures var a := Available(fetched, start);
      start.value in a &&
      |NextNPlan(fetched, start, n)| == Min(n, |a|) &&
      forall i :: 0 <= i < |NextNPlan(fetched, start, n)| ==>
        NextNPlan(fetched, start, n)[i] == Wrapped(a, FirstIndex(a, start.value), i)
  {
    AvailableStart(fetched, start);
    var a := Available(fetched, start);
    var p := NextNPlan(fetched, start, n);
    assert p == PlanOver(a, start, n);
    PlanOverWraps(a, start, n);
    var k := FirstIndex(a, start.value);
    assert forall i :: 0 <= i < |p| ==> p[i] == Wrapped(a, k, i);
  }

  lemma AvailableStart(fetched: seq<string>, start: Option<string>)
    ensures Truthy(start) ==> start.value in Available(fetched, start)
  {
    AvailableProperties(fetched, start);
  }

  lemma PlanOverWraps(a: seq<string>, start: Option<string>, n: nat)
    requires Truthy(start) && start.value in a && n >= 1
    ensures |PlanOver(a, start, n)| == Min(n, |a|)
    ensures forall i :: 0 <= i < |PlanOver(a, start, n)| ==>
      PlanOver(a, start, n)[i] == Wrapped(a, FirstIndex(a, start.value), i)
  {
    RotationPrefixAt(a, FirstIndex(a, start.value), Min(n, |a|));
  }

  lemma RotationPrefixAt(a: seq<string>, k: nat, m: nat)
    requires k < |a| && m <= |a|
    ensures forall i :: 0 <= i < m ==> Rotation(a, k)[..m][i] == Wrapped(a, k, i)
  {
    forall i | 0 <= i < m
      ensures Rotation(a, k)[..m][i] == Wrapped(a, k, i)
    {
      RotationAt(a, k, i);
    }
  }

  /** When n covers the whole list, every available chapter is planned. */
  lemma NextNPlanCovers(fetched: seq<string>, start: Option<string>, n: nat)
    requires Truthy(start) && n >= |Available(fetched, start)|
    ensures forall x :: x in fetched && x != "" ==> x in NextNPlan(fetched, start, n)
  {
    AvailableProperties(fetched, start);
    var a := Available(fetched, start);
    RotationMembers(a, FirstIndex(a, start.value), |a|);
  }

  /** Without a start token the plan is the first n chapters of the sorted fetched list. */
  lemma NextNPlanNoStart(fetched: seq<string>, start: Option<string>, n: nat)
    requires !Truthy(start)
    ensures NextNPlan(fetched, start, n) <= ChapterOrder(fetched)
    ensures |NextNPlan(fetched, start, n)| == Min(n, |ChapterOrder(fetched)|)
  {
  }

  /** The slices taken from the start token, made unique and cut to n. */
  lemma PlanSlices(a: seq<string>, idx: nat, n: nat, s: seq<string>)
    requires Distinct(a) && "" !in a && idx < |a|
    requires s == if idx + n <= |a| then a[idx..idx + n] else a[idx..] + a[..Min(n - (|a| - idx), |a|)]
    ensures Unique(s)[..Min(n, |Unique(s)|)] == if n == 0 then [] else Rotation(a, idx)[..Min(n, |a|)]
  {
    if idx + n <= |a| {
      DistinctSlice(a, idx, idx + n);
      UniqueOfDistinct(s);
      RotationPrefix(a, idx, n);
    } else {
      var k := Min(n - (|a| - idx), |a|);
      WrappedUnique(a, idx, k);
      RotationWrapped(a, idx, Min(k, idx));
    }
  }

  /**
   * The nextN branch of `run_download_job` as written: `available` is sorted
   * and the start token inserted, `sequence` is sliced from the start token,
   * extended from the front when it falls short, made unique and cut to n.
   */
  method PlanNextN(fetched: seq<string>, start: Option<string>, n: nat) returns (sequence: seq<string>)
    ensures sequence == NextNPlan(fetched, start, n)
  {
    var available := InsertStart(fetched, start);
    AvailableProperties(fetched, start);
    sequence := SequenceFrom(available, start, n);
  }

  /** `available` is sorted, and re-sorted with the start token in front when it is missing. */
  method InsertStart(fetched: seq<string>, start: Option<string>) returns (available: seq<string>)
    ensures available == Available(fetched, start)
  {
    available := SortChapterTokens(fetched);
    if start.Some? && start.value != "" && start.value !in available {
      available := [start.value] + available;
      available := SortChapterTokens(available);
    }
  }

  /** `sequence` is built from the available list, with `[start_token]` as the fallback. */
  method SequenceFrom(available: seq<string>, start: Option<string>, n: nat) returns (sequence: seq<string>)
    requires Distinct(available) && "" !in available
    requires Truthy(start) ==> start.value in available
    ensures sequence == PlanOver(available, start, n)
  {
    var truthy := start.Some? && start.value != "";
    sequence := [];
    if truthy && start.value in available {
      var idx := FirstIndex(available, start.value);
      var len := |available|;
      sequence := available[idx..Min(idx + n, len)];
      if |sequence| < n {
        sequence := sequence + available[Min(idx + |sequence|, len)..];
        sequence := sequence + available[..Min(n - |sequence|, len)];
      }
      PlanSlices(available, idx, n, sequence);
      var u := UniquePreserve(sequence);
      sequence := u[..Min(n, |u|)];
    } else if available != [] {
      sequence := available[..Min(n, |available|)];
    }
    if sequence == [] {
      sequence := if truthy then [start.value] else [];
    }
  }
}
