/**
 * Facts about sequences shared by the de-duplicating loops and by the three
 * places that sort with Python's `sorted(..., key=...)`.
 */
module Sequences {

  predicate Distinct<T(==)>(s: seq<T>)
  {
    forall i, j :: 0 <= i < j < |s| ==> s[i] != s[j]
  }

  /** `s.index(x)`: the position of the first `x`. */
  function FirstIndex<T(==)>(s: seq<T>, x: T): (k: nat)
    requires x in s
    ensures k < |s| && s[k] == x
    ensures forall i :: 0 <= i < k ==> s[i] != x
    decreases |s|
  {
    if s[0] == x then 0 else 1 + FirstIndex(s[1..], x)
  }

  lemma {:induction false} FirstIndexSnoc<T>(s: seq<T>, y: T, x: T)
    requires x in s + [y]
    ensures FirstIndex(s + [y], x) == if x in s then FirstIndex(s, x) else |s|
    decreases |s|
  {
    if s != [] && s[0] != x {
      assert (s + [y])[1..] == s[1..] + [y];
      FirstIndexSnoc(s[1..], y, x);
    }
  }

  lemma AppendSplit<T>(s: seq<T>, b: seq<T>)
    requires b != []
    ensures s + b == (s + b[..|b| - 1]) + [b[|b| - 1]]
    ensures b == b[..|b| - 1] + [b[|b| - 1]]
  {
  }

  /** `[x for x in s if p(x)]`. */
  function Filter<T(!new)>(s: seq<T>, p: T -> bool): (r: seq<T>)
    ensures |r| <= |s|
    decreases |s|
  {
    if s == [] then []
    else
      var r := Filter(s[..|s| - 1], p);
      if p(s[|s| - 1]) then r + [s[|s| - 1]] else r
  }

  /** The filtered sequence holds exactly the items of `s` that satisfy `p`. */
  lemma {:induction false} FilterMembers<T(!new)>(s: seq<T>, p: T -> bool)
    ensures forall i :: 0 <= i < |Filter(s, p)| ==> p(Filter(s, p)[i])
    ensures forall x :: x in Filter(s, p) <==> x in s && p(x)
    decreases |s|
  {
    if s != [] {
      FilterMembers(s[..|s| - 1], p);
      assert forall x :: x in s <==> x in s[..|s| - 1] || x == s[|s| - 1] by {
        assert s == s[..|s| - 1] + [s[|s| - 1]];
      }
    }
  }

  lemma {:induction false} FilterAppend<T(!new)>(a: seq<T>, b: seq<T>, p: T -> bool)
    ensures Filter(a + b, p) == Filter(a, p) + Filter(b, p)
    decreases |b|
  {
    if b == [] {
      assert a + b == a;
    } else {
      var b' := b[..|b| - 1];
      assert (a + b)[..|a + b| - 1] == a + b';
      FilterAppend(a, b', p);
    }
  }

  /** `{f(x) for x in s if p(x)}`. */
  function Gather<T(!new), U(!new)>(s: seq<T>, p: T -> bool, f: T -> U): set<U>
    decreases |s|
  {
    if s == [] then {}
    else
      var r := Gather(s[..|s| - 1], p, f);
      if p(s[|s| - 1]) then r + {f(s[|s| - 1])} else r
  }

  /** One more item of `s` gathered. */
  lemma GatherStep<T(!new), U(!new)>(s: seq<T>, i: nat, p: T -> bool, f: T -> U)
    requires i < |s|
    ensures Gather(s[..i + 1], p, f) == if p(s[i]) then Gather(s[..i], p, f) + {f(s[i])} else Gather(s[..i], p, f)
  {
    assert s[..i + 1][..i] == s[..i];
  }

  /** The gathered set holds exactly the images of the items that satisfy `p`. */
  lemma {:induction false} GatherMembers<T(!new), U(!new)>(s: seq<T>, p: T -> bool, f: T -> U)
    ensures forall u :: u in Gather(s, p, f) <==> exists i :: 0 <= i < |s| && p(s[i]) && f(s[i]) == u
    decreases |s|
  {
    if s != [] {
      var init := s[..|s| - 1];
      GatherMembers(init, p, f);
      assert forall i :: 0 <= i < |init| ==> init[i] == s[i];
    }
  }

  function Keys<T(!new), K(!new)>(s: seq<T>, key: T -> K): (r: seq<K>)
    ensures |r| == |s|
    ensures forall i :: 0 <= i < |s| ==> r[i] == key(s[i])
  {
    seq(|s|, i requires 0 <= i < |s| => key(s[i]))
  }

  lemma KeysSnoc<T(!new), K(!new)>(s: seq<T>, x: T, key: T -> K)
    ensures Keys(s + [x], key) == Keys(s, key) + [key(x)]
  {
  }

  /** One more item of `s` mapped. */
  lemma KeysStep<T(!new), K(!new)>(s: seq<T>, i: nat, key: T -> K)
    requires i < |s|
    ensures Keys(s[..i + 1], key) == Keys(s[..i], key) + [key(s[i])]
  {
    assert s[..i + 1] == s[..i] + [s[i]];
    KeysSnoc(s[..i], s[i], key);
  }

  /** `[f(x) for x in s if p(x)]` grows by one input item. */
  lemma KeysFilterSnoc<T(!new), K(!new)>(s: seq<T>, x: T, p: T -> bool, f: T -> K)
    ensures Keys(Filter(s + [x], p), f) ==
      if p(x) then Keys(Filter(s, p), f) + [f(x)] else Keys(Filter(s, p), f)
  {
    assert (s + [x])[..|s|] == s;
    KeysSnoc(Filter(s, p), x, f);
  }

  /** Every item's key is among the keys. */
  lemma KeysHas<T(!new), K(!new)>(s: seq<T>, x: T, key: T -> K)
    requires x in s
    ensures key(x) in Keys(s, key)
  {
    var k :| 0 <= k < |s| && s[k] == x;
    assert Keys(s, key)[k] == key(x);
  }

  lemma KeysPrefix<T(!new), K(!new)>(s: seq<T>, n: nat, key: T -> K)
    requires n <= |s|
    ensures Keys(s[..n], key) == Keys(s, key)[..n]
  {
  }

  /**
   * The items of `s` whose key has not been seen before, in input order:
   * what a loop with a `seen` set, a `setdefault` on a dict, or a cache that
   * stores a key only the first time builds.
   */
  function FirstPerKey<T(!new), K(==,!new)>(s: seq<T>, key: T -> K): (r: seq<T>)
    ensures |r| <= |s|
    decreases |s|
  {
    if s == [] then []
    else
      var r := FirstPerKey(s[..|s| - 1], key);
      if key(s[|s| - 1]) in Keys(r, key) then r else r + [s[|s| - 1]]
  }

  /** Keeps a key exactly when the input has it, and each key once. */
  lemma {:induction false} FirstPerKeyKeys<T(!new), K(!new)>(s: seq<T>, key: T -> K)
    ensures forall k :: k in Keys(FirstPerKey(s, key), key) <==> k in Keys(s, key)
    ensures Distinct(Keys(FirstPerKey(s, key), key))
    ensures forall x :: x in FirstPerKey(s, key) ==> x in s
    decreases |s|
  {
    if s != [] {
      var s' := s[..|s| - 1];
      var x := s[|s| - 1];
      var r := FirstPerKey(s', key);
      FirstPerKeyKeys(s', key);
      assert s == s' + [x];
      KeysSnoc(s', x, key);
      if key(x) !in Keys(r, key) {
        KeysSnoc(r, x, key);
      }
    }
  }

  /**
   * Each kept item is the first input item with its key, and the kept items
   * come in the order of their first occurrences.
   */
  lemma {:induction false} FirstPerKeyFirst<T(!new), K(!new)>(s: seq<T>, key: T -> K)
    ensures forall j :: 0 <= j < |FirstPerKey(s, key)| ==>
      key(FirstPerKey(s, key)[j]) in Keys(s, key) &&
      FirstPerKey(s, key)[j] == s[FirstIndex(Keys(s, key), key(FirstPerKey(s, key)[j]))]
    ensures forall i, j :: 0 <= i < j < |FirstPerKey(s, key)| ==>
      key(FirstPerKey(s, key)[i]) in Keys(s, key) && key(FirstPerKey(s, key)[j]) in Keys(s, key) &&
      FirstIndex(Keys(s, key), key(FirstPerKey(s, key)[i])) < FirstIndex(Keys(s, key), key(FirstPerKey(s, key)[j]))
    decreases |s|
  {
    if s != [] {
      var s' := s[..|s| - 1];
      var x := s[|s| - 1];
      var r' := FirstPerKey(s', key);
      var r := FirstPerKey(s, key);
      FirstPerKeyFirst(s', key);
      FirstPerKeyKeys(s', key);
      assert s == s' + [x];
      KeysSnoc(s', x, key);
      var ks := Keys(s, key);
      var ks' := Keys(s', key);
      assert ks == ks' + [key(x)];
      forall j | 0 <= j < |r'|
        ensures key(r'[j]) in ks && FirstIndex(ks, key(r'[j])) == FirstIndex(ks', key(r'[j]))
        ensures s[FirstIndex(ks, key(r'[j]))] == r'[j]
      {
        assert r'[j] in r';
        assert key(r'[j]) in Keys(r', key);
        FirstIndexSnoc(ks', key(x), key(r'[j]));
      }
      if key(x) !in Keys(r', key) {
        FirstIndexSnoc(ks', key(x), key(x));
        assert r == r' + [x];
      } else {
        assert r == r';
      }
    }
  }

  /** A shorter input keeps a prefix of what the longer one keeps. */
  lemma {:induction false} FirstPerKeyPrefix<T(!new), K(!new)>(a: seq<T>, b: seq<T>, key: T -> K)
    ensures |FirstPerKey(a, key)| <= |FirstPerKey(a + b, key)|
    ensures FirstPerKey(a + b, key)[..|FirstPerKey(a, key)|] == FirstPerKey(a, key)
    decreases |b|
  {
    if b == [] {
      assert a + b == a;
    } else {
      var b' := b[..|b| - 1];
      assert (a + b)[..|a + b| - 1] == a + b';
      FirstPerKeyPrefix(a, b', key);
    }
  }

  /** Items whose keys are already distinct are all kept. */
  lemma {:induction false} FirstPerKeyOfDistinct<T(!new), K(!new)>(s: seq<T>, key: T -> K)
    requires Distinct(Keys(s, key))
    ensures FirstPerKey(s, key) == s
    decreases |s|
  {
    if s != [] {
      var s' := s[..|s| - 1];
      KeysPrefix(s, |s| - 1, key);
      assert Distinct(Keys(s', key));
      FirstPerKeyOfDistinct(s', key);
      var ks := Keys(s, key);
      assert key(s[|s| - 1]) !in Keys(s', key) by {
        assert forall i :: 0 <= i < |s'| ==> Keys(s', key)[i] == ks[i] && ks[i] != ks[|s| - 1];
      }
      assert s == s' + [s[|s| - 1]];
    }
  }

  /**
   * Appending to items with distinct keys keeps them in place, adds exactly
   * the new keys, and keeps the keys distinct.
   */
  lemma FirstPerKeyExtend<T(!new), K(!new)>(a: seq<T>, b: seq<T>, key: T -> K)
    requires Distinct(Keys(a, key))
    ensures |a| <= |FirstPerKey(a + b, key)| && FirstPerKey(a + b, key)[..|a|] == a
    ensures Distinct(Keys(FirstPerKey(a + b, key), key))
    ensures forall k :: k in Keys(FirstPerKey(a + b, key), key) <==> k in Keys(a, key) || k in Keys(b, key)
  {
    FirstPerKeyOfDistinct(a, key);
    FirstPerKeyPrefix(a, b, key);
    FirstPerKeyKeys(a + b, key);
    assert Keys(a + b, key) == Keys(a, key) + Keys(b, key);
  }

  /** One more input item: kept exactly when its key is new. */
  lemma FirstPerKeySnoc<T(!new), K(!new)>(s: seq<T>, x: T, key: T -> K)
    ensures FirstPerKey(s + [x], key) ==
      if key(x) in Keys(FirstPerKey(s, key), key) then FirstPerKey(s, key) else FirstPerKey(s, key) + [x]
  {
    assert (s + [x])[..|s|] == s;
  }

  /**
   * A total preorder: the shape of every comparison that Python's sort uses,
   * a key compared as a tuple.
   */
  ghost predicate TotalPreorder<T(!new)>(le: (T, T) -> bool)
  {
    && (forall a, b :: le(a, b) || le(b, a))
    && (forall a, b, c :: le(a, b) && le(b, c) ==> le(a, c))
  }

  predicate SortedBy<T>(s: seq<T>, le: (T, T) -> bool)
  {
    forall i, j :: 0 <= i < j < |s| ==> le(s[i], s[j])
  }

  /** Inserts `x` before the first item it does not come after (keeps equal items in order). */
  function InsertBy<T>(x: T, s: seq<T>, le: (T, T) -> bool): (r: seq<T>)
    ensures multiset(r) == multiset(s) + multiset{x}
    decreases |s|
  {
    if s == [] then [x]
    else if le(x, s[0]) then [x] + s
    else
      assert s == [s[0]] + s[1..];
      [s[0]] + InsertBy(x, s[1..], le)
  }

  lemma {:induction false} InsertBySorted<T(!new)>(x: T, s: seq<T>, le: (T, T) -> bool)
    requires TotalPreorder(le)
    requires SortedBy(s, le)
    ensures SortedBy(InsertBy(x, s, le), le)
    decreases |s|
  {
    if s != [] && !le(x, s[0]) {
      var t := InsertBy(x, s[1..], le);
      InsertBySorted(x, s[1..], le);
      assert le(s[0], x);
      forall j | 0 <= j < |t|
        ensures le(s[0], t[j])
      {
        assert t[j] in multiset(t);
        if t[j] != x {
          assert t[j] in multiset(s[1..]);
          var k :| 0 <= k < |s[1..]| && s[1..][k] == t[j];
          assert s[1 + k] == t[j];
        }
      }
      assert InsertBy(x, s, le) == [s[0]] + t;
    }
  }

  /** Python's `sorted(s, key=...)`: a stable insertion sort by `le`. */
  function SortBy<T(!new)>(s: seq<T>, le: (T, T) -> bool): (r: seq<T>)
    requires TotalPreorder(le)
    ensures SortedBy(r, le)
    ensures multiset(r) == multiset(s)
    decreases |s|
  {
    if s == [] then []
    else
      assert s == [s[0]] + s[1..];
      var t := SortBy(s[1..], le);
      InsertBySorted(s[0], t, le);
      InsertBy(s[0], t, le)
  }

  lemma SortedSnoc<T>(r: seq<T>, x: T, le: (T, T) -> bool)
    requires SortedBy(r, le)
    requires forall y :: y in r ==> le(y, x)
    ensures SortedBy(r + [x], le)
  {
    forall i, j | 0 <= i < j < |r| + 1
      ensures le((r + [x])[i], (r + [x])[j])
    {
      if j == |r| {
        assert r[i] in r;
      }
    }
  }

  /** Keeping some items of a sorted sequence leaves it sorted. */
  lemma {:induction false} FilterSorted<T(!new)>(s: seq<T>, p: T -> bool, le: (T, T) -> bool)
    requires SortedBy(s, le)
    ensures SortedBy(Filter(s, p), le)
    decreases |s|
  {
    if s != [] {
      var s' := s[..|s| - 1];
      var x := s[|s| - 1];
      assert SortedBy(s', le);
      FilterSorted(s', p, le);
      FilterMembers(s', p);
      forall y | y in Filter(s', p)
        ensures le(y, x)
      {
        var k :| 0 <= k < |s'| && s'[k] == y;
        assert s[k] == y;
      }
      if p(x) {
        SortedSnoc(Filter(s', p), x, le);
      }
    }
  }

  /** Keeping the first item per key of a sorted sequence leaves it sorted. */
  lemma {:induction false} FirstPerKeySorted<T(!new), K(!new)>(s: seq<T>, key: T -> K, le: (T, T) -> bool)
    requires SortedBy(s, le)
    ensures SortedBy(FirstPerKey(s, key), le)
    decreases |s|
  {
    if s != [] {
      var s' := s[..|s| - 1];
      var x := s[|s| - 1];
      assert SortedBy(s', le);
      FirstPerKeySorted(s', key, le);
      FirstPerKeyKeys(s', key);
      forall y | y in FirstPerKey(s', key)
        ensures le(y, x)
      {
        var k :| 0 <= k < |s'| && s'[k] == y;
        assert s[k] == y;
      }
      if key(x) !in Keys(FirstPerKey(s', key), key) {
        SortedSnoc(FirstPerKey(s', key), x, le);
      }
    }
  }

  /** Filtering keeps the relative order of first occurrences. */
  lemma {:induction false} FilterFirstIndex<T(!new)>(s: seq<T>, p: T -> bool, x: T, y: T)
    requires x in Filter(s, p) && y in Filter(s, p)
    ensures x in s && y in s
    ensures FirstIndex(Filter(s, p), x) < FirstIndex(Filter(s, p), y) <==> FirstIndex(s, x) < FirstIndex(s, y)
    decreases |s|
  {
    var s' := s[..|s| - 1];
    var z := s[|s| - 1];
    var f' := Filter(s', p);
    FilterMembers(s, p);
    FilterMembers(s', p);
    assert s == s' + [z];
    assert Filter(s, p) == if p(z) then f' + [z] else f';
    FirstIndexSnoc(f', z, x);
    FirstIndexSnoc(s', z, x);
    FirstIndexSnoc(f', z, y);
    FirstIndexSnoc(s', z, y);
    if x in f' && y in f' {
      FilterFirstIndex(s', p, x, y);
    }
  }

  /** Keeping every item changes nothing. */
  lemma {:induction false} FilterAll<T(!new)>(s: seq<T>, p: T -> bool)
    requires forall i :: 0 <= i < |s| ==> p(s[i])
    ensures Filter(s, p) == s
    decreases |s|
  {
    if s != [] {
      FilterAll(s[..|s| - 1], p);
    }
  }

  /** Keeping no item leaves nothing. */
  lemma {:induction false} FilterNone<T(!new)>(s: seq<T>, p: T -> bool)
    requires forall i :: 0 <= i < |s| ==> !p(s[i])
    ensures Filter(s, p) == []
    decreases |s|
  {
    if s != [] {
      FilterNone(s[..|s| - 1], p);
    }
  }

  /** The first kept item is the first item that satisfies `p`. */
  lemma {:induction false} FilterFirst<T(!new)>(s: seq<T>, p: T -> bool)
    requires Filter(s, p) != []
    ensures exists i ::
      && 0 <= i < |s| && p(s[i]) && s[i] == Filter(s, p)[0]
      && (forall k :: 0 <= k < i ==> !p(s[k]))
    decreases |s|
  {
    var s' := s[..|s| - 1];
    if Filter(s', p) == [] {
      FilterMembers(s', p);
      assert forall k :: 0 <= k < |s'| ==> s'[k] == s[k] && s'[k] in s';
      assert p(s[|s| - 1]);
    } else {
      FilterFirst(s', p);
      var i :| 0 <= i < |s'| && p(s'[i]) && s'[i] == Filter(s', p)[0] &&
        forall k :: 0 <= k < i ==> !p(s'[k]);
      assert s'[i] == s[i];
      assert forall k :: 0 <= k < i ==> s'[k] == s[k];
    }
  }

  /** The last kept item is the last item that satisfies `p`. */
  lemma {:induction false} FilterLast<T(!new)>(s: seq<T>, p: T -> bool)
    requires Filter(s, p) != []
    ensures exists j ::
      && 0 <= j < |s| && p(s[j]) && s[j] == Filter(s, p)[|Filter(s, p)| - 1]
      && (forall k :: j < k < |s| ==> !p(s[k]))
    decreases |s|
  {
    var s' := s[..|s| - 1];
    if !p(s[|s| - 1]) {
      FilterLast(s', p);
      var j :| 0 <= j < |s'| && p(s'[j]) && s'[j] == Filter(s', p)[|Filter(s', p)| - 1] &&
        forall k :: j < k < |s'| ==> !p(s'[k]);
      assert s'[j] == s[j];
      assert forall k :: j < k < |s'| ==> s'[k] == s[k];
    }
  }

  /** Keeping some items keeps their keys distinct. */
  lemma {:induction false} FilterDistinctKeys<T(!new), K(!new)>(s: seq<T>, p: T -> bool, key: T -> K)
    requires Distinct(Keys(s, key))
    ensures Distinct(Keys(Filter(s, p), key))
    decreases |s|
  {
    if s != [] {
      var s' := s[..|s| - 1];
      var x := s[|s| - 1];
      KeysPrefix(s, |s| - 1, key);
      FilterDistinctKeys(s', p, key);
      if p(x) {
        FilterMembers(s', p);
        var f := Filter(s', p);
        forall i | 0 <= i < |f|
          ensures key(f[i]) != key(x)
        {
          assert f[i] in s';
          var k :| 0 <= k < |s'| && s'[k] == f[i];
          assert Keys(s, key)[k] == key(s[k]) && s[k] == f[i];
        }
        KeysSnoc(f, x, key);
      }
    }
  }

  /** Items with distinct keys occur at most once each. */
  lemma {:induction false} DistinctKeysCount<T(!new), K(!new)>(s: seq<T>, key: T -> K, x: T)
    requires Distinct(Keys(s, key))
    ensures multiset(s)[x] <= 1
    decreases |s|
  {
    if s != [] {
      var s' := s[..|s| - 1];
      KeysPrefix(s, |s| - 1, key);
      DistinctKeysCount(s', key, x);
      assert s == s' + [s[|s| - 1]];
      if s[|s| - 1] == x {
        forall k | 0 <= k < |s'|
          ensures s'[k] != x
        {
          assert Keys(s, key)[k] != Keys(s, key)[|s| - 1];
        }
        assert x !in s';
      }
    }
  }

  /** An item at two positions occurs at least twice. */
  lemma {:induction false} TwiceCount<T>(s: seq<T>, i: nat, j: nat)
    requires i < j < |s| && s[i] == s[j]
    ensures multiset(s)[s[i]] >= 2
  {
    var x := s[i];
    assert s == s[..j] + [s[j]] + s[j + 1..];
    assert x in s[..j] by {
      assert s[..j][i] == x;
    }
    assert multiset(s) == multiset(s[..j]) + multiset{s[j]} + multiset(s[j + 1..]);
  }

  /** Reordering items does not make their keys collide. */
  lemma DistinctKeysPermutation<T(!new), K(!new)>(s: seq<T>, t: seq<T>, key: T -> K)
    requires multiset(s) == multiset(t) && Distinct(Keys(s, key))
    ensures Distinct(Keys(t, key))
  {
    forall i, j | 0 <= i < j < |t|
      ensures key(t[i]) != key(t[j])
    {
      assert t[i] in multiset(s) && t[j] in multiset(s);
      if t[i] == t[j] {
        TwiceCount(t, i, j);
        DistinctKeysCount(s, key, t[i]);
      } else {
        var a :| 0 <= a < |s| && s[a] == t[i];
        var b :| 0 <= b < |s| && s[b] == t[j];
        assert Keys(s, key)[a] == key(t[i]) && Keys(s, key)[b] == key(t[j]);
      }
    }
  }

  /** Counting the items whose image passes `p` counts the items that pass `q`. */
  lemma {:induction false} FilterKeysCount<T(!new), U(!new)>(s: seq<T>, f: T -> U, p: U -> bool, q: T -> bool)
    requires forall i :: 0 <= i < |s| ==> (p(f(s[i])) <==> q(s[i]))
    ensures |Filter(Keys(s, f), p)| == |Filter(s, q)|
    decreases |s|
  {
    if s != [] {
      var s' := s[..|s| - 1];
      assert forall i :: 0 <= i < |s'| ==> s'[i] == s[i];
      FilterKeysCount(s', f, p, q);
      assert s == s' + [s[|s| - 1]];
      KeysSnoc(s', s[|s| - 1], f);
      assert Keys(s, f)[..|s| - 1] == Keys(s', f);
    }
  }

  /** Nothing is kept exactly when there is nothing to keep. */
  lemma FirstPerKeyEmpty<T(!new), K(!new)>(s: seq<T>, key: T -> K)
    ensures FirstPerKey(s, key) == [] <==> s == []
  {
    FirstPerKeyKeys(s, key);
    if s != [] {
      assert Keys(s, key)[0] == key(s[0]);
    }
  }

  /** An item that survives the filter is an item of `s` that passes the test. */
  lemma FilterOrigin<T(!new)>(s: seq<T>, p: T -> bool, x: T) returns (i: nat)
    requires x in Filter(s, p)
    ensures i < |s| && s[i] == x && p(x)
  {
    FilterMembers(s, p);
    i :| 0 <= i < |s| && s[i] == x;
  }

  /** Every kept image is the image of an item that passes the test. */
  lemma FirstWinsImages<T(!new), U(!new), K(!new)>(s: seq<T>, p: T -> bool, f: T -> U, key: U -> K)
    ensures forall y :: y in FirstPerKey(Keys(Filter(s, p), f), key) ==>
      exists x :: x in s && p(x) && f(x) == y
  {
    var a := Filter(s, p);
    var c := Keys(a, f);
    FirstPerKeyKeys(c, key);
    forall y | y in FirstPerKey(c, key)
      ensures exists x :: x in s && p(x) && f(x) == y
    {
      var m :| 0 <= m < |c| && c[m] == y;
      var i := FilterOrigin(s, p, a[m]);
      assert s[i] in s;
    }
  }

  lemma KeyOfFilterFrom<T(!new), U(!new), K(!new)>(s: seq<T>, p: T -> bool, f: T -> U, key: U -> K, k: K)
    requires k in Keys(Keys(Filter(s, p), f), key)
    ensures exists x :: x in s && p(x) && key(f(x)) == k
  {
    var a := Filter(s, p);
    var ks := Keys(Keys(a, f), key);
    var m :| 0 <= m < |ks| && ks[m] == k;
    var i := FilterOrigin(s, p, a[m]);
    assert s[i] in s && key(f(s[i])) == k;
  }

  lemma KeyOfFilterTo<T(!new), U(!new), K(!new)>(s: seq<T>, p: T -> bool, f: T -> U, key: U -> K, x: T)
    requires x in s && p(x)
    ensures key(f(x)) in Keys(Keys(Filter(s, p), f), key)
  {
    var a := Filter(s, p);
    FilterMembers(s, p);
    assert x in a;
    var m :| 0 <= m < |a| && a[m] == x;
    assert Keys(Keys(a, f), key)[m] == key(f(x));
  }

  /** A key is kept exactly when an item that passes the test has it. */
  lemma FirstWinsKeys<T(!new), U(!new), K(!new)>(s: seq<T>, p: T -> bool, f: T -> U, key: U -> K)
    ensures forall k :: k in Keys(FirstPerKey(Keys(Filter(s, p), f), key), key) <==>
      exists x :: x in s && p(x) && key(f(x)) == k
  {
    FirstPerKeyKeys(Keys(Filter(s, p), f), key);
    forall k | k in Keys(Keys(Filter(s, p), f), key)
      ensures exists x :: x in s && p(x) && key(f(x)) == k
    {
      KeyOfFilterFrom(s, p, f, key, k);
    }
    forall x | x in s && p(x)
      ensures key(f(x)) in Keys(Keys(Filter(s, p), f), key)
    {
      KeyOfFilterTo(s, p, f, key, x);
    }
  }

  /** Each kept item is the earliest item of `c` with its key. */
  lemma FirstWinsEarliest<T(!new), K(!new)>(c: seq<T>, key: T -> K)
    ensures forall j :: 0 <= j < |FirstPerKey(c, key)| ==>
      exists i :: 0 <= i < |c| && c[i] == FirstPerKey(c, key)[j]
        && forall m :: 0 <= m < i ==> key(c[m]) != key(FirstPerKey(c, key)[j])
  {
    var r := FirstPerKey(c, key);
    FirstPerKeyFirst(c, key);
    forall j | 0 <= j < |r|
      ensures exists i :: 0 <= i < |c| && c[i] == r[j] && forall m :: 0 <= m < i ==> key(c[m]) != key(r[j])
    {
      var i := FirstIndex(Keys(c, key), key(r[j]));
      assert forall m :: 0 <= m < i ==> Keys(c, key)[m] == key(c[m]);
    }
  }

  /** Nothing passes exactly when no item passes. */
  lemma FilterEmpty<T(!new)>(s: seq<T>, p: T -> bool)
    ensures Filter(s, p) == [] <==> forall i :: 0 <= i < |s| ==> !p(s[i])
  {
    FilterMembers(s, p);
    if forall i :: 0 <= i < |s| ==> !p(s[i]) {
      FilterNone(s, p);
    }
    assert forall i :: 0 <= i < |s| ==> s[i] in s;
  }
}
