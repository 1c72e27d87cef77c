/**
 * The navigation blocklist: a table of patterns, each with a kind, from which
 * four sets are loaded (domain suffixes, keywords, regular expressions and IP
 * addresses) and against which every host the browser contacts is tested.
 * The SQLite table is `table`, its rows in insertion order; the file's
 * modification time, the clock, Python's regular expressions and its IP
 * address parser are parameters.
 */
module HostBlocklist {
  import opened Wrappers
  import opened Text
  import opened Sequences

  /** A row of `blocked_entries`; `pattern` is the primary key. */
  datatype Row = Row(pattern: string, kind: string, source: string, addedAt: int)

  function PatternOf(r: Row): string { r.pattern }

  /** `DEFAULT_ENTRIES`: pattern and kind. */
  const DefaultEntries: seq<(string, string)> := [
    ("treasurequestluck.com", "domain"), ("aplasted.com", "domain"), ("shakhasewn.com", "domain"),
    ("pubadx.one", "domain"), ("doubleclick.net", "domain"), ("googlesyndication.com", "domain"),
    ("googletagmanager.com", "domain"), ("google-analytics.com", "domain"), ("adservice.google.com", "domain"),
    ("taboola.com", "domain"), ("outbrain.com", "domain"), ("zedo.com", "domain"),
    ("rubiconproject.com", "domain"), ("pubmatic.com", "domain"), ("scorecardresearch.com", "domain"),
    ("criteo.com", "domain"), ("moatads.com", "domain"), ("adskeeper.com", "domain"),
    ("adsterra.com", "domain"), ("revcontent.com", "domain"), ("onetag.com", "domain"),
    ("onesignal.com", "domain"), ("exoclick.com", "domain"), ("trafficjunky.net", "domain"),
    ("adnxs.com", "domain"), ("contextual.media.net", "domain"), ("4798ndc", "keyword"),
    ("t\\d+4798ndc\\.com", "regex")
  ]

  /** A default entry with a pattern. */
  predicate HasPattern(e: (string, string)) { e.0 != "" }

  /** The row `_seed_defaults` makes of an entry: the pattern trimmed and lowercased. */
  function SeedWith(now: int): ((string, string)) -> Row
  {
    (e: (string, string)) => Row(Lower(Strip(e.0)), e.1, "local-default", now)
  }

  /** The rows `_seed_defaults` builds: one per entry with a pattern, in order. */
  function SeedRows(entries: seq<(string, string)>, now: int): seq<Row>
  {
    Keys(Filter(entries, HasPattern), SeedWith(now))
  }

  /** When every entry has a pattern, each entry gives one row, in order. */
  lemma SeedRowsOfNonEmpty(entries: seq<(string, string)>, now: int)
    requires forall i :: 0 <= i < |entries| ==> entries[i].0 != ""
    ensures |SeedRows(entries, now)| == |entries|
    ensures forall i :: 0 <= i < |entries| ==>
      SeedRows(entries, now)[i] == Row(Lower(Strip(entries[i].0)), entries[i].1, "local-default", now)
  {
    FilterAll(entries, HasPattern);
  }

  /**
   * `_seed_defaults` inserts one row per default entry: every shipped
   * default has a pattern, so none is skipped.
   */
  lemma DefaultRowsShape(now: int)
    ensures |SeedRows(DefaultEntries, now)| == |DefaultEntries|
    ensures forall i :: 0 <= i < |DefaultEntries| ==>
      SeedRows(DefaultEntries, now)[i] == Row(Lower(Strip(DefaultEntries[i].0)), DefaultEntries[i].1, "local-default", now)
  {
    SeedRowsOfNonEmpty(DefaultEntries, now);
  }

  /**
   * `INSERT OR IGNORE`: a row is added only when its pattern is new; rows
   * already in the table, and the first of several new rows with one
   * pattern, win.
   */
  function InsertOrIgnore(table: seq<Row>, rows: seq<Row>): seq<Row>
  {
    FirstPerKey(table + rows, PatternOf)
  }

  /** The table keeps its rows in place, gains exactly the new patterns, and keeps each pattern once. */
  lemma InsertOrIgnoreKeeps(table: seq<Row>, rows: seq<Row>)
    requires Distinct(Keys(table, PatternOf))
    ensures |table| <= |InsertOrIgnore(table, rows)| && InsertOrIgnore(table, rows)[..|table|] == table
    ensures Distinct(Keys(InsertOrIgnore(table, rows), PatternOf))
    ensures forall p :: p in Keys(InsertOrIgnore(table, rows), PatternOf) <==>
      p in Keys(table, PatternOf) || p in Keys(rows, PatternOf)
  {
    FirstPerKeyExtend(table, rows, PatternOf);
  }

  // ----- _normalise_domain -----

  predicate IsDot(c: char) { c == '.' }

  /** `s.split(None, 1)[1]`: what follows the first field and the spaces after it. */
  function AfterFirstField(s: string): (r: string)
    ensures |r| <= |s| && r == s[|s| - |r|..]
  {
    AfterFieldSuffix(s, IsSpace);
    AfterField(s, IsSpace)
  }

  /** A line of a hosts file that starts with an address field. */
  predicate HostsPrefixed(p: string)
  {
    StartsWith(p, "0.0.0.0 ") || StartsWith(p, "127.0.0.1 ")
  }

  /** The address field and the leading dots dropped from a trimmed, lowercased pattern. */
  function TrimDomain(p: string): (r: string)
    ensures |r| <= |p| && r == p[|p| - |r|..]
    ensures r == [] || r[0] != '.'
  {
    var q := if HostsPrefixed(p) then AfterFirstField(p) else p;
    LStripBy(q, IsDot)
  }

  /**
   * `_normalise_domain`: trimmed and lowercased, a leading "0.0.0.0 " or
   * "127.0.0.1 " field dropped, and the leading dots removed.
   */
  function NormaliseDomain(pattern: string): (r: string)
    ensures r == [] || r[0] != '.'
  {
    TrimDomain(Lower(Strip(pattern)))
  }

  /** The normalised domain has no capital letters. */
  lemma NormaliseDomainLower(pattern: string)
    ensures NoneOf(NormaliseDomain(pattern), IsUpper)
  {
    var p := Lower(Strip(pattern));
    LowerNoUpper(Strip(pattern));
    NoneOfSuffix(p, TrimDomain(p), IsUpper);
  }

  /** A bare name needs no trimming and loses only its leading dots and its case. */
  lemma NormaliseBare(d: string)
    requires NoneOf(d, IsSpace)
    ensures NormaliseDomain(d) == LStripBy(Lower(d), IsDot)
  {
    var p := Lower(d);
    assert ' ' !in p by {
      assert forall i :: 0 <= i < |p| ==> !IsSpace(p[i]);
    }
    assert !StartsWith(p, "0.0.0.0 ") by {
      assert |"0.0.0.0 "| <= |p| ==> p[7] == p[..8][7];
    }
    assert !StartsWith(p, "127.0.0.1 ") by {
      assert |"127.0.0.1 "| <= |p| ==> p[9] == p[..10][9];
    }
  }

  /** The address fields a hosts line may start with. */
  predicate IsHostsAddress(addr: string)
  {
    addr == "0.0.0.0" || addr == "127.0.0.1"
  }

  /** The address fields are digits and dots. */
  lemma HostsAddressChars(addr: string)
    requires IsHostsAddress(addr)
    ensures addr != [] && IsDigit(addr[0])
    ensures forall i :: 0 <= i < |addr| ==> IsDigit(addr[i]) || addr[i] == '.'
  {
  }

  lemma HostsAddressStart(addr: string)
    requires IsHostsAddress(addr)
    ensures addr != [] && IsDigit(addr[0])
  {
  }

  /**
   * After a hosts address and one space, only the rest counts, lowercased and
   * without leading dots; the rest may hold further fields.
   */
  lemma NormaliseHostsEntry(addr: string, d: string)
    requires IsHostsAddress(addr)
    requires d != [] && !IsSpace(d[0]) && !IsSpace(d[|d| - 1])
    ensures NormaliseDomain(addr + " " + d) == LStripBy(Lower(d), IsDot)
  {
    HostsEntryPrepared(addr, d);
    TrimAfterAddress(addr, Lower(d));
  }

  lemma HostsEntryPrepared(addr: string, d: string)
    requires IsHostsAddress(addr)
    requires d != [] && !IsSpace(d[0]) && !IsSpace(d[|d| - 1])
    ensures NormaliseDomain(addr + " " + d) == TrimDomain(addr + " " + Lower(d))
  {
    HostsEntryTrimmed(addr, d);
    HostsEntryLower(addr, d);
  }

  lemma HostsEntryTrimmed(addr: string, d: string)
    requires IsHostsAddress(addr)
    requires d != [] && !IsSpace(d[|d| - 1])
    ensures Strip(addr + " " + d) == addr + " " + d
  {
    HostsAddressChars(addr);
    var s := addr + " " + d;
    assert s[0] == addr[0] && s[|s| - 1] == d[|d| - 1];
    StripUnchanged(s);
  }

  lemma HostsEntryLower(addr: string, d: string)
    requires IsHostsAddress(addr)
    ensures Lower(addr + " " + d) == addr + " " + Lower(d)
  {
    HostsAddressChars(addr);
    var a := addr + " ";
    LowerConcat(a, d);
    assert NoneOf(a, IsUpper);
    LowerUnchanged(a);
  }

  /** The address field and the one space after it are dropped from a lowercased hosts entry. */
  lemma TrimAfterAddress(addr: string, l: string)
    requires IsHostsAddress(addr)
    requires l != [] && !IsSpace(l[0])
    ensures TrimDomain(addr + " " + l) == LStripBy(l, IsDot)
  {
    AddressPrefixed(addr, l);
    AddressField(addr, l);
  }

  lemma AddressPrefixed(addr: string, l: string)
    requires IsHostsAddress(addr)
    ensures HostsPrefixed(addr + " " + l)
  {
    var p := addr + " " + l;
    assert p[..|addr| + 1] == addr + " ";
  }

  /** `split(None, 1)[1]` of an address, a space and a name is the name. */
  lemma AddressField(addr: string, l: string)
    requires IsHostsAddress(addr)
    requires l != [] && !IsSpace(l[0])
    ensures AfterFirstField(addr + " " + l) == l
  {
    HostsAddressChars(addr);
    var p := addr + " " + l;
    assert p == addr + (" " + l);
    RunLengthConcat(addr, " " + l, IsSpace);
    assert p[|addr|..] == " " + l;
    assert (" " + l)[1..] == l;
  }

  /** Whitespace around a pattern does not change its domain. */
  lemma NormalisePadded(w1: string, p: string, w2: string)
    requires AllOf(w1, IsSpace) && AllOf(w2, IsSpace)
    ensures NormaliseDomain(w1 + p + w2) == NormaliseDomain(p)
  {
    StripPadded(w1, p, w2);
  }

  // ----- _load -----

  /** `(kind or "domain").lower()`. */
  function KindOf(kind: string): string
  {
    if kind == "" then "domain" else Lower(kind)
  }

  /** The four sets `_load` builds; the regular expressions in row order. */
  datatype Classes = Classes(domains: set<string>, keywords: set<string>, regexes: seq<string>, ips: set<string>)

  /**
   * One row of `_load`: empty patterns and unknown kinds are skipped, and a
   * regular expression that does not compile is dropped.
   */
  function AddRow(c: Classes, row: Row, compiles: string -> bool): Classes
  {
    var p := row.pattern;
    var kind := KindOf(row.kind);
    if p == "" then c
    else if kind == "domain" then c.(domains := c.domains + {NormaliseDomain(p)})
    else if kind == "keyword" then c.(keywords := c.keywords + {Lower(p)})
    else if kind == "regex" then (if compiles(p) then c.(regexes := c.regexes + [p]) else c)
    else if kind == "ip" then c.(ips := c.ips + {Strip(p)})
    else c
  }

  /** The sets loaded from the rows. */
  function Classify(rows: seq<Row>, compiles: string -> bool): Classes
  {
    if rows == [] then Classes({}, {}, [], {})
    else AddRow(Classify(rows[..|rows| - 1], compiles), rows[|rows| - 1], compiles)
  }

  predicate IsDomainRow(r: Row) { r.pattern != "" && KindOf(r.kind) == "domain" }
  predicate IsKeywordRow(r: Row) { r.pattern != "" && KindOf(r.kind) == "keyword" }
  predicate IsRegexRow(r: Row, compiles: string -> bool) { r.pattern != "" && KindOf(r.kind) == "regex" && compiles(r.pattern) }
  predicate IsIpRow(r: Row) { r.pattern != "" && KindOf(r.kind) == "ip" }

  /** One row more classifies on top of the rows before it. */
  lemma ClassifySnoc(rows: seq<Row>, compiles: string -> bool)
    requires rows != []
    ensures Classify(rows, compiles) == AddRow(Classify(rows[..|rows| - 1], compiles), rows[|rows| - 1], compiles)
  {
  }

  function DomainOf(r: Row): string { NormaliseDomain(r.pattern) }
  function KeywordOf(r: Row): string { Lower(r.pattern) }
  function IpOf(r: Row): string { Strip(r.pattern) }

  /** The three sets `_load` builds are gathered from the rows of their kinds. */
  lemma {:induction false} ClassifyGathers(rows: seq<Row>, compiles: string -> bool)
    ensures Classify(rows, compiles).domains == Gather(rows, IsDomainRow, DomainOf)
    ensures Classify(rows, compiles).keywords == Gather(rows, IsKeywordRow, KeywordOf)
    ensures Classify(rows, compiles).ips == Gather(rows, IsIpRow, IpOf)
    decreases |rows|
  {
    if rows != [] {
      ClassifyGathers(rows[..|rows| - 1], compiles);
    }
  }

  /** The domain set holds exactly the normalised patterns of the domain rows. */
  lemma ClassifyDomains(rows: seq<Row>, compiles: string -> bool)
    ensures forall d :: d in Classify(rows, compiles).domains <==>
      exists i :: 0 <= i < |rows| && IsDomainRow(rows[i]) && DomainOf(rows[i]) == d
  {
    ClassifyGathers(rows, compiles);
    GatherMembers(rows, IsDomainRow, DomainOf);
  }

  /** The keyword set holds exactly the lowercased patterns of the keyword rows. */
  lemma ClassifyKeywords(rows: seq<Row>, compiles: string -> bool)
    ensures forall k :: k in Classify(rows, compiles).keywords <==>
      exists i :: 0 <= i < |rows| && IsKeywordRow(rows[i]) && KeywordOf(rows[i]) == k
  {
    ClassifyGathers(rows, compiles);
    GatherMembers(rows, IsKeywordRow, KeywordOf);
  }

  /** The IP set holds exactly the trimmed patterns of the IP rows. */
  lemma ClassifyIps(rows: seq<Row>, compiles: string -> bool)
    ensures forall x :: x in Classify(rows, compiles).ips <==>
      exists i :: 0 <= i < |rows| && IsIpRow(rows[i]) && IpOf(rows[i]) == x
  {
    ClassifyGathers(rows, compiles);
    GatherMembers(rows, IsIpRow, IpOf);
  }

  /** The regular expressions are the patterns of the compiling regex rows, in row order. */
  lemma {:induction false} ClassifyRegexes(rows: seq<Row>, compiles: string -> bool)
    ensures Classify(rows, compiles).regexes == Keys(Filter(rows, r => IsRegexRow(r, compiles)), PatternOf)
    decreases |rows|
  {
    if rows != [] {
      var init := rows[..|rows| - 1];
      ClassifyRegexes(init, compiles);
      KeysSnoc(Filter(init, r => IsRegexRow(r, compiles)), rows[|rows| - 1], PatternOf);
    }
  }

  // ----- should_block_host, should_block_ip -----

  /** `host.split(":")[0].lower()`. */
  function HostKey(host: string): (h: string)
    ensures ':' !in h && NoneOf(h, IsUpper)
  {
    var h := Split(host, ':')[0];
    assert h == host[..IndexOf(host, ':')];
    assert forall i :: 0 <= i < |h| ==> h[i] != ':';
    Lower(h)
  }

  /**
   * The host is compared without its port and without case: a port after the
   * name, or capitals in it, give the same key as the lower-case bare name.
   */
  lemma HostKeyIgnoresPort(name: string, port: string)
    requires ':' !in name
    ensures HostKey(name + ":" + port) == Lower(name)
    ensures HostKey(Lower(name)) == Lower(name)
  {
    var s := name + (":" + port);
    assert name + ":" + port == s;
    IndexOfConcat(name, ":" + port, ':');
    assert IndexOf(name, ':') == |name|;
    assert IndexOf(":" + port, ':') == 0;
    ConcatParts(name, ":" + port);
    assert s[..IndexOf(s, ':')] == name;
    var l := Lower(name);
    assert ':' !in l by {
      forall i | 0 <= i < |l|
        ensures l[i] != ':'
      {
        assert name[i] != ':';
      }
    }
    assert IndexOf(l, ':') == |l| && l[..|l|] == l;
    assert Lower(l) == l;
  }

  /** A domain entry blocks the domain itself and its subdomains. */
  predicate DomainHit(host: string, domain: string)
  {
    domain != "" && (host == domain || EndsWith(host, "." + domain))
  }

  /** A domain entry blocks `x + domain` exactly when `x` is empty or ends with a dot. */
  lemma DomainHitShape(host: string, domain: string)
    ensures DomainHit(host, domain) <==>
      domain != "" && |domain| <= |host| && host[|host| - |domain|..] == domain &&
      (|host| == |domain| || host[|host| - |domain| - 1] == '.')
  {
    if domain != "" && |domain| < |host| && host[|host| - |domain|..] == domain && host[|host| - |domain| - 1] == '.' {
      assert host[|host| - |domain| - 1..] == "." + domain;
    }
    if EndsWith(host, "." + domain) {
      assert host[|host| - |domain|..] == ("." + domain)[1..];
    }
  }

  class Blocklist {
    /** The entries `_seed_defaults` inserts: `DefaultEntries` for every blocklist the program makes. */
    const defaults: seq<(string, string)>
    var table: seq<Row>
    var cacheMtime: Option<int>
    var domains: set<string>
    var keywords: set<string>
    var regexes: seq<string>
    var ips: set<string>

    /** The pattern is the table's primary key. */
    ghost predicate Valid()
      reads this
    {
      Distinct(Keys(table, PatternOf))
    }

    /** The loaded sets are those of the table. */
    ghost predicate Loaded(compiles: string -> bool)
      reads this
    {
      Classes(domains, keywords, regexes, ips) == Classify(table, compiles)
    }

    /** A blocklist over an existing table, nothing loaded yet. */
    constructor(rows: seq<Row>)
      requires Distinct(Keys(rows, PatternOf))
      ensures Valid() && table == rows && cacheMtime == None && defaults == DefaultEntries
      ensures domains == {} && keywords == {} && regexes == [] && ips == {}
    {
      defaults := DefaultEntries;
      table := rows;
      cacheMtime := None;
      domains := {};
      keywords := {};
      regexes := [];
      ips := {};
    }

    /** `_seed_defaults`: the default rows are inserted unless their pattern is present. */
    method SeedDefaults(now: int)
      requires Valid()
      modifies this
      ensures Valid()
      ensures table == InsertOrIgnore(old(table), SeedRows(defaults, now))
      ensures cacheMtime == old(cacheMtime) && domains == old(domains) && keywords == old(keywords)
      ensures regexes == old(regexes) && ips == old(ips)
    {
      InsertOrIgnoreKeeps(table, SeedRows(defaults, now));
      table := InsertOrIgnore(table, SeedRows(defaults, now));
    }

    /** The loop of `_load` over the table's rows. */
    method ClassifyTable(compiles: string -> bool) returns (c: Classes)
      ensures c == Classify(table, compiles)
    {
      var d: set<string> := {};
      var k: set<string> := {};
      var r: seq<string> := [];
      var ip: set<string> := {};
      for i := 0 to |table|
        invariant Classes(d, k, r, ip) == Classify(table[..i], compiles)
      {
        assert table[..i + 1][..i] == table[..i];
        ClassifySnoc(table[..i + 1], compiles);
        var row := table[i];
        var kind := KindOf(row.kind);
        if row.pattern == "" {
        } else if kind == "domain" {
          d := d + {NormaliseDomain(row.pattern)};
        } else if kind == "keyword" {
          k := k + {Lower(row.pattern)};
        } else if kind == "regex" {
          if compiles(row.pattern) {
            r := r + [row.pattern];
          }
        } else if kind == "ip" {
          ip := ip + {Strip(row.pattern)};
        }
      }
      assert table[..|table|] == table;
      c := Classes(d, k, r, ip);
    }

    /**
     * `_load`: the defaults are seeded, then every row is classified;
     * `mtime` is the file's modification time read afterwards.
     */
    method Load(now: int, mtime: Option<int>, compiles: string -> bool)
      requires Valid()
      modifies this
      ensures Valid() && Loaded(compiles)
      ensures table == InsertOrIgnore(old(table), SeedRows(defaults, now))
      ensures cacheMtime == mtime
    {
      SeedDefaults(now);
      var c := ClassifyTable(compiles);
      domains := c.domains;
      keywords := c.keywords;
      regexes := c.regexes;
      ips := c.ips;
      cacheMtime := mtime;
    }

    /** `_ensure_loaded`: reload when the file's time differs from the cached one. */
    method EnsureLoaded(current: Option<int>, now: int, mtime: Option<int>, compiles: string -> bool)
      requires Valid()
      modifies this
      ensures Valid()
      ensures old(cacheMtime) == current ==> unchanged(this)
      ensures old(cacheMtime) != current ==>
        Loaded(compiles) && table == InsertOrIgnore(old(table), SeedRows(defaults, now)) && cacheMtime == mtime
    {
      if cacheMtime != current {
        Load(now, mtime, compiles);
      }
    }

    /**
     * What `should_block_host` answers on the loaded sets: a keyword inside
     * the host, a domain entry it equals or is a subdomain of, a matching
     * regular expression, or an IP entry when the host is an IP address.
     */
    predicate Blocks(host: string, search: (string, string) -> bool, isIp: string -> bool)
      reads this
    {
      || (exists k :: k in keywords && Contains(host, k))
      || (exists d :: d in domains && DomainHit(host, d))
      || (exists i :: 0 <= i < |regexes| && search(regexes[i], host))
      || (isIp(host) && host in ips)
    }

    /** The answer for an optional host: nothing, an empty host or an empty name is never blocked. */
    predicate HostDecision(host: Option<string>, search: (string, string) -> bool, isIp: string -> bool)
      reads this
    {
      host.Some? && host.value != "" && HostKey(host.value) != "" && Blocks(HostKey(host.value), search, isIp)
    }

    /**
     * `should_block_host`. `current` is the file's time when asked, `mtime`
     * its time after a reload; `search` is `re.search` with `IGNORECASE`
     * and `isIp` tells whether `ipaddress.ip_address` accepts a text.
     */
    method ShouldBlockHost(host: Option<string>, current: Option<int>, now: int, mtime: Option<int>,
                           compiles: string -> bool, search: (string, string) -> bool, isIp: string -> bool)
      returns (blocked: bool)
      requires Valid()
      modifies this
      ensures Valid()
      ensures blocked == HostDecision(host, search, isIp)
      ensures host.None? || host.value == "" || HostKey(host.value) == "" ==> unchanged(this)
      ensures host.Some? && host.value != "" && HostKey(host.value) != "" && old(cacheMtime) != current ==>
        Loaded(compiles) && table == InsertOrIgnore(old(table), SeedRows(defaults, now)) && cacheMtime == mtime
      ensures old(cacheMtime) == current ==> unchanged(this)
    {
      if host.None? || host.value == "" {
        return false;
      }
      var h := HostKey(host.value);
      if h == "" {
        return false;
      }
      EnsureLoaded(current, now, mtime, compiles);
      if exists k :: k in keywords && Contains(h, k) {
        return true;
      }
      if exists d :: d in domains && d != "" && (h == d || EndsWith(h, "." + d)) {
        return true;
      }
      if exists i :: 0 <= i < |regexes| && search(regexes[i], h) {
        return true;
      }
      if ips != {} {
        if !isIp(h) {
          return false;
        }
        return h in ips;
      }
      return false;
    }

    /** `should_block_ip`: an exact entry of the IP set, after trimming. */
    method ShouldBlockIp(ip: Option<string>, current: Option<int>, now: int, mtime: Option<int>, compiles: string -> bool)
      returns (blocked: bool)
      requires Valid()
      modifies this
      ensures Valid()
      ensures blocked <==> ip.Some? && Strip(ip.value) != "" && Strip(ip.value) in ips
      ensures ip.None? || Strip(ip.value) == "" ==> unchanged(this)
      ensures ip.Some? && Strip(ip.value) != "" && old(cacheMtime) != current ==>
        Loaded(compiles) && table == InsertOrIgnore(old(table), SeedRows(defaults, now)) && cacheMtime == mtime
      ensures old(cacheMtime) == current ==> unchanged(this)
    {
      if ip.None? || ip.value == "" {
        return false;
      }
      var s := Strip(ip.value);
      if s == "" {
        return false;
      }
      EnsureLoaded(current, now, mtime, compiles);
      return s in ips;
    }

    /**
     * The insert of `add_entries`: nothing happens without rows; otherwise
     * the rows are inserted, kept only with `commit` (without it the
     * connection is closed with the insert rolled back), and the cache is
     * dropped either way.
     */
    method InsertRows(rows: seq<Row>, commit: bool) returns (count: nat)
      requires Valid()
      modifies this
      ensures Valid()
      ensures count == |rows|
      ensures rows == [] ==> unchanged(this)
      ensures rows != [] ==>
        && table == (if commit then InsertOrIgnore(old(table), rows) else old(table))
        && cacheMtime == None
        && domains == old(domains) && keywords == old(keywords) && regexes == old(regexes) && ips == old(ips)
    {
      if rows == [] {
        return 0;
      }
      if commit {
        InsertOrIgnoreKeeps(table, rows);
        table := InsertOrIgnore(table, rows);
      }
      cacheMtime := None;
      return |rows|;
    }

    /**
     * `add_entries`: the non-blank patterns, trimmed and lowercased, with
     * their lowercased kinds, inserted as `InsertRows` does; the result is
     * the number of rows prepared, whether or not their patterns were new.
     */
    method AddEntries(entries: seq<(string, string)>, source: string, now: int, commit: bool)
      returns (count: nat)
      requires Valid()
      modifies this
      ensures Valid()
      ensures count == |PreparedRows(entries, source, now)|
      ensures count == 0 ==> unchanged(this)
      ensures count > 0 ==>
        && table == (if commit then InsertOrIgnore(old(table), PreparedRows(entries, source, now)) else old(table))
        && cacheMtime == None
        && domains == old(domains) && keywords == old(keywords) && regexes == old(regexes) && ips == old(ips)
    {
      var rows := PrepareEntries(entries, source, now);
      count := InsertRows(rows, commit);
    }
  }

  /** An entry whose pattern is not blank once trimmed. */
  predicate NonBlank(e: (string, string)) { Strip(e.0) != "" }

  /** The row `add_entries` makes of an entry: pattern trimmed and lowercased, kind lowercased. */
  function PrepareWith(source: string, now: int): ((string, string)) -> Row
  {
    (e: (string, string)) => Row(Lower(Strip(e.0)), Lower(e.1), source, now)
  }

  /** The rows `add_entries` prepares: one per entry with a non-blank pattern, in order. */
  function PreparedRows(entries: seq<(string, string)>, source: string, now: int): seq<Row>
  {
    Keys(Filter(entries, NonBlank), PrepareWith(source, now))
  }

  /** The loop of `add_entries` that builds its rows. */
  method PrepareEntries(entries: seq<(string, string)>, source: string, now: int) returns (rows: seq<Row>)
    ensures rows == PreparedRows(entries, source, now)
  {
    ghost var prepare := PrepareWith(source, now);
    rows := [];
    for i := 0 to |entries|
      invariant rows == Keys(Filter(entries[..i], NonBlank), prepare)
    {
      assert entries[..i + 1] == entries[..i] + [entries[i]];
      KeysFilterSnoc(entries[..i], entries[i], NonBlank, prepare);
      var pattern := Strip(entries[i].0);
      if pattern != "" {
        assert prepare(entries[i]) == Row(Lower(pattern), Lower(entries[i].1), source, now);
        rows := rows + [Row(Lower(pattern), Lower(entries[i].1), source, now)];
      }
    }
    assert entries[..|entries|] == entries;
  }

  /**
   * The prepared rows are the non-blank entries in order, each pattern
   * trimmed, lowercased and non-empty, stored with the given source and time.
   */
  lemma PreparedRowsShape(entries: seq<(string, string)>, source: string, now: int)
    ensures |PreparedRows(entries, source, now)| == |Filter(entries, NonBlank)|
    ensures forall i :: 0 <= i < |PreparedRows(entries, source, now)| ==>
      var r := PreparedRows(entries, source, now)[i];
      var e := Filter(entries, NonBlank)[i];
      r == Row(Lower(Strip(e.0)), Lower(e.1), source, now) && r.pattern != "" && NoneOf(r.pattern, IsUpper)
  {
    var f := Filter(entries, NonBlank);
    FilterMembers(entries, NonBlank);
    forall i | 0 <= i < |f|
      ensures PreparedRows(entries, source, now)[i].pattern != "" && NoneOf(PreparedRows(entries, source, now)[i].pattern, IsUpper)
    {
      LowerNoUpper(Strip(f[i].0));
    }
  }

  // ----- _parse_hosts_content -----

  /** What one line of a hosts file contributes. */
  function LineDomain(raw: string): (r: Option<string>)
    ensures Strip(raw) == "" || Strip(raw)[0] == '#' ==> r == None
    ensures r.Some? ==> r.value == [] || r.value[0] != '.'
  {
    var line := Strip(raw);
    if line == "" || StartsWith(line, "#") then None
    else if StartsWith(line, "0.0.0.0") || StartsWith(line, "127.0.0.1") then
      var parts := Fields(line, IsSpace);
      if |parts| >= 2 then Some(NormaliseDomain(parts[1])) else None
    else Some(NormaliseDomain(line))
  }

  /** A hosts line contributes its second field, the name after the address. */
  lemma LineDomainHosts(addr: string, d: string, rest: string)
    requires IsHostsAddress(addr)
    requires d != [] && NoneOf(d, IsSpace)
    requires rest == [] || IsSpace(rest[0])
    ensures LineDomain(addr + " " + d + rest) == Some(NormaliseDomain(d))
  {
    var raw := addr + " " + d + rest;
    var r := RStripBy(rest, IsSpace);
    assert r == [] || r[0] == rest[0];
    HostsLineStripped(addr, d, rest);
    assert Strip(raw) == addr + " " + (d + r);
    HostsLineBranch(addr, d + r, raw);
    HostsLineFields(addr, d, r);
    assert addr + " " + d + r == addr + " " + (d + r);
  }

  lemma HostsLineStripped(addr: string, d: string, rest: string)
    requires IsHostsAddress(addr)
    requires d != [] && !IsSpace(d[|d| - 1])
    ensures Strip(addr + " " + d + rest) == addr + " " + d + RStripBy(rest, IsSpace)
  {
    HostsAddressStart(addr);
    var x := addr + " " + d;
    assert x[0] == addr[0] && x[|x| - 1] == d[|d| - 1];
    StripAfterKept(x, rest);
  }

  /** `line.split()` of an address, a space, a name and then whitespace or nothing. */
  lemma HostsLineFields(addr: string, d: string, r: string)
    requires IsHostsAddress(addr)
    requires d != [] && NoneOf(d, IsSpace)
    requires r == [] || IsSpace(r[0])
    ensures |Fields(addr + " " + d + r, IsSpace)| >= 2 && Fields(addr + " " + d + r, IsSpace)[1] == d
  {
    HostsAddressChars(addr);
    assert IsSpace(' ');
    SecondField(addr, ' ', d, r, IsSpace);
    assert addr + " " + d + r == addr + [' '] + d + r;
  }

  /** A line that trims to a hosts address and more takes the field branch. */
  lemma HostsLineBranch(addr: string, u: string, raw: string)
    requires IsHostsAddress(addr) && Strip(raw) == addr + " " + u
    ensures var f := Fields(addr + " " + u, IsSpace);
      LineDomain(raw) == if |f| >= 2 then Some(NormaliseDomain(f[1])) else None
  {
    HostsAddressChars(addr);
    var line := addr + " " + u;
    assert line[..1] != "#" by {
      assert line[..1][0] == addr[0];
    }
    assert StartsWith(line, addr) by {
      assert line[..|addr|] == addr;
    }
  }

  /** Any other non-comment name is the whole line, lowercased and without leading dots. */
  lemma LineDomainPlain(d: string)
    requires d != [] && NoneOf(d, IsSpace) && d[0] != '#'
    requires !StartsWith(d, "0.0.0.0") && !StartsWith(d, "127.0.0.1")
    ensures LineDomain(d) == Some(LStripBy(Lower(d), IsDot))
  {
    var line := Strip(d);
    assert line == d;
    assert !StartsWith(line, "#") by {
      assert d[..1][0] == d[0];
    }
    assert LineDomain(d) == Some(NormaliseDomain(line));
    NormaliseBare(d);
  }

  predicate HasDomain(line: string) { LineDomain(line).Some? }

  function DomainOfLine(line: string): string
  {
    if LineDomain(line).Some? then LineDomain(line).value else ""
  }

  /** Some line of `lines` contributes the domain `d`. */
  predicate Contributes(lines: seq<string>, d: string)
  {
    exists i :: 0 <= i < |lines| && LineDomain(lines[i]) == Some(d)
  }

  /** `_parse_hosts_content`: the domains the lines contribute. */
  method ParseHostsContent(content: string) returns (domains: set<string>)
    ensures forall d :: d in domains <==> Contributes(SplitLines(content), d)
    ensures forall d :: d in domains ==> d == [] || d[0] != '.'
  {
    var lines := SplitLines(content);
    domains := ParseLines(lines);
    HostsDomains(lines, domains);
  }

  /** The loop of `_parse_hosts_content` over the lines. */
  method ParseLines(lines: seq<string>) returns (domains: set<string>)
    ensures domains == Gather(lines, HasDomain, DomainOfLine)
  {
    domains := {};
    for i := 0 to |lines|
      invariant domains == Gather(lines[..i], HasDomain, DomainOfLine)
    {
      GatherStep(lines, i, HasDomain, DomainOfLine);
      var line := Strip(lines[i]);
      if line == "" || StartsWith(line, "#") {
        continue;
      }
      if StartsWith(line, "0.0.0.0") || StartsWith(line, "127.0.0.1") {
        var parts := Fields(line, IsSpace);
        if |parts| >= 2 {
          domains := domains + {NormaliseDomain(parts[1])};
        }
      } else {
        domains := domains + {NormaliseDomain(line)};
      }
    }
    assert lines[..|lines|] == lines;
  }

  /** The gathered domains of the lines are those the lines contribute. */
  lemma HostsDomains(lines: seq<string>, domains: set<string>)
    requires domains == Gather(lines, HasDomain, DomainOfLine)
    ensures forall d :: d in domains <==> Contributes(lines, d)
    ensures forall d :: d in domains ==> d == [] || d[0] != '.'
  {
    GatherMembers(lines, HasDomain, DomainOfLine);
    forall d | d in domains
      ensures Contributes(lines, d)
    {
      var i :| 0 <= i < |lines| && HasDomain(lines[i]) && DomainOfLine(lines[i]) == d;
      assert LineDomain(lines[i]) == Some(d);
    }
    forall d | Contributes(lines, d)
      ensures d in domains
    {
      var i :| 0 <= i < |lines| && LineDomain(lines[i]) == Some(d);
      assert HasDomain(lines[i]) && DomainOfLine(lines[i]) == d;
    }
  }
}
