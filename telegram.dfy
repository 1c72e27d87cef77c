/**
 * The Telegram front end of the downloader: how a message is split into a
 * chapter link and the sequence typed after it, and the per-chat store of
 * failed jobs that a "Reintentar fallidos" button hands back.
 */
module Telegram {
  import opened Wrappers
  import opened Text
  import opened Sequences
  import opened Tokens
  import opened Downloader

  // ---------------------------------------------------------------------
  // The link in a message: `re.compile(r"https?://\S+", re.I).search(text)`
  // ---------------------------------------------------------------------

  /**
   * The letters of the scheme under `re.I`: each letter and its capital, and
   * for 's' also the long s, which Python's case folding treats as the same
   * letter.
   */
  predicate IsH(c: char) { c == 'h' || c == 'H' }
  predicate IsT(c: char) { c == 't' || c == 'T' }
  predicate IsP(c: char) { c == 'p' || c == 'P' }
  predicate IsS(c: char) { c == 's' || c == 'S' || c == '\U{017F}' }

  /** `http` at the start of `s`, in any case. */
  predicate HttpAt(s: string)
  {
    |s| >= 4 && IsH(s[0]) && IsT(s[1]) && IsT(s[2]) && IsP(s[3])
  }

  /**
   * How much of `s` the `https?://` part takes: 8 with the optional 's'
   * (tried first, as `?` is greedy), 7 without it, 0 when neither matches.
   */
  function SchemeLength(s: string): (k: nat)
    ensures k == 0 || k == 7 || k == 8
    ensures k > 0 ==> k <= |s| && s[k - 1] == '/'
    ensures k > 0 ==> forall i :: 0 <= i < k ==> !IsSpace(s[i])
  {
    if HttpAt(s) && |s| >= 8 && IsS(s[4]) && s[5] == ':' && s[6] == '/' && s[7] == '/' then 8
    else if HttpAt(s) && |s| >= 7 && s[4] == ':' && s[5] == '/' && s[6] == '/' then 7
    else 0
  }

  /** The scheme is decided by the first characters: a longer text agrees with its prefix. */
  lemma SchemePrefix(r: string, t: string)
    requires |r| <= |t| && r == t[..|r|]
    ensures |r| >= 8 ==> SchemeLength(r) == SchemeLength(t)
    ensures SchemeLength(t) > 0 && |r| >= SchemeLength(t) ==> SchemeLength(r) == SchemeLength(t)
  {
    assert forall i :: 0 <= i < |r| ==> r[i] == t[i];
  }

  /** The pattern matches at the start of `t`: a scheme, then at least one non-space. */
  predicate UrlPrefix(t: string)
  {
    var k := SchemeLength(t);
    0 < k < |t| && !IsSpace(t[k])
  }

  /** The pattern matches at position `j` of `s`. */
  predicate UrlAt(s: string, j: nat)
  {
    j < |s| && UrlPrefix(s[j..])
  }

  /** Where a match at `j` ends: `\S+` takes every non-space after the scheme. */
  function UrlEnd(s: string, j: nat): (e: nat)
    requires UrlAt(s, j)
    ensures j < e <= |s|
  {
    var k := SchemeLength(s[j..]);
    j + k + RunLength(s[j + k..], IsSpace)
  }

  /** `search` from position `i`: the leftmost match at or after `i`. */
  function SearchUrl(s: string, i: nat): (m: Option<Span>)
    requires i <= |s|
    ensures m.None? ==> forall j :: i <= j < |s| ==> !UrlAt(s, j)
    ensures m.Some? ==>
      && i <= m.value.start && UrlAt(s, m.value.start)
      && m.value.end == UrlEnd(s, m.value.start)
      && forall j :: i <= j < m.value.start ==> !UrlAt(s, j)
    decreases |s| - i
  {
    if i == |s| then None
    else if UrlAt(s, i) then Some(Span(i, UrlEnd(s, i)))
    else SearchUrl(s, i + 1)
  }

  /** The characters `rstrip(").,;\n\r")` removes from the end of a link. */
  predicate IsUrlTail(c: char)
  {
    c in {')', '.', ',', ';', '\n', '\r'}
  }

  /**
   * `extract_url_and_seq`: the first link in the message, with trailing
   * punctuation removed, and the rest of the message (before and after the
   * link, joined by a space and stripped) as the sequence text.
   */
  function ExtractUrlAndSeq(text: string): (r: (Option<string>, string))
    ensures text == [] ==> r == (None, "")
    ensures r.0.None? <==> forall j :: 0 <= j < |text| ==> !UrlAt(text, j)
    ensures r.0.None? ==> r.1 == text
    ensures r.0.Some? ==>
      && NoneOf(r.0.value, IsSpace)
      && SchemeLength(r.0.value) > 0
      && !IsUrlTail(r.0.value[|r.0.value| - 1])
    ensures SearchUrl(text, 0).Some? ==>
      var m := SearchUrl(text, 0).value;
      && r.0 == Some(CutUrl(text[m.start..m.end]))
      && r.1 == Strip(text[..m.start] + " " + text[m.end..])
  {
    if text == [] then (None, "")
    else
      match SearchUrl(text, 0)
      case None => (None, text)
      case Some(m) =>
        var url := CutUrl(text[m.start..m.end]);
        MatchedUrl(text, m.start, m.end);
        (Some(url), Strip(text[..m.start] + " " + text[m.end..]))
  }

  /** `m.group(0).strip().rstrip(").,;\n\r")`. */
  function CutUrl(run: string): (url: string)
    ensures NoneOf(run, IsSpace) ==> url == RStripBy(run, IsUrlTail)
  {
    RStripBy(Strip(run), IsUrlTail)
  }

  /** The link cut from a match keeps its scheme, has no whitespace and ends on a non-tail character. */
  lemma MatchedUrl(s: string, j: nat, e: nat)
    requires UrlAt(s, j) && e == UrlEnd(s, j)
    ensures NoneOf(CutUrl(s[j..e]), IsSpace)
    ensures SchemeLength(CutUrl(s[j..e])) > 0
    ensures CutUrl(s[j..e]) != [] && !IsUrlTail(CutUrl(s[j..e])[|CutUrl(s[j..e])| - 1])
  {
    MatchedRun(s, j, e);
    RunUrl(s[j..e]);
  }

  /** The text of a match: a scheme, then non-spaces only. */
  lemma MatchedRun(s: string, j: nat, e: nat)
    requires UrlAt(s, j) && e == UrlEnd(s, j)
    ensures SchemeLength(s[j..e]) > 0 && NoneOf(s[j..e], IsSpace)
  {
    var u := s[j..];
    var t := s[j..e];
    var k := SchemeLength(u);
    var n := RunLength(u[k..], IsSpace);
    assert t == u[..k + n];
    SchemePrefix(t, u);
    forall i | k <= i < |t|
      ensures !IsSpace(t[i])
    {
      assert t[i] == u[k..][i - k];
    }
  }

  /** Stripping a run that starts with a scheme keeps the scheme and ends on a non-tail character. */
  lemma RunUrl(t: string)
    requires SchemeLength(t) > 0 && NoneOf(t, IsSpace)
    ensures NoneOf(RStripBy(t, IsUrlTail), IsSpace)
    ensures SchemeLength(RStripBy(t, IsUrlTail)) > 0
    ensures RStripBy(t, IsUrlTail) != [] && !IsUrlTail(RStripBy(t, IsUrlTail)[|RStripBy(t, IsUrlTail)| - 1])
  {
    RunUrlScheme(t);
    RunUrlNoSpace(t);
  }

  lemma RunUrlScheme(t: string)
    requires SchemeLength(t) > 0
    ensures SchemeLength(RStripBy(t, IsUrlTail)) > 0
  {
    var k := SchemeLength(t);
    SlashKept(t, k - 1);
    SchemePrefix(RStripBy(t, IsUrlTail), t);
  }

  lemma RunUrlNoSpace(t: string)
    requires NoneOf(t, IsSpace)
    ensures NoneOf(RStripBy(t, IsUrlTail), IsSpace)
  {
    NoneOfSlice(t, IsSpace, 0, |RStripBy(t, IsUrlTail)|);
  }

  /** Removing the trailing punctuation never reaches a '/'. */
  lemma SlashKept(t: string, k: nat)
    requires k < |t| && t[k] == '/'
    ensures |RStripBy(t, IsUrlTail)| > k
  {
    assert !IsUrlTail(t[k]);
    RStripByKeeps(t, IsUrlTail, k);
  }

  /** Every search from `i` finds what a search from `j` finds when nothing matches in between. */
  lemma {:induction false} SearchSkips(s: string, i: nat, j: nat)
    requires i <= j <= |s|
    requires forall x :: i <= x < j ==> !UrlAt(s, x)
    ensures SearchUrl(s, i) == SearchUrl(s, j)
    decreases j - i
  {
    if i < j {
      SearchSkips(s, i + 1, j);
    }
  }

  /**
   * A message made of text where no link starts, a link, and text that starts
   * with whitespace (or nothing) yields exactly that link, and the two texts
   * joined by a space and stripped.
   */
  lemma ExtractUrlFinds(a: string, u: string, b: string)
    requires forall j :: 0 <= j < |a| ==> !UrlAt(a + u + b, j)
    requires UrlPrefix(u) && NoneOf(u, IsSpace) && !IsUrlTail(u[|u| - 1])
    requires b == [] || IsSpace(b[0])
    ensures ExtractUrlAndSeq(a + u + b) == (Some(u), Strip(a + " " + b))
  {
    var s := a + u + b;
    FindsMatch(a, u, b);
    assert s[|a|..|a| + |u|] == u;
    assert s[..|a|] == a;
    assert s[|a| + |u|..] == b;
    assert Strip(u) == u;
    assert RStripBy(u, IsUrlTail) == u;
  }

  /** The search finds the link right after the text where no link starts. */
  lemma FindsMatch(a: string, u: string, b: string)
    requires forall j :: 0 <= j < |a| ==> !UrlAt(a + u + b, j)
    requires UrlPrefix(u) && NoneOf(u, IsSpace)
    requires b == [] || IsSpace(b[0])
    ensures SearchUrl(a + u + b, 0) == Some(Span(|a|, |a| + |u|))
  {
    LinkAt(a, u, b);
    SearchSkips(a + u + b, 0, |a|);
  }

  /** No link starts inside text without an 'h', whatever follows it. */
  lemma NoLinkWithoutH(a: string, t: string)
    requires forall i :: 0 <= i < |a| ==> !IsH(a[i])
    ensures forall j :: 0 <= j < |a| ==> !UrlAt(a + t, j)
  {
    var s := a + t;
    forall x | 0 <= x < |a|
      ensures !UrlAt(s, x)
    {
      assert s[x..][0] == a[x];
    }
  }

  /** The link is a match at its position, and the match ends where the link does. */
  lemma LinkAt(a: string, u: string, b: string)
    requires UrlPrefix(u) && NoneOf(u, IsSpace)
    requires b == [] || IsSpace(b[0])
    ensures UrlAt(a + u + b, |a|) && UrlEnd(a + u + b, |a|) == |a| + |u|
  {
    var s := a + u + b;
    assert s[|a|..] == u + b;
    var k := SchemeLength(u);
    SchemePrefix(u, u + b);
    assert SchemeLength(s[|a|..]) == k;
    assert (u + b)[k..] == u[k..] + b;
    NoneOfSlice(u, IsSpace, k, |u|);
    if b == [] {
      RunLengthWhole(u[k..], IsSpace);
    } else {
      RunLengthConcat(u[k..], b, IsSpace);
    }
  }

  // ---------------------------------------------------------------------
  // Retry jobs
  // ---------------------------------------------------------------------

  /** `RETRY_JOB_TTL_SEC`: a stored job older than this many seconds is dropped. */
  const RetryJobTtl: int := 1800

  /** The part of the finished job a retry needs (`base_job`). */
  datatype BaseJob = BaseJob(startUrl: string, title: string, request: Request, headless: bool)

  /**
   * A stored retry job (`job_data`): the base job plus the time it was stored,
   * the labels of the chapters that failed and the request to retry with.
   * Keys a stored dict may lack are the Option fields.
   */
  datatype RetryJob = RetryJob(
    startUrl: string,
    title: string,
    request: Request,
    headless: bool,
    timestamp: Option<int>,
    failedLabels: seq<string>,
    retryMode: Option<Mode>,
    retryPayload: Option<seq<string>>)

  /** `res.chapter or "NA"`, with a missing chapter written as "". */
  function FailedLabel(chapter: string): string
  {
    if chapter != "" then chapter else "NA"
  }

  /** The labels of the failed chapters, one per failed result, in order. */
  function FailedLabels(chapters: seq<string>): (labels: seq<string>)
    ensures |labels| == |chapters|
    ensures forall i :: 0 <= i < |labels| ==> labels[i] != ""
    ensures forall i :: 0 <= i < |labels| ==> chapters[i] != "" ==> labels[i] == chapters[i]
  {
    Keys(chapters, FailedLabel)
  }

  /** `tok and m.is_chapter_token(tok)`. */
  predicate IsNumericLabel(t: string)
  {
    t != "" && IsChapterToken(t)
  }

  /** The failed labels that are chapter numbers, in their order. */
  function NumericLabels(labels: seq<string>): seq<string>
  {
    Filter(labels, IsNumericLabel)
  }

  /** The numeric labels are exactly the labels that are chapter tokens. */
  lemma NumericLabelsMembers(labels: seq<string>)
    ensures forall t :: t in NumericLabels(labels) <==> t in labels && IsNumericLabel(t)
  {
    FilterMembers(labels, IsNumericLabel);
  }

  /**
   * The request a retry runs: the original one when it asked for a single
   * chapter or no failed label is a chapter number, otherwise a list of exactly
   * the numeric failed labels.
   */
  function RetryPlan(base: Request, labels: seq<string>): (r: Request)
    ensures base.mode == Single ==> r == base
    ensures (forall i :: 0 <= i < |labels| ==> !IsNumericLabel(labels[i])) ==> r == base
    ensures base.mode != Single && (exists i :: 0 <= i < |labels| && IsNumericLabel(labels[i])) ==>
      r == Request(List, NumericLabels(labels)) && r.payload != []
  {
    FilterEmpty(labels, IsNumericLabel);
    if base.mode == Single || NumericLabels(labels) == [] then base
    else Request(List, NumericLabels(labels))
  }

  /** The job `_schedule_retry_prompt` stores for a base job and its failed labels. */
  function StoredJob(base: BaseJob, labels: seq<string>, now: int): RetryJob
  {
    var plan := RetryPlan(base.request, labels);
    RetryJob(base.startUrl, base.title, base.request, base.headless, Some(now), labels,
             Some(plan.mode), Some(plan.payload))
  }

  /**
   * The request `retry_failed_callback` runs for a stored job: the stored
   * retry mode and payload (the original ones where absent), except that a
   * list retry with nothing in it falls back to the original request.
   */
  function RetryRequest(job: RetryJob): (r: Request)
    ensures job.retryMode.None? && job.retryPayload.None? ==> r == job.request
    ensures r.mode == List && r.payload == [] ==> r == job.request
    ensures r != job.request ==>
      && r.mode == job.retryMode.GetOr(job.request.mode)
      && r.payload == job.retryPayload.GetOr(job.request.payload)
    ensures var mode := job.retryMode.GetOr(job.request.mode);
      var payload := job.retryPayload.GetOr(job.request.payload);
      !(mode == List && payload == []) ==> r == Request(mode, payload)
  {
    var mode := job.retryMode.GetOr(job.request.mode);
    var payload := job.retryPayload.GetOr(job.request.payload);
    if mode == List && payload == [] then job.request else Request(mode, payload)
  }

  /** The labels shown to the user: at most ten, then "..." when there were more. */
  function DisplayLabels(labels: seq<string>): (r: seq<string>)
    ensures |labels| <= 10 ==> r == labels
    ensures |r| <= 11
    ensures |r| > 10 <==> |labels| > 10
    ensures forall i :: 0 <= i < |r| && i < 10 ==> r[i] == labels[i]
    ensures |r| == 11 ==> r[10] == "..."
  {
    if |labels| > 10 then labels[..10] + ["..."] else labels
  }

  /** `sep.join(parts)`. */
  function JoinWith(parts: seq<string>, sep: string): string
  {
    if |parts| == 0 then ""
    else if |parts| == 1 then parts[0]
    else parts[0] + sep + JoinWith(parts[1..], sep)
  }

  /** What "Reintentando ..." names: the shown labels, or "la solicitud" when there are none. */
  function Describe(labels: seq<string>): string
  {
    var shown := DisplayLabels(labels);
    if shown != [] then JoinWith(shown, ", ") else "la solicitud"
  }

  /** The message sent with the retry button. */
  function PromptText(plan: Request, labels: seq<string>): string
  {
    var numeric := NumericLabels(labels);
    if plan.mode == List && numeric != [] then
      "Capítulos fallidos: " + JoinWith(DisplayLabels(numeric), ", ") + "\nPulsa para reintentar."
    else
      var desc := if DisplayLabels(labels) != [] then JoinWith(DisplayLabels(labels), ", ") else "";
      if desc != "" then
        "Hubo fallos en: " + desc + "\nPulsa el botón para reintentar la solicitud completa."
      else
        "La solicitud falló. Pulsa el botón para reintentar."
  }

  /** The prefix of the button's `callback_data`. */
  const CallbackPrefix: string := "retry_job:"

  /** `data.split(":", 1)[1] if ":" in data else ""`. */
  function CallbackJobId(data: string): (id: string)
    ensures ':' !in data ==> id == ""
    ensures ':' in data ==>
      && |id| < |data|
      && data == data[..|data| - |id| - 1] + [':'] + id
      && ':' !in data[..|data| - |id| - 1]
  {
    var k := IndexOf(data, ':');
    if k == |data| then ""
    else
      assert data == data[..k] + [':'] + data[k + 1..];
      data[k + 1..]
  }

  /** The job id written into a button comes back out of its callback data. */
  lemma CallbackRoundTrip(id: string)
    ensures CallbackJobId(CallbackPrefix + id) == id
  {
    var data := CallbackPrefix + id;
    assert data[9] == ':' && forall i :: 0 <= i < 9 ==> data[i] != ':';
    assert data[10..] == id;
  }

  /** What a retry runs: the job's link, title, browser mode, request and description. */
  datatype Retry = Retry(startUrl: string, title: string, request: Request, headless: bool, desc: string)

  function RetryOf(job: RetryJob): Retry
  {
    Retry(job.startUrl, job.title, RetryRequest(job), job.headless, Describe(job.failedLabels))
  }

  /**
   * A job stored for some failed chapters is retried with the plan made when
   * it was stored, on the same link and title, describing the same labels.
   */
  lemma RetryRoundTrip(base: BaseJob, chapters: seq<string>, now: int)
    ensures var labels := FailedLabels(chapters);
      RetryOf(StoredJob(base, labels, now)) ==
        Retry(base.startUrl, base.title, RetryPlan(base.request, labels), base.headless, Describe(labels))
  {
    var labels := FailedLabels(chapters);
    var plan := RetryPlan(base.request, labels);
    FilterEmpty(labels, IsNumericLabel);
  }

  /** A job that is more than the time to live old when a new one is stored. */
  predicate IsStale(job: RetryJob, now: int)
  {
    job.timestamp.Some? && now - job.timestamp.value > RetryJobTtl
  }

  /** The ids `_store_retry_job` drops before storing. */
  function StaleIds(jobs: map<string, RetryJob>, now: int): set<string>
  {
    set id | id in jobs && IsStale(jobs[id], now)
  }

  /** The store after the stale jobs are dropped. */
  function Evicted(jobs: map<string, RetryJob>, now: int): map<string, RetryJob>
  {
    map id | id in jobs && !IsStale(jobs[id], now) :: jobs[id]
  }

  /**
   * Eviction drops exactly the jobs older than the time to live: a job with
   * no timestamp stays, and every job kept is unchanged.
   */
  lemma EvictionKeeps(jobs: map<string, RetryJob>, now: int)
    ensures forall id :: id in Evicted(jobs, now) <==>
      id in jobs && (jobs[id].timestamp.None? || now - jobs[id].timestamp.value <= RetryJobTtl)
    ensures forall id :: id in Evicted(jobs, now) ==> Evicted(jobs, now)[id] == jobs[id]
    ensures Evicted(jobs, now) == jobs - StaleIds(jobs, now)
  {
  }

  /** The eviction loop of `_store_retry_job`: pop every stale id. */
  method DropStale(jobs: map<string, RetryJob>, now: int) returns (kept: map<string, RetryJob>)
    ensures kept == Evicted(jobs, now)
  {
    var stale := StaleIds(jobs, now);
    var pending := stale;
    kept := jobs;
    while pending != {}
      invariant pending <= stale
      invariant kept == jobs - (stale - pending)
      decreases |pending|
    {
      var id :| id in pending;
      kept := kept - {id};
      pending := pending - {id};
    }
    EvictionKeeps(jobs, now);
  }

  /** `id` is `str(n)` for some sequence number from 1 to `count`. */
  ghost predicate Issued(id: string, count: nat)
  {
    exists n: nat :: 1 <= n <= count && id == NatToString(n)
  }

  /** The next sequence number gives an id no issued id equals. */
  lemma NextIdFresh(jobs: map<string, RetryJob>, count: nat)
    requires forall id :: id in jobs ==> Issued(id, count)
    ensures NatToString(count + 1) !in jobs
    ensures forall id :: id in jobs ==> Issued(id, count + 1)
  {
    forall id | id in jobs
      ensures id != NatToString(count + 1) && Issued(id, count + 1)
    {
      var n: nat :| 1 <= n <= count && id == NatToString(n);
      assert DigitsValue(id) == n;
    }
  }

  /**
   * The retry state of one chat (`context.chat_data`): the stored jobs by id
   * (`retry_jobs`) and the last sequence number handed out (`_retry_seq`).
   */
  class ChatData {
    var retryJobs: map<string, RetryJob>
    var retrySeq: nat

    /** Every stored id is the decimal form of a sequence number already handed out. */
    ghost predicate Valid()
      reads this
    {
      forall id :: id in retryJobs ==> Issued(id, retrySeq)
    }

    /** A chat with no retry state yet. */
    constructor()
      ensures Valid()
      ensures retryJobs == map[] && retrySeq == 0
    {
      retryJobs := map[];
      retrySeq := 0;
    }

    /**
     * `_store_retry_job`: drop the stale jobs, hand out the next sequence
     * number and store the job under its decimal form, an id no stored job has.
     */
    method StoreRetryJob(now: int, job: RetryJob) returns (jobId: string)
      requires Valid()
      modifies this
      ensures Valid()
      ensures retrySeq == old(retrySeq) + 1
      ensures jobId == NatToString(retrySeq) && DigitsValue(jobId) == retrySeq
      ensures jobId !in old(retryJobs)
      ensures retryJobs == Evicted(old(retryJobs), now)[jobId := job]
    {
      var jobs := DropStale(retryJobs, now);
      NextIdFresh(old(retryJobs), retrySeq);
      retrySeq := retrySeq + 1;
      jobId := NatToString(retrySeq);
      retryJobs := jobs[jobId := job];
      assert Issued(jobId, retrySeq);
    }

    /** `_take_retry_job`: remove the job stored under the id and return it, if any. */
    method TakeRetryJob(jobId: string) returns (job: Option<RetryJob>)
      requires Valid()
      modifies this
      ensures Valid()
      ensures job == if jobId in old(retryJobs) then Some(old(retryJobs)[jobId]) else None
      ensures retryJobs == old(retryJobs) - {jobId}
      ensures retrySeq == old(retrySeq)
    {
      if jobId in retryJobs {
        job := Some(retryJobs[jobId]);
        retryJobs := retryJobs - {jobId};
      } else {
        job := None;
      }
    }

    /**
     * `_schedule_retry_prompt`: store the job for the failed chapters with its
     * retry plan, and return the prompt and the button's callback data.
     */
    method ScheduleRetry(now: int, base: BaseJob, chapters: seq<string>)
      returns (jobId: string, text: string, callback: string)
      requires Valid()
      modifies this
      ensures Valid()
      ensures retrySeq == old(retrySeq) + 1 && jobId == NatToString(retrySeq)
      ensures jobId !in old(retryJobs)
      ensures retryJobs == Evicted(old(retryJobs), now)[jobId := StoredJob(base, FailedLabels(chapters), now)]
      ensures text == PromptText(RetryPlan(base.request, FailedLabels(chapters)), FailedLabels(chapters))
      ensures callback == CallbackPrefix + jobId
    {
      var labels := FailedLabels(chapters);
      var job := StoredJob(base, labels, now);
      jobId := StoreRetryJob(now, job);
      text := PromptText(RetryPlan(base.request, labels), labels);
      callback := CallbackPrefix + jobId;
    }

    /**
     * `retry_failed_callback`: the job named by the callback data is taken
     * out of the store and retried; no id, or an id no longer stored, retries
     * nothing.
     */
    method RetryCallback(data: string) returns (r: Option<Retry>)
      requires Valid()
      modifies this
      ensures Valid()
      ensures retrySeq == old(retrySeq)
      ensures var id := CallbackJobId(data);
        && (r.Some? <==> id != "" && id in old(retryJobs))
        && (r.Some? ==> r.value == RetryOf(old(retryJobs)[id]))
        && retryJobs == if id == "" then old(retryJobs) else old(retryJobs) - {id}
    {
      var id := CallbackJobId(data);
      if id == "" {
        return None;
      }
      var job := TakeRetryJob(id);
      match job
      case None => r := None;
      case Some(j) => r := Some(RetryOf(j));
    }
  }

  /**
   * A job scheduled for some failed chapters and then called back through
   * its button is retried with the plan made for those chapters, and only
   * that job leaves the store.
   */
  method ScheduleThenRetry(chat: ChatData, now: int, base: BaseJob, chapters: seq<string>)
    returns (r: Option<Retry>)
    requires chat.Valid()
    modifies chat
    ensures chat.Valid()
    ensures r == Some(Retry(base.startUrl, base.title, RetryPlan(base.request, FailedLabels(chapters)),
                            base.headless, Describe(FailedLabels(chapters))))
    ensures chat.retryJobs == Evicted(old(chat.retryJobs), now) - {NatToString(chat.retrySeq)}
  {
    var jobId, text, callback := chat.ScheduleRetry(now, base, chapters);
    assert chat.retryJobs[jobId] == StoredJob(base, FailedLabels(chapters), now);
    CallbackRoundTrip(jobId);
    RetryRoundTrip(base, chapters, now);
    r := chat.RetryCallback(callback);
  }
}
