# Manga chapter downloader: the deterministic core, in Dafny

The repository downloads manga chapters from reader sites with a headless browser, turns the captured page images into PDFs and serves the downloader through a Telegram bot. It also ships a few command-line utilities:

- a ZIP splitter for big chapter folders;
- an ad and tracker host blocklist backed by SQLite;
- a "missing chapters" report comparing a site's chapter list with a local folder.

This project models the sequential logic around the browser automation and proves properties of it. The modules follow the source files:

- `Text`, `Sequences`, `Wrappers`: string, sequence and option helpers shared by the rest. Python's `str.strip`, `split`, `splitlines`, `lower` and first-wins dictionaries are written out here.
- `Tokens`: chapter tokens (`12`, `12.5`), their exact decimal value, and the leftmost-number search behind `label_to_chapter_number`.
- `Urls`: the link helpers used by all downloader variants.
  - A link is a record of the six components `urlparse` splits it into: `(scheme, netloc, path, params, query, fragment)`. `params` is the `;...` tail of the last path segment, held apart from the path.
  - Helpers: `with_page1`, `normalize_key`, `abs_url`, `infer_ext`, the chapter number inside a chapter link, the series base link, the chapter link built from it, and the title guessed from a link.
- `Downloader`: filename sanitising, the "sequence" input parser of each variant, the PDF acceptance rules, and the next-N chapter jobs.
  - The variants are the bot `bot/verman2.py`, the older `buenos/verman2.py`, and the Spanish-only `buenos/verman4_ok.py`.
- `Planning`: `_unique_preserve`, `_sort_chapter_tokens`, `dedupe_targets_by_page`, the ordered-targets loop of `buenos/verman3_ok.py`, and the next-N wrap-around planner of `run_download_job`.
- `Captor`: the network image captor.
  - `NetCaptor` is a class with a dictionary and an insertion-order list.
  - `FirstBodyCaptor` is the older dictionary-only captor.
- `ZipSplit`: chapter extraction, name and label sanitising, the entry sort key, the greedy 1 GiB chunker and chunk naming of `bot/compress_zip_split.py`.
- `HostBlocklist`: the `Blocklist` class of `bot/blocklist.py`.
  - The SQLite table is a sequence of rows. Its primary key plus `INSERT OR IGNORE` make the first row per pattern win.
  - Also modelled: kind classification on load, the mtime-based cache, host and IP queries, `add_entries`, and the hosts-file parser.
- `MissingChapters`: chapter codes, their sort key, the first-wins remote and local chapter maps, and the rows of the CSV report.
- `Telegram`: the link and sequence split of an incoming message, and the per-chat retry-job store (`ChatData`).
  - The store evicts jobs after a time-to-live and keys them by a counter.
  - Also modelled: the retry plan, the label display truncation and the retry callback.

Code that updates state step by step is written as methods with loops and is proved against specification functions. This covers the `NetCaptor` and `Blocklist` classes, the chat data, and loops such as `_unique_preserve`, `dedupe_targets_by_page`, `chunk_entries` and the report writer. Pure parsers and rules are functions. Their contracts and lemmas state what the source promises.

## Model

| member | source | states |
|---|---|---|
| Text.NatToString | bot/telegram_bot.py:186-188 | `str(n)` is a non-empty digit string without a leading zero that reads back as `n` |
| Text.NatToStringInjective | bot/telegram_bot.py:186-188 | different counters give different job ids |
| Text.JoinSplit | bot/blocklist.py:220 | the pieces of `str.split` on one character, joined by that character, give the text back |
| Tokens.ChapterTokenShape | bot/verman2.py:340-341 | a token is a chapter token exactly when it is digits, or digits, a dot and digits |
| Tokens.TokenDecimal | bot/verman2.py:344-348 | a value exists exactly for chapter tokens, and it is never negative |
| Tokens.TokenValue | bot/verman2.py:344-348 | the exact decimal value lies between the integer part and the integer part plus one |
| Tokens.TokenValueOfNat | bot/verman2.py:344-348 | `str(n)` is a chapter token whose value is `n` |
| Tokens.FirstNumber | bot/verman2.py:563-566 | no result exactly when the label has no digit; otherwise the result has the variant's number shape |
| Tokens.FirstNumberFinds | buenos/verman2.py:474-476 | digits standing after a digit-free prefix are returned whole |
| Tokens.FirstTokenFinds | bot/verman2.py:563-566 | a decimal number standing after a digit-free prefix is returned whole |
| Urls.SlashEnded | bot/verman2.py:302-306 | the path ends in "/", changed only by appending one when missing |
| Urls.WithPage1 | buenos/verman4_ok.py:40-44 | "" stays ""; otherwise the path ends in "/" and the fragment is "1", with scheme, host, params and query kept |
| Urls.WithPage1Idempotent | bot/verman2.py:302-306 | applying `with_page1` twice equals applying it once |
| Urls.NormalizeKey | buenos/verman3_ok.py:37-41 | the key is empty exactly for the empty link; otherwise it starts with the scheme and "://" and ends with the path |
| Urls.NormalizeKeyIgnoresQuery | bot/verman2.py:321-325 | links differing only in params, query and fragment share a key |
| Urls.NormalizeKeyInjective | buenos/verman4_ok.py:53-56 | with the same scheme and host, equal keys mean equal paths |
| Urls.AbsUrl | buenos/verman3_ok.py:30-35 | "" gives ""; "//x" gets "https:"; a stripped link starting with "http" is kept; anything else is joined to the base |
| Urls.AbsUrlIdempotent | bot/verman2.py:310-318 | an absolute result passes through unchanged |
| Urls.InferExt | buenos/verman3_ok.py:43-48 | always one of jpg, jpeg, png, webp, avif; the link's extension wins; without one, the first word found in the content type; "jpg" when neither matches |
| Urls.UrlExtension | bot/verman2.py:54 | none exactly when no position holds a '.', an image extension in any case, and then '?' or the end; a found extension is one of the five |
| Urls.TypeExtension | bot/verman2.py:332 | none exactly when no position starts one of the five words in any case; a found word is one of them |
| Urls.InferExtOfSuffix | bot/verman2.py:328-333 | a link ending in ".ext" or ".ext?..." gets that extension |
| Urls.ChapterNumberFromUrl | buenos/verman2.py:139-144 | the number has the variant's shape; without a `/leer/a/b/` prefix it is the trailing `/<n>` of the path |
| Urls.ThirdSegment | buenos/verman2.py:140-141 | a `/leer/a/b/<n>/` path gives n whatever follows it, even when a different trailing number ends the path |
| Urls.TrailingNumberNone | buenos/verman2.py:142-143 | the trailing-number search finds nothing exactly when no position starts a match |
| Urls.TrailingNumberFirst | buenos/verman3_ok.py:50-53 | a found number is the match at the leftmost position that has one |
| Urls.DeriveSeriesBase | buenos/verman2.py:146-158 | no params, query or fragment, a path ending in "/", scheme and host kept; a `/leer/a/b/...` path becomes exactly `/leer/a/b/` |
| Urls.BuildChapterUrl | buenos/verman2.py:160-163 | the path is the base path with its slash, then the number and "/"; the fragment is "1"; scheme, host, params and query kept |
| Urls.ChapterNumberRoundTrip | bot/verman2.py:512-540 | reading the number back from a chapter link built on a derived base gives that number |
| Urls.ExtractChapterNumber | buenos/verman3_ok.py:50-53 | "NA" exactly when the trailing-number search over the whole link finds nothing; otherwise a digit string |
| Urls.TitleCase | bot/verman2.py:543-560 | `str.title` on ASCII: the first letter of each letter run is upper case and the rest are lower case |
| Urls.DeriveTitle | buenos/verman2.py:165-187 | never empty; "Chapter" for an empty link; only letters, digits and single interior spaces |
| Urls.DeriveTitleLeer | buenos/verman2.py:173-176 | a `/leer/<a>/<b>/...` link is titled after `<b>`: its cleaned words, title-cased |
| Urls.DeriveTitleSecondLast | buenos/verman2.py:173-178 | any other link with two or more path segments is titled after the second-to-last one |
| Downloader.SanitizeFilename | bot/verman2.py:336-337 | never empty, no forbidden character, no space at either end; the fallback name is "File" or "Archivo" |
| Downloader.SanitizeIdempotent | buenos/verman4_ok.py:64-65 | sanitising a sanitised name changes nothing |
| Downloader.CollapseRun | buenos/verman2.py:72-73 | a run of forbidden characters becomes one "_" |
| Downloader.ParseSequenceInput | bot/verman2.py:1814-1825 | single mode carries the start link; next-N carries one digit string; list mode is never empty |
| Downloader.ParseBlank | buenos/verman2.py:798-809 | blank input gives single mode with the start link |
| Downloader.ParsePlus | bot/verman2.py:1814-1825 | "+N" gives next-N with `str(int(N))` |
| Downloader.ParseNextWord | bot/verman2.py:1814-1825 | "next" or "siguientes", a separator and N give next-N with `str(int(N))` |
| Downloader.Verman4IgnoresNext | buenos/verman4_ok.py:628-639 | the Spanish-only variant never reads "next N" as next-N |
| Downloader.ParseOneNumber | buenos/verman2.py:798-809 | one number is a list when the variant accepts its shape, else single: "12.5" is listed only by the bot |
| Downloader.ParseShape | bot/verman2.py:1814-1825 | listed tokens are fields of the input of the variant's shape; single mode on non-blank input means no count and no acceptable field |
| Downloader.DecideNoCount | buenos/verman4_ok.py:628-639 | without a next-N count, the accepted fields form a list if there are any, else single mode |
| Downloader.ValidatePdf | bot/verman2.py:576-598 | valid iff the file exists, pages > 0, size meets the minimum, 100000 and 100000 per page, 200000 above two pages, and pages reach half of a given expected count |
| Downloader.ValidatePdfBuenos | buenos/verman2.py:637-656 | valid iff size is at least max(1, minimum), pages > 0 and pages reach half of a given expected count; pages reported 0 for a too small file |
| Downloader.BotRuleStricter | bot/verman2.py:43-46 | a PDF the bot accepts is accepted by the older rule with its 30000 minimum |
| Downloader.BuenosNextN | buenos/verman2.py:846-862 | with a start number s, exactly the n consecutive chapter jobs from s on the derived series base (job i expects `str(s + i)`); otherwise the start link alone without an expected number |
| Downloader.PlanConsecutive | buenos/telegram_bot.py:221-234 | the loop plans exactly the consecutive chapters |
| Downloader.ConsecutivePlan | buenos/verman2.py:850-855 | job i expects `str(s + i)` and its link ends in that number and "/" |
| Downloader.ConsecutiveDistinct | buenos/telegram_bot.py:221-240 | no chapter is planned twice |
| Downloader.ChapterJob | bot/verman2.py:1906-1909 | the job expects the token and its link ends in the token and "/" with fragment "1" |
| Downloader.BotNextNJobs | bot/verman2.py:1903-1915 | one job per planned token, expecting that token; the first is the given link when there is a start token, the rest are built on the series base |
| Planning.UniquePreserve | bot/verman2.py:1804-1811 | the loop computes exactly the first occurrences of the non-empty items |
| Planning.UniqueProperties | bot/verman2.py:1804-1811 | no duplicates; exactly the non-empty input items; in first-occurrence order |
| Planning.UniqueOfDistinct | bot/verman2.py:1804-1811 | an input already free of duplicates and empty strings is returned unchanged |
| Planning.SortChapterTokens | bot/verman2.py:1828-1833 | the result is the chapter-ordered token list |
| Planning.ChapterOrderProperties | bot/verman2.py:1828-1833 | sorted by the numeric-then-text key, no duplicates, exactly the non-empty tokens |
| Planning.DedupeTargetsByPage | bot/verman2.py:1315-1329 | the loop, with its early exit at the limit, computes the first usable target per page up to the limit |
| Planning.PageTargetsUsable | bot/verman2.py:1315-1329 | every kept target has page > 0 and a key, comes from the input, and no page repeats |
| Planning.PageTargetsBound | bot/verman2.py:1315-1329 | at most `max(limit, 1)` targets; without a limit every usable page is kept |
| Planning.PageTargetsFirst | bot/verman2.py:1315-1329 | each kept target is the first usable one of its page, kept in input order |
| Planning.CollectOrderedTargets | buenos/verman3_ok.py:174-182 | the loop computes the first target per key, sorted by page |
| Planning.OrderedTargetsProperties | buenos/verman3_ok.py:174-182 | sorted by page, distinct keys, only targets with a key, every key kept |
| Planning.AvailableProperties | bot/verman2.py:1882-1887 | sorted and without duplicates; the fetched tokens plus the start token |
| Planning.InsertStart | bot/verman2.py:1882-1887 | the insert-and-resort step computes the available list |
| Planning.SequenceFrom | bot/verman2.py:1889-1901 | the slicing, extending and de-duplicating steps compute the wrap-around plan |
| Planning.PlanNextN | bot/verman2.py:1880-1901 | the planner computes the next-N plan |
| Planning.NextNPlanStart | bot/verman2.py:1889-1898 | with a start token the plan begins with it |
| Planning.NextNPlanShape | bot/verman2.py:1889-1901 | no duplicates or empty tokens, at most `max(n, 1)` entries, all fetched or the start token |
| Planning.NextNPlanWraps | bot/verman2.py:1889-1895 | with a start token and n ≥ 1, the plan has min(n, available) entries read cyclically from the start token |
| Planning.NextNPlanCovers | bot/verman2.py:1889-1895 | when n covers the available list, every fetched chapter is planned |
| Planning.NextNPlanNoStart | bot/verman2.py:1896-1897 | without a start token the plan is the first n sorted chapters |
| Captor.SliceFrom | bot/verman2.py:1157-1158 | Python slicing from an index, including negative and too-large indices |
| Captor.NetCaptor.constructor | bot/verman2.py:1128-1130 | empty dictionary and order list |
| Captor.NetCaptor.Consume | bot/verman2.py:1135-1149 | an image response with a new key and a body is stored once and appended to the order; otherwise nothing changes; stored entries are never overwritten |
| Captor.NetCaptor.Has | bot/verman2.py:1151-1152 | a key is held exactly when it is in the insertion order |
| Captor.NetCaptor.Take | bot/verman2.py:1154-1155 | the stored capture for a held key |
| Captor.NetCaptor.OrderSince | bot/verman2.py:1157-1158 | exactly `order[start:]` with Python's clamping of the start; distinct non-empty keys, all stored |
| Captor.FirstBodyCaptor.Consume | buenos/verman3_ok.py:196-209 | the first image body per key is kept and never overwritten |
| Captor.FirstBodyCaptor.Take | buenos/verman3_ok.py:214-215 | the stored capture for a held key |
| ZipSplit.ExtractChapter | bot/compress_zip_split.py:63-72 | no value exactly when no label; a label is a chapter token and its value is its exact decimal reading |
| ZipSplit.ExtractChapterLeftmost | bot/compress_zip_split.py:64-67 | ("", None) exactly when no position of the name starts a match; a found label is the match at the first position that has one |
| ZipSplit.Leftmost | bot/compress_zip_split.py:64 | `re.search`: none exactly when no position matches, otherwise the match at the first position that has one |
| ZipSplit.ExtractChapterNone | bot/compress_zip_split.py:63-72 | a name without digits gives ("", None) |
| ZipSplit.ExtractChapterFinds | bot/compress_zip_split.py:21 | "ch", optional spaces and a number after a digit-free prefix give that number and its value |
| ZipSplit.SanitizeBaseName | bot/compress_zip_split.py:75-77 | the alphanumeric characters of the name, or "Archive" when there are none |
| ZipSplit.SanitizeLabel | bot/compress_zip_split.py:80-82 | the digits and dots of the label, or "part" when there are none |
| ZipSplit.SanitizeIdempotent | bot/compress_zip_split.py:75-82 | sanitising a sanitised name or label changes nothing |
| ZipSplit.MakeEntry | bot/compress_zip_split.py:97-108 | an entry carries the file's path, size and extracted chapter |
| ZipSplit.SortedByKey | bot/compress_zip_split.py:110-116 | sorting by the key puts chapter values first, ascending, with ties broken by relative path |
| ZipSplit.BuildEntries | bot/compress_zip_split.py:95-108 | entry i is the entry built from file i (name, size, extracted chapter), one per file, in the order of the walk |
| ZipSplit.CollectEntries | bot/compress_zip_split.py:85-117 | the entries are a permutation of the files' entries in chapter order |
| ZipSplit.ChunkEntries | bot/compress_zip_split.py:130-147 | the chunks concatenate to the input; none is empty; each fits the target unless it holds one entry; each chunk was closed only when the next entry would overflow it; no chunks exactly for no entries |
| ZipSplit.GreedySplitUnique | bot/compress_zip_split.py:136-143 | there is only one such greedy split |
| ZipSplit.ChunkLabelRange | bot/compress_zip_split.py:150-158 | the sanitised labels of the first and last labelled entries, or the fallback prefix and index twice |
| HostBlocklist.SeedRowsOfNonEmpty | bot/blocklist.py:123-144 | each default becomes one row with a stripped, lower-case pattern and the source "local-default" |
| HostBlocklist.DefaultRowsShape | bot/blocklist.py:55-84 | every shipped default has a pattern, so seeding makes one row per default, in order |
| HostBlocklist.InsertOrIgnoreKeeps | bot/blocklist.py:139-141 | existing rows stay first and unchanged, patterns stay unique, and the patterns are the old ones plus the new ones |
| HostBlocklist.NormaliseDomain | bot/blocklist.py:147-151 | the result never starts with a dot |
| HostBlocklist.NormaliseDomainLower | bot/blocklist.py:147-151 | the result has no upper-case letter |
| HostBlocklist.NormaliseBare | bot/blocklist.py:147-151 | a bare domain is lower-cased and loses its leading dots |
| HostBlocklist.NormaliseHostsEntry | bot/blocklist.py:147-151 | after "0.0.0.0 " or "127.0.0.1 ", only the rest counts, lower-cased and without its leading dots |
| HostBlocklist.NormalisePadded | bot/blocklist.py:147-148 | whitespace around a pattern does not change its domain |
| HostBlocklist.ClassifyDomains | bot/blocklist.py:180-200 | the domain set is exactly the normalised patterns of the non-empty domain rows; a missing kind counts as domain |
| HostBlocklist.ClassifyKeywords | bot/blocklist.py:180-200 | the keyword set is exactly the lower-cased keyword patterns |
| HostBlocklist.ClassifyIps | bot/blocklist.py:180-200 | the IP set is exactly the stripped IP patterns |
| HostBlocklist.ClassifyRegexes | bot/blocklist.py:180-200 | the regexes are the compiling regex patterns in table order |
| HostBlocklist.HostKey | bot/blocklist.py:220 | the key has no ':' and no upper-case letter |
| HostBlocklist.HostKeyIgnoresPort | bot/blocklist.py:220 | a port and letter case do not change the key |
| HostBlocklist.DomainHitShape | bot/blocklist.py:226-231 | a domain matches iff the host is the domain or ends with "." and the domain |
| HostBlocklist.Blocklist.constructor | bot/blocklist.py:157-163 | empty classes, no cache time, the shipped defaults |
| HostBlocklist.Blocklist.SeedDefaults | bot/blocklist.py:123-144 | the defaults are inserted or ignored; nothing else changes |
| HostBlocklist.Blocklist.ClassifyTable | bot/blocklist.py:180-200 | the loop classifies the table |
| HostBlocklist.Blocklist.Load | bot/blocklist.py:165-204 | the table is seeded, the classes are those of the table, and the cache time is the file's |
| HostBlocklist.Blocklist.EnsureLoaded | bot/blocklist.py:212-215 | reloads exactly when the file time differs from the cached one |
| HostBlocklist.Blocklist.ShouldBlockHost | bot/blocklist.py:217-241 | the answer is the keyword, domain, regex and IP decision on the host key, over the sets loaded from the table; when the file's time changed, the table is the old table with the defaults inserted and the sets are loaded from it; no host or an empty key touches nothing |
| HostBlocklist.Blocklist.ShouldBlockIp | bot/blocklist.py:243-250 | blocked iff the stripped address is non-empty and in the IP set; when the file's time changed, the table is the old table with the defaults inserted and the IP set is loaded from it; an empty address touches nothing |
| HostBlocklist.Blocklist.InsertRows | bot/blocklist.py:266-282 | returns the row count; on commit the rows are inserted or ignored; the cache time is reset so the next query reloads |
| HostBlocklist.Blocklist.AddEntries | bot/blocklist.py:252-283 | counts the prepared rows; stores them on commit; resets the cache time |
| HostBlocklist.PrepareEntries | bot/blocklist.py:258-265 | the loop prepares the rows |
| HostBlocklist.PreparedRowsShape | bot/blocklist.py:258-265 | blank patterns are skipped; the others are stripped and lower-cased, with a lower-cased kind |
| HostBlocklist.LineDomain | bot/blocklist.py:288-297 | blank and '#' lines give nothing; a domain never starts with a dot |
| HostBlocklist.LineDomainHosts | bot/blocklist.py:290-293 | a line of an address, a space, a name and then whitespace or nothing gives the normalised name |
| HostBlocklist.LineDomainPlain | bot/blocklist.py:294-295 | any other single-word line gives the whole word, lower-cased and without its leading dots |
| HostBlocklist.ParseLines | bot/blocklist.py:287-298 | the loop gathers the line domains |
| HostBlocklist.ParseHostsContent | bot/blocklist.py:286-298 | the set is exactly the domains of the lines, and none starts with a dot |
| MissingChapters.TokenWithoutComma | bot/missing_chapters.py:41 | a chapter token has no comma |
| MissingChapters.ExtractChapterCode | bot/missing_chapters.py:66-76 | no code exactly when the text has no digit; a code is a chapter token without a comma |
| MissingChapters.ExtractChapterCodeFinds | bot/missing_chapters.py:66-76 | the first number after a digit-free prefix is returned, with ',' turned into '.' |
| MissingChapters.CodeOrder | bot/missing_chapters.py:79-84 | numeric codes compare by value and come before the others; the others compare as text |
| MissingChapters.CodeLeFacts | bot/missing_chapters.py:79-84 | the order is total and transitive |
| MissingChapters.FirstPerCodeImages | bot/missing_chapters.py:104-113 | the map's codes are distinct; each chapter comes from an anchor with a code |
| MissingChapters.FirstPerCodeKeys | bot/missing_chapters.py:104-113 | every anchor's code is in the map |
| MissingChapters.FirstPerCodeEarliest | bot/missing_chapters.py:104-113 | each chapter is the first anchor with its code |
| MissingChapters.CollectChapters | bot/missing_chapters.py:104-113 | the loop builds the first-wins map |
| MissingChapters.FetchChapterList | bot/missing_chapters.py:87-119 | an error without a container, or when no anchor has a code; otherwise the first-wins chapters in descending key order |
| MissingChapters.CollectLocalChapters | bot/missing_chapters.py:122-137 | an error for a missing folder; otherwise the first-wins local map |
| MissingChapters.LocalChaptersImages | bot/missing_chapters.py:128-135 | codes are distinct; each comes from a name not starting with '.'; the stem of a file, the name of a folder |
| MissingChapters.LocalChaptersKeys | bot/missing_chapters.py:128-135 | every such name's code is in the map |
| MissingChapters.LocalChaptersEarliest | bot/missing_chapters.py:128-135 | each entry is the first name with its code |
| MissingChapters.LocalNameOf | bot/missing_chapters.py:157 | the local name of a code held locally, else "" |
| MissingChapters.WriteRemoteRows | bot/missing_chapters.py:155-158 | the loop writes one row per remote chapter |
| MissingChapters.WriteLocalOnlyRows | bot/missing_chapters.py:160-167 | the loop writes the sorted local-only rows |
| MissingChapters.GenerateReport | bot/missing_chapters.py:140-170 | the header, the remote rows, then the local-only rows |
| MissingChapters.ReportRemoteRows | bot/missing_chapters.py:152-158 | a header, then one row per remote chapter in order: "descargado" with its local name iff the code is held locally, else "faltante" with "" |
| MissingChapters.LocalOnlyFrom | bot/missing_chapters.py:160-167 | every "solo_local" row is a local entry absent remotely |
| MissingChapters.LocalOnlyCovers | bot/missing_chapters.py:160-167 | every local code absent remotely gets a row |
| MissingChapters.LocalOnlyOrder | bot/missing_chapters.py:160-167 | local-only rows have distinct codes in ascending key order |
| MissingChapters.ReportLocalOnly | bot/missing_chapters.py:152-167 | after the remote rows come exactly the local-only codes, once each, in ascending key order |
| MissingChapters.MissingCount | bot/missing_chapters.py:205-208 | the missing chapters are the remote ones not held locally, as many as the "faltante" rows |
| Telegram.SchemeLength | bot/telegram_bot.py:24 | "http://" or "https://" in any case, or no match |
| Telegram.SearchUrl | bot/telegram_bot.py:24 | the leftmost link match, or none anywhere |
| Telegram.ExtractUrlAndSeq | bot/telegram_bot.py:60-72 | (None, "") for empty text; no link exactly when nothing matches, and then the text is returned; otherwise the link is the cut of the leftmost match and the rest is the text before and after the match, joined by a space and stripped; a link has a scheme, no space and no trailing `).,;` or line break |
| Telegram.ExtractUrlFinds | buenos/telegram_bot.py:72-84 | a link after text where no link starts, followed by whitespace or nothing, gives that link and the text around it, joined by a space and stripped |
| Telegram.NoLinkWithoutH | bot/telegram_bot.py:24 | no link starts inside text that has no 'h' or 'H' |
| Telegram.FailedLabels | bot/telegram_bot.py:204 | one label per failed chapter, "NA" for a missing one, never empty |
| Telegram.NumericLabelsMembers | bot/telegram_bot.py:205 | the numeric labels are exactly the labels that are chapter tokens |
| Telegram.RetryPlan | bot/telegram_bot.py:204-215 | single mode or no numeric label keeps the request; otherwise a non-empty list of the numeric labels |
| Telegram.RetryRequest | bot/telegram_bot.py:351-355 | the stored retry mode and payload, each falling back to the original's when missing; the original request when that gives a list with nothing in it |
| Telegram.DisplayLabels | bot/telegram_bot.py:219-229 | at most ten labels, in order, plus "..." iff there are more |
| Telegram.CallbackJobId | bot/telegram_bot.py:337 | the text after the first ':', or "" without one |
| Telegram.CallbackRoundTrip | bot/telegram_bot.py:241 | the id put in the button's callback data is read back |
| Telegram.RetryRoundTrip | bot/telegram_bot.py:351-369 | the retry made from a stored job is the original link, title and browser mode with the retry plan and label description |
| Telegram.EvictionKeeps | bot/telegram_bot.py:176-184 | a job is kept iff it has no timestamp or is at most the time-to-live old; kept jobs are unchanged |
| Telegram.DropStale | bot/telegram_bot.py:178-184 | the loop removes exactly the stale jobs |
| Telegram.NextIdFresh | bot/telegram_bot.py:186-189 | the next counter value is a new id |
| Telegram.ChatData.constructor | bot/telegram_bot.py:177 | no jobs and a counter at zero |
| Telegram.ChatData.StoreRetryJob | bot/telegram_bot.py:175-190 | stale jobs are evicted, the counter grows by one, and the job is stored under a new id `str(counter)` |
| Telegram.ChatData.TakeRetryJob | bot/telegram_bot.py:193-195 | returns and removes the job; a missing id gives none and changes nothing |
| Telegram.ChatData.ScheduleRetry | bot/telegram_bot.py:198-246 | stores the planned retry under a new id and returns the prompt and the callback data |
| Telegram.ChatData.RetryCallback | bot/telegram_bot.py:331-372 | a retry exactly when the id is stored, then built from that job, which is removed |
| Telegram.ScheduleThenRetry | bot/telegram_bot.py:198-372 | pressing the button after scheduling gives back the planned retry once and removes the job |

## Left out

- Browser automation (Playwright): navigation, route filters, frames, scrolling, image saving, chapter processing and retries with back-off sleeps. These are I/O, callbacks and timing.
- The page-dependent parts of `compute_chapter_number`: I/O.
- `fetch_available_chapters`: I/O. Its token list is a parameter of the next-N planner.
- Image normalisation and PDF creation (PIL, img2pdf), the page count read from the file, and `wait_for_file_stable`. These are file I/O and time. The page count and file size are parameters of the PDF rules.
- `format_size` in the compressors: floating point.
- `urljoin`: a library call. A relative link resolves to `Joined(base, reference)`.
- `urlparse`/`urlunparse`: a link is taken already split into its six components, so the splitting itself (which part of the last segment becomes `params`, for instance) and the joining back into text are not modelled.
- `promote_primary_domain` and its helpers: the promotion tables are empty, so it returns its input unchanged.
- The site and script allow-lists and `read_manhwaweb_metadata`: they serve the browser filters only.
- SQLite connections and the file's mtime read: the table is a field and the mtime is a parameter.
- Regex compilation and `re.search` of regex entries: parameters.
- `ipaddress.ip_address`: a parameter.
- `fetch_remote_list`, `sync_remote_sources`, `_export` and the blocklist command line: network and I/O.
- The HTTP fetch and HTML parsing in `fetch_chapter_list`: anchors and `urljoin` are parameters.
- `normalize_windows_path`, directory walking and the CSV and ZIP writing: file system. A directory listing is a parameter.
- Telegram plumbing: handlers, the polling loop, semaphores, threads, logging, `notify_admin`, sending files and `_cleanup_pdf`.
- Message texts: the prompt text and the "Reintentando" line are modelled only as far as their label lists.
- `bot/pdf_integrity_checker.py`, `bot/compress_best.py`, `bot/compress_zip.py`, `verman1.py` and `buenos/verman_ok.py` are not part of this model.
- There is no offline sync engine (catalog, replicas, pending-action queue) in these source files, so none is modelled.
- Characters: `\d`, `str.isdigit`, `str.isalnum`, letters and `lower()`/`title()` are ASCII only. Python also accepts other Unicode digits and letters. Whitespace (`\s`, `str.isspace`, `splitlines`) uses Python's full set.
- `Decimal`: only strings of the form digits or digits.digits are read, which is all the patterns can match.
- Timestamps: `time.time()` is a whole number of seconds passed in as a parameter.
- Concurrency: captured responses arrive one call at a time.
- Captor.NetCaptor.Take: returns None for a missing key, where Python raises `KeyError`; the callers check `has` first.
- Captor.FirstBodyCaptor.Take: returns None for a missing key, where Python raises `KeyError`; the callers check `has` first.
- Urls.InferExt: the extension words are compared by ASCII case only. Python's `re.I` on a str pattern also lets 'ı' (U+0131) and 'İ' (U+0130) match 'i', so the source takes a link ending in ".avıf" as an image (in `Captor.IsImage` too) and returns "avıf" as its extension; the model finds no extension there. The same holds for `Urls.UrlExtension` and `Urls.TypeExtension`.
- Captor.NetCaptor.Consume: an exception inside the handler is not modelled; a missing body is modelled as no change.
- Planning.PageTargetsBound: states at most `max(limit, 1)` targets. A limit of zero or less still keeps one target, because the source checks the limit only after appending; the callers never pass one.
- Planning.NextNPlanShape: states at most `max(n, 1)` entries. With n = 0 and a start token the plan is the start token alone, because the empty slice falls back to it.
- MissingChapters.FetchChapterList: states sorted and a permutation. It does not state that Python's stable sort keeps chapters of equal key (e.g. "1" and "1.0") in map order.
- ZipSplit.CollectEntries: states chapter order and a permutation. It does not state the stable order of entries whose keys are equal.
- Downloader.ParseSequenceInput: the three variants are one function with a variant parameter. Only the next-N words and the list token shape differ.
- The bot's single and list download modes are direct calls per token and are not modelled beyond `Downloader.ChapterJob`.
