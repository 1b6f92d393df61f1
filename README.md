# A verified model of semscrape's crawl-and-enrichment pipeline

semscrape collects news articles from RSS feeds and enriches them. The
crawler (crawler/tasks.py) does four things:

- It reconciles each feed's items into `RSSEntry` records keyed by link.
- It downloads each entry's page, keeping null, empty and textual bodies
  distinct.
- It submits parse tasks.
- It sweeps the tables for fetches to retry and for feeds to crawl.

The analyzer (analyzer/tasks.py) runs four extraction heuristics over a
parsed page: title, keywords, author and article body. It keeps the result
as the entry's single `Article`, and sweeps for entries still to be parsed.

This Dafny project models that decision logic and proves what the code
promises about it.

Modules:

- `Wrappers`: `Option` and `Result`.
- `Text`: the Python string operations the code relies on. These are
  `str.strip`, `sub in s`, `split(",")`, `" ".join`, and Django's
  `icontains`.
- `Extraction`: the four `find_*` heuristics. They run over an abstract
  parsed page: the `<head>` titles, the `<meta>` attribute maps and the
  `<article>` text nodes, all in document order. A regex `.*word` is a
  case-sensitive substring test. Uncaught exceptions are `Fault` values:
  no `<head>`, or a matched `<meta>` without `content`.
- `Storage`: the `RSSFeed`, `RSSEntry` and `Article` records, and the task
  queue as a log of submissions. The class `Store` holds the tables and the
  log, and its `Valid()` is the database's referential integrity.
- `AnalyzerTasks`: `parse_html_entry` (the guard, then the upsert) and
  `dispatch_parse_html_entries`.
- `CrawlerTasks`: `request_article`, `retrieve_feed_entries`,
  `dispatch_crawl_entries` and `dispatch_crawl_feeds`. They are methods on
  the store with loops. Each method is proved against a function of the old
  state (`Fetched`, `Step`/`Run` and `CrawlSweep`), and the lemmas are about
  those functions.

Three external effects are parameters:

- the HTTP client is a function from URL to `Option<Response>`;
- the clock is an `Instant`;
- the HTML and feed parsers are functions that yield the abstract page or
  item list.

A task that raises an uncaught exception keeps what it had already written.
The model returns the fault together with that state.

Three behaviours of the code are easy to miss, and the model keeps them:

- The article body keeps text nodes that strip to the empty string
  (analyzer/tasks.py:77-78). A node of only whitespace contributes `""`,
  so it can leave double spaces or give an empty body.
- A `retrieve_feed_entries` call for a feed id that does not exist raises
  (crawler/tasks.py:59-63). The exception handler's log line reads the feed
  variable before it is bound. The model returns `UnknownFeed` and writes
  nothing, the same as a feed with no items. A feed whose parser raises
  yields no items and no fault (crawler/tasks.py:61-64).
- The parse sweep selects "text/html" case-insensitively
  (analyzer/tasks.py:112), but `parse_html_entry` demands a lower-case
  "html" (analyzer/tasks.py:87). An entry served as `text/HTML` is
  therefore selected by every parse sweep and skipped by every parse
  (`UpperCaseHtmlIsRetriedForever`).

## Model

| member | source | states |
|---|---|---|
| Text.Strip | analyzer/tasks.py:40 | `str.strip()` as `rstrip` after `lstrip`; its contract is stated by StripSpec, StripIgnoresSurroundingSpace, StripTrimmed and StripIdempotent |
| Text.StripSpec | analyzer/tasks.py:40 | the result is the infix left after removing all leading and trailing whitespace (Python's `isspace` set); the removed ends are whitespace and the result neither starts nor ends with whitespace |
| Text.StripIgnoresSurroundingSpace | analyzer/tasks.py:39-40 | surrounding whitespace never changes the stripped string, so " Foo" and "Foo" are the same candidate |
| Text.StripIdempotent | analyzer/tasks.py:54 | stripping a stripped string changes nothing |
| Text.StripTrimmed | analyzer/tasks.py:40 | a string that neither starts nor ends with whitespace strips to itself |
| Text.StripEach | analyzer/tasks.py:54 | `[s.strip() for s in xs]`: as many strings as given, each the stripped string at the same position |
| Text.StripEachAppend | analyzer/tasks.py:78 | stripping the pieces of a concatenation strips each part, in order |
| Text.Contains | crawler/tasks.py:37 | Python's `sub in s`; ContainsAt ties it to an occurrence position and AbsentFirstChar and ContainsInfix follow from that |
| Text.ContainsAt | crawler/tasks.py:37 | `sub in s` holds exactly when `sub` occurs at some position of `s` |
| Text.ContainsInfix | crawler/tasks.py:37 | a string containing "text/html" contains every part of it, such as "text" and "html" |
| Text.AbsentFirstChar | analyzer/tasks.py:87 | a string whose first character does not appear in the text is not a substring of it |
| Text.IContains | analyzer/tasks.py:112 | Django's `icontains` as a substring test after ASCII lower-casing; ContainsImpliesIContains relates it to `Contains` |
| Text.ContainsImpliesIContains | analyzer/tasks.py:112 | a case-sensitive match is also an `icontains` match |
| Text.Split | analyzer/tasks.py:52 | `split(",")` yields one piece more than there are commas, and no piece contains a comma |
| Text.JoinSplit | analyzer/tasks.py:52 | joining the pieces with the separator restores the string |
| Text.SplitJoin | analyzer/tasks.py:52 | splitting a join of separator-free pieces gives back the pieces |
| Text.Join | analyzer/tasks.py:78 | `sep.join(parts)`; JoinSplit, SplitJoin and JoinAppend state its properties |
| Text.JoinAppend | analyzer/tasks.py:78 | joining a concatenation joins each part, separated by one separator |
| Extraction.Selects | analyzer/tasks.py:26-27 | `attrs={attr: re.compile(".*" + needle)}` as a case-sensitive substring test on a present attribute; FirstSelecting and MetaContents are stated in its terms |
| Extraction.HeadTitles | analyzer/tasks.py:20-23 | the head-title candidates are exactly the non-empty `.string`s of the `<head>` titles |
| Extraction.HeadTitlesAppend | analyzer/tasks.py:21-23 | the head-title candidates of consecutive `<title>` runs follow each other, in document order and with repetitions |
| Extraction.HeadTitlesSingle | analyzer/tasks.py:22-23 | one `<title>` adds its `.string` once when that is non-empty, and nothing otherwise |
| Extraction.MetaContents | analyzer/tasks.py:26-35 | the loop succeeds exactly when every matched `<meta>` has `content` (else it raises), and its candidates are exactly the non-empty contents of matched metas |
| Extraction.MetaContentsAppend | analyzer/tasks.py:27-35 | the meta loop over consecutive runs of tags raises exactly when one run does, and otherwise gives the runs' candidates one after the other, with repetitions |
| Extraction.MetaContentsSingle | analyzer/tasks.py:27-35 | one tag raises when it matches without `content`, adds its `content` once when it matches with a non-empty one, and adds nothing otherwise |
| Extraction.TitleCandidates | analyzer/tasks.py:17-35 | candidates exist unless there is no `<head>` or a matched meta lacks `content`; they are, in this order and with repetitions, the head titles, the contents of metas whose `name` contains "title", then those whose `property` does |
| Extraction.MostCommon | analyzer/tasks.py:41 | the chosen string has the highest count, and among the strings with that count it occurs first |
| Extraction.MostCommonIsUnique | analyzer/tasks.py:41 | that characterisation picks exactly one string |
| Extraction.MostCommonExamples | analyzer/tasks.py:41 | ["Foo","Foo","Bar"] gives "Foo"; the tie ["Bar","Foo"] gives "Bar" |
| Extraction.FindTitle | analyzer/tasks.py:15-42 | raises exactly when candidate collection raises; None exactly when there are no candidates; otherwise the most common stripped candidate, ties going to the earliest |
| Extraction.FirstSelecting | analyzer/tasks.py:50 | `soup.find` returns the first matched `<meta>`, and no earlier meta matches |
| Extraction.FindKeywords | analyzer/tasks.py:45-55 | [] when no meta `name` contains "keywords" or the first such tag's content is empty; raises exactly when that tag has no `content`; otherwise the stripped comma-separated pieces of that content, in order: commas + 1 keywords, each stripped and comma-free |
| Extraction.CleanPiece | analyzer/tasks.py:52 | a comma-free piece stays comma-free once stripped, and its keyword is already stripped |
| Extraction.KeywordsIgnoreLaterMetas | analyzer/tasks.py:50-52 | metas after the first keywords tag never change the keywords |
| Extraction.KeywordsExample | analyzer/tasks.py:52-54 | the content "a, b ,c" gives the keywords ["a", "b", "c"] |
| Extraction.FindAuthor | analyzer/tasks.py:58-66 | None when no author tag exists; raises exactly when the first one has no `content`; a value exactly when its content is non-empty, and then that content stripped |
| Extraction.AuthorIgnoresLaterMetas | analyzer/tasks.py:62-64 | metas after the first author tag are never consulted |
| Extraction.Flatten | analyzer/tasks.py:72-74 | the text nodes of all `<article>` elements, one element after another in document order; FlattenAppend and BodyOfConcatenation state this |
| Extraction.FindArticleBody | analyzer/tasks.py:69-79 | None exactly when the `<article>` elements hold no text node; otherwise every text node stripped, in document order, joined with single spaces |
| Extraction.BodyOfConcatenation | analyzer/tasks.py:71-78 | the body of a page is the body of its first articles, one space, and the body of the rest, so text is kept in document order |
| Extraction.SingleNodeBody | analyzer/tasks.py:76-78 | a page with one text node has that node, stripped, as its body |
| Extraction.WhitespaceNodeIsEmptyBody | analyzer/tasks.py:76-78 | a whitespace-only text node is kept and gives the empty body "" |
| Storage.NewEntry | crawler/tasks.py:84-92 | an entry the upsert creates has the item's link and feed fields, and every fetch field at its model default: null, and `{}` for headers |
| Storage.ContentType | crawler/tasks.py:97 | `entry.headers.get("Content-Type")`: the stored header, None when absent; ParseEntry, Submit and the sweep predicates are stated in its terms |
| Storage.SubmitsEachOnceLength | crawler/tasks.py:123-124 | submitting each task once appends as many tasks as there are distinct tasks |
| Storage.Store.DelayParseTasks | analyzer/tasks.py:114-115 | appends one parse task per given link, each exactly once, and keeps the earlier log |
| Storage.Store.DelayFeedTasks | crawler/tasks.py:123-124 | appends one feed task per given feed, each exactly once, and keeps the earlier log |
| AnalyzerTasks.Extract | analyzer/tasks.py:93-101 | the article is written only when title, keywords and author all succeed, and then its four fields are the results of the four heuristics |
| AnalyzerTasks.Parseable | analyzer/tasks.py:86-88 | the guard of `parse_html_entry`: a stored Content-Type containing "html" and markup to parse; ParseEntry skips exactly the entries it rejects |
| AnalyzerTasks.ParseEntry | analyzer/tasks.py:83-101 | skips exactly when the entry is missing, has no Content-Type, has one without "html", or has no markup; otherwise fails exactly when a heuristic raises and gives the extracted article |
| AnalyzerTasks.ParseHtmlEntry | analyzer/tasks.py:82-101 | decides as `ParseEntry` on the old table; the entry's single Article is created or has all four fields overwritten only when parsed, and otherwise nothing changes; integrity is kept |
| AnalyzerTasks.ParseSweep | analyzer/tasks.py:107-113 | the entries the parse sweep's query selects through `NeedsParse`; ParsedEntryLeavesSweep, SelectedHtmlEntryIsNotSkipped and UpperCaseHtmlIsRetriedForever state its properties |
| AnalyzerTasks.DispatchParseHtmlEntries | analyzer/tasks.py:104-115 | appends exactly one parse task per entry with markup, no Article and an `icontains "text/html"` Content-Type, and nothing else; the earlier log is kept |
| AnalyzerTasks.NeedsParse | analyzer/tasks.py:107-113 | markup stored, no Article, and a Content-Type that contains "text/html" in any case |
| AnalyzerTasks.ParsedEntryLeavesSweep | analyzer/tasks.py:107-110 | once an entry is parsed the sweep drops exactly that entry |
| AnalyzerTasks.SelectedHtmlEntryIsNotSkipped | analyzer/tasks.py:86-87 | an entry the sweep selects whose Content-Type contains lower-case "html" is not skipped by the guard |
| AnalyzerTasks.UpperCaseHtmlIsRetriedForever | analyzer/tasks.py:87-112 | an entry served as "text/HTML" is selected by the parse sweep, yet the guard skips it as not html |
| CrawlerTasks.ResponseContentType | crawler/tasks.py:34 | `resp.headers.get("Content-Type", "")`: the response header, "" when absent; Fetched is stated in its terms |
| CrawlerTasks.Fetched | crawler/tasks.py:33-52 | after any response the body is never null: it is the response text for a Content-Type containing "text", and "" otherwise (also when absent); the resolved URL, status code, headers and request time are the response's and the clock's; the feed fields and the link are untouched |
| CrawlerTasks.RequestArticle | crawler/tasks.py:17-53 | without a response it returns None and changes nothing; otherwise it writes and returns the fetched entry, and no other entry changes |
| CrawlerTasks.Attempt | crawler/tasks.py:29-31 | one call of `request_article`: nothing written without a response, `Fetched` otherwise; PartialSweepStep and SweepRetriesOnlyTransportFailures state its effect |
| CrawlerTasks.WellFormed | crawler/tasks.py:70-72 | an item counts only with both a link and a title; MalformedItemsIgnored states that the others have no effect |
| CrawlerTasks.Description | crawler/tasks.py:80-82 | the description is used when present and non-empty; otherwise the summary is used, or "" without one |
| CrawlerTasks.ItemFields | crawler/tasks.py:86-91 | the `defaults` an item writes: its feed, title, description and publication date; Upsert and LastItemWins are stated in its terms |
| CrawlerTasks.Upsert | crawler/tasks.py:84-92 | keyed by link: the item's entry gets the item's feed, title, description and publication date, keeps its fetch fields if it existed or starts with every fetch field null (headers `{}`), and no other entry changes |
| CrawlerTasks.Unfetched | crawler/tasks.py:93 | `not rss_entry.raw_html`: a null or empty body; TextEntriesNotRefetched and SettledStays state its effect |
| CrawlerTasks.Submit | crawler/tasks.py:96-98 | the end of an iteration: a parse task unless an Article exists or the Content-Type lacks "html", a fault without a Content-Type; SubmitParse is proved equal to it and StepSubmits states its effect |
| CrawlerTasks.Step | crawler/tasks.py:69-98 | one iteration of the item loop; RetrieveItem is proved equal to it and StepEntries and StepSubmits state its effect |
| CrawlerTasks.Run | crawler/tasks.py:69-98 | the item loop as a left fold of `Step`; RetrieveFeedEntries is proved equal to it and the Run lemmas state its properties |
| CrawlerTasks.StepEntries | crawler/tasks.py:69-94 | an iteration of the item loop adds at most its item's link to the entries and changes no entry under another link; after a fault or for an item lacking link or title it changes nothing |
| CrawlerTasks.SubmitParse | crawler/tasks.py:96-98 | the submission on the store equals `Submit`: a parse task only for an entry without an Article whose Content-Type contains "html", a fault when the Content-Type is missing |
| CrawlerTasks.RetrieveItem | crawler/tasks.py:69-98 | one loop iteration on the store equals `Step`: upsert, fetch when the body is falsy, submit when there is no article and the Content-Type contains "html", or fault |
| CrawlerTasks.Items | crawler/tasks.py:64-69 | `data.get("entries", [])`: no items when the feed parser raised; RetrieveFeedEntries is stated in its terms |
| CrawlerTasks.RetrieveFeedEntries | crawler/tasks.py:57-98 | an unknown feed raises and writes nothing; otherwise the tables, the log and the fault are what the item loop `Run` gives, with no items when the feed parser raised; integrity is kept |
| CrawlerTasks.RunAfterFault | crawler/tasks.py:94-97 | after a crash, no further item has an effect |
| CrawlerTasks.RunKeys | crawler/tasks.py:84-92 | a pass only adds entries, only for well-formed items' links, and a completed pass holds one entry for every such link |
| CrawlerTasks.RerunAddsNoEntries | crawler/tasks.py:84-92 | re-running a completed pass over the same items creates no entry |
| CrawlerTasks.RunFrame | crawler/tasks.py:84-92 | an entry whose link no well-formed item carries is untouched |
| CrawlerTasks.LastItemWins | crawler/tasks.py:84-92 | when a link repeats, the last such item's feed, title, description and publication date win |
| CrawlerTasks.MalformedItemsIgnored | crawler/tasks.py:70-72 | items without a link or a title have no effect: the pass equals the pass over the well-formed items only |
| CrawlerTasks.SettledStays | crawler/tasks.py:93-94 | an entry a re-fetch would not change keeps its fetch fields for the rest of the pass |
| CrawlerTasks.TextEntriesNotRefetched | crawler/tasks.py:93-94 | an entry with a non-empty body is never fetched again |
| CrawlerTasks.StepSubmits | crawler/tasks.py:96-98 | an iteration submits at most one parse task, for its link, only when no Article exists and the Content-Type contains "html"; conversely a fault-free iteration of a well-formed item with no Article and an html Content-Type does submit it |
| CrawlerTasks.RunLog | crawler/tasks.py:69-98 | a pass keeps the earlier log and appends at most one task per item |
| CrawlerTasks.RunSubmissions | crawler/tasks.py:93-98 | a pass keeps the earlier log and appends at most one task per item; each is a parse task for a well-formed link that has no Article and ends with a Content-Type containing "html" |
| CrawlerTasks.OnePassCreatesOneEntry | crawler/tasks.py:84-98 | the first pass over a new link creates exactly that entry, even when the fetch then fails, and submits at most one task |
| CrawlerTasks.NeedsFetch | crawler/tasks.py:104-113 | the crawl sweep's query: a null body and a Content-Type that is absent or contains "text/html" in any case |
| CrawlerTasks.CrawlSelection | crawler/tasks.py:104-113 | the entries that query selects; SweepRetriesOnlyTransportFailures states which are selected again |
| CrawlerTasks.PartialSweep | crawler/tasks.py:116-117 | the entries once some of the selected links have been requested; PartialSweepStep and RequestAll state its properties |
| CrawlerTasks.CrawlSweep | crawler/tasks.py:104-117 | the sweep adds and removes no entry, never changes feed fields, and leaves every unselected entry untouched |
| CrawlerTasks.PartialSweepStep | crawler/tasks.py:116-117 | requesting one more link changes that entry alone: to the fetched entry after a response, not at all without one |
| CrawlerTasks.RequestAll | crawler/tasks.py:116-117 | requesting every given link, in any order, leaves the entries as `PartialSweep` of the old entries over those links |
| CrawlerTasks.DispatchCrawlEntries | crawler/tasks.py:101-117 | the entries become `CrawlSweep` of the old ones: each entry with a null body and an absent or `icontains "text/html"` Content-Type is requested once |
| CrawlerTasks.SweepRetriesOnlyTransportFailures | crawler/tasks.py:104-117 | after a sweep, an entry is selected again exactly when it was selected and its request failed in transport |
| CrawlerTasks.CrawlSweepIdempotent | crawler/tasks.py:104-117 | a second sweep with the same responses changes nothing, whatever the clock reads |
| CrawlerTasks.FetchedHtmlIsParsed | crawler/tasks.py:37-52 | a "text/html" response for an entry without an Article takes it out of the crawl sweep, into the parse sweep, and past the parse guard |
| CrawlerTasks.DispatchCrawlFeeds | crawler/tasks.py:120-124 | appends exactly one feed task per feed, each once; the earlier log is kept |

## Left out

- HTML parsing by BeautifulSoup and feed parsing by feedparser are
  foreign libraries. Their outputs are inputs here: `Document` and
  `FeedItem` lists. The page's `<head>` and `<title>` lookup, `.string`
  and `.strings` are assumed to be what `Document` records.
- HTTP through `requests` (sessions, timeouts, redirects, decoding) is
  I/O. It is a function from URL to an optional response, so it is
  deterministic per URL within one task.
- Celery's `shared_task` and `.delay` are a foreign runtime. A submission
  is appended to `Store.log`, and tasks never run concurrently.
- The Django ORM, `Q` objects and JSONField lookups are the storage
  engine. The tables are maps with the query predicates written out, and
  every write is committed at once.
- Timestamps (`mktime`, `utcfromtimestamp`, `make_aware`,
  `datetime.now`) are clock and float-time values. They are opaque
  `Instant`s, and `published_parsed` arrives already converted. The
  conversion at crawler/tasks.py:75-78 can raise (`mktime` on an
  out-of-range time), which would end the pass like the modelled faults;
  that failure is not modelled.
- Header lookups by name are exact-key lookups of "Content-Type". The
  case-insensitive header dictionary of `requests` is not modelled, so a
  server that sends `content-type` is treated as sending none.
- `icontains` lower-cases ASCII letters only. Unicode case folding is not
  modelled.
- The regexes `.*title`, `.*keywords` and `.*author` are substring tests.
  Regex syntax beyond that is not modelled.
- The `Article` UUID primary key and the database's field length limits
  are not modelled. The article table is keyed by entry link.
- Sentiment scoring does not appear in the modelled tasks. It is not part
  of this model.
- The logging calls have no effect on state and are left out.
- All requests of one task see one clock reading: `Env.now`, and the
  `now` of a sweep, stand for `datetime.now()`, which the code reads afresh
  for every request (crawler/tasks.py:49). In the model, all entries
  fetched in one sweep or one feed pass get the same `requested_at`. A
  repeated non-text link re-fetched in the same pass rewrites the same fetch
  fields, which `Settled` and `SettledStays` rely on; in the code that
  re-fetch writes a later timestamp.
