/** The crawler's tasks in crawler/tasks.py: `request_article`, the feed
    reconciler `retrieve_feed_entries`, and the sweeps `dispatch_crawl_entries`
    and `dispatch_crawl_feeds`. The HTTP client is the function `http` from a
    URL to the response it yields (None: a timeout or another transport
    error), and `now` is the clock's reading. */
module CrawlerTasks {
  import opened Wrappers
  import opened Text
  import opened Storage
  import AnalyzerTasks

  /** A response of any status: the final URL after redirects, the status
      code, the headers and the decoded body. */
  datatype Response = Response(url: string, statusCode: int, headers: map<string, string>, text: string)

  /** `resp.headers.get("Content-Type", "")` */
  function ResponseContentType(resp: Response): string {
    if "Content-Type" in resp.headers then resp.headers["Content-Type"] else ""
  }

  /** The entry as `request_article` writes it back after a response: the
      body is kept only for a textual `Content-Type` and is otherwise the
      empty string, never null; the five fetch fields are overwritten and
      the feed's fields are left alone. */
  function Fetched(e: Entry, resp: Response, now: Instant): (r: Entry)
    ensures r.rawHtml.Some?
    ensures Contains(ResponseContentType(resp), "text") ==> r.rawHtml == Some(resp.text)
    ensures !Contains(ResponseContentType(resp), "text") ==> r.rawHtml == Some("")
    ensures r.link == e.link && FeedFields(r) == FeedFields(e)
    ensures ContentType(r) == if "Content-Type" in resp.headers then Some(ResponseContentType(resp)) else None
    ensures FetchFields(r) == (r.rawHtml, Some(resp.url), Some(resp.statusCode), resp.headers, Some(now))
  {
    var raw := if Contains(ResponseContentType(resp), "text") then resp.text else "";
    e.(rawHtml := Some(raw), resolvedUrl := Some(resp.url), statusCode := Some(resp.statusCode),
       requestedAt := Some(now), headers := resp.headers)
  }

  /** One call of `request_article`: without a response nothing is written. */
  function Attempt(e: Entry, resp: Option<Response>, now: Instant): Entry {
    match resp
    case None => e
    case Some(r) => Fetched(e, r, now)
  }

  /** `request_article(entry)`: returns the updated entry, or None (and
      writes nothing) when the request fails in transport. */
  method RequestArticle(db: Store, link: string, http: string -> Option<Response>, now: Instant) returns (r: Option<Entry>)
    requires db.Valid() && link in db.entries
    modifies db`entries
    ensures db.Valid()
    ensures http(link).None? ==> r.None? && db.entries == old(db.entries)
    ensures http(link).Some? ==>
      && r == Some(Fetched(old(db.entries)[link], http(link).value, now))
      && db.entries == old(db.entries)[link := r.value]
  {
    var resp := http(link);
    if resp.None? {
      return None;
    }
    var e := Fetched(db.entries[link], resp.value, now);
    db.entries := db.entries[link := e];
    r := Some(e);
  }

  /** One item of a parsed feed; `published` is `published_parsed` already
      converted to an instant. */
  datatype FeedItem = FeedItem(
    link: Option<string>,
    title: Option<string>,
    description: Option<string>,
    summary: Option<string>,
    published: Option<Instant>)

  /** Items lacking a link or a title are logged and skipped. */
  predicate WellFormed(x: FeedItem) {
    x.link.Some? && x.title.Some?
  }

  /** The description, falling back to the summary when it is missing or
      empty. */
  function Description(x: FeedItem): (d: string)
    ensures x.description.Some? && x.description.value != "" ==> d == x.description.value
    ensures x.description.None? || x.description.value == "" ==> d == x.summary.GetOr("")
  {
    var d := x.description.GetOr("");
    if d == "" && x.summary.Some? then x.summary.value else d
  }

  /** The feed fields that an item writes into its entry. */
  function ItemFields(feed: FeedId, x: FeedItem): (FeedId, string, string, Option<Instant>)
    requires WellFormed(x)
  {
    (feed, x.title.value, Description(x), x.published)
  }

  /** `update_or_create(link=..., defaults=...)` for one item: the entry under
      the item's link gets the item's feed fields, keeps its fetch fields if it
      existed and is created empty otherwise; no other entry changes. */
  function Upsert(entries: map<string, Entry>, feed: FeedId, x: FeedItem): (r: map<string, Entry>)
    requires WellFormed(x)
    ensures r.Keys == entries.Keys + {x.link.value}
    ensures FeedFields(r[x.link.value]) == ItemFields(feed, x)
    ensures x.link.value in entries ==>
      r[x.link.value].link == entries[x.link.value].link && FetchFields(r[x.link.value]) == FetchFields(entries[x.link.value])
    ensures x.link.value !in entries ==>
      r[x.link.value].link == x.link.value && r[x.link.value].rawHtml.None? && r[x.link.value].headers == map[]
    ensures x.link.value !in entries ==> FetchFields(r[x.link.value]) == (None, None, None, map[], None)
    ensures forall k | k in entries && k != x.link.value :: r[k] == entries[k]
  {
    var l := x.link.value;
    var e := if l in entries
      then entries[l].(feed := feed, title := x.title.value, description := Description(x), pubDate := x.published)
      else NewEntry(l, feed, x.title.value, Description(x), x.published);
    entries[l := e]
  }

  /** Upserting an item of an existing feed keeps the store consistent. */
  lemma UpsertConsistent(feeds: map<FeedId, Feed>, entries: map<string, Entry>, articles: map<string, Article>, feed: FeedId, x: FeedItem)
    requires Consistent(feeds, entries, articles) && feed in feeds && WellFormed(x)
    ensures Consistent(feeds, Upsert(entries, feed, x), articles)
  {
  }

  /** `not rss_entry.raw_html`: never fetched, failed, or fetched non-textual. */
  predicate Unfetched(e: Entry) {
    e.rawHtml.None? || e.rawHtml.value == ""
  }

  /** Which uncaught exception ends a task. `UnknownFeed`: the feed id does
      not exist (the handler's log line reads the unbound feed variable).
      `TransportFailure`: `request_article` returned None and the entry's
      headers are read from None. `NoContentType`: the stored headers have no
      `Content-Type`, and "html" is searched in None. */
  datatype CrawlFault = UnknownFeed(feed: FeedId) | TransportFailure(link: string) | NoContentType(link: string)

  /** What stays fixed during one run of `retrieve_feed_entries`. */
  datatype Env = Env(feed: FeedId, articles: map<string, Article>, http: string -> Option<Response>, now: Instant)

  /** The entries and the queue part-way through the item loop, and the
      fault that ended it, if any. */
  datatype Progress = Progress(entries: map<string, Entry>, log: seq<Task>, fault: Option<CrawlFault>)

  /** The end of an iteration, once the entry under `l` is final: submit a
      parse task for an entry without an article whose `Content-Type`
      contains "html"; a missing `Content-Type` is a fault. */
  function Submit(entries: map<string, Entry>, log: seq<Task>, articles: map<string, Article>, l: string): Progress
    requires l in entries
  {
    if l in articles then Progress(entries, log, None)
    else match ContentType(entries[l])
      case None => Progress(entries, log, Some(NoContentType(l)))
      case Some(ct) => Progress(entries, if Contains(ct, "html") then log + [ParseHtml(l)] else log, None)
  }

  /** One iteration of the item loop: upsert, fetch if still unfetched, then
      submit. What was written before a fault stays written. */
  function Step(p: Progress, env: Env, x: FeedItem): Progress {
    if p.fault.Some? || !WellFormed(x) then p
    else
      var l := x.link.value;
      var upserted := Upsert(p.entries, env.feed, x);
      if !Unfetched(upserted[l]) then Submit(upserted, p.log, env.articles, l)
      else match env.http(l)
        case None => Progress(upserted, p.log, Some(TransportFailure(l)))
        case Some(resp) => Submit(upserted[l := Fetched(upserted[l], resp, env.now)], p.log, env.articles, l)
  }

  /** One iteration adds at most the item's link to the entries and changes
      no entry under another link. */
  lemma StepEntries(p: Progress, env: Env, x: FeedItem)
    ensures var q := Step(p, env, x);
      && (p.fault.Some? || !WellFormed(x) ==> q == p)
      && (p.fault.None? && WellFormed(x) ==> q.entries.Keys == p.entries.Keys + {x.link.value})
      && forall k | k in p.entries && (!WellFormed(x) || k != x.link.value) :: q.entries[k] == p.entries[k]
  {
  }

  /** The item loop over `items`, in feed order. */
  function Run(p: Progress, env: Env, items: seq<FeedItem>): Progress
    decreases |items|
  {
    if items == [] then p else Run(Step(p, env, items[0]), env, items[1..])
  }

  /** `data.get("entries", [])`: no items when the feed could not be parsed. */
  function Items(parsed: Option<seq<FeedItem>>): seq<FeedItem> {
    parsed.GetOr([])
  }

  /** The submission at the end of an iteration, on the store. */
  method SubmitParse(db: Store, l: string) returns (fault: Option<CrawlFault>)
    requires l in db.entries
    modifies db`log
    ensures Progress(db.entries, db.log, fault) == Submit(db.entries, old(db.log), db.articles, l)
  {
    fault := None;
    if l in db.articles {
      return;
    }
    var e := db.entries[l];
    if "Content-Type" !in e.headers {
      return Some(NoContentType(l));
    }
    if Contains(e.headers["Content-Type"], "html") {
      db.log := db.log + [ParseHtml(l)];
    }
  }

  /** One iteration of the item loop on the store. */
  method RetrieveItem(db: Store, feed: FeedId, x: FeedItem, http: string -> Option<Response>, now: Instant)
    returns (fault: Option<CrawlFault>)
    requires db.Valid() && feed in db.feeds
    modifies db`entries, db`log
    ensures db.Valid()
    ensures Progress(db.entries, db.log, fault) == Step(Progress(old(db.entries), old(db.log), None), Env(feed, db.articles, http, now), x)
  {
    fault := None;
    if x.link.None? || x.title.None? {
      return;
    }
    var l := x.link.value;
    UpsertConsistent(db.feeds, db.entries, db.articles, feed, x);
    db.entries := Upsert(db.entries, feed, x);
    var e := db.entries[l];
    if e.rawHtml.None? || e.rawHtml.value == "" {
      var fetched := RequestArticle(db, l, http, now);
      if fetched.None? {
        return Some(TransportFailure(l));
      }
    }
    fault := SubmitParse(db, l);
  }

  /** `retrieve_feed_entries(feed)`, `parsed` standing for what the feed
      parser made of the feed's URL (None: it raised). The tables and the
      queue end as the item loop leaves them, including after a fault. */
  method RetrieveFeedEntries(db: Store, feed: FeedId, parsed: Option<seq<FeedItem>>, http: string -> Option<Response>, now: Instant)
    returns (fault: Option<CrawlFault>)
    requires db.Valid()
    modifies db`entries, db`log
    ensures db.Valid()
    ensures feed !in db.feeds ==>
      fault == Some(UnknownFeed(feed)) && db.entries == old(db.entries) && db.log == old(db.log)
    ensures feed in db.feeds ==>
      var r := Run(Progress(old(db.entries), old(db.log), None), Env(feed, db.articles, http, now), Items(parsed));
      db.entries == r.entries && db.log == r.log && fault == r.fault
  {
    if feed !in db.feeds {
      return Some(UnknownFeed(feed));
    }
    var items := Items(parsed);
    ghost var env := Env(feed, db.articles, http, now);
    ghost var goal := Run(Progress(db.entries, db.log, None), env, items);
    var i := 0;
    while i < |items|
      invariant 0 <= i <= |items|
      invariant db.Valid()
      invariant Run(Progress(db.entries, db.log, None), env, items[i..]) == goal
      decreases |items| - i
    {
      assert items[i..][1..] == items[i + 1..];
      fault := RetrieveItem(db, feed, items[i], http, now);
      if fault.Some? {
        RunAfterFault(Progress(db.entries, db.log, fault), env, items[i + 1..]);
        return;
      }
      i := i + 1;
    }
    fault := None;
  }

  /** Once a fault has ended the loop, no further item has any effect. */
  lemma {:induction false} RunAfterFault(p: Progress, env: Env, items: seq<FeedItem>)
    requires p.fault.Some?
    ensures Run(p, env, items) == p
    decreases |items|
  {
    if items != [] {
      RunAfterFault(Step(p, env, items[0]), env, items[1..]);
    }
  }

  /** The links of the well-formed items. */
  function Links(items: seq<FeedItem>): set<string>
    decreases |items|
  {
    if items == [] then {}
    else (if WellFormed(items[0]) then {items[0].link.value} else {}) + Links(items[1..])
  }

  /** The loop only adds entries, only for well-formed items' links, and, when
      it completes, adds one for every such link. */
  lemma {:induction false} RunKeys(p: Progress, env: Env, items: seq<FeedItem>)
    ensures var r := Run(p, env, items);
      p.entries.Keys <= r.entries.Keys <= p.entries.Keys + Links(items)
    ensures var r := Run(p, env, items);
      r.fault.None? ==> r.entries.Keys == p.entries.Keys + Links(items)
    decreases |items|
  {
    if items != [] {
      var q := Step(p, env, items[0]);
      StepEntries(p, env, items[0]);
      RunKeys(q, env, items[1..]);
      if q.fault.Some? {
        RunAfterFault(q, env, items[1..]);
      }
    }
  }

  /** Re-running a completed pass over the same items creates no entry:
      entries are keyed by link. */
  lemma RerunAddsNoEntries(p: Progress, env: Env, items: seq<FeedItem>)
    requires Run(p, env, items).fault.None?
    ensures var r := Run(p, env, items);
      Run(Progress(r.entries, r.log, None), env, items).entries.Keys == r.entries.Keys
  {
    var r := Run(p, env, items);
    RunKeys(p, env, items);
    RunKeys(Progress(r.entries, r.log, None), env, items);
  }

  /** An entry whose link no well-formed item carries is left untouched. */
  lemma {:induction false} RunFrame(p: Progress, env: Env, items: seq<FeedItem>, k: string)
    requires k in p.entries && k !in Links(items)
    ensures k in Run(p, env, items).entries && Run(p, env, items).entries[k] == p.entries[k]
    decreases |items|
  {
    if items != [] {
      StepEntries(p, env, items[0]);
      RunFrame(Step(p, env, items[0]), env, items[1..], k);
    }
  }

  /** The last well-formed item carrying link `l`, if any. */
  function LastWith(items: seq<FeedItem>, l: string): (r: Option<FeedItem>)
    ensures r.Some? ==> WellFormed(r.value) && r.value.link.value == l
    decreases |items|
  {
    if items == [] then None
    else match LastWith(items[1..], l)
      case Some(x) => Some(x)
      case None => if WellFormed(items[0]) && items[0].link.value == l then Some(items[0]) else None
  }

  lemma {:induction false} LastWithLinks(items: seq<FeedItem>, l: string)
    ensures LastWith(items, l).Some? <==> l in Links(items)
    decreases |items|
  {
    if items != [] {
      LastWithLinks(items[1..], l);
    }
  }

  /** When a feed lists a link more than once, the completed pass leaves the
      entry with the feed fields of the last such item. */
  lemma {:induction false} LastItemWins(p: Progress, env: Env, items: seq<FeedItem>, l: string)
    requires l in Links(items)
    requires Run(p, env, items).fault.None?
    ensures LastWith(items, l).Some?
    ensures l in Run(p, env, items).entries
    ensures FeedFields(Run(p, env, items).entries[l]) == ItemFields(env.feed, LastWith(items, l).value)
    decreases |items|
  {
    LastWithLinks(items, l);
    RunKeys(p, env, items);
    var q := Step(p, env, items[0]);
    if q.fault.Some? {
      RunAfterFault(q, env, items[1..]);
    }
    LastWithLinks(items[1..], l);
    if l in Links(items[1..]) {
      LastItemWins(q, env, items[1..], l);
    } else {
      RunFrame(q, env, items[1..], l);
    }
  }

  /** Items without a link or a title have no effect whatsoever. */
  function WellFormedOnly(items: seq<FeedItem>): (r: seq<FeedItem>)
    ensures forall i | 0 <= i < |r| :: WellFormed(r[i])
    decreases |items|
  {
    if items == [] then []
    else (if WellFormed(items[0]) then [items[0]] else []) + WellFormedOnly(items[1..])
  }

  lemma {:induction false} MalformedItemsIgnored(p: Progress, env: Env, items: seq<FeedItem>)
    ensures Run(p, env, items) == Run(p, env, WellFormedOnly(items))
    decreases |items|
  {
    if items != [] {
      var rest := WellFormedOnly(items[1..]);
      if WellFormed(items[0]) {
        assert ([items[0]] + rest)[1..] == rest;
        MalformedItemsIgnored(Step(p, env, items[0]), env, items[1..]);
      } else {
        assert [] + rest == rest;
        MalformedItemsIgnored(p, env, items[1..]);
      }
    }
  }

  /** An entry no later item will re-fetch differently: its body is
      non-empty, or re-fetching `l` would write exactly its fetch fields. */
  ghost predicate Settled(e: Entry, l: string, env: Env) {
    || !Unfetched(e)
    || (env.http(l).Some? && FetchFields(e) == FetchFields(Fetched(e, env.http(l).value, env.now)))
  }

  /** A settled entry keeps its fetch fields for the rest of the loop; in
      particular an entry with a non-empty body is never requested again. */
  lemma {:induction false} SettledStays(p: Progress, env: Env, items: seq<FeedItem>, l: string)
    requires l in p.entries && Settled(p.entries[l], l, env)
    ensures l in Run(p, env, items).entries
    ensures FetchFields(Run(p, env, items).entries[l]) == FetchFields(p.entries[l])
    decreases |items|
  {
    if items != [] {
      var q := Step(p, env, items[0]);
      assert l in q.entries && FetchFields(q.entries[l]) == FetchFields(p.entries[l]);
      assert Settled(q.entries[l], l, env);
      SettledStays(q, env, items[1..], l);
    }
  }

  /** The fetch fields of an entry with stored text survive a pass. */
  lemma TextEntriesNotRefetched(p: Progress, env: Env, items: seq<FeedItem>, l: string)
    requires l in p.entries && p.entries[l].rawHtml.Some? && p.entries[l].rawHtml.value != ""
    ensures l in Run(p, env, items).entries
    ensures FetchFields(Run(p, env, items).entries[l]) == FetchFields(p.entries[l])
  {
    SettledStays(p, env, items, l);
  }

  /** A stored `Content-Type` containing "html", the condition for a parse
      task. */
  predicate HtmlTyped(e: Entry) {
    ContentType(e).Some? && Contains(ContentType(e).value, "html")
  }

  /** The step that processes an item without fault leaves its entry
      settled, and submits at most a parse task for it, only when it has no
      article and an html `Content-Type`. */
  lemma StepSubmits(p: Progress, env: Env, x: FeedItem)
    ensures var q := Step(p, env, x);
      WellFormed(x) && p.fault.None? && q.fault.None? ==> Settled(q.entries[x.link.value], x.link.value, env)
    ensures var q := Step(p, env, x);
      q.log == p.log || (
        && WellFormed(x)
        && q.log == p.log + [ParseHtml(x.link.value)]
        && x.link.value !in env.articles
        && HtmlTyped(q.entries[x.link.value]))
    ensures var q := Step(p, env, x);
      p.fault.None? && WellFormed(x) && q.fault.None? && x.link.value !in env.articles && HtmlTyped(q.entries[x.link.value]) ==>
        q.log == p.log + [ParseHtml(x.link.value)]
  {
  }

  /** The pass only appends to the queue, at most one task per item. */
  lemma {:induction false} RunLog(p: Progress, env: Env, items: seq<FeedItem>)
    ensures var r := Run(p, env, items);
      && |p.log| <= |r.log| <= |p.log| + |items|
      && r.log[..|p.log|] == p.log
    decreases |items|
  {
    if items != [] {
      var q := Step(p, env, items[0]);
      StepSubmits(p, env, items[0]);
      RunLog(q, env, items[1..]);
      var r := Run(q, env, items[1..]);
      assert r.log[..|p.log|] == r.log[..|q.log|][..|p.log|];
    }
  }

  /** Every task the pass appends is a parse task for a well-formed item's
      link that has no article, at most one per item, and its entry's final
      `Content-Type` contains "html". */
  lemma {:induction false} RunSubmissions(p: Progress, env: Env, items: seq<FeedItem>)
    ensures var r := Run(p, env, items);
      && |p.log| <= |r.log| <= |p.log| + |items|
      && r.log[..|p.log|] == p.log
    ensures var r := Run(p, env, items);
      forall i | |p.log| <= i < |r.log| ::
        && r.log[i].ParseHtml?
        && r.log[i].entry in Links(items)
        && r.log[i].entry !in env.articles
        && r.log[i].entry in r.entries
        && HtmlTyped(r.entries[r.log[i].entry])
    decreases |items|
  {
    RunLog(p, env, items);
    if items != [] {
      var x := items[0];
      var q := Step(p, env, x);
      var r := Run(q, env, items[1..]);
      assert r == Run(p, env, items);
      assert Links(items) == (if WellFormed(x) then {x.link.value} else {}) + Links(items[1..]);
      RunSubmissions(q, env, items[1..]);
      RunLog(q, env, items[1..]);
      StepSubmits(p, env, x);
      forall i | |p.log| <= i < |r.log|
        ensures r.log[i].ParseHtml? && r.log[i].entry in Links(items) && r.log[i].entry !in env.articles
        ensures r.log[i].entry in r.entries && HtmlTyped(r.entries[r.log[i].entry])
      {
        if i >= |q.log| {
          var t := r.log[i];
          assert t.ParseHtml? && t.entry in Links(items[1..]) && t.entry !in env.articles;
          assert t.entry in r.entries && HtmlTyped(r.entries[t.entry]);
        } else {
          var l := x.link.value;
          assert r.log[i] == q.log[i] == ParseHtml(l);
          SettledStays(q, env, items[1..], l);
          assert ContentType(r.entries[l]) == ContentType(q.entries[l]);
        }
      }
    }
  }

  /** The first pass over a new link creates exactly that one entry, even
      when it then fails, and submits at most one task. */
  lemma OnePassCreatesOneEntry(p: Progress, env: Env, x: FeedItem)
    requires p.fault.None? && WellFormed(x)
    ensures Run(p, env, [x]).entries.Keys == p.entries.Keys + {x.link.value}
    ensures |Run(p, env, [x]).log| <= |p.log| + 1
  {
    assert [x][1..] == [];
  }

  /** The query of `dispatch_crawl_entries`: no body stored, and no
      `Content-Type` or one containing "text/html" in any letter case. */
  predicate NeedsFetch(e: Entry) {
    e.rawHtml.None? && (ContentType(e).None? || IContains(ContentType(e).value, "text/html"))
  }

  /** The entries that `dispatch_crawl_entries` selects. */
  function CrawlSelection(entries: map<string, Entry>): set<string> {
    set l | l in entries && NeedsFetch(entries[l])
  }

  /** The entries once the links in `done` have been requested. */
  function PartialSweep(entries: map<string, Entry>, done: set<string>, http: string -> Option<Response>, now: Instant): map<string, Entry> {
    map l | l in entries :: if l in done then Attempt(entries[l], http(l), now) else entries[l]
  }

  /** Requesting one more link updates that entry alone. */
  lemma PartialSweepStep(entries: map<string, Entry>, done: set<string>, l: string, http: string -> Option<Response>, now: Instant)
    requires l in entries && l !in done
    ensures http(l).None? ==> PartialSweep(entries, done + {l}, http, now) == PartialSweep(entries, done, http, now)
    ensures http(l).Some? ==>
      var m := PartialSweep(entries, done, http, now);
      PartialSweep(entries, done + {l}, http, now) == m[l := Fetched(m[l], http(l).value, now)]
  {
  }

  /** The entries after `dispatch_crawl_entries`: each selected entry has
      been requested once; no entry appears, disappears or changes its feed
      fields. */
  function CrawlSweep(entries: map<string, Entry>, http: string -> Option<Response>, now: Instant): (r: map<string, Entry>)
    ensures r.Keys == entries.Keys
    ensures forall l | l in entries :: r[l].link == entries[l].link && FeedFields(r[l]) == FeedFields(entries[l])
    ensures forall l | l in entries && !NeedsFetch(entries[l]) :: r[l] == entries[l]
  {
    PartialSweep(entries, CrawlSelection(entries), http, now)
  }

  /** `request_article` for one more link of a sweep under way. */
  method RequestNext(db: Store, ghost base: map<string, Entry>, ghost done: set<string>, l: string,
                     http: string -> Option<Response>, now: Instant)
    requires db.Valid() && l in base && l !in done
    requires db.entries == PartialSweep(base, done, http, now)
    modifies db`entries
    ensures db.Valid()
    ensures db.entries == PartialSweep(base, done + {l}, http, now)
  {
    PartialSweepStep(base, done, l, http, now);
    var _ := RequestArticle(db, l, http, now);
  }

  /** Requesting nothing leaves the entries as they are. */
  lemma PartialSweepNothing(entries: map<string, Entry>, http: string -> Option<Response>, now: Instant)
    ensures PartialSweep(entries, {}, http, now) == entries
  {
  }

  /** `request_article` for every link of `links`, in some order. */
  method RequestAll(db: Store, links: set<string>, http: string -> Option<Response>, now: Instant)
    requires db.Valid() && links <= db.entries.Keys
    modifies db`entries
    ensures db.Valid()
    ensures db.entries == PartialSweep(old(db.entries), links, http, now)
  {
    ghost var base := db.entries;
    PartialSweepNothing(base, http, now);
    var todo := links;
    ghost var done: set<string> := {};
    while todo != {}
      invariant todo <= links && done == links - todo
      invariant db.Valid()
      invariant db.entries == PartialSweep(base, done, http, now)
      decreases |todo|
    {
      var l :| l in todo;
      RequestNext(db, base, done, l, http, now);
      todo := todo - {l};
      done := done + {l};
    }
    assert done == links;
  }

  method DispatchCrawlEntries(db: Store, http: string -> Option<Response>, now: Instant)
    requires db.Valid()
    modifies db`entries
    ensures db.Valid()
    ensures db.entries == CrawlSweep(old(db.entries), http, now)
  {
    RequestAll(db, CrawlSelection(db.entries), http, now);
  }

  /** After a sweep, exactly the selected entries whose request failed in
      transport are selected again. */
  lemma SweepRetriesOnlyTransportFailures(entries: map<string, Entry>, http: string -> Option<Response>, now: Instant, l: string)
    requires l in entries
    ensures NeedsFetch(CrawlSweep(entries, http, now)[l]) <==> NeedsFetch(entries[l]) && http(l).None?
  {
  }

  /** A second sweep with the same responses changes nothing, whatever the
      clock says. */
  lemma CrawlSweepIdempotent(entries: map<string, Entry>, http: string -> Option<Response>, now: Instant, later: Instant)
    ensures CrawlSweep(CrawlSweep(entries, http, now), http, later) == CrawlSweep(entries, http, now)
  {
    var once := CrawlSweep(entries, http, now);
    forall l | l in once
      ensures CrawlSweep(once, http, later)[l] == once[l]
    {
      SweepRetriesOnlyTransportFailures(entries, http, now, l);
    }
  }

  /** A response served as "text/html" to an entry without an article leaves
      it out of the crawl sweep and makes the parse sweep select it and the
      parse task accept it. */
  lemma FetchedHtmlIsParsed(e: Entry, resp: Response, now: Instant, articles: map<string, Article>)
    requires e.link !in articles
    requires Contains(ResponseContentType(resp), "text/html")
    ensures !NeedsFetch(Fetched(e, resp, now))
    ensures AnalyzerTasks.NeedsParse(Fetched(e, resp, now), articles)
    ensures AnalyzerTasks.Parseable(Fetched(e, resp, now))
  {
    var ct := ResponseContentType(resp);
    assert OccursAt("text/html", "text", 0);
    assert OccursAt("text/html", "html", 5);
    ContainsInfix(ct, "text/html", "text", 0);
    ContainsInfix(ct, "text/html", "html", 5);
    ContainsImpliesIContains(ct, "text/html");
  }

  /** `dispatch_crawl_feeds`: one feed task per feed, each exactly once. */
  method DispatchCrawlFeeds(db: Store)
    requires db.Valid()
    modifies db`log
    ensures db.Valid()
    ensures |old(db.log)| <= |db.log| && db.log[..|old(db.log)|] == old(db.log)
    ensures SubmitsEachOnce(db.log[|old(db.log)|..], FeedTasks(db.feeds.Keys))
    ensures |db.log| == |old(db.log)| + |db.feeds.Keys|
  {
    db.DelayFeedTasks(db.feeds.Keys);
  }
}
