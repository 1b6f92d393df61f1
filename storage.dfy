/** The records of crawler/models.py and analyzer/models.py, the task log
    that stands for the queue, and the store that holds them. */
module Storage {
  import opened Wrappers
  import opened Text

  /** The primary key of an `RSSFeed` (a UUID, opaque here). */
  type FeedId = string

  /** A point in time (Django's aware `datetime`, opaque here). */
  type Instant = int

  /** `RSSFeed`: one subscribed feed. */
  datatype Feed = Feed(organization: string, title: string, url: string)

  /** `RSSEntry`, keyed by `link`. `rawHtml` distinguishes "never fetched or
      transport failure" (None), "fetched, not textual" (Some("")) and
      "fetched, textual" (Some(body)). */
  datatype Entry = Entry(
    link: string,
    feed: FeedId,
    title: string,
    description: string,
    pubDate: Option<Instant>,
    rawHtml: Option<string>,
    resolvedUrl: Option<string>,
    statusCode: Option<int>,
    headers: map<string, string>,
    requestedAt: Option<Instant>)

  /** `Article`: the extracted content of one entry; the one-to-one link to
      its entry is the key of the article table. */
  datatype Article = Article(
    title: Option<string>,
    keywords: seq<string>,
    author: Option<string>,
    body: Option<string>)

  /** A work unit handed to the queue with `.delay(...)`. */
  datatype Task = RetrieveFeed(feed: FeedId) | ParseHtml(entry: string)

  /** A new entry as `update_or_create(link=...)` creates it: the fetch fields
      take their model defaults (null, and `{}` for `headers`). */
  function NewEntry(link: string, feed: FeedId, title: string, description: string, pubDate: Option<Instant>): (e: Entry)
    ensures e.link == link && e.rawHtml.None? && e.headers == map[]
    ensures FetchFields(e) == (None, None, None, map[], None)
    ensures FeedFields(e) == (feed, title, description, pubDate)
  {
    Entry(link, feed, title, description, pubDate, None, None, None, map[], None)
  }

  /** The stored `Content-Type` header, as `entry.headers.get("Content-Type")`. */
  function ContentType(e: Entry): Option<string> {
    if "Content-Type" in e.headers then Some(e.headers["Content-Type"]) else None
  }

  /** The fields the feed reconciler writes. */
  function FeedFields(e: Entry): (FeedId, string, string, Option<Instant>) {
    (e.feed, e.title, e.description, e.pubDate)
  }

  /** The fields a fetch writes. */
  function FetchFields(e: Entry): (Option<string>, Option<string>, Option<int>, map<string, string>, Option<Instant>) {
    (e.rawHtml, e.resolvedUrl, e.statusCode, e.headers, e.requestedAt)
  }

  /** The integrity the database keeps: every entry is stored under its own
      link, refers to an existing feed, and every article belongs to an
      existing entry. */
  ghost predicate Consistent(feeds: map<FeedId, Feed>, entries: map<string, Entry>, articles: map<string, Article>) {
    && (forall l | l in entries :: entries[l].link == l && entries[l].feed in feeds)
    && articles.Keys <= entries.Keys
  }

  predicate NoDuplicates<T(==)>(s: seq<T>) {
    forall i, j | 0 <= i < j < |s| :: s[i] != s[j]
  }

  function Elements<T(==)>(s: seq<T>): set<T> {
    set x | x in s
  }

  /** A sequence without repetitions has as many elements as its set. */
  lemma {:induction false} DistinctLength<T>(s: seq<T>)
    requires NoDuplicates(s)
    ensures |Elements(s)| == |s|
  {
    if s != [] {
      DistinctLength(s[1..]);
      assert Elements(s) == {s[0]} + Elements(s[1..]);
      assert s[0] !in Elements(s[1..]);
    }
  }

  /** `added` holds each task of `tasks` exactly once, and nothing else. */
  ghost predicate SubmitsEachOnce(added: seq<Task>, tasks: set<Task>) {
    && NoDuplicates(added)
    && Elements(added) == tasks
  }

  /** Submitting each task once appends exactly as many tasks as there are
      distinct tasks. */
  lemma SubmitsEachOnceLength(added: seq<Task>, tasks: set<Task>)
    requires SubmitsEachOnce(added, tasks)
    ensures |added| == |tasks|
  {
    DistinctLength(added);
  }

  /** Submitting one more task not yet submitted keeps each submitted once. */
  lemma SubmitOneMore(added: seq<Task>, tasks: set<Task>, t: Task)
    requires SubmitsEachOnce(added, tasks) && t !in tasks
    ensures SubmitsEachOnce(added + [t], tasks + {t})
  {
    assert Elements(added + [t]) == Elements(added) + {t};
  }

  /** One parse task per link. */
  function ParseTasks(links: set<string>): set<Task> {
    set l | l in links :: ParseHtml(l)
  }

  /** One feed task per feed. */
  function FeedTasks(feeds: set<FeedId>): set<Task> {
    set f | f in feeds :: RetrieveFeed(f)
  }

  lemma SubmitParseTask(added: seq<Task>, done: set<string>, l: string)
    requires SubmitsEachOnce(added, ParseTasks(done)) && l !in done
    ensures SubmitsEachOnce(added + [ParseHtml(l)], ParseTasks(done + {l}))
  {
    assert ParseTasks(done + {l}) == ParseTasks(done) + {ParseHtml(l)};
    SubmitOneMore(added, ParseTasks(done), ParseHtml(l));
  }

  lemma SubmitFeedTask(added: seq<Task>, done: set<FeedId>, f: FeedId)
    requires SubmitsEachOnce(added, FeedTasks(done)) && f !in done
    ensures SubmitsEachOnce(added + [RetrieveFeed(f)], FeedTasks(done + {f}))
  {
    assert FeedTasks(done + {f}) == FeedTasks(done) + {RetrieveFeed(f)};
    SubmitOneMore(added, FeedTasks(done), RetrieveFeed(f));
  }

  /** The database tables and the queue. */
  class Store {
    var feeds: map<FeedId, Feed>
    var entries: map<string, Entry>
    var articles: map<string, Article>
    /** Every task submitted so far, oldest first. */
    var log: seq<Task>

    ghost predicate Valid()
      reads this
    {
      Consistent(feeds, entries, articles)
    }

    /** A store holding the seeded feeds and nothing else. */
    constructor (feeds: map<FeedId, Feed>)
      ensures Valid()
      ensures this.feeds == feeds && entries == map[] && articles == map[] && log == []
    {
      this.feeds := feeds;
      entries := map[];
      articles := map[];
      log := [];
    }

    /** `.delay(pk)` of a parse task for every link of `links`, once each,
        appended to the queue. */
    method DelayParseTasks(links: set<string>)
      modifies `log
      ensures |old(log)| <= |log| && log[..|old(log)|] == old(log)
      ensures SubmitsEachOnce(log[|old(log)|..], ParseTasks(links))
      ensures |log| == |old(log)| + |links|
    {
      var todo := links;
      ghost var done: set<string> := {};
      ghost var added: seq<Task> := [];
      while todo != {}
        invariant todo !! done && todo + done == links
        invariant log == old(log) + added
        invariant SubmitsEachOnce(added, ParseTasks(done))
        invariant |added| + |todo| == |links|
        decreases |todo|
      {
        var l :| l in todo;
        SubmitParseTask(added, done, l);
        log := log + [ParseHtml(l)];
        added := added + [ParseHtml(l)];
        todo := todo - {l};
        done := done + {l};
      }
      assert log[|old(log)|..] == added;
    }

    /** `.delay(pk)` of a feed task for every feed of `feeds`, once each,
        appended to the queue. */
    method DelayFeedTasks(feeds: set<FeedId>)
      modifies `log
      ensures |old(log)| <= |log| && log[..|old(log)|] == old(log)
      ensures SubmitsEachOnce(log[|old(log)|..], FeedTasks(feeds))
      ensures |log| == |old(log)| + |feeds|
    {
      var todo := feeds;
      ghost var done: set<FeedId> := {};
      ghost var added: seq<Task> := [];
      while todo != {}
        invariant todo !! done && todo + done == feeds
        invariant log == old(log) + added
        invariant SubmitsEachOnce(added, FeedTasks(done))
        invariant |added| + |todo| == |feeds|
        decreases |todo|
      {
        var f :| f in todo;
        SubmitFeedTask(added, done, f);
        log := log + [RetrieveFeed(f)];
        added := added + [RetrieveFeed(f)];
        todo := todo - {f};
        done := done + {f};
      }
      assert log[|old(log)|..] == added;
    }
  }
}
