/** The analyzer's tasks in analyzer/tasks.py: `parse_html_entry`, which
    guards on the entry and upserts its Article, and the sweep
    `dispatch_parse_html_entries`. */
module AnalyzerTasks {
  import opened Wrappers
  import opened Text
  import opened Extraction
  import opened Storage

  /** The four heuristics in the order the `defaults` dict evaluates them;
      the first exception aborts the task before anything is written. */
  function Extract(doc: Document): (r: Result<Article, Fault>)
    ensures r.Ok? <==> FindTitle(doc).Ok? && FindKeywords(doc).Ok? && FindAuthor(doc).Ok?
    ensures r.Ok? ==> r.value == Article(FindTitle(doc).value, FindKeywords(doc).value, FindAuthor(doc).value, FindArticleBody(doc))
  {
    var title :- FindTitle(doc);
    var keywords :- FindKeywords(doc);
    var author :- FindAuthor(doc);
    Ok(Article(title, keywords, author, FindArticleBody(doc)))
  }

  /** Why `parse_html_entry` logs and returns: the entry does not exist, it
      has no `Content-Type`, its `Content-Type` lacks "html", or there is no
      markup to parse. */
  datatype Skip = NoSuchEntry | NoContentType | NotHtml | NoMarkup

  /** Skipped: logged, nothing written. Failed: a heuristic raised, nothing
      written. Parsed: the article that is written. */
  datatype ParseOutcome = Skipped(why: Skip) | Failed(fault: Fault) | Parsed(article: Article)

  /** The guard of `parse_html_entry`: a stored `Content-Type` containing
      "html" (case-sensitively) and markup to parse. */
  predicate Parseable(e: Entry) {
    ContentType(e).Some? && Contains(ContentType(e).value, "html") && e.rawHtml.Some?
  }

  /** What `parse_html_entry(link)` decides, `parse` standing for the HTML
      parser. It skips exactly the entries the guard rejects; otherwise the
      outcome is that of the heuristics on the parsed markup. */
  function ParseEntry(entries: map<string, Entry>, link: string, parse: string -> Document): (r: ParseOutcome)
    ensures r.Skipped? <==> link !in entries || !Parseable(entries[link])
    ensures r.Skipped? && r.why == NoSuchEntry <==> link !in entries
    ensures !r.Skipped? ==>
      var doc := parse(entries[link].rawHtml.value);
      && (r.Failed? <==> Extract(doc).Err?)
      && (r.Parsed? ==> Extract(doc) == Ok(r.article))
  {
    if link !in entries then Skipped(NoSuchEntry)
    else
      var e := entries[link];
      match ContentType(e)
      case None => Skipped(NoContentType)
      case Some(ct) =>
        if !Contains(ct, "html") then Skipped(NotHtml)
        else if e.rawHtml.None? then Skipped(NoMarkup)
        else
          match Extract(parse(e.rawHtml.value))
          case Err(f) => Failed(f)
          case Ok(a) => Parsed(a)
  }

  /** The article table after `parse_html_entry`: the entry's single Article
      is created or has all four fields overwritten together; otherwise
      nothing changes. */
  method ParseHtmlEntry(db: Store, link: string, parse: string -> Document) returns (outcome: ParseOutcome)
    requires db.Valid()
    modifies db`articles
    ensures db.Valid()
    ensures outcome == ParseEntry(old(db.entries), link, parse)
    ensures db.articles == if outcome.Parsed? then old(db.articles)[link := outcome.article] else old(db.articles)
  {
    outcome := Skipped(NoSuchEntry);
    if link !in db.entries {
      return;
    }
    var e := db.entries[link];
    if "Content-Type" !in e.headers {
      outcome := Skipped(NoContentType);
      return;
    }
    if !Contains(e.headers["Content-Type"], "html") {
      outcome := Skipped(NotHtml);
      return;
    }
    if e.rawHtml.None? {
      outcome := Skipped(NoMarkup);
      return;
    }
    var doc := parse(e.rawHtml.value);
    var extracted := Extract(doc);
    if extracted.Err? {
      outcome := Failed(extracted.error);
      return;
    }
    db.articles := db.articles[link := extracted.value];
    outcome := Parsed(extracted.value);
  }

  /** The query of `dispatch_parse_html_entries`: markup stored, no Article
      yet, and a `Content-Type` containing "text/html" in any letter case. */
  predicate NeedsParse(e: Entry, articles: map<string, Article>) {
    && e.rawHtml.Some?
    && e.link !in articles
    && ContentType(e).Some?
    && IContains(ContentType(e).value, "text/html")
  }

  function ParseSweep(entries: map<string, Entry>, articles: map<string, Article>): set<string> {
    set l | l in entries && NeedsParse(entries[l], articles)
  }

  /** `dispatch_parse_html_entries`: one parse task per selected entry, each
      exactly once, appended to the queue; the tables are untouched. */
  method DispatchParseHtmlEntries(db: Store)
    requires db.Valid()
    modifies db`log
    ensures db.Valid()
    ensures |old(db.log)| <= |db.log| && db.log[..|old(db.log)|] == old(db.log)
    ensures SubmitsEachOnce(db.log[|old(db.log)|..], ParseTasks(ParseSweep(db.entries, db.articles)))
    ensures |db.log| == |old(db.log)| + |ParseSweep(db.entries, db.articles)|
  {
    db.DelayParseTasks(ParseSweep(db.entries, db.articles));
  }

  /** Once an entry's article is written, the sweep no longer selects it and
      selects every other entry as before: no double scheduling. */
  lemma ParsedEntryLeavesSweep(entries: map<string, Entry>, articles: map<string, Article>, link: string, parse: string -> Document)
    requires forall l | l in entries :: entries[l].link == l
    requires ParseEntry(entries, link, parse).Parsed?
    ensures ParseSweep(entries, articles[link := ParseEntry(entries, link, parse).article]) == ParseSweep(entries, articles) - {link}
  {
  }

  /** An entry the sweep selects is parsed (or fails in a heuristic) as long
      as its `Content-Type` also contains "html" case-sensitively. */
  lemma SelectedHtmlEntryIsNotSkipped(entries: map<string, Entry>, articles: map<string, Article>, link: string, parse: string -> Document)
    requires link in ParseSweep(entries, articles)
    requires Contains(ContentType(entries[link]).value, "html")
    ensures !ParseEntry(entries, link, parse).Skipped?
  {
  }

  lemma LowerCaseTextHtml()
    ensures IContains("text/HTML", "text/html")
  {
    assert Lower("text/HTML") == "text/html";
    assert Lower("text/html") == "text/html";
  }

  lemma NoLowerCaseHtml()
    ensures !Contains("text/HTML", "html")
  {
    var ct := "text/HTML";
    assert forall i | 0 <= i < |ct| :: ct[i] != 'h';
    AbsentFirstChar(ct, "html");
  }

  /** The sweep matches "text/html" in any case but the task requires "html"
      in lower case: an entry served as "text/HTML" is selected by every
      sweep and skipped by every parse. */
  lemma UpperCaseHtmlIsRetriedForever(parse: string -> Document)
    ensures var e := Entry("l", "f", "", "", None, Some("<p>"), None, Some(200), map["Content-Type" := "text/HTML"], None);
      && "l" in ParseSweep(map["l" := e], map[])
      && ParseEntry(map["l" := e], "l", parse) == Skipped(NotHtml)
  {
    LowerCaseTextHtml();
    NoLowerCaseHtml();
  }
}
