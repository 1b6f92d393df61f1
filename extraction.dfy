/** The content-extraction heuristics of analyzer/tasks.py (`find_title`,
    `find_keywords`, `find_author`, `find_article_body`) as functions over an
    abstract parsed page. */
module Extraction {
  import opened Wrappers
  import opened Text

  /** What the HTML parser yields that the heuristics look at:
      - `head`: None when the page has no `<head>` element; otherwise the
        `.string` of every `<title>` inside it, in document order (None for a
        title whose `.string` is None);
      - `metas`: the attributes of every `<meta>` element, in document order;
      - `articles`: for every `<article>` element in document order, the text
        nodes below it in document order. */
  datatype Document = Document(
    head: Option<seq<Option<string>>>,
    metas: seq<map<string, string>>,
    articles: seq<seq<string>>)

  /** The exceptions the heuristics raise: `soup.head` is None
      (AttributeError) or a matched `<meta>` has no `content` (KeyError). */
  datatype Fault = NoHead | MetaWithoutContent

  /** `attrs={attr: re.compile(".*" + needle)}` matches a `<meta>`: the
      attribute is present and contains `needle`, case-sensitively. */
  predicate Selects(m: map<string, string>, attr: string, needle: string) {
    attr in m && Contains(m[attr], needle)
  }

  /** Every matched `<meta>` has a `content` attribute. */
  ghost predicate ContentWhereSelected(metas: seq<map<string, string>>, attr: string, needle: string) {
    forall i | 0 <= i < |metas| && Selects(metas[i], attr, needle) :: "content" in metas[i]
  }

  /** Some matched `<meta>` has the non-empty `content` `s`. */
  ghost predicate SuppliesContent(metas: seq<map<string, string>>, attr: string, needle: string, s: string) {
    exists i | 0 <= i < |metas| ::
      Selects(metas[i], attr, needle) && "content" in metas[i] && metas[i]["content"] == s && s != ""
  }

  /** The non-empty `.string`s of the head titles, in order. */
  function HeadTitles(ts: seq<Option<string>>): (r: seq<string>)
    ensures forall s :: s in r <==> Some(s) in ts && s != ""
  {
    if ts == [] then []
    else
      assert forall s :: Some(s) in ts <==> Some(s) == ts[0] || Some(s) in ts[1..];
      (if ts[0].Some? && ts[0].value != "" then [ts[0].value] else []) + HeadTitles(ts[1..])
  }

  /** The loop over `soup.find_all("meta", attrs={attr: ...})` that appends
      every non-empty `content`; it raises when a matched tag has none. */
  function MetaContents(metas: seq<map<string, string>>, attr: string, needle: string): (r: Result<seq<string>, Fault>)
    ensures r.Ok? <==> ContentWhereSelected(metas, attr, needle)
    ensures r.Err? ==> r.error == MetaWithoutContent
    ensures r.Ok? ==> forall s :: s in r.value <==> SuppliesContent(metas, attr, needle, s)
  {
    if metas == [] then Ok([])
    else
      var m := metas[0];
      if Selects(m, attr, needle) && "content" !in m then
        Err(MetaWithoutContent)
      else
        var rest := MetaContents(metas[1..], attr, needle);
        assert rest.Ok? ==> ContentWhereSelected(metas, attr, needle) by {
          if rest.Ok? {
            forall i | 0 <= i < |metas| && Selects(metas[i], attr, needle) ensures "content" in metas[i] {
              if i > 0 { assert metas[i] == metas[1..][i - 1]; }
            }
          }
        }
        assert rest.Err? ==> !ContentWhereSelected(metas, attr, needle) by {
          if rest.Err? {
            var i :| 0 <= i < |metas[1..]| && Selects(metas[1..][i], attr, needle) && "content" !in metas[1..][i];
            assert metas[i + 1] == metas[1..][i];
          }
        }
        match rest
        case Err(e) => Err(e)
        case Ok(tail) =>
          var here := if Selects(m, attr, needle) && m["content"] != "" then [m["content"]] else [];
          assert forall s :: SuppliesContent(metas, attr, needle, s) <==>
              (s in here || SuppliesContent(metas[1..], attr, needle, s)) by {
            forall s ensures SuppliesContent(metas, attr, needle, s) ==> (s in here || SuppliesContent(metas[1..], attr, needle, s)) {
              if SuppliesContent(metas, attr, needle, s) {
                var i :| 0 <= i < |metas| && Selects(metas[i], attr, needle) && "content" in metas[i] && metas[i]["content"] == s && s != "";
                if i > 0 { assert metas[i] == metas[1..][i - 1]; }
              }
            }
            forall s ensures SuppliesContent(metas[1..], attr, needle, s) ==> SuppliesContent(metas, attr, needle, s) {
              if SuppliesContent(metas[1..], attr, needle, s) {
                var i :| 0 <= i < |metas[1..]| && Selects(metas[1..][i], attr, needle) && "content" in metas[1..][i] && metas[1..][i]["content"] == s && s != "";
                assert metas[i + 1] == metas[1..][i];
              }
            }
          }
          Ok(here + tail)
  }

  /** The head titles of consecutive runs of `<title>` elements follow each
      other, in document order and with repetitions. */
  lemma {:induction false} HeadTitlesAppend(a: seq<Option<string>>, b: seq<Option<string>>)
    ensures HeadTitles(a + b) == HeadTitles(a) + HeadTitles(b)
  {
    if a == [] {
      assert a + b == b;
    } else {
      assert (a + b)[0] == a[0];
      assert (a + b)[1..] == a[1..] + b;
      HeadTitlesAppend(a[1..], b);
    }
  }

  /** One `<title>` contributes its `.string` once when it is non-empty. */
  lemma HeadTitlesSingle(t: Option<string>)
    ensures HeadTitles([t]) == if t.Some? && t.value != "" then [t.value] else []
  {
    assert [t][1..] == [];
  }

  /** The candidates of consecutive runs of `<meta>` tags follow each other,
      in document order and with repetitions; the loop raises exactly when
      one of the runs does. */
  lemma {:induction false} MetaContentsAppend(a: seq<map<string, string>>, b: seq<map<string, string>>, attr: string, needle: string)
    ensures MetaContents(a + b, attr, needle).Ok? <==> MetaContents(a, attr, needle).Ok? && MetaContents(b, attr, needle).Ok?
    ensures MetaContents(a + b, attr, needle).Ok? ==>
      MetaContents(a + b, attr, needle).value == MetaContents(a, attr, needle).value + MetaContents(b, attr, needle).value
  {
    if a == [] {
      assert a + b == b;
    } else {
      assert (a + b)[0] == a[0];
      assert (a + b)[1..] == a[1..] + b;
      MetaContentsAppend(a[1..], b, attr, needle);
    }
  }

  /** One matched `<meta>` contributes its non-empty `content` once, and
      raises without `content`; an unmatched one contributes nothing. */
  lemma MetaContentsSingle(m: map<string, string>, attr: string, needle: string)
    ensures MetaContents([m], attr, needle) ==
      if !Selects(m, attr, needle) then Ok([])
      else if "content" !in m then Err(MetaWithoutContent)
      else if m["content"] == "" then Ok([])
      else Ok([m["content"]])
  {
    var ms, none := [m], [];
    assert ms[0] == m && ms[1..] == [];
    assert MetaContents(ms[1..], attr, needle) == Ok(none);
    if Selects(m, attr, needle) && "content" in m && m["content"] != "" {
      assert [m["content"]] + none == [m["content"]];
    } else {
      assert none + none == none;
    }
  }

  /** `possible_titles` before stripping: head titles, then the metas matched
      on `name`, then the metas matched on `property`. */
  function TitleCandidates(doc: Document): (r: Result<seq<string>, Fault>)
    ensures r.Ok? <==>
      doc.head.Some? && ContentWhereSelected(doc.metas, "name", "title") && ContentWhereSelected(doc.metas, "property", "title")
    ensures r.Ok? ==> (r.value ==
      HeadTitles(doc.head.value) + MetaContents(doc.metas, "name", "title").value + MetaContents(doc.metas, "property", "title").value)
    ensures r.Ok? ==> forall s :: s in r.value <==>
      || (Some(s) in doc.head.value && s != "")
      || SuppliesContent(doc.metas, "name", "title", s)
      || SuppliesContent(doc.metas, "property", "title", s)
  {
    match doc.head
    case None => Err(NoHead)
    case Some(ts) =>
      var byName :- MetaContents(doc.metas, "name", "title");
      var byProperty :- MetaContents(doc.metas, "property", "title");
      Ok(HeadTitles(ts) + byName + byProperty)
  }

  function Count(xs: seq<string>, x: string): nat {
    multiset(xs)[x]
  }

  /** The position of the first occurrence of `x` in `xs`. */
  function FirstIndex(xs: seq<string>, x: string): (k: nat)
    requires x in xs
    ensures k < |xs| && xs[k] == x
    ensures forall j | 0 <= j < k :: xs[j] != x
  {
    if xs[0] == x then 0 else FirstIndex(xs[1..], x) + 1
  }

  /** `x` is what `Counter(xs).most_common(n=1)[0][0]` picks: an element with
      the highest count and, among those, the one that occurs first. */
  ghost predicate IsMostCommon(xs: seq<string>, x: string) {
    && x in xs
    && (forall j | 0 <= j < |xs| :: Count(xs, xs[j]) <= Count(xs, x))
    && (forall j | 0 <= j < |xs| && Count(xs, xs[j]) == Count(xs, x) :: FirstIndex(xs, x) <= j)
  }

  /** `best` is the most common element of `xs[..i]`, counted over all of `xs`. */
  ghost predicate LeadsPrefix(xs: seq<string>, i: nat, best: string) {
    && i <= |xs|
    && best in xs
    && FirstIndex(xs, best) < i
    && (forall j | 0 <= j < i :: Count(xs, xs[j]) <= Count(xs, best))
    && (forall j | 0 <= j < i && Count(xs, xs[j]) == Count(xs, best) :: FirstIndex(xs, best) <= j)
  }

  function MostCommonFrom(xs: seq<string>, i: nat, best: string): (r: string)
    requires 1 <= i <= |xs| && LeadsPrefix(xs, i, best)
    ensures IsMostCommon(xs, r)
    decreases |xs| - i
  {
    if i == |xs| then best
    else if Count(xs, xs[i]) > Count(xs, best) then MostCommonFrom(xs, i + 1, xs[i])
    else MostCommonFrom(xs, i + 1, best)
  }

  /** The winner of the title frequency count. */
  function MostCommon(xs: seq<string>): (r: string)
    requires xs != []
    ensures IsMostCommon(xs, r)
  {
    MostCommonFrom(xs, 1, xs[0])
  }

  /** `IsMostCommon` determines its element, so it is a specification of the
      title choice and not merely a bound on it. */
  lemma MostCommonIsUnique(xs: seq<string>, x: string, y: string)
    requires IsMostCommon(xs, x) && IsMostCommon(xs, y)
    ensures x == y
  {
    var kx, ky := FirstIndex(xs, x), FirstIndex(xs, y);
    assert Count(xs, x) == Count(xs, y) by {
      assert Count(xs, xs[kx]) <= Count(xs, y);
      assert Count(xs, xs[ky]) <= Count(xs, x);
    }
    assert kx <= ky && ky <= kx;
  }

  /** `find_title`: None exactly when there are no candidates, otherwise the
      most common stripped candidate, ties going to the earliest. */
  function FindTitle(doc: Document): (r: Result<Option<string>, Fault>)
    ensures r.Ok? <==> TitleCandidates(doc).Ok?
    ensures r.Ok? ==> (r.value.None? <==> TitleCandidates(doc).value == [])
    ensures r.Ok? && r.value.Some? ==> IsMostCommon(StripEach(TitleCandidates(doc).value), r.value.value)
  {
    var candidates :- TitleCandidates(doc);
    if candidates == [] then Ok(None) else Ok(Some(MostCommon(StripEach(candidates))))
  }

  /** Python's `soup.find("meta", attrs={attr: ...})`: the position of the
      first matched `<meta>`, if any. */
  function FirstSelecting(metas: seq<map<string, string>>, attr: string, needle: string): (r: Option<nat>)
    ensures r.Some? ==> r.value < |metas| && Selects(metas[r.value], attr, needle)
    ensures r.Some? ==> forall j | 0 <= j < r.value :: !Selects(metas[j], attr, needle)
    ensures r.None? ==> forall j | 0 <= j < |metas| :: !Selects(metas[j], attr, needle)
  {
    if metas == [] then None
    else if Selects(metas[0], attr, needle) then Some(0)
    else
      match FirstSelecting(metas[1..], attr, needle)
      case None => None
      case Some(k) => Some(k + 1)
  }

  /** `find_keywords`: the `content` of the first `<meta>` whose `name`
      contains "keywords", split on commas. No such tag, or an empty
      `content`, gives the empty list; otherwise there is one keyword more
      than there are commas, and each is stripped and comma-free. */
  function FindKeywords(doc: Document): (r: Result<seq<string>, Fault>)
    ensures FirstSelecting(doc.metas, "name", "keywords").None? ==> r == Ok([])
    ensures FirstSelecting(doc.metas, "name", "keywords").Some? ==>
      var m := doc.metas[FirstSelecting(doc.metas, "name", "keywords").value];
      && (r.Err? <==> "content" !in m)
      && (r.Ok? && m["content"] == "" ==> r.value == [])
      && (r.Ok? && m["content"] != "" ==> r.value == StripEach(Split(m["content"], ',')))
      && (r.Ok? && m["content"] != "" ==> |r.value| == Occurrences(m["content"], ',') + 1)
    ensures r.Ok? ==> forall k | k in r.value :: ',' !in k && Strip(k) == k
  {
    match FirstSelecting(doc.metas, "name", "keywords")
    case None => Ok([])
    case Some(i) =>
      var m := doc.metas[i];
      if "content" !in m then Err(MetaWithoutContent)
      else if m["content"] == "" then Ok([])
      else
        var pieces := Split(m["content"], ',');
        StrippedPiecesAreClean(pieces, ',');
        Ok(StripEach(pieces))
  }

  /** A piece without the separator strips to a clean keyword. */
  lemma CleanPiece(p: string, sep: char)
    requires sep !in p
    ensures sep !in Strip(p) && Strip(Strip(p)) == Strip(p)
  {
    StripIdempotent(p);
    StripSpec(p);
    SliceKeepsAbsent(p, sep, Lead(p), Lead(p) + |Strip(p)|);
  }

  lemma {:induction false} StrippedPiecesAreClean(pieces: seq<string>, sep: char)
    requires forall j | 0 <= j < |pieces| :: sep !in pieces[j]
    ensures forall k | k in StripEach(pieces) :: sep !in k && Strip(k) == k
  {
    if pieces != [] {
      CleanPiece(pieces[0], sep);
      StrippedPiecesAreClean(pieces[1..], sep);
    }
  }

  /** `find_author`: the stripped `content` of the first `<meta>` whose
      `name` contains "author", when that `content` is non-empty. */
  function FindAuthor(doc: Document): (r: Result<Option<string>, Fault>)
    ensures FirstSelecting(doc.metas, "name", "author").None? ==> r == Ok(None)
    ensures FirstSelecting(doc.metas, "name", "author").Some? ==>
      var m := doc.metas[FirstSelecting(doc.metas, "name", "author").value];
      && (r.Err? <==> "content" !in m)
      && (r.Ok? ==> (r.value.Some? <==> m["content"] != ""))
      && (r.Ok? && r.value.Some? ==> r.value.value == Strip(m["content"]))
  {
    match FirstSelecting(doc.metas, "name", "author")
    case None => Ok(None)
    case Some(i) =>
      var m := doc.metas[i];
      if "content" !in m then Err(MetaWithoutContent)
      else if m["content"] == "" then Ok(None)
      else Ok(Some(Strip(m["content"])))
  }

  /** Tags after the first matched one are never looked at. */
  lemma {:induction false} FirstSelectingIgnoresLater(metas: seq<map<string, string>>, extra: seq<map<string, string>>, attr: string, needle: string)
    requires FirstSelecting(metas, attr, needle).Some?
    ensures FirstSelecting(metas + extra, attr, needle) == FirstSelecting(metas, attr, needle)
  {
    if !Selects(metas[0], attr, needle) {
      assert (metas + extra)[1..] == metas[1..] + extra;
      FirstSelectingIgnoresLater(metas[1..], extra, attr, needle);
    }
  }

  /** Adding `<meta>` tags after the first author tag never changes the author. */
  lemma AuthorIgnoresLaterMetas(doc: Document, extra: seq<map<string, string>>)
    requires FirstSelecting(doc.metas, "name", "author").Some?
    ensures FindAuthor(doc.(metas := doc.metas + extra)) == FindAuthor(doc)
  {
    FirstSelectingIgnoresLater(doc.metas, extra, "name", "author");
    var i := FirstSelecting(doc.metas, "name", "author").value;
    assert (doc.metas + extra)[i] == doc.metas[i];
  }

  lemma ExamplePieces()
    ensures Split("a, b ,c", ',') == ["a", " b ", "c"]
  {
    assert "a, b ,c" == "a" + [','] + (" b " + [','] + "c");
    SplitAfterPiece("a", ',', " b " + [','] + "c");
    SplitAfterPiece(" b ", ',', "c");
    SplitWithoutSeparator("c", ',');
  }

  lemma ExampleStrips()
    ensures StripEach(["a", " b ", "c"]) == ["a", "b", "c"]
  {
    StripTrimmed("a");
    StripTrimmed("b");
    StripTrimmed("c");
    assert " b " == " " + "b" + " ";
    StripIgnoresSurroundingSpace(" ", "b", " ");
  }

  /** `"a, b ,c"` gives the keywords `["a", "b", "c"]`. */
  lemma KeywordsExample()
    ensures FindKeywords(Document(Some([]), [map["name" := "keywords", "content" := "a, b ,c"]], [])) == Ok(["a", "b", "c"])
  {
    var m := map["name" := "keywords", "content" := "a, b ,c"];
    assert Selects(m, "name", "keywords") by {
      assert m["name"][..8] == "keywords";
    }
    ExamplePieces();
    ExampleStrips();
  }

  /** Adding `<meta>` tags after the first keywords tag never changes the keywords. */
  lemma KeywordsIgnoreLaterMetas(doc: Document, extra: seq<map<string, string>>)
    requires FirstSelecting(doc.metas, "name", "keywords").Some?
    ensures FindKeywords(doc.(metas := doc.metas + extra)) == FindKeywords(doc)
  {
    FirstSelectingIgnoresLater(doc.metas, extra, "name", "keywords");
    var i := FirstSelecting(doc.metas, "name", "keywords").value;
    assert (doc.metas + extra)[i] == doc.metas[i];
  }

  /** All text nodes of all `<article>` elements, in document order. */
  function Flatten(xss: seq<seq<string>>): seq<string> {
    if xss == [] then [] else xss[0] + Flatten(xss[1..])
  }

  /** `find_article_body`: None exactly when the `<article>` elements hold no
      text node; otherwise every node stripped, joined with single spaces. */
  function FindArticleBody(doc: Document): (r: Option<string>)
    ensures r.None? <==> Flatten(doc.articles) == []
    ensures r.Some? ==> r.value == Join(StripEach(Flatten(doc.articles)), " ")
  {
    var texts := Flatten(doc.articles);
    if texts == [] then None else Some(Join(StripEach(texts), " "))
  }

  lemma {:induction false} FlattenAppend(a: seq<seq<string>>, b: seq<seq<string>>)
    ensures Flatten(a + b) == Flatten(a) + Flatten(b)
  {
    if a == [] {
      assert a + b == b;
    } else {
      assert (a + b)[1..] == a[1..] + b;
      FlattenAppend(a[1..], b);
    }
  }

  /** The body of a page is the body of its first `<article>` elements, a
      space, and the body of the rest: text is kept in document order. */
  lemma BodyOfConcatenation(doc: Document, a: seq<seq<string>>, b: seq<seq<string>>)
    requires doc.articles == a + b
    requires Flatten(a) != [] && Flatten(b) != []
    ensures FindArticleBody(doc) ==
      Some(FindArticleBody(doc.(articles := a)).value + " " + FindArticleBody(doc.(articles := b)).value)
  {
    var fa, fb := Flatten(a), Flatten(b);
    FlattenAppend(a, b);
    assert Flatten(doc.articles) == fa + fb;
    StripEachAppend(fa, fb);
    JoinAppend(StripEach(fa), StripEach(fb), " ");
  }

  /** A page with a single text node has that node, stripped, as its body. */
  lemma SingleNodeBody(doc: Document, t: string)
    requires Flatten(doc.articles) == [t]
    ensures FindArticleBody(doc) == Some(Strip(t))
  {
    assert StripEach([t]) == [Strip(t)];
  }

  /** The most frequent candidate wins; of equally frequent ones, the first. */
  lemma MostCommonExamples()
    ensures MostCommon(["Foo", "Foo", "Bar"]) == "Foo"
    ensures MostCommon(["Bar", "Foo"]) == "Bar"
  {
    var xs, ys := ["Foo", "Foo", "Bar"], ["Bar", "Foo"];
    assert Count(xs, "Foo") == 2 && Count(xs, "Bar") == 1;
    assert Count(ys, "Foo") == 1 && Count(ys, "Bar") == 1;
  }

  /** A text node that is only whitespace is kept as an empty string. */
  lemma WhitespaceNodeIsEmptyBody(doc: Document)
    requires doc == Document(None, [], [[" \n"]])
    ensures FindArticleBody(doc) == Some("")
  {
    StripIgnoresSurroundingSpace(" \n", "", "");
    assert " \n" + "" + "" == " \n";
    assert Strip("") == "";
    assert Flatten(doc.articles) == [" \n"];
    assert StripEach([" \n"]) == [""];
  }
}
