/**
  The pure part of `getArticleList` (download.js:297-361): the column title's
  chain of fallbacks, the filename-safe cleaning of titles, and the mapping
  of the API's article entries to article records.
 */
module Titles {
  import opened Wrappers
  import opened JsString

  const MaxTitleLength: nat := 100
  /** "专栏", "column": the placeholder title. */
  const DefaultColumnTitle: string := "\U{4E13}\U{680F}"
  const UnknownColumnTitle: string := "unknown"
  const UntitledArticle: string := "Untitled"
  const ArticleUrlPrefix: string := "https://time.geekbang.org/column/article/"

  // ------------------------------------------------------------ cleaning

  /** The class `[<>:"/\\|?*]`. */
  predicate IsForbidden(c: char) {
    c in "<>:\"/\\|?*"
  }

  /** Usable as a file name: at most 100 characters, none forbidden, no white space. */
  predicate FileSafe(s: string) {
    |s| <= MaxTitleLength && forall i :: 0 <= i < |s| ==> !IsForbidden(s[i]) && !IsSpace(s[i])
  }

  /** Every character forbidden in file names becomes `_`. */
  function ReplaceForbidden(s: string): (r: string)
    ensures |r| == |s|
    ensures forall i :: 0 <= i < |s| ==> r[i] == if IsForbidden(s[i]) then '_' else s[i]
  {
    seq(|s|, i requires 0 <= i < |s| => if IsForbidden(s[i]) then '_' else s[i])
  }

  /** Every maximal run of white space becomes one `_`. */
  function CollapseSpaces(s: string): (r: string)
    ensures |r| <= |s|
    ensures forall i :: 0 <= i < |r| ==> !IsSpace(r[i])
    ensures forall i :: 0 <= i < |r| ==> r[i] == '_' || r[i] in s
    decreases |s|
  {
    if |s| == 0 then ""
    else if IsSpace(s[0]) then
      var rest := TrimStart(s);
      assert |rest| < |s|;
      SuffixChars(s, |s| - |rest|);
      "_" + CollapseSpaces(rest)
    else
      SuffixChars(s, 1);
      [s[0]] + CollapseSpaces(s[1..])
  }

  lemma SuffixChars(s: string, k: nat)
    requires k <= |s|
    ensures forall c :: c in s[k..] ==> c in s
  {
    forall c | c in s[k..] ensures c in s {
      var j :| 0 <= j < |s[k..]| && s[k..][j] == c;
      assert s[k + j] == c;
    }
  }

  /** Every `|` becomes `-`. */
  function ReplacePipe(s: string): (r: string)
    ensures |r| == |s|
    ensures forall i :: 0 <= i < |s| ==> r[i] == if s[i] == '|' then '-' else s[i]
  {
    seq(|s|, i requires 0 <= i < |s| => if s[i] == '|' then '-' else s[i])
  }

  /** `.substring(0, n)` */
  function Truncate(s: string, n: nat): (r: string)
    ensures |r| <= n && |r| <= |s| && r == s[..|r|]
    ensures |s| <= n ==> r == s
    ensures |s| > n ==> |r| == n
  {
    if |s| <= n then s else s[..n]
  }

  /** The column title's cleaning (download.js:328-331). */
  function CleanColumnTitle(title: string): (r: string)
    ensures FileSafe(r)
    ensures title != "" ==> r != ""
  {
    var f := ReplaceForbidden(title);
    var c := CollapseSpaces(f);
    assert forall i :: 0 <= i < |c| ==> !IsForbidden(c[i]) by {
      forall i | 0 <= i < |c| ensures !IsForbidden(c[i]) {
        if c[i] != '_' {
          var k :| 0 <= k < |f| && f[k] == c[i];
        }
      }
    }
    assert f != "" ==> c != "" by {
      if f != "" && !IsSpace(f[0]) {
        assert c == [f[0]] + CollapseSpaces(f[1..]);
      }
    }
    Truncate(c, MaxTitleLength)
  }

  /** An article title's cleaning (download.js:349-353), with its extra `|`
      to `-` step. */
  function CleanArticleTitle(title: string): string {
    Truncate(ReplacePipe(CollapseSpaces(ReplaceForbidden(title))), MaxTitleLength)
  }

  /** The `|` to `-` step is dead: the first step already turned every `|`
      into `_`, so both cleanings agree, and a `|` never becomes `-`. */
  lemma PipeStepIsDead(title: string)
    ensures CleanArticleTitle(title) == CleanColumnTitle(title)
  {
    var c := CollapseSpaces(ReplaceForbidden(title));
    forall i | 0 <= i < |c| ensures c[i] != '|' {
      if c[i] != '_' {
        var k :| 0 <= k < |title| && ReplaceForbidden(title)[k] == c[i];
      }
    }
    assert ReplacePipe(c) == c;
  }

  /** Cleaning introduces no character but `_`: every other character of the
      result comes from the title. */
  lemma CleanIntroducesOnlyUnderscore(title: string)
    ensures forall c :: c in CleanColumnTitle(title) ==> c == '_' || c in title
  {
    var f := ReplaceForbidden(title);
    var s := CollapseSpaces(f);
    forall c | c in CleanColumnTitle(title) ensures c == '_' || c in title {
      var i :| 0 <= i < |CleanColumnTitle(title)| && CleanColumnTitle(title)[i] == c;
      assert c == s[i];
      if c != '_' {
        var k :| 0 <= k < |f| && f[k] == c;
        assert title[k] == c;
      }
    }
  }

  lemma {:induction false} CollapseSpacesIdentity(s: string)
    requires forall i :: 0 <= i < |s| ==> !IsSpace(s[i])
    ensures CollapseSpaces(s) == s
  {
    if |s| > 0 {
      CollapseSpacesIdentity(s[1..]);
      assert [s[0]] + s[1..] == s;
    }
  }

  /** A run of white space after a stretch without any becomes one `_`, and
      collapsing goes on with what follows the run. */
  lemma CollapseSpacesRun(a: string, w: string, b: string)
    requires forall i :: 0 <= i < |a| ==> !IsSpace(a[i])
    requires |w| >= 1 && forall k :: 0 <= k < |w| ==> IsSpace(w[k])
    requires b == [] || !IsSpace(b[0])
    ensures CollapseSpaces(a + w + b) == a + "_" + CollapseSpaces(b)
  {
    assert a + w + b == a + (w + b);
    CollapseSpacesPrefix(a, w + b);
    CollapseLeadingRun(w, b);
  }

  /** A stretch without white space is kept as it is. */
  lemma {:induction false} CollapseSpacesPrefix(a: string, t: string)
    requires forall i :: 0 <= i < |a| ==> !IsSpace(a[i])
    ensures CollapseSpaces(a + t) == a + CollapseSpaces(t)
  {
    if a == [] {
      assert a + t == t;
    } else {
      var s := a + t;
      var u := CollapseSpaces(t);
      assert s[0] == a[0] && s[1..] == a[1..] + t;
      CollapseSpacesPrefix(a[1..], t);
      CollapseSpacesUnfold(s);
      assert [a[0]] + (a[1..] + u) == a + u;
    }
  }

  lemma CollapseLeadingRun(w: string, b: string)
    requires |w| >= 1 && forall k :: 0 <= k < |w| ==> IsSpace(w[k])
    requires b == [] || !IsSpace(b[0])
    ensures CollapseSpaces(w + b) == "_" + CollapseSpaces(b)
  {
    assert (w + b)[0] == w[0];
    TrimStartSpaces(w, b);
  }

  lemma CollapseSpacesUnfold(s: string)
    requires s != [] && !IsSpace(s[0])
    ensures CollapseSpaces(s) == [s[0]] + CollapseSpaces(s[1..])
  {
  }

  /** For a title of at most 100 characters without white space, cleaning
      replaces each forbidden character by `_` in place and keeps the rest. */
  lemma CleanInPlace(title: string)
    requires |title| <= MaxTitleLength
    requires forall i :: 0 <= i < |title| ==> !IsSpace(title[i])
    ensures |CleanColumnTitle(title)| == |title|
    ensures forall i :: 0 <= i < |title| ==>
      CleanColumnTitle(title)[i] == if IsForbidden(title[i]) then '_' else title[i]
  {
    CollapseSpacesIdentity(ReplaceForbidden(title));
  }

  /** The titles cleaning leaves alone are exactly the file-safe ones. */
  lemma CleanFixedPoints(title: string)
    ensures CleanColumnTitle(title) == title <==> FileSafe(title)
  {
    if FileSafe(title) {
      assert ReplaceForbidden(title) == title;
      CollapseSpacesIdentity(title);
    }
  }

  /** Cleaning twice is cleaning once. */
  lemma CleanIdempotent(title: string)
    ensures CleanColumnTitle(CleanColumnTitle(title)) == CleanColumnTitle(title)
    ensures CleanArticleTitle(CleanArticleTitle(title)) == CleanArticleTitle(title)
  {
    CleanFixedPoints(CleanColumnTitle(title));
    PipeStepIsDead(title);
    PipeStepIsDead(CleanArticleTitle(title));
  }

  // ------------------------------------------------------- column title

  /** The article entries of the API's `data.list`. A string field that is
      missing, `null` or empty is `""`: JavaScript's `||` treats all three
      alike. */
  datatype RawArticle = RawArticle(
    articleTitle: string, articleShareTitle: string, id: Option<nat>,
    columnTitle: string, productTitle: string)

  /** The API response's `data` object; `list` is `None` when it is missing. */
  datatype ColumnData = ColumnData(
    columnTitle: string, columnSubtitle: string, title: string, name: string,
    columnTitleCamel: string, list: Option<seq<RawArticle>>)

  /** JavaScript's `a || b` on strings. */
  function Or(a: string, b: string): string {
    if a != "" then a else b
  }

  /** The first non-empty string of `xs`, or `""`. */
  function FirstNonEmpty(xs: seq<string>): string {
    if |xs| == 0 then "" else Or(xs[0], FirstNonEmpty(xs[1..]))
  }

  /** `FirstNonEmpty` is empty only when every candidate is, and otherwise is
      a candidate that only empty ones precede. */
  lemma {:induction false} FirstNonEmptyIsFirst(xs: seq<string>)
    ensures FirstNonEmpty(xs) == "" <==> forall i :: 0 <= i < |xs| ==> xs[i] == ""
    ensures FirstNonEmpty(xs) != "" ==>
      exists k :: 0 <= k < |xs| && xs[k] == FirstNonEmpty(xs) && forall j :: 0 <= j < k ==> xs[j] == ""
  {
    if |xs| > 0 && xs[0] == "" {
      FirstNonEmptyIsFirst(xs[1..]);
      var r := FirstNonEmpty(xs[1..]);
      if r != "" {
        var k :| 0 <= k < |xs[1..]| && xs[1..][k] == r && forall j :: 0 <= j < k ==> xs[1..][j] == "";
        assert xs[k + 1] == r;
      }
    }
  }

  /** The title the API gives (download.js:298-308): the `||` chain over the
      response's own fields, then, if that was empty, the first article's. */
  function ApiColumnTitle(data: ColumnData, list: seq<RawArticle>): string {
    var t := Or(data.columnTitle, Or(data.columnSubtitle, Or(data.title, Or(data.name, data.columnTitleCamel))));
    if t == "" && |list| > 0 then Or(list[0].columnTitle, list[0].productTitle) else t
  }

  /** The fields the API title is taken from, in order of precedence. */
  function ApiTitleCandidates(data: ColumnData, list: seq<RawArticle>): seq<string> {
    [data.columnTitle, data.columnSubtitle, data.title, data.name, data.columnTitleCamel]
      + (if |list| > 0 then [list[0].columnTitle, list[0].productTitle] else [])
  }

  /** The `||` chain is the first non-empty candidate. */
  lemma ApiColumnTitleIsFirstNonEmpty(data: ColumnData, list: seq<RawArticle>)
    ensures ApiColumnTitle(data, list) == FirstNonEmpty(ApiTitleCandidates(data, list))
  {
    var tail := if |list| > 0 then [list[0].columnTitle, list[0].productTitle] else [];
    ArticleFallback(list);
    var xs5 := [data.columnTitleCamel] + tail;
    var xs4 := [data.name] + xs5;
    var xs3 := [data.title] + xs4;
    var xs2 := [data.columnSubtitle] + xs3;
    var xs1 := [data.columnTitle] + xs2;
    FirstNonEmptyCons(data.columnTitleCamel, tail);
    FirstNonEmptyCons(data.name, xs5);
    FirstNonEmptyCons(data.title, xs4);
    FirstNonEmptyCons(data.columnSubtitle, xs3);
    FirstNonEmptyCons(data.columnTitle, xs2);
    assert ApiTitleCandidates(data, list) == xs1;
  }

  /** The first article's two titles, tried after the column's fields. */
  lemma ArticleFallback(list: seq<RawArticle>)
    ensures FirstNonEmpty(if |list| > 0 then [list[0].columnTitle, list[0].productTitle] else [])
      == if |list| > 0 then Or(list[0].columnTitle, list[0].productTitle) else ""
  {
    if |list| > 0 {
      FirstNonEmptyCons(list[0].productTitle, []);
      FirstNonEmptyCons(list[0].columnTitle, [list[0].productTitle]);
    }
  }

  lemma FirstNonEmptyCons(x: string, xs: seq<string>)
    ensures FirstNonEmpty([x] + xs) == Or(x, FirstNonEmpty(xs))
  {
    assert ([x] + xs)[1..] == xs;
  }

  /** The column name in a page title "article - column - site" (download.js:313-318):
      the second `-`-separated part, trimmed, when there are at least two parts. */
  function PageTitleColumn(pageTitle: string): Option<string> {
    var parts := Split(pageTitle, '-');
    if |parts| >= 2 then Some(Trim(parts[1])) else None
  }

  /** The column title before cleaning (download.js:298-325). `pageTitle` is
      what `page.title()` returns, `None` when it throws. */
  function RawColumnTitle(data: ColumnData, list: seq<RawArticle>, pageTitle: Option<string>): string {
    var api := ApiColumnTitle(data, list);
    var fromPage :=
      if api == "" || api == DefaultColumnTitle then
        match pageTitle
        case Some(t) => (match PageTitleColumn(t) case Some(p) => p case None => api)
        case None => api
      else api;
    Or(fromPage, DefaultColumnTitle)
  }

  /** The three ways the column title is found: from the API, unless that is
      empty or the placeholder; then from the page title, unless it has no
      `-` or an empty second part; else the placeholder. */
  lemma ColumnTitleFallback(data: ColumnData, list: seq<RawArticle>, pageTitle: Option<string>)
    ensures var api := FirstNonEmpty(ApiTitleCandidates(data, list));
      var page := if pageTitle.Some? then PageTitleColumn(pageTitle.value) else None;
      RawColumnTitle(data, list, pageTitle) ==
        if api != "" && api != DefaultColumnTitle then api
        else if page.Some? && page.value != "" then page.value
        else DefaultColumnTitle
  {
    ApiColumnTitleIsFirstNonEmpty(data, list);
  }

  /** A page title with a `-` always offers a second part. */
  lemma PageTitleWithDash(pageTitle: string)
    ensures PageTitleColumn(pageTitle).Some? <==> '-' in pageTitle
  {
    SplitProperties(pageTitle, '-');
    CountPositive(pageTitle, '-');
  }

  lemma {:induction false} CountPositive(s: string, c: char)
    ensures Count(s, c) > 0 <==> c in s
  {
    if |s| > 0 {
      CountPositive(s[1..], c);
      assert s == [s[0]] + s[1..];
    }
  }

  // ------------------------------------------------------------- articles

  datatype Article = Article(title: string, url: string, originalTitle: string, id: Option<nat>)

  /** The article id as it appears inside the URL: the number, or
      `undefined` when the entry has none. */
  function IdText(id: Option<nat>): string {
    match id
    case Some(n) => Decimal(n)
    case None => "undefined"
  }

  /** One API entry as an article record (download.js:344-360). */
  function ToArticle(raw: RawArticle): (a: Article)
    ensures a.originalTitle != "" && a.title != "" && FileSafe(a.title)
    ensures raw.articleTitle != "" ==> a.originalTitle == raw.articleTitle
    ensures raw.articleTitle == "" && raw.articleShareTitle != "" ==> a.originalTitle == raw.articleShareTitle
    ensures raw.articleTitle == "" && raw.articleShareTitle == "" ==> a.originalTitle == UntitledArticle
    ensures a.title == CleanColumnTitle(a.originalTitle)
    ensures a.id == raw.id && a.url == ArticleUrlPrefix + IdText(raw.id)
  {
    var title := Or(raw.articleTitle, Or(raw.articleShareTitle, UntitledArticle));
    PipeStepIsDead(title);
    Article(CleanArticleTitle(title), ArticleUrlPrefix + IdText(raw.id), title, raw.id)
  }

  /** What `getArticleList` returns. */
  datatype Listing = Listing(articles: seq<Article>, columnTitle: string)

  /** `getArticleList` after the API call (download.js:292-364): `response`
      is the parsed API response's `data`, `None` when the response or its
      `data` is missing. */
  function ArticleList(response: Option<ColumnData>, pageTitle: Option<string>): (l: Listing)
    ensures l.columnTitle != "" && FileSafe(l.columnTitle)
    ensures response.None? || response.value.list.None? ==> l == Listing([], UnknownColumnTitle)
    ensures response.Some? && response.value.list.Some? ==>
      var list := response.value.list.value;
      && l.columnTitle == CleanColumnTitle(RawColumnTitle(response.value, list, pageTitle))
      && |l.articles| == |list|
      && forall i :: 0 <= i < |list| ==> l.articles[i] == ToArticle(list[i])
  {
    if response.None? || response.value.list.None? then
      assert FileSafe(UnknownColumnTitle) by {
        assert forall i :: 0 <= i < |UnknownColumnTitle| ==> UnknownColumnTitle[i] in "unknow";
      }
      Listing([], UnknownColumnTitle)
    else
      var list := response.value.list.value;
      var raw := RawColumnTitle(response.value, list, pageTitle);
      Listing(seq(|list|, i requires 0 <= i < |list| => ToArticle(list[i])), CleanColumnTitle(raw))
  }
}
