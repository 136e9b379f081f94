/**
  The bookkeeping of `mergePDFs` (download.js:725-832): which chapter files
  are combined and in what order, where each chapter's bookmark points, and
  the outline text handed to the outline library. Page counts and the
  outline library's verdict are inputs, because reading and writing PDFs is
  done by foreign code.
 */
module Merge {
  import opened Wrappers
  import opened JsString
  import opened Chapters
  import opened Titles

  datatype Bookmark = Bookmark(title: string, pageIndex: nat)

  /** A bookmark's title: the article's original title, or its cleaned title
      when the original is empty. */
  function BookmarkTitle(a: Article): string {
    Or(a.originalTitle, a.title)
  }

  /** The sum of the page counts. */
  function Sum(counts: seq<nat>): nat {
    if counts == [] then 0 else Sum(counts[..|counts| - 1]) + counts[|counts| - 1]
  }

  /** A longer prefix has at least as many pages, and strictly more when
      every file has a page. */
  lemma {:induction false} SumPrefixMonotone(counts: seq<nat>, i: nat, j: nat)
    requires i <= j <= |counts|
    ensures Sum(counts[..i]) <= Sum(counts[..j])
    ensures i < j && (forall k :: 0 <= k < |counts| ==> counts[k] >= 1) ==> Sum(counts[..i]) < Sum(counts[..j])
  {
    if i < j {
      SumPrefixMonotone(counts, i, j - 1);
      assert counts[..j][..j - 1] == counts[..j - 1];
    }
  }

  /** The bookmarks the `for` loop pushes, one file after another: the file
      at sorted position `i` gets a bookmark only when `articles[i]` exists,
      titled by that article and pointing at the page where the file
      starts. */
  function Bookmarks(counts: seq<nat>, articles: seq<Article>): (bs: seq<Bookmark>)
    ensures |bs| == if |counts| < |articles| then |counts| else |articles|
    ensures forall i :: 0 <= i < |bs| ==>
      bs[i].title == BookmarkTitle(articles[i]) && bs[i].pageIndex == Sum(counts[..i])
  {
    if counts == [] then []
    else
      var n := |counts| - 1;
      var prefix := Bookmarks(counts[..n], articles);
      assert forall i :: 0 <= i < |prefix| ==> counts[..n][..i] == counts[..i];
      prefix + (if n < |articles| then [Bookmark(BookmarkTitle(articles[n]), Sum(counts[..n]))] else [])
  }

  /** Bookmark pages never go backwards, and strictly advance when every
      chapter file has at least one page. */
  lemma BookmarkPagesAscend(counts: seq<nat>, articles: seq<Article>)
    ensures forall i, j :: 0 <= i < j < |Bookmarks(counts, articles)| ==>
      Bookmarks(counts, articles)[i].pageIndex <= Bookmarks(counts, articles)[j].pageIndex
    ensures (forall k :: 0 <= k < |counts| ==> counts[k] >= 1) ==>
      forall i, j :: 0 <= i < j < |Bookmarks(counts, articles)| ==>
        Bookmarks(counts, articles)[i].pageIndex < Bookmarks(counts, articles)[j].pageIndex
  {
    var bs := Bookmarks(counts, articles);
    forall i, j | 0 <= i < j < |bs|
      ensures bs[i].pageIndex <= bs[j].pageIndex
      ensures (forall k :: 0 <= k < |counts| ==> counts[k] >= 1) ==> bs[i].pageIndex < bs[j].pageIndex
    {
      SumPrefixMonotone(counts, i, j);
    }
  }

  // --------------------------------------------------------- the outline

  /** One outline line: the page number counted from 1, `||`, the title. */
  function OutlineLine(b: Bookmark): string {
    Decimal(b.pageIndex + 1) + "||" + b.title
  }

  /** The lines joined with `\n`. */
  function OutlineText(bs: seq<Bookmark>): string {
    Join(seq(|bs|, i requires 0 <= i < |bs| => OutlineLine(bs[i])), '\n')
  }

  /** Reads one outline line back: the page number before the first `|`,
      then `||`, then the title. */
  function ParseOutlineLine(line: string): Option<Bookmark> {
    var digits := BeforeFirst(line, '|');
    var rest := AfterFirst(line, '|');
    if digits != [] && AllDigits(digits) && DigitsValue(digits) >= 1 && rest != [] && rest[0] == '|' then
      Some(Bookmark(rest[1..], DigitsValue(digits) - 1))
    else
      None
  }

  /** Reads the outline text back: one bookmark per line. */
  function ParseOutline(text: string): seq<Option<Bookmark>> {
    var lines := Split(text, '\n');
    seq(|lines|, i requires 0 <= i < |lines| => ParseOutlineLine(lines[i]))
  }

  lemma OutlineLineRoundTrip(b: Bookmark)
    ensures ParseOutlineLine(OutlineLine(b)) == Some(b)
  {
    var d := Decimal(b.pageIndex + 1);
    assert '|' !in d by {
      assert forall k :: 0 <= k < |d| ==> IsDigit(d[k]);
    }
    assert OutlineLine(b) == d + ['|'] + (['|'] + b.title);
    FirstAfterPiece(d, '|', ['|'] + b.title);
    DecimalRoundTrip(b.pageIndex + 1);
    assert (['|'] + b.title)[1..] == b.title;
  }

  /** The outline has one line per bookmark, in bookmark order, and reading
      it back gives the bookmarks, as long as no title contains a line
      break. Only a non-empty list of bookmarks is ever rendered. */
  lemma OutlineRoundTrip(bs: seq<Bookmark>)
    requires |bs| >= 1
    requires forall i :: 0 <= i < |bs| ==> '\n' !in bs[i].title
    ensures |Split(OutlineText(bs), '\n')| == |bs|
    ensures ParseOutline(OutlineText(bs)) == seq(|bs|, i requires 0 <= i < |bs| => Some(bs[i]))
  {
    var lines := seq(|bs|, i requires 0 <= i < |bs| => OutlineLine(bs[i]));
    forall i | 0 <= i < |bs| ensures '\n' !in lines[i] {
      var d := Decimal(bs[i].pageIndex + 1);
      assert forall k :: 0 <= k < |d| ==> IsDigit(d[k]);
      assert lines[i] == d + "||" + bs[i].title;
    }
    SplitJoin(lines, '\n');
    forall i | 0 <= i < |bs| ensures ParseOutline(OutlineText(bs))[i] == Some(bs[i]) {
      OutlineLineRoundTrip(bs[i]);
    }
  }

  // ------------------------------------------------------ the merge itself

  /** What a successful merge leaves: the merged file's name, its page and
      chapter counts, its bookmarks, the outline it carries (none when
      there are no bookmarks or the outline library refused them), and the
      chapter files deleted afterwards. */
  datatype Merged = Merged(
    fileName: string, pages: nat, chapters: nat, bookmarks: seq<Bookmark>,
    outline: Option<string>, deleted: seq<string>)

  /** The page counts of the files, where every one of them could be read. */
  function PageCounts(files: seq<string>, pageCount: map<string, nat>): seq<nat>
    requires forall k :: 0 <= k < |files| ==> files[k] in pageCount
  {
    seq(|files|, k requires 0 <= k < |files| => pageCount[files[k]])
  }

  /** One more file: its page count joins the sum, and its bookmark (if
      any) joins the list. */
  lemma PageCountsStep(files: seq<string>, pageCount: map<string, nat>, articles: seq<Article>, i: nat)
    requires i < |files| && forall k :: 0 <= k <= i ==> files[k] in pageCount
    ensures Sum(PageCounts(files[..i + 1], pageCount)) == Sum(PageCounts(files[..i], pageCount)) + pageCount[files[i]]
    ensures Bookmarks(PageCounts(files[..i + 1], pageCount), articles) ==
      Bookmarks(PageCounts(files[..i], pageCount), articles)
        + (if i < |articles| then [Bookmark(BookmarkTitle(articles[i]), Sum(PageCounts(files[..i], pageCount)))] else [])
  {
    var c1, c0 := PageCounts(files[..i + 1], pageCount), PageCounts(files[..i], pageCount);
    assert |c1| == i + 1 && c1[..i] == c0 && c1[i] == pageCount[files[i]];
    assert Sum(c1) == Sum(c0) + c1[i];
    assert Bookmarks(c1, articles) == Bookmarks(c0, articles)
      + (if i < |articles| then [Bookmark(BookmarkTitle(articles[i]), Sum(c0))] else []);
  }

  /** The pages copied so far and the bookmarks pushed so far. */
  datatype Combined = Combined(pages: nat, bookmarks: seq<Bookmark>)

  /** The `for` loop of `mergePDFs` over the sorted chapter files: it stops
      at the first file that does not load, and otherwise advances
      `currentPage` by each file's page count, pushing a bookmark at the
      page where the file starts whenever `articles[i]` exists. */
  method CombineChapters(files: seq<string>, pageCount: map<string, nat>, articles: seq<Article>)
    returns (c: Option<Combined>)
    ensures c.Some? <==> forall k :: 0 <= k < |files| ==> files[k] in pageCount
    ensures c.Some? ==>
      && c.value.pages == Sum(PageCounts(files, pageCount))
      && c.value.bookmarks == Bookmarks(PageCounts(files, pageCount), articles)
  {
    var bookmarks: seq<Bookmark> := [];
    var currentPage: nat := 0;
    for i := 0 to |files|
      invariant forall k :: 0 <= k < i ==> files[k] in pageCount
      invariant currentPage == Sum(PageCounts(files[..i], pageCount))
      invariant bookmarks == Bookmarks(PageCounts(files[..i], pageCount), articles)
    {
      if files[i] !in pageCount {
        return None;
      }
      PageCountsStep(files, pageCount, articles, i);
      if i < |articles| {
        bookmarks := bookmarks + [Bookmark(BookmarkTitle(articles[i]), currentPage)];
      }
      currentPage := currentPage + pageCount[files[i]];
    }
    assert files[..|files|] == files;
    return Some(Combined(currentPage, bookmarks));
  }

  /** `mergePDFs`. `listing` is the directory listing; `pageCount` holds the
      page count of every file that reads and loads as a PDF (a file missing
      from it makes the load throw, and the merge returns `null`);
      `outlineAccepted` is whether the outline library succeeds. */
  method MergePdfs(listing: seq<string>, pageCount: map<string, nat>, columnTitle: string,
                   articles: seq<Article>, outlineAccepted: bool, deleteAfterMerge: bool)
    returns (r: Option<Merged>)
    ensures r.Some? <==>
      MergeOrder(listing) != [] && forall k :: 0 <= k < |MergeOrder(listing)| ==> MergeOrder(listing)[k] in pageCount
    ensures r.Some? ==>
      var files := MergeOrder(listing);
      var counts := PageCounts(files, pageCount);
      && r.value.fileName == columnTitle + ".pdf"
      && r.value.pages == Sum(counts)
      && r.value.chapters == |files|
      && r.value.bookmarks == Bookmarks(counts, articles)
      && r.value.outline == (if r.value.bookmarks != [] && outlineAccepted then Some(OutlineText(r.value.bookmarks)) else None)
      && r.value.deleted == (if deleteAfterMerge then files else [])
  {
    var files := MergeOrder(listing);
    if |files| == 0 {
      return None;
    }
    var c := CombineChapters(files, pageCount, articles);
    if c.None? {
      return None;
    }
    var bookmarks := c.value.bookmarks;
    var outline: Option<string> := None;
    if |bookmarks| > 0 && outlineAccepted {
      outline := Some(OutlineText(bookmarks));
    }
    var deleted: seq<string> := [];
    if deleteAfterMerge {
      deleted := files;
    }
    return Some(Merged(columnTitle + ".pdf", c.value.pages, |files|, bookmarks, outline, deleted));
  }

  // ------------------------------------------- bookmarks after a failure

  /** As written, bookmark `j` is titled by `articles[j]`, the article at the
      chapter file's sorted position. When an earlier chapter failed, that
      is not the article the file holds: with three articles and the second
      one failed, the second bookmark points at chapter `003_...` and is
      titled by the second article. */
  lemma BookmarkTitleShiftsAfterFailure(articles: seq<Article>, titles: seq<string>, counts: seq<nat>)
    requires |articles| == |titles| == 3 && |counts| == 2
    requires BookmarkTitle(articles[1]) != BookmarkTitle(articles[2])
    ensures WrittenFiles(titles, [true, false, true]) == [ChapterFileName(1, titles[0]), ChapterFileName(3, titles[2])]
    ensures Bookmarks(counts, articles)[1].title == BookmarkTitle(articles[1])
    ensures Bookmarks(counts, articles)[1].title != BookmarkTitle(articles[2])
  {
    SecondFailed();
  }

  lemma SecondFailed()
    ensures SucceededIndices([true, false, true]) == [0, 2]
  {
    assert [true][..0] == [];
    assert SucceededIndices([true]) == [0];
    assert [true, false][..1] == [true];
    assert SucceededIndices([true, false]) == [0];
    assert [true, false, true][..2] == [true, false];
  }

  /** The bookmarks as intended: the file's own ordinal picks the article
      it was downloaded for. */
  function BookmarksByOrdinal(files: seq<string>, counts: seq<nat>, articles: seq<Article>): seq<Bookmark>
    requires |counts| == |files|
    requires forall k :: 0 <= k < |files| ==> PassesMergeFilter(files[k])
  {
    if files == [] then []
    else
      var n := |files| - 1;
      var ordinal := OrdinalOf(files[n]);
      BookmarksByOrdinal(files[..n], counts[..n], articles)
        + (if 1 <= ordinal <= |articles| then [Bookmark(BookmarkTitle(articles[ordinal - 1]), Sum(counts[..n]))] else [])
  }

  /** For the chapter files a run leaves behind, every chapter file gets a
      bookmark titled by the article it holds, at the page it starts on. */
  lemma BookmarksByOrdinalMatchArticles(articles: seq<Article>, titles: seq<string>, ok: seq<bool>, counts: seq<nat>)
    requires |ok| == |titles| == |articles| < 1000
    requires |counts| == |WrittenFiles(titles, ok)|
    ensures forall k :: 0 <= k < |WrittenFiles(titles, ok)| ==> PassesMergeFilter(WrittenFiles(titles, ok)[k])
    ensures var bs := BookmarksByOrdinal(WrittenFiles(titles, ok), counts, articles);
      && |bs| == |SucceededIndices(ok)|
      && forall k :: 0 <= k < |bs| ==>
        bs[k] == Bookmark(BookmarkTitle(articles[SucceededIndices(ok)[k]]), Sum(counts[..k]))
  {
    var files := WrittenFiles(titles, ok);
    var idx := SucceededIndices(ok);
    WrittenFilesOrdinals(titles, ok);
    ByOrdinalPrefix(files, counts, articles, idx, |files|);
    assert files[..|files|] == files && counts[..|files|] == counts;
  }

  /** Each written chapter file passes the filter and names its article. */
  lemma WrittenFilesOrdinals(titles: seq<string>, ok: seq<bool>)
    requires |ok| == |titles| < 1000
    ensures forall k :: 0 <= k < |WrittenFiles(titles, ok)| ==>
      && PassesMergeFilter(WrittenFiles(titles, ok)[k])
      && OrdinalOf(WrittenFiles(titles, ok)[k]) == SucceededIndices(ok)[k] + 1
  {
    var files := WrittenFiles(titles, ok);
    var idx := SucceededIndices(ok);
    forall k | 0 <= k < |files| ensures PassesMergeFilter(files[k]) && OrdinalOf(files[k]) == idx[k] + 1 {
      OrdinalRoundTrip(idx[k] + 1, titles[idx[k]]);
    }
  }

  lemma {:induction false} ByOrdinalPrefix(files: seq<string>, counts: seq<nat>, articles: seq<Article>, idx: seq<nat>, n: nat)
    requires n <= |files| == |counts| == |idx|
    requires forall k :: 0 <= k < |files| ==> PassesMergeFilter(files[k])
    requires forall k :: 0 <= k < |files| ==> OrdinalOf(files[k]) == idx[k] + 1 && idx[k] < |articles|
    ensures var bs := BookmarksByOrdinal(files[..n], counts[..n], articles);
      && |bs| == n
      && forall k :: 0 <= k < n ==> bs[k] == Bookmark(BookmarkTitle(articles[idx[k]]), Sum(counts[..k]))
  {
    if n > 0 {
      ByOrdinalPrefix(files, counts, articles, idx, n - 1);
      assert files[..n][..n - 1] == files[..n - 1];
      assert counts[..n][..n - 1] == counts[..n - 1];
      assert files[..n][n - 1] == files[n - 1];
    } else {
      assert files[..0] == [];
    }
  }

  /** When no chapter failed, the code's bookmarks and the intended ones
      agree. */
  lemma NoFailureNoShift(articles: seq<Article>, titles: seq<string>, ok: seq<bool>, counts: seq<nat>)
    requires |ok| == |titles| == |articles| < 1000
    requires forall i :: 0 <= i < |ok| ==> ok[i]
    requires |counts| == |WrittenFiles(titles, ok)|
    ensures forall k :: 0 <= k < |WrittenFiles(titles, ok)| ==> PassesMergeFilter(WrittenFiles(titles, ok)[k])
    ensures BookmarksByOrdinal(WrittenFiles(titles, ok), counts, articles) == Bookmarks(counts, articles)
  {
    var idx := SucceededIndices(ok);
    BookmarksByOrdinalMatchArticles(articles, titles, ok, counts);
    AllSucceeded(ok);
  }

  lemma {:induction false} AllSucceeded(ok: seq<bool>)
    requires forall i :: 0 <= i < |ok| ==> ok[i]
    ensures |SucceededIndices(ok)| == |ok|
    ensures forall k :: 0 <= k < |ok| ==> SucceededIndices(ok)[k] == k
  {
    if ok != [] {
      AllSucceeded(ok[..|ok| - 1]);
    }
  }

  /** A raw column title of three digits, white space and then anything
      cleans to a title that makes the merged file look like a chapter. */
  lemma CleanedTitleCanLookLikeChapter(digits: string, w: string, rest: string)
    requires |digits| == 3 && AllDigits(digits)
    requires |w| >= 1 && forall k :: 0 <= k < |w| ==> IsSpace(w[k])
    requires rest == [] || !IsSpace(rest[0])
    ensures PassesMergeFilter(CleanColumnTitle(digits + w + rest) + ".pdf")
  {
    var f := ReplaceForbidden(rest);
    assert ReplaceForbidden(digits + w + rest) == digits + w + f;
    CollapseSpacesRun(digits, w, f);
    var c := CollapseSpaces(digits + w + f);
    assert c[..4] == digits + "_";
    var t := CleanColumnTitle(digits + w + rest);
    assert t[..3] == digits && t[3] == '_';
    MergedFileCanLookLikeChapter(t);
  }
}
