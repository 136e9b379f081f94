/**
  The chapter files: the name each download is saved under (download.js:392,
  561) and the merge stage's choice and order of the files to combine
  (download.js:730-733).
 */
module Chapters {
  import opened JsString
  import opened LexOrder

  /** A chapter's file name: its ordinal in decimal, padded on the left with
      zeros to three digits, then `_`, the cleaned title and `.pdf`. The
      ordinal is the article's position plus one (download.js:392). */
  function ChapterFileName(ordinal: nat, title: string): string {
    PadStart(Decimal(ordinal), 3, '0') + "_" + title + ".pdf"
  }

  /** The merge stage's test for a chapter file: the name ends in `.pdf` and
      begins with three decimal digits and `_`. */
  predicate PassesMergeFilter(file: string) {
    && EndsWith(file, ".pdf")
    && |file| >= 4 && IsDigit(file[0]) && IsDigit(file[1]) && IsDigit(file[2]) && file[3] == '_'
  }

  /** `files.filter(...)` with the merge filter. */
  function Filter(files: seq<string>): (r: seq<string>)
    ensures forall f :: f in r ==> PassesMergeFilter(f)
    ensures forall f :: multiset(r)[f] == if PassesMergeFilter(f) then multiset(files)[f] else 0
  {
    if files == [] then []
    else
      var r := (if PassesMergeFilter(files[0]) then [files[0]] else []) + Filter(files[1..]);
      assert files == [files[0]] + files[1..];
      r
  }

  /** `pdfFiles` (download.js:731-733): the chapter files of the directory
      listing, sorted. */
  function MergeOrder(listing: seq<string>): (r: seq<string>)
    ensures Sorted(r)
    ensures forall f :: multiset(r)[f] == if PassesMergeFilter(f) then multiset(listing)[f] else 0
  {
    Sort(Filter(listing))
  }

  /** The order the directory lists its files in does not matter. */
  lemma MergeOrderIgnoresListingOrder(l1: seq<string>, l2: seq<string>)
    requires multiset(l1) == multiset(l2)
    ensures MergeOrder(l1) == MergeOrder(l2)
  {
    assert multiset(Filter(l1)) == multiset(Filter(l2));
    SortIgnoresOrder(Filter(l1), Filter(l2));
  }

  // ------------------------------------------------------ three digits

  /** The three digits of an ordinal below 1000. */
  function Pad3(n: nat): string
    requires n < 1000
  {
    [DigitChar(n / 100), DigitChar(n / 10 % 10), DigitChar(n % 10)]
  }

  lemma ThreeDigitDecimal(n: nat)
    requires 100 <= n < 1000
    ensures Decimal(n) == Pad3(n)
  {
    var q := n / 10;
    assert q / 10 == n / 100 && q % 10 == n / 10 % 10;
    assert Decimal(q / 10) == [DigitChar(q / 10)];
    assert Decimal(q) == [DigitChar(q / 10), DigitChar(q % 10)];
  }

  lemma TwoDigitDecimal(n: nat)
    requires 10 <= n < 100
    ensures "0" + Decimal(n) == Pad3(n)
  {
    assert n / 100 == 0 && n / 10 % 10 == n / 10;
    assert Decimal(n / 10) == [DigitChar(n / 10)];
  }

  /** Below 1000 the zero-padded decimal form is exactly the three digits. */
  lemma PaddedOrdinal(n: nat)
    requires n < 1000
    ensures PadStart(Decimal(n), 3, '0') == Pad3(n)
  {
    if n < 10 {
      assert n / 100 == 0 && n / 10 % 10 == 0 && n % 10 == n;
      assert DigitChar(0) == '0';
      assert Decimal(n) == [DigitChar(n)];
      assert Repeat('0', 2) == "00";
    } else if n < 100 {
      TwoDigitDecimal(n);
      assert Repeat('0', 1) == "0";
    } else {
      ThreeDigitDecimal(n);
    }
  }

  /** Below 1000 a chapter name is the three digits, `_`, the title, `.pdf`,
      and it passes the merge filter. */
  lemma ChapterNameBelow1000(n: nat, title: string)
    requires n < 1000
    ensures ChapterFileName(n, title) == Pad3(n) + "_" + title + ".pdf"
    ensures PassesMergeFilter(ChapterFileName(n, title))
  {
    PaddedOrdinal(n);
    var f := ChapterFileName(n, title);
    assert f[|f| - 4..] == ".pdf";
  }

  /** From 1000 on the ordinal has four digits or more, so the fourth
      character is a digit, not `_`, and the merge stage skips the chapter. */
  lemma ChapterNameFrom1000(n: nat, title: string)
    requires n >= 1000
    ensures !PassesMergeFilter(ChapterFileName(n, title))
  {
    DecimalLength(n);
    var d := Decimal(n);
    assert PadStart(d, 3, '0') == d;
    assert ChapterFileName(n, title)[3] == d[3];
  }

  /** Where two numbers below 1000 first differ in their three digits, the
      smaller has the smaller digit. */
  lemma DigitOrder(a: nat, b: nat)
    requires a < b < 1000
    ensures || a / 100 < b / 100
            || (a / 100 == b / 100 && a / 10 % 10 < b / 10 % 10)
            || (a / 100 == b / 100 && a / 10 % 10 == b / 10 % 10 && a % 10 < b % 10)
  {
    assert a == 100 * (a / 100) + 10 * (a / 10 % 10) + a % 10;
    assert b == 100 * (b / 100) + 10 * (b / 10 % 10) + b % 10;
  }

  lemma Pad3Order(a: nat, b: nat, ra: string, rb: string)
    requires a < b < 1000
    ensures LexLe(Pad3(a) + ra, Pad3(b) + rb) && Pad3(a) + ra != Pad3(b) + rb
  {
    DigitOrder(a, b);
    var x2, x1, x0 := DigitChar(a / 100), DigitChar(a / 10 % 10), DigitChar(a % 10);
    var y2, y1, y0 := DigitChar(b / 100), DigitChar(b / 10 % 10), DigitChar(b % 10);
    assert Pad3(a) + ra == [x2, x1, x0] + ra;
    assert Pad3(b) + rb == [y2, y1, y0] + rb;
    if a / 100 < b / 100 {
      assert [x2, x1, x0] + ra == [] + [x2] + ([x1, x0] + ra);
      assert [y2, y1, y0] + rb == [] + [y2] + ([y1, y0] + rb);
      LexFirstDifference([], x2, y2, [x1, x0] + ra, [y1, y0] + rb);
    } else if a / 10 % 10 < b / 10 % 10 {
      assert [x2, x1, x0] + ra == [x2] + [x1] + ([x0] + ra);
      assert [y2, y1, y0] + rb == [x2] + [y1] + ([y0] + rb);
      LexFirstDifference([x2], x1, y1, [x0] + ra, [y0] + rb);
    } else {
      assert [x2, x1, x0] + ra == [x2, x1] + [x0] + ra;
      assert [y2, y1, y0] + rb == [x2, x1] + [y0] + rb;
      LexFirstDifference([x2, x1], x0, y0, ra, rb);
    }
  }

  lemma ChapterNameParts(n: nat, title: string)
    requires n < 1000
    ensures ChapterFileName(n, title) == Pad3(n) + ("_" + title + ".pdf")
  {
    PaddedOrdinal(n);
  }

  /** For ordinals below 1000 the lexicographic order of chapter names is
      the numeric order of their ordinals, whatever the titles. */
  lemma ChapterNamesInOrdinalOrder(a: nat, b: nat, ta: string, tb: string)
    requires a < b < 1000
    ensures LexLe(ChapterFileName(a, ta), ChapterFileName(b, tb))
    ensures ChapterFileName(a, ta) != ChapterFileName(b, tb)
  {
    ChapterNameParts(a, ta);
    ChapterNameParts(b, tb);
    Pad3Order(a, b, "_" + ta + ".pdf", "_" + tb + ".pdf");
  }

  /** The ordinal a chapter name begins with: its three digits as a number. */
  function OrdinalOf(file: string): nat
    requires PassesMergeFilter(file)
  {
    DigitsValue(file[..3])
  }

  lemma OrdinalRoundTrip(n: nat, title: string)
    requires n < 1000
    ensures PassesMergeFilter(ChapterFileName(n, title)) && OrdinalOf(ChapterFileName(n, title)) == n
  {
    ChapterNameBelow1000(n, title);
    assert ChapterFileName(n, title)[..3] == Pad3(n);
    Pad3Value(n);
  }

  /** Reading the three digits back gives the ordinal. */
  lemma Pad3Value(n: nat)
    requires n < 1000
    ensures AllDigits(Pad3(n)) && DigitsValue(Pad3(n)) == n
  {
    var d := Pad3(n);
    assert d[..2][..1] == [DigitChar(n / 100)];
    assert d[..2] == [DigitChar(n / 100), DigitChar(n / 10 % 10)];
    assert DigitsValue(d[..2][..1]) == n / 100;
    assert DigitsValue(d[..2]) == n / 100 * 10 + n / 10 % 10;
    assert DigitsValue(d) == (n / 100 * 10 + n / 10 % 10) * 10 + n % 10;
  }


  // ------------------------------------------------- the chapters written

  /** The positions `i` with `ok[i]`, ascending: which downloads succeeded. */
  function SucceededIndices(ok: seq<bool>): (idx: seq<nat>)
    ensures forall k :: 0 <= k < |idx| ==> idx[k] < |ok| && ok[idx[k]]
    ensures forall k, l :: 0 <= k < l < |idx| ==> idx[k] < idx[l]
    ensures forall i :: 0 <= i < |ok| && ok[i] ==> i in idx
  {
    if |ok| == 0 then []
    else
      var prefix := ok[..|ok| - 1];
      var idx := SucceededIndices(prefix);
      assert forall i :: 0 <= i < |prefix| ==> ok[i] == prefix[i];
      idx + (if ok[|ok| - 1] then [|ok| - 1] else [])
  }

  /** The chapter files a run leaves behind, in article order: one per
      successful download, named by its ordinal and cleaned title. */
  function WrittenFiles(titles: seq<string>, ok: seq<bool>): (files: seq<string>)
    requires |ok| == |titles|
    ensures |files| == |SucceededIndices(ok)|
    ensures forall k :: 0 <= k < |files| ==>
      files[k] == ChapterFileName(SucceededIndices(ok)[k] + 1, titles[SucceededIndices(ok)[k]])
  {
    var idx := SucceededIndices(ok);
    seq(|idx|, k requires 0 <= k < |idx| => ChapterFileName(idx[k] + 1, titles[idx[k]]))
  }

  lemma WrittenFilesSorted(titles: seq<string>, ok: seq<bool>)
    requires |ok| == |titles| < 1000
    ensures Sorted(WrittenFiles(titles, ok))
    ensures forall f :: f in WrittenFiles(titles, ok) ==> PassesMergeFilter(f)
  {
    var idx := SucceededIndices(ok);
    var files := WrittenFiles(titles, ok);
    forall k, l | 0 <= k < l < |files| ensures LexLe(files[k], files[l]) {
      ChapterNamesInOrdinalOrder(idx[k] + 1, idx[l] + 1, titles[idx[k]], titles[idx[l]]);
    }
    forall f | f in files ensures PassesMergeFilter(f) {
      var k :| 0 <= k < |files| && files[k] == f;
      ChapterNameBelow1000(idx[k] + 1, titles[idx[k]]);
    }
  }

  /** Whatever order the downloads finished and the directory lists them
      in, and whatever non-chapter files lie beside them, the merge takes
      the successful chapters in article order, as long as there are fewer
      than 1000 articles. */
  lemma MergeOrderIsArticleOrder(listing: seq<string>, titles: seq<string>, ok: seq<bool>, others: seq<string>)
    requires |ok| == |titles| < 1000
    requires multiset(listing) == multiset(WrittenFiles(titles, ok)) + multiset(others)
    requires forall f :: f in others ==> !PassesMergeFilter(f)
    ensures MergeOrder(listing) == WrittenFiles(titles, ok)
  {
    var files := WrittenFiles(titles, ok);
    WrittenFilesSorted(titles, ok);
    forall f ensures multiset(Filter(listing))[f] == multiset(files)[f] {
      if PassesMergeFilter(f) {
        assert f !in multiset(others);
      } else {
        assert f !in multiset(files);
      }
    }
    assert multiset(Filter(listing)) == multiset(files);
    SortedUnique(MergeOrder(listing), files);
  }

  /** The merged file is the column title plus `.pdf`, in the same directory
      (download.js:807); a cleaned column title that begins with three digits
      and `_` gives a name the merge filter takes for a chapter. */
  lemma MergedFileCanLookLikeChapter(columnTitle: string)
    requires |columnTitle| >= 4 && AllDigits(columnTitle[..3]) && columnTitle[3] == '_'
    ensures PassesMergeFilter(columnTitle + ".pdf")
  {
    var f := columnTitle + ".pdf";
    assert f[|f| - 4..] == ".pdf";
    assert columnTitle[..3][0] == f[0] && columnTitle[..3][1] == f[1] && columnTitle[..3][2] == f[2];
  }
}
