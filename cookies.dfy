/**
  `parseCookies` (download.js:228-238): a browser `Cookie:` header string
  becomes one cookie record per `;`-separated segment, all scoped to the
  site's domain and root path.
 */
module Cookies {
  import opened JsString

  const CookieDomain: string := ".geekbang.org"
  const CookiePath: string := "/"

  datatype Cookie = Cookie(name: string, value: string, domain: string, path: string)

  /** One segment, trimmed and split at every `=`: the name is the first
      piece trimmed, the value the other pieces joined back with `=` and
      trimmed. */
  function ParseCookie(segment: string): (c: Cookie)
    ensures c.name == Trim(BeforeFirst(Trim(segment), '='))
    ensures c.value == Trim(AfterFirst(Trim(segment), '='))
    ensures c.domain == CookieDomain && c.path == CookiePath
  {
    var pieces := Split(Trim(segment), '=');
    SplitHead(Trim(segment), '=');
    Cookie(Trim(pieces[0]), Trim(Join(pieces[1..], '=')), CookieDomain, CookiePath)
  }

  /** `parseCookies(cookieString)`: exactly one cookie per `;`-separated
      segment, in input order. */
  function ParseCookies(cookieString: string): (cs: seq<Cookie>)
    ensures |cs| == |Split(cookieString, ';')| == Count(cookieString, ';') + 1
    ensures forall i :: 0 <= i < |cs| ==> cs[i] == ParseCookie(Split(cookieString, ';')[i])
  {
    var segments := Split(cookieString, ';');
    SplitProperties(cookieString, ';');
    seq(|segments|, i requires 0 <= i < |segments| => ParseCookie(segments[i]))
  }

  /** Every cookie carries the fixed domain and path, and neither its name
      nor its value has white space at either end. */
  lemma ParsedCookiesAreScoped(cookieString: string)
    ensures forall c :: c in ParseCookies(cookieString) ==>
      c.domain == CookieDomain && c.path == CookiePath && Trimmed(c.name) && Trimmed(c.value)
  {
    forall c | c in ParseCookies(cookieString)
      ensures Trimmed(c.name) && Trimmed(c.value)
    {
      var i :| 0 <= i < |ParseCookies(cookieString)| && ParseCookies(cookieString)[i] == c;
      var segment := Trim(Split(cookieString, ';')[i]);
      TrimIsTrimmed(BeforeFirst(segment, '='));
      TrimIsTrimmed(AfterFirst(segment, '='));
    }
  }

  /** A name that may appear in a header: no `=` or `;`, no white space at either end. */
  predicate ValidName(name: string) {
    '=' !in name && ';' !in name && Trimmed(name)
  }

  /** A value that may appear in a header: no `;`, no white space at either
      end (an `=` inside is allowed). */
  predicate ValidValue(value: string) {
    ';' !in value && Trimmed(value)
  }

  /** The text of the `i`-th pair in a header, with the space browsers put
      after each `;`. */
  function HeaderSegment(pairs: seq<(string, string)>, i: nat): string
    requires i < |pairs|
  {
    (if i == 0 then "" else " ") + pairs[i].0 + "=" + pairs[i].1
  }

  /** The header `name1=value1; name2=value2; ...` a browser sends. */
  function Header(pairs: seq<(string, string)>): string {
    Join(HeaderSegments(pairs), ';')
  }

  lemma ParseSegment(pairs: seq<(string, string)>, i: nat)
    requires i < |pairs| && ValidName(pairs[i].0) && ValidValue(pairs[i].1)
    ensures ParseCookie(HeaderSegment(pairs, i)) == Cookie(pairs[i].0, pairs[i].1, CookieDomain, CookiePath)
  {
    var n, v := pairs[i].0, pairs[i].1;
    var lead := if i == 0 then "" else " ";
    var text := n + ['='] + v;
    assert HeaderSegment(pairs, i) == lead + text;
    PairTextTrimmed(n, v);
    LeadingSpaceTrimmed(lead, text);
    FirstAfterPiece(n, '=', v);
    TrimFixedPoints(n);
    TrimFixedPoints(v);
  }

  lemma PairTextTrimmed(n: string, v: string)
    requires Trimmed(n) && Trimmed(v)
    ensures Trimmed(n + ['='] + v)
  {
    var text := n + ['='] + v;
    assert text[0] == if n == [] then '=' else n[0];
    assert text[|text| - 1] == if v == [] then '=' else v[|v| - 1];
  }

  /** Round trip: parsing the header of well-formed pairs gives back every
      pair, in order, with an `=` inside a value intact. */
  lemma ParseHeader(pairs: seq<(string, string)>)
    requires |pairs| >= 1
    requires forall i :: 0 <= i < |pairs| ==> ValidName(pairs[i].0) && ValidValue(pairs[i].1)
    ensures ParseCookies(Header(pairs)) ==
      seq(|pairs|, i requires 0 <= i < |pairs| => Cookie(pairs[i].0, pairs[i].1, CookieDomain, CookiePath))
  {
    SplitHeader(pairs);
    ParseSegments(Header(pairs), pairs);
  }

  /** The header splits back into its segments. */
  lemma SplitHeader(pairs: seq<(string, string)>)
    requires |pairs| >= 1
    requires forall i :: 0 <= i < |pairs| ==> ValidName(pairs[i].0) && ValidValue(pairs[i].1)
    ensures Split(Header(pairs), ';') == HeaderSegments(pairs)
  {
    SegmentsWithoutSemicolon(pairs);
    SplitJoin(HeaderSegments(pairs), ';');
  }

  /** A string that splits into the segments of well-formed pairs parses to
      those pairs. */
  lemma ParseSegments(s: string, pairs: seq<(string, string)>)
    requires forall i :: 0 <= i < |pairs| ==> ValidName(pairs[i].0) && ValidValue(pairs[i].1)
    requires Split(s, ';') == HeaderSegments(pairs)
    ensures ParseCookies(s) ==
      seq(|pairs|, i requires 0 <= i < |pairs| => Cookie(pairs[i].0, pairs[i].1, CookieDomain, CookiePath))
  {
    var cs := ParseCookies(s);
    var expected := seq(|pairs|, i requires 0 <= i < |pairs| => Cookie(pairs[i].0, pairs[i].1, CookieDomain, CookiePath));
    assert |cs| == |expected|;
    forall i | 0 <= i < |pairs| ensures cs[i] == expected[i] {
      ParseCookieAt(s, pairs, i);
    }
    assert cs == expected;
  }

  lemma ParseCookieAt(s: string, pairs: seq<(string, string)>, i: nat)
    requires i < |pairs| && ValidName(pairs[i].0) && ValidValue(pairs[i].1)
    requires Split(s, ';') == HeaderSegments(pairs)
    ensures i < |ParseCookies(s)|
    ensures ParseCookies(s)[i] == Cookie(pairs[i].0, pairs[i].1, CookieDomain, CookiePath)
  {
    assert Split(s, ';')[i] == HeaderSegment(pairs, i);
    ParseSegment(pairs, i);
  }

  function HeaderSegments(pairs: seq<(string, string)>): seq<string> {
    seq(|pairs|, i requires 0 <= i < |pairs| => HeaderSegment(pairs, i))
  }

  lemma SegmentsWithoutSemicolon(pairs: seq<(string, string)>)
    requires forall i :: 0 <= i < |pairs| ==> ValidName(pairs[i].0) && ValidValue(pairs[i].1)
    ensures forall i :: 0 <= i < |pairs| ==> ';' !in HeaderSegments(pairs)[i]
  {
    forall i | 0 <= i < |pairs| ensures ';' !in HeaderSegments(pairs)[i] {
      assert HeaderSegments(pairs)[i] == (if i == 0 then "" else " ") + pairs[i].0 + "=" + pairs[i].1;
    }
  }

}
