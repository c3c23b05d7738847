/** app/tools/web_scrape_tool.py: fetching a page's text, through the cache.
    The HTTP request, the HTML parse and soup.get_text() are one input: the
    extracted text of the page, or the exception they raised. */
module WebScrape {
  import opened Wrappers
  import opened PyStrings
  import opened DbCache

  // ---------------------------------------------------------------------------
  // Whitespace normalisation of the extracted text

  /** The non-empty, stripped pieces of one line: strip the line, split it on
      "  ", strip each piece and drop the empty ones. */
  function Pieces(ps: seq<string>): seq<string> {
    if ps == [] then []
    else
      var p := Strip(ps[0]);
      (if p == "" then [] else [p]) + Pieces(ps[1..])
  }

  /** The chunks of all lines, in order. */
  function Chunks(lines: seq<string>): seq<string> {
    if lines == [] then []
    else Pieces(SplitOnDoubleSpace(Strip(lines[0]))) + Chunks(lines[1..])
  }

  /** The clean-up of the extracted text: ' '.join of the non-empty chunks of
      every stripped line split on two spaces. */
  function Normalize(text: string): string {
    Join(" ", Chunks(SplitLines(text)))
  }

  /** The shape of normalised text: nothing to strip, one line, and never two
      spaces in a row. */
  predicate Clean(s: string) {
    Stripped(s) && NoLineBreak(s) && NoDoubleSpace(s)
  }

  predicate Word(s: string) {
    s != "" && Clean(s)
  }

  predicate AllWords(ss: seq<string>) {
    forall i :: 0 <= i < |ss| ==> Word(ss[i])
  }

  predicate AllNoLineBreak(ss: seq<string>) {
    forall i :: 0 <= i < |ss| ==> NoLineBreak(ss[i])
  }

  lemma AllWordsConcat(a: seq<string>, b: seq<string>)
    requires AllWords(a) && AllWords(b)
    ensures AllWords(a + b)
  {
    forall i | 0 <= i < |a + b| ensures Word((a + b)[i]) {
      if i >= |a| { assert (a + b)[i] == b[i - |a|]; }
    }
  }

  /** Pieces are words when the strings they come from are single lines
      without double spaces. */
  lemma {:induction false} PiecesAreWords(ps: seq<string>)
    requires forall i :: 0 <= i < |ps| ==> NoLineBreak(ps[i]) && NoDoubleSpace(ps[i])
    ensures AllWords(Pieces(ps))
  {
    if ps != [] {
      StripKeepsClean(ps[0]);
      PiecesAreWords(ps[1..]);
      var p := Strip(ps[0]);
      AllWordsConcat(if p == "" then [] else [p], Pieces(ps[1..]));
    }
  }

  lemma {:induction false} ChunksAreWords(lines: seq<string>)
    requires AllNoLineBreak(lines)
    ensures AllWords(Chunks(lines))
  {
    if lines != [] {
      var l := Strip(lines[0]);
      StripKeepsClean(lines[0]);
      SplitOnDoubleSpaceClean(l);
      PiecesAreWords(SplitOnDoubleSpace(l));
      ChunksAreWords(lines[1..]);
      AllWordsConcat(Pieces(SplitOnDoubleSpace(l)), Chunks(lines[1..]));
    }
  }

  /** Two words joined by one space. */
  lemma JoinTwoWords(a: string, b: string)
    requires Word(a) && Word(b)
    ensures Word(a + " " + b)
  {
    var s := a + " " + b;
    forall i | 0 <= i < |s| ensures !IsLineBreak(s[i]) {
      if i > |a| { assert s[i] == b[i - |a| - 1]; }
    }
    forall i | 0 <= i < |s| ensures !DoubleSpaceAt(s, i) {
      if i + 1 < |a| {
        assert !DoubleSpaceAt(a, i);
      } else if i > |a| && i + 1 < |s| {
        assert s[i] == b[i - |a| - 1] && s[i + 1] == b[i - |a|];
        assert !DoubleSpaceAt(b, i - |a| - 1);
      } else if i == |a| && i + 1 < |s| {
        assert s[i + 1] == b[0];
      }
    }
  }

  /** " ".join of words is clean, and empty only when there are no words. */
  lemma {:induction false} JoinWordsClean(ss: seq<string>)
    requires AllWords(ss)
    ensures Clean(Join(" ", ss))
    ensures Join(" ", ss) == "" <==> ss == []
  {
    if |ss| > 1 {
      JoinWordsClean(ss[1..]);
      JoinTwoWords(ss[0], Join(" ", ss[1..]));
    }
  }

  /** Normalised text has nothing to strip, no line boundary and never two
      spaces in a row. */
  lemma NormalizeIsClean(text: string)
    ensures Clean(Normalize(text))
  {
    SplitLinesNoBreak(text);
    ChunksAreWords(SplitLines(text));
    JoinWordsClean(Chunks(SplitLines(text)));
  }

  lemma {:induction false} PiecesKeepNonSpace(ps: seq<string>)
    ensures NonSpaceOfAll(Pieces(ps)) == NonSpaceOfAll(ps)
  {
    if ps != [] {
      var p := Strip(ps[0]);
      StripKeepsNonSpace(ps[0]);
      PiecesKeepNonSpace(ps[1..]);
      NonSpaceOfAllConcat(if p == "" then [] else [p], Pieces(ps[1..]));
      if p != "" {
        NonSpaceOfOne(p);
      }
    }
  }

  lemma {:induction false} ChunksKeepNonSpace(lines: seq<string>)
    ensures NonSpaceOfAll(Chunks(lines)) == NonSpaceOfAll(lines)
  {
    if lines != [] {
      var l := Strip(lines[0]);
      StripKeepsNonSpace(lines[0]);
      SplitOnDoubleSpaceKeepsNonSpace(l);
      PiecesKeepNonSpace(SplitOnDoubleSpace(l));
      ChunksKeepNonSpace(lines[1..]);
      NonSpaceOfAllConcat(Pieces(SplitOnDoubleSpace(l)), Chunks(lines[1..]));
    }
  }

  /** Normalisation changes whitespace only: the other characters of the
      text survive, all of them and in order. */
  lemma NormalizeKeepsNonSpace(text: string)
    ensures NonSpace(Normalize(text)) == NonSpace(text)
  {
    SplitLinesKeepsNonSpace(text);
    ChunksKeepNonSpace(SplitLines(text));
    JoinSpaceKeepsNonSpace(Chunks(SplitLines(text)));
  }

  /** Clean text is empty exactly when it has no non-space character. */
  lemma CleanEmpty(s: string)
    requires Clean(s)
    ensures s == "" <==> NonSpace(s) == []
  {
    if s != "" {
      assert NonSpace(s) == [s[0]] + NonSpace(s[1..]);
    }
  }

  /** Empty or all-whitespace text normalises to "", and nothing else does. */
  lemma NormalizeEmpty(text: string)
    ensures Normalize(text) == "" <==> AllSpace(text)
  {
    NormalizeIsClean(text);
    NormalizeKeepsNonSpace(text);
    CleanEmpty(Normalize(text));
    NonSpaceEmpty(text);
  }

  /** Clean text is left exactly as it is. */
  lemma NormalizeClean(s: string)
    requires Clean(s)
    ensures Normalize(s) == s
  {
    if s != "" {
      assert LineEnd(s, 0) == |s|;
      assert SplitLines(s) == [s];
      StripStripped(s);
      assert FindDoubleSpace(s, 0) == |s|;
      assert SplitOnDoubleSpace(s) == [s];
      assert Pieces([s]) == [s] + Pieces([]);
      assert Chunks([s]) == [s] + Chunks([]);
    }
  }

  /** The texts normalisation leaves alone are exactly the clean ones. */
  lemma NormalizeFixedPoints(s: string)
    ensures Normalize(s) == s <==> Clean(s)
  {
    NormalizeIsClean(s);
    if Clean(s) {
      NormalizeClean(s);
    }
  }

  /** Normalising twice is normalising once. */
  lemma NormalizeIdempotent(text: string)
    ensures Normalize(Normalize(text)) == Normalize(text)
  {
    NormalizeIsClean(text);
    NormalizeClean(Normalize(text));
  }

  // ---------------------------------------------------------------------------
  // scrape

  /** What the HTTP GET, the HTML parse and get_text() produce for a URL: the
      page's extracted text, or an exception raised by any of them. */
  datatype Page = Page(text: string) | Raised

  /** The effect of one scrape call: the returned text, the cache table
      afterwards, and whether an HTTP request was made. */
  datatype Scraped = Scraped(text: string, table: Table, requested: bool)

  /** `if cached:` is true only for a stored, non-empty string. */
  predicate Hit(table: Table, url: string) {
    var cached := Lookup(table, url);
    cached.Some? && cached.value != ""
  }

  /** scrape(url, max_length) as a function of the table before the call, the
      page the network would deliver and the clock. */
  function ScrapeSpec(table: Table, url: string, maxLength: int, fetch: string -> Page, now: real): Scraped {
    if Hit(table, url) then
      Scraped(SliceTo(Lookup(table, url).value, maxLength), table, false)
    else
      match fetch(url)
      case Raised => Scraped("", table, true)
      case Page(raw) =>
        var text := Normalize(raw);
        Scraped(SliceTo(text, maxLength), Upsert(table, url, text, now), true)
  }

  /** WebScrapeTool: holds the cache it reads and fills. */
  class WebScrapeTool {
    const cache: Cache

    constructor (cache: Cache)
      ensures this.cache == cache
    {
      this.cache := cache;
    }

    /** scrape(url, max_length): serve a prefix of the cached text; otherwise
        fetch, normalise, store the full text and return a prefix of it; on
        any exception return "" without touching the cache. `requested` says
        whether the network was used. */
    method Scrape(url: string, maxLength: int, fetch: string -> Page, now: real)
      returns (text: string, ghost requested: bool)
      modifies cache
      ensures var s := ScrapeSpec(old(cache.table), url, maxLength, fetch, now);
        text == s.text && cache.table == s.table && requested == s.requested
    {
      var cached := cache.Get(url);
      if cached.Some? && cached.value != "" {
        return SliceTo(cached.value, maxLength), false;
      }
      requested := true;
      var page := fetch(url);
      match page {
        case Raised =>
          text := "";
        case Page(raw) =>
          var clean := Normalize(raw);
          cache.Set(url, clean, now);
          text := SliceTo(clean, maxLength);
      }
    }
  }

  /** A hit on non-empty cached text t returns t[:max_length] and neither
      requests the page nor writes the cache. */
  lemma ScrapeHit(table: Table, url: string, maxLength: int, fetch: string -> Page, now: real, t: string)
    requires Lookup(table, url) == Some(t) && t != ""
    ensures ScrapeSpec(table, url, maxLength, fetch, now) == Scraped(SliceTo(t, maxLength), table, false)
    ensures 0 <= maxLength <= |t| ==> ScrapeSpec(table, url, maxLength, fetch, now).text == t[..maxLength]
  {
  }

  /** A cached empty string is treated as a miss: the page is requested again. */
  lemma ScrapeEmptyCachedIsMiss(table: Table, url: string, maxLength: int, fetch: string -> Page, now: real)
    requires Lookup(table, url) == Some("")
    ensures ScrapeSpec(table, url, maxLength, fetch, now).requested
  {
  }

  /** On a successful miss the full normalised text is stored under url and a
      prefix of it is returned. */
  lemma ScrapeMissStores(table: Table, url: string, maxLength: int, fetch: string -> Page, now: real, raw: string)
    requires !Hit(table, url) && fetch(url) == Page(raw)
    ensures var s := ScrapeSpec(table, url, maxLength, fetch, now);
      && s.requested
      && s.table == Upsert(table, url, Normalize(raw), now)
      && Lookup(s.table, url) == Some(Normalize(raw))
      && s.text == Normalize(raw)[..|s.text|]
      && Clean(Lookup(s.table, url).value)
  {
    NormalizeIsClean(raw);
  }

  /** If fetching or parsing raises, the result is "" and the cache is untouched. */
  lemma ScrapeFailsSoft(table: Table, url: string, maxLength: int, fetch: string -> Page, now: real)
    requires !Hit(table, url) && fetch(url) == Raised
    ensures ScrapeSpec(table, url, maxLength, fetch, now) == Scraped("", table, true)
  {
  }

  /** The returned text is a prefix of the cached or freshly normalised text,
      no longer than max_length when that is not negative. */
  lemma ScrapeReturnsPrefix(table: Table, url: string, maxLength: int, fetch: string -> Page, now: real)
    ensures var s := ScrapeSpec(table, url, maxLength, fetch, now);
      && (0 <= maxLength ==> |s.text| <= maxLength)
      && (s.text == "" || Lookup(s.table, url).Some?)
      && (Lookup(s.table, url).Some? ==> s.text == Lookup(s.table, url).value[..|s.text|])
      && (0 <= maxLength && Lookup(s.table, url).Some? ==>
            |s.text| == var n := |Lookup(s.table, url).value|; if maxLength < n then maxLength else n)
  {
  }

  /** A scrape writes no URL other than its own. */
  lemma ScrapeKeepsOtherUrls(table: Table, url: string, maxLength: int, fetch: string -> Page, now: real, other: string)
    requires other != url
    ensures Lookup(ScrapeSpec(table, url, maxLength, fetch, now).table, other) == Lookup(table, other)
  {
  }

  /** Scraping the same URL twice: when the first call stored text, the second
      is served from the cache without a request. When the page normalised to
      "" (blank page), the second call requests the page again. */
  lemma ScrapeTwice(table: Table, url: string, m1: int, m2: int, fetch: string -> Page, fetch2: string -> Page, t1: real, t2: real)
    ensures var first := ScrapeSpec(table, url, m1, fetch, t1);
      var second := ScrapeSpec(first.table, url, m2, fetch2, t2);
      && (!second.requested <==> Hit(first.table, url))
      && (!Hit(table, url) && fetch(url).Page? ==>
            (second.requested <==> AllSpace(fetch(url).text)))
      && (!second.requested ==> second.table == first.table)
  {
    if !Hit(table, url) && fetch(url).Page? {
      NormalizeEmpty(fetch(url).text);
    }
  }
}
