/** app/tools/web_search_tool.py: search through the Brave API when a key is
    configured, through DuckDuckGo's HTML page otherwise. The HTTP requests and
    the decoding of their bodies (JSON, or HTML selected with BeautifulSoup)
    are inputs: functions from the request to what came back. */
module WebSearch {
  import opened Wrappers
  import opened PyStrings

  /** SearchResult: content stays None until a page has been fetched for it. */
  datatype SearchResult = SearchResult(title: string, url: string, snippet: string, content: Option<string>)

  /** The decoded body of an HTTP response, or the exception raised while
      requesting or decoding it; search does not catch it. */
  datatype Response<T> = Received(body: T) | Raised

  // ---------------------------------------------------------------------------
  // Brave API

  /** One object of web.results, reduced to its string-valued fields. */
  type BraveItem = map<string, string>

  /** The "web" object of the JSON body, whose "results" may be absent. */
  datatype BraveWeb = BraveWeb(results: Option<seq<BraveItem>>)

  /** The JSON body, whose "web" may be absent. */
  datatype BraveData = BraveData(web: Option<BraveWeb>)

  /** item.get(key, "") */
  function Field(item: BraveItem, key: string): string {
    if key in item then item[key] else ""
  }

  /** data.get("web", {}).get("results", []) */
  function BraveItems(data: BraveData): seq<BraveItem> {
    match data.web
    case None => []
    case Some(web) => if web.results.Some? then web.results.value else []
  }

  function FromBraveItem(item: BraveItem): SearchResult {
    SearchResult(Field(item, "title"), Field(item, "url"), Field(item, "description"), None)
  }

  /** One result per item, in the API's order. */
  function BraveMapped(items: seq<BraveItem>): seq<SearchResult> {
    seq(|items|, i requires 0 <= i < |items| => FromBraveItem(items[i]))
  }

  /** _brave_search as a function of the API's answer. */
  function BraveSpec(response: Response<BraveData>, numResults: int): Response<seq<SearchResult>> {
    match response
    case Raised => Raised
    case Received(data) => Received(BraveMapped(SliceTo(BraveItems(data), numResults)))
  }

  /** _brave_search(query, num_results): ask the API for num_results results
      and map the first num_results items it returns. */
  method BraveSearch(query: string, numResults: int, api: (string, int) -> Response<BraveData>)
    returns (r: Response<seq<SearchResult>>)
    ensures r.Raised? <==> api(query, numResults).Raised?
    ensures r.Received? ==>
      var items := SliceTo(BraveItems(api(query, numResults).body), numResults);
      && |r.body| == |items|
      && forall i :: 0 <= i < |items| ==> r.body[i] == FromBraveItem(items[i])
    ensures r == BraveSpec(api(query, numResults), numResults)
  {
    var response := api(query, numResults);
    if response.Raised? {
      return Raised;
    }
    var items := SliceTo(BraveItems(response.body), numResults);
    var results := [];
    for i := 0 to |items|
      invariant |results| == i
      invariant forall j :: 0 <= j < i ==> results[j] == FromBraveItem(items[j])
    {
      results := results + [FromBraveItem(items[i])];
    }
    assert results == BraveMapped(items);
    r := Received(results);
  }

  /** Results keep the API's item order, and there are at most num_results of them. */
  lemma BraveOrderAndBound(data: BraveData, numResults: int)
    ensures var rs := BraveSpec(Received(data), numResults).body;
      && |rs| <= |BraveItems(data)|
      && (0 <= numResults ==> |rs| == if numResults < |BraveItems(data)| then numResults else |BraveItems(data)|)
      && forall i :: 0 <= i < |rs| ==> rs[i] == FromBraveItem(BraveItems(data)[i])
  {
    var items := SliceTo(BraveItems(data), numResults);
    assert |BraveMapped(items)| == |items|;
    forall i | 0 <= i < |items| ensures BraveMapped(items)[i] == FromBraveItem(BraveItems(data)[i]) {
      assert items[i] == BraveItems(data)[..|items|][i];
    }
  }

  /** A missing title, url or description becomes "". */
  lemma BraveDefaults(item: BraveItem)
    ensures "title" !in item ==> FromBraveItem(item).title == ""
    ensures "url" !in item ==> FromBraveItem(item).url == ""
    ensures "description" !in item ==> FromBraveItem(item).snippet == ""
    ensures "title" in item ==> FromBraveItem(item).title == item["title"]
    ensures "url" in item ==> FromBraveItem(item).url == item["url"]
    ensures "description" in item ==> FromBraveItem(item).snippet == item["description"]
  {
  }

  /** A body without "web", or a "web" without "results", yields no results. */
  lemma BraveMissingResults(data: BraveData, numResults: int)
    requires data.web.None? || data.web.value.results.None?
    ensures BraveSpec(Received(data), numResults) == Received([])
  {
    assert SliceTo(BraveItems(data), numResults) == [];
    assert |BraveMapped([])| == 0;
  }

  // ---------------------------------------------------------------------------
  // DuckDuckGo HTML fallback

  /** The first `.result__a` element of a block: its text (get_text(strip=True))
      and its href attribute if it has one. */
  datatype TitleLink = TitleLink(text: string, href: Option<string>)

  /** One `.result` element: its `.result__a` and the text of its
      `.result__snippet`, each absent when the block has none. */
  datatype ResultBlock = ResultBlock(title: Option<TitleLink>, snippet: Option<string>)

  function FromBlock(link: TitleLink, snippet: Option<string>): SearchResult {
    SearchResult(
      link.text,
      if link.href.Some? then link.href.value else "",
      if snippet.Some? then snippet.value else "",
      None)
  }

  /** What one block contributes: one result, or nothing when it has no title. */
  function BlockResults(block: ResultBlock): seq<SearchResult> {
    if block.title.Some? then [FromBlock(block.title.value, block.snippet)] else []
  }

  /** The results of the given blocks, in block order. */
  function DuckDuckGoMapped(blocks: seq<ResultBlock>): seq<SearchResult> {
    if blocks == [] then [] else BlockResults(blocks[0]) + DuckDuckGoMapped(blocks[1..])
  }

  /** _duckduckgo_search as a function of the parsed page. */
  function DuckDuckGoSpec(response: Response<seq<ResultBlock>>, numResults: int): Response<seq<SearchResult>> {
    match response
    case Raised => Raised
    case Received(blocks) => Received(DuckDuckGoMapped(SliceTo(blocks, numResults)))
  }

  /** Mapping blocks is compositional: order follows block order. */
  lemma {:induction false} DuckDuckGoConcat(a: seq<ResultBlock>, b: seq<ResultBlock>)
    ensures DuckDuckGoMapped(a + b) == DuckDuckGoMapped(a) + DuckDuckGoMapped(b)
  {
    if a == [] {
      assert a + b == b;
    } else {
      assert (a + b)[1..] == a[1..] + b;
      DuckDuckGoConcat(a[1..], b);
    }
  }

  /** _duckduckgo_search(query, num_results): look at the first num_results
      `.result` blocks and keep those that have a title element. */
  method DuckDuckGoSearch(query: string, numResults: int, html: string -> Response<seq<ResultBlock>>)
    returns (r: Response<seq<SearchResult>>)
    ensures r.Raised? <==> html(query).Raised?
    ensures r.Received? ==> r.body == DuckDuckGoMapped(SliceTo(html(query).body, numResults))
    ensures r == DuckDuckGoSpec(html(query), numResults)
  {
    var response := html(query);
    if response.Raised? {
      return Raised;
    }
    var blocks := SliceTo(response.body, numResults);
    var results := [];
    for i := 0 to |blocks|
      invariant results == DuckDuckGoMapped(blocks[..i])
    {
      var block := blocks[i];
      if block.title.Some? {
        var link := block.title.value;
        results := results + [SearchResult(
          link.text,
          if link.href.Some? then link.href.value else "",
          if block.snippet.Some? then block.snippet.value else "",
          None)];
      }
      assert blocks[..i + 1] == blocks[..i] + [block];
      DuckDuckGoConcat(blocks[..i], [block]);
      assert DuckDuckGoMapped([block]) == BlockResults(block) + DuckDuckGoMapped([]);
    }
    assert blocks[..|blocks|] == blocks;
    r := Received(results);
  }

  /** Blocks without a title are skipped, so there are never more results than
      blocks looked at, and exactly as many when every block has a title. */
  lemma {:induction false} DuckDuckGoLength(blocks: seq<ResultBlock>)
    ensures |DuckDuckGoMapped(blocks)| <= |blocks|
    ensures |DuckDuckGoMapped(blocks)| == |blocks| <==> forall i :: 0 <= i < |blocks| ==> blocks[i].title.Some?
  {
    if blocks != [] {
      DuckDuckGoLength(blocks[1..]);
      if forall i :: 0 <= i < |blocks[1..]| ==> blocks[1..][i].title.Some? {
        if blocks[0].title.Some? {
          forall i | 0 <= i < |blocks| ensures blocks[i].title.Some? {
            if i > 0 { assert blocks[i] == blocks[1..][i - 1]; }
          }
        }
      } else {
        var i :| 0 <= i < |blocks[1..]| && blocks[1..][i].title.None?;
        assert blocks[i + 1].title.None?;
      }
    }
  }

  /** Only the first num_results blocks are looked at, so a non-negative
      num_results bounds the number of results. */
  lemma DuckDuckGoBound(blocks: seq<ResultBlock>, numResults: int)
    ensures var rs := DuckDuckGoSpec(Received(blocks), numResults).body;
      && |rs| <= |blocks|
      && (0 <= numResults ==> |rs| <= numResults)
  {
    DuckDuckGoLength(SliceTo(blocks, numResults));
  }

  /** A titled block gives its title's text, its href or "", its snippet or ""
      and no content; an untitled block gives nothing. */
  lemma DuckDuckGoBlock(block: ResultBlock)
    ensures block.title.None? ==> DuckDuckGoMapped([block]) == []
    ensures block.title.Some? ==>
      var r := FromBlock(block.title.value, block.snippet);
      && DuckDuckGoMapped([block]) == [r]
      && r.title == block.title.value.text
      && (block.title.value.href.None? ==> r.url == "")
      && (block.title.value.href.Some? ==> r.url == block.title.value.href.value)
      && (block.snippet.None? ==> r.snippet == "")
      && (block.snippet.Some? ==> r.snippet == block.snippet.value)
      && r.content.None?
  {
    assert DuckDuckGoMapped([block]) == BlockResults(block) + DuckDuckGoMapped([]);
  }

  /** Every DuckDuckGo result has no content yet. */
  lemma {:induction false} DuckDuckGoNoContent(blocks: seq<ResultBlock>)
    ensures forall i :: 0 <= i < |DuckDuckGoMapped(blocks)| ==> DuckDuckGoMapped(blocks)[i].content.None?
  {
    if blocks != [] {
      DuckDuckGoNoContent(blocks[1..]);
      var head: seq<SearchResult> := BlockResults(blocks[0]);
      var tail: seq<SearchResult> := DuckDuckGoMapped(blocks[1..]);
      assert DuckDuckGoMapped(blocks) == head + tail;
      forall i | 0 <= i < |head + tail| ensures (head + tail)[i].content.None? {
        if i >= |head| { assert (head + tail)[i] == tail[i - |head|]; }
      }
    }
  }

  // ---------------------------------------------------------------------------
  // search

  /** search's answer as a function of the key and of both providers. */
  function SearchSpec(query: string, numResults: int, braveApiKey: string,
                      api: (string, int) -> Response<BraveData>,
                      html: string -> Response<seq<ResultBlock>>): Response<seq<SearchResult>> {
    if braveApiKey != "" then BraveSpec(api(query, numResults), numResults)
    else DuckDuckGoSpec(html(query), numResults)
  }

  /** search(query, num_results): the Brave API when a key is set, DuckDuckGo
      otherwise; the key is read on every call. */
  method Search(query: string, numResults: int, braveApiKey: string,
                api: (string, int) -> Response<BraveData>,
                html: string -> Response<seq<ResultBlock>>)
    returns (r: Response<seq<SearchResult>>)
    ensures braveApiKey != "" ==> r == BraveSpec(api(query, numResults), numResults)
    ensures braveApiKey == "" ==> r == DuckDuckGoSpec(html(query), numResults)
  {
    if braveApiKey != "" {
      r := BraveSearch(query, numResults, api);
    } else {
      r := DuckDuckGoSearch(query, numResults, html);
    }
  }

  /** With a key, the answer does not depend on DuckDuckGo at all; without
      one, it does not depend on the Brave API at all. */
  lemma SearchUsesOneStrategy(query: string, numResults: int, braveApiKey: string,
                              api: (string, int) -> Response<BraveData>, api2: (string, int) -> Response<BraveData>,
                              html: string -> Response<seq<ResultBlock>>, html2: string -> Response<seq<ResultBlock>>)
    ensures braveApiKey != "" ==>
      SearchSpec(query, numResults, braveApiKey, api, html) == SearchSpec(query, numResults, braveApiKey, api, html2)
    ensures braveApiKey == "" ==>
      SearchSpec(query, numResults, braveApiKey, api, html) == SearchSpec(query, numResults, braveApiKey, api2, html)
  {
  }

  /** Whichever strategy runs, there are at most num_results results (for a
      non-negative num_results) and none has content. */
  lemma SearchResultsShape(query: string, numResults: int, braveApiKey: string,
                           api: (string, int) -> Response<BraveData>,
                           html: string -> Response<seq<ResultBlock>>)
    ensures var r := SearchSpec(query, numResults, braveApiKey, api, html);
      r.Received? ==>
        && (0 <= numResults ==> |r.body| <= numResults)
        && forall i :: 0 <= i < |r.body| ==> r.body[i].content.None?
  {
    if braveApiKey == "" && html(query).Received? {
      DuckDuckGoBound(html(query).body, numResults);
      DuckDuckGoNoContent(SliceTo(html(query).body, numResults));
    }
  }
}
