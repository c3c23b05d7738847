# Content fetching of the research assistant, in Dafny

This project models the content-fetching side of the research assistant
(joakimengerstam/llm-agent-research) and proves properties of the model:

- **the URL→text cache** (`app/db/cache.py`): a SQLite table keyed by URL,
  read by `get` and written by `set` with `INSERT OR REPLACE`. Here it is the
  class `DbCache.Cache` with a `map` from URL to `Row(content, timestamp)`.
  The clock is a parameter.
- **the page scraper** (`app/tools/web_scrape_tool.py`): `scrape` serves a
  prefix of non-empty cached text. On a miss it normalises the page's
  extracted text, stores all of it, and returns a prefix. Any exception makes
  it return `""`. This is `WebScrape.WebScrapeTool.Scrape`, specified by the
  function `WebScrape.ScrapeSpec`. The whitespace normalisation is
  `WebScrape.Normalize`. It is built from models of Python's `str.strip`,
  `str.splitlines`, `str.split("  ")` and `" ".join` (module `PyStrings`).
- **the web search tool** (`app/tools/web_search_tool.py`): a non-empty
  Brave key selects the Brave API, and an empty one selects DuckDuckGo's HTML
  page. `_brave_search` maps the API's items. `_duckduckgo_search` maps the
  `.result` blocks and skips blocks without a title. See `WebSearch.Search`,
  `WebSearch.BraveSearch` and `WebSearch.DuckDuckGoSearch`, each with its
  specification function.
- **`_strip_think_tags`** (`app/llm/openai_client.py`): removes every
  non-greedy `<think>…</think>` span, then strips whitespace. This is
  `OpenAiClient.StripThinkTags`.

Whitespace is Python's `str.isspace` set. Line boundaries are those of
`str.splitlines`, where `"\r\n"` counts as one boundary. Slicing `s[:n]`
follows Python, including a negative `n` (`PyStrings.SliceTo`).

The network and the HTML library are inputs:
- a page fetch is a function from URL to `Page(text)` (the output of
  `soup.get_text()` after the non-content tags are removed) or `Raised`;
- the Brave API is a function from `(query, count)` to the decoded JSON, or
  `Raised`;
- DuckDuckGo is a function from the query to the parsed `.result` blocks, or
  `Raised`.

The Brave key is a parameter of `Search`, and it is read on every call.

A cached `""` counts as a miss, because `if cached:` is false for an empty
string. `scrape` then requests the page again and returns a prefix of the fresh
normalised text. That result is `""` only when the fetch raises, the page is
blank, or `max_length` cuts the text to nothing: `max_length` is 0, or it is
negative with `-max_length ≥ len(text)` (`text[:max_length]` at
`web_scrape_tool.py:48`). A blank page normalises to `""`, which is stored, so every later scrape
of that URL requests it again. A second scrape of an unchanged page is
therefore not always served from the cache. `WebScrape.ScrapeTwice` states the
exact condition.

## Model

| member | source | states |
|---|---|---|
| `DbCache.Lookup` | app/db/cache.py:24-27 | `get` finds a value exactly when a row for the URL exists, and the value is that row's content |
| `DbCache.Upsert` | app/db/cache.py:29-33 | `INSERT OR REPLACE` adds the URL to the keys, makes its row (content, now) and leaves every other row as it was |
| `DbCache.GetAfterSet` | app/db/cache.py:24-34 | after `set(u, c)`, `get(u)` returns exactly `c`, and the stored timestamp is the time of that call |
| `DbCache.SetKeepsOthers` | app/db/cache.py:29-34 | `set(u, c)` leaves the entry of every other URL unchanged |
| `DbCache.SetReplacesRow` | app/db/cache.py:17-31 | setting a URL that is already present replaces its row: the row count grows only for a new URL |
| `DbCache.LastWriteWins` | app/db/cache.py:29-33 | two sets of one URL leave a single row with the later content and timestamp |
| `DbCache.GetNeverSet` | app/db/cache.py:25-27 | `get` on a URL that was never set returns None |
| `DbCache.Cache.constructor` | app/db/cache.py:13-22 | opening the cache keeps the rows the table already holds |
| `DbCache.Cache.Get` | app/db/cache.py:24-27 | `get` returns the stored content or None and changes nothing |
| `DbCache.Cache.Set` | app/db/cache.py:29-34 | `set` upserts the URL's row with the given content and time, and nothing else changes |
| `PyStrings.IsSpace` | app/tools/web_scrape_tool.py:41-42 | the characters `str.isspace` accepts, which `str.strip` removes: ASCII space, `\t` to `\r`, the separators U+001C to U+001F, U+0085, U+00A0 and the Unicode space separators |
| `PyStrings.IsLineBreak` | app/tools/web_scrape_tool.py:41 | the characters at which `str.splitlines` ends a line: `\n` to `\r`, U+001C to U+001E, U+0085, U+2028 and U+2029 (`\r\n` counts as one boundary) |
| `PyStrings.Strip` | app/tools/web_scrape_tool.py:41-42 | `str.strip` returns the part of the string between its leading and trailing whitespace, with no whitespace at either end |
| `PyStrings.StripKeepsNonSpace` | app/tools/web_scrape_tool.py:41-42 | `str.strip` removes whitespace only |
| `PyStrings.StripStripped` | app/tools/web_scrape_tool.py:41-42 | `str.strip` leaves stripped text unchanged |
| `PyStrings.SliceTo` | app/tools/web_scrape_tool.py:22 | `s[:n]` is the prefix of `s` with exactly min(n, len(s)) characters for n ≥ 0 and max(len(s) + n, 0) for n < 0 |
| `PyStrings.SplitLines` | app/tools/web_scrape_tool.py:41 | `text.splitlines()`: the lines in order, without their boundaries; `""` has no lines and a final boundary does not start an empty line |
| `PyStrings.SplitLinesNoBreak` | app/tools/web_scrape_tool.py:41 | no line that `str.splitlines` returns contains a line boundary |
| `PyStrings.SplitLinesKeepsNonSpace` | app/tools/web_scrape_tool.py:41 | `str.splitlines` removes only whitespace: the non-whitespace characters are kept in order |
| `PyStrings.SplitLinesRoundTrip` | app/tools/web_scrape_tool.py:41 | putting the removed boundaries back between the lines of `str.splitlines` gives the text again, so exactly the boundaries are removed |
| `PyStrings.LineBoundariesShape` | app/tools/web_scrape_tool.py:41 | each boundary `str.splitlines` removes is `"\r\n"` or one boundary character |
| `PyStrings.LineBoundariesFewer` | app/tools/web_scrape_tool.py:41 | `str.splitlines` removes at most one boundary per line it returns |
| `PyStrings.SplitOnDoubleSpace` | app/tools/web_scrape_tool.py:42 | `line.split("  ")`: the pieces between non-overlapping occurrences of two spaces, found left to right; always at least one piece |
| `PyStrings.SplitOnDoubleSpaceClean` | app/tools/web_scrape_tool.py:42 | no piece of `split("  ")` has two spaces in a row, and pieces of a single line are single lines |
| `PyStrings.SplitOnDoubleSpaceKeepsNonSpace` | app/tools/web_scrape_tool.py:42 | `split("  ")` removes only whitespace: the non-whitespace characters are kept in order |
| `PyStrings.SplitOnDoubleSpaceJoin` | app/tools/web_scrape_tool.py:42 | `"  ".join(s.split("  ")) == s`: the split removes exactly the two-space separators |
| `PyStrings.Join` | app/tools/web_scrape_tool.py:43 | `sep.join(ss)`: the strings in order with `sep` between neighbours; `""` for no strings |
| `PyStrings.JoinSpaceKeepsNonSpace` | app/tools/web_scrape_tool.py:43 | `' '.join` adds only whitespace: the non-whitespace characters of the pieces are kept in order |
| `WebScrape.Normalize` | app/tools/web_scrape_tool.py:41-43 | the clean-up: split into lines, strip each line, split it on two spaces, strip each piece, drop empty pieces and join the rest with one space |
| `WebScrape.JoinWordsClean` | app/tools/web_scrape_tool.py:43 | joining non-empty clean chunks (stripped, single-line, no two spaces in a row) with one space gives clean text, which is empty only when there are no chunks |
| `WebScrape.NormalizeIsClean` | app/tools/web_scrape_tool.py:41-43 | normalised text has no leading or trailing whitespace, no line boundary and no two spaces in a row |
| `WebScrape.NormalizeKeepsNonSpace` | app/tools/web_scrape_tool.py:41-43 | normalisation changes only whitespace: every other character of the page text is kept, in order |
| `WebScrape.NormalizeEmpty` | app/tools/web_scrape_tool.py:41-43 | empty or all-whitespace text normalises to `""`, and no other text does |
| `WebScrape.NormalizeClean` | app/tools/web_scrape_tool.py:41-43 | text that is already clean is returned unchanged |
| `WebScrape.NormalizeFixedPoints` | app/tools/web_scrape_tool.py:41-43 | the texts that normalisation leaves unchanged are exactly the clean ones |
| `WebScrape.NormalizeIdempotent` | app/tools/web_scrape_tool.py:41-43 | normalising twice gives the same text as normalising once |
| `WebScrape.Hit` | app/tools/web_scrape_tool.py:19-20 | `if cached:` holds only for a stored, non-empty string |
| `WebScrape.ScrapeSpec` | app/tools/web_scrape_tool.py:17-51 | `scrape` on a given cache table, page and clock: a hit returns a prefix of the cached text without a request; otherwise the page is requested, a raise gives `""` and no write, and a page has its normalised text stored and a prefix of it returned |
| `WebScrape.WebScrapeTool.constructor` | app/tools/web_scrape_tool.py:14-15 | the scraper holds the cache it reads and fills |
| `WebScrape.WebScrapeTool.Scrape` | app/tools/web_scrape_tool.py:17-51 | the returned text, the cache afterwards and whether a request was made are those of `ScrapeSpec` for the cache before the call |
| `WebScrape.ScrapeHit` | app/tools/web_scrape_tool.py:19-22 | a hit on non-empty cached text `t` returns `t[:max_length]`, exactly the first `max_length` characters when `0 ≤ max_length ≤ len(t)`, makes no request and writes nothing |
| `WebScrape.ScrapeEmptyCachedIsMiss` | app/tools/web_scrape_tool.py:20 | a cached empty string counts as a miss, so the page is requested |
| `WebScrape.ScrapeMissStores` | app/tools/web_scrape_tool.py:24-48 | on a successful miss, the full normalised (clean) text is stored under the URL, and the result is a prefix of it |
| `WebScrape.ScrapeFailsSoft` | app/tools/web_scrape_tool.py:24-51 | if fetching or parsing raises, the result is `""` and the cache is not written |
| `WebScrape.ScrapeReturnsPrefix` | app/tools/web_scrape_tool.py:22-48 | the result is a prefix of the text now cached for the URL; for a non-negative `max_length` it has exactly min(max_length, len(cached)) characters |
| `WebScrape.ScrapeKeepsOtherUrls` | app/tools/web_scrape_tool.py:19-46 | a scrape writes only its own URL's entry |
| `WebScrape.ScrapeTwice` | app/tools/web_scrape_tool.py:19-46 | a second scrape of a URL is served from the cache exactly when the first left non-empty text there; after a successful fetch, it requests again exactly when the page was all whitespace |
| `WebSearch.Field` | app/tools/web_search_tool.py:44-46 | `item.get(key, "")`: the value under the key, or `""` when it is absent |
| `WebSearch.BraveItems` | app/tools/web_search_tool.py:42 | `data.get("web", {}).get("results", [])`: the result items, or none when `web` or `results` is missing |
| `WebSearch.FromBraveItem` | app/tools/web_search_tool.py:43-47 | an item becomes a result with its `title`, `url` and `description`, and no content |
| `WebSearch.BraveSpec` | app/tools/web_search_tool.py:39-48 | `_brave_search` on the API's answer: an exception propagates, otherwise one result per item of the first `num_results` items, in order |
| `WebSearch.BraveSearch` | app/tools/web_search_tool.py:32-48 | an API exception propagates; otherwise the result is one `SearchResult` per item of the first `num_results` items of `web.results`, in order |
| `WebSearch.BraveOrderAndBound` | app/tools/web_search_tool.py:42-47 | Brave results follow the API's item order, one per item, and for `num_results ≥ 0` there are exactly min(num_results, number of items) of them |
| `WebSearch.BraveDefaults` | app/tools/web_search_tool.py:44-46 | a missing `title`, `url` or `description` becomes `""`, and a present one is copied |
| `WebSearch.BraveMissingResults` | app/tools/web_search_tool.py:42 | a body without `web`, or a `web` without `results`, gives an empty list |
| `WebSearch.FromBlock` | app/tools/web_search_tool.py:66-71 | a titled block becomes a result with the title text, the `href` or `""`, and the snippet text or `""` |
| `WebSearch.DuckDuckGoMapped` | app/tools/web_search_tool.py:62-71 | the results of the blocks in order, one per block with a title and none for a block without |
| `WebSearch.DuckDuckGoSpec` | app/tools/web_search_tool.py:59-73 | `_duckduckgo_search` on the parsed page: an exception propagates, otherwise the mapping of the first `num_results` blocks |
| `WebSearch.DuckDuckGoConcat` | app/tools/web_search_tool.py:62-71 | block mapping distributes over concatenation, so results follow block order |
| `WebSearch.DuckDuckGoSearch` | app/tools/web_search_tool.py:50-73 | a request or parse exception propagates; otherwise the result is the mapping of the first `num_results` blocks |
| `WebSearch.DuckDuckGoLength` | app/tools/web_search_tool.py:62-71 | blocks without a title are skipped: never more results than blocks, and as many as blocks exactly when every block has a title |
| `WebSearch.DuckDuckGoBound` | app/tools/web_search_tool.py:62 | only the first `num_results` blocks are looked at, so a non-negative `num_results` bounds the result count |
| `WebSearch.DuckDuckGoBlock` | app/tools/web_search_tool.py:66-71 | a titled block gives its title text, its href or `""`, and its snippet or `""`; an untitled block gives nothing |
| `WebSearch.DuckDuckGoNoContent` | app/tools/web_search_tool.py:19 | no DuckDuckGo result has content |
| `WebSearch.SearchSpec` | app/tools/web_search_tool.py:25-30 | `search`: `_brave_search` when the key is non-empty, `_duckduckgo_search` otherwise |
| `WebSearch.Search` | app/tools/web_search_tool.py:25-30 | a non-empty key gives the Brave strategy's answer; an empty key gives DuckDuckGo's |
| `WebSearch.SearchUsesOneStrategy` | app/tools/web_search_tool.py:26-30 | with a key, the answer does not depend on DuckDuckGo; without one, it does not depend on the Brave API |
| `WebSearch.SearchResultsShape` | app/tools/web_search_tool.py:19 | under either strategy there are at most `num_results` results for `num_results ≥ 0`, and every result has `content` = None |
| `OpenAiClient.Opens` | app/llm/openai_client.py:80 | the pattern can start matching at i: `<think>` there and a `</think>` somewhere after it |
| `OpenAiClient.SpanAt` | app/llm/openai_client.py:80 | what the lazy pattern matches from i: `<think>`, then text up to the first `</think>` after the opening tag, then that `</think>` |
| `OpenAiClient.FindClose` | app/llm/openai_client.py:80 | the lazy `.*?` stops at the first `</think>` after the opening tag |
| `OpenAiClient.RemoveThinkSpans` | app/llm/openai_client.py:80 | removing spans never makes text longer |
| `OpenAiClient.StripThinkTags` | app/llm/openai_client.py:77-80 | empty input is returned unchanged; the output has no leading or trailing whitespace and is no longer than the input |
| `OpenAiClient.NoSpanKeeps` | app/llm/openai_client.py:80 | with no `<think>` that has a later `</think>`, nothing is removed |
| `OpenAiClient.NoOpenOnlyStrips` | app/llm/openai_client.py:80 | input without `<think>` is only whitespace-stripped |
| `OpenAiClient.RemovesLeftmostSpan` | app/llm/openai_client.py:80 | the leftmost span, from a `<think>` to the first following `</think>`, is removed, and the text before it is kept; matching resumes after the span, so spans do not overlap |
| `OpenAiClient.KeepsUnclosed` | app/llm/openai_client.py:80 | an unclosed `<think>` with no later `</think>` is kept, together with everything after it |
| `OpenAiClient.CloseAvoidsOpen` | app/llm/openai_client.py:80 | a `</think>` never overlaps a `<think>` |
| `OpenAiClient.SpanBodyIsAnyText` | app/llm/openai_client.py:80 | with `DOTALL` a span's body may hold any text, line breaks included: a leading `<think>`, a body with no `</think>` in it, and `</think>` are removed whole, and only the rest is scanned and stripped |

## Left out

- HTTP requests (httpx), redirects, timeouts and headers: each response, or the exception it raised, is an input.
- BeautifulSoup: parsing, removing `script`/`style`/`nav`/`footer`/`header`, `get_text`, and the `.result`, `.result__a` and `.result__snippet` selections. Their results are inputs: the page text, and blocks holding an optional title link and optional snippet text.
- JSON values that are not strings or objects. For example, a `null` `web` would raise on `.get`. A Brave item is a map of its string-valued fields.
- SQLite connection, commit mechanics and storage errors. A failing `cache.get` (outside the `try`) or `cache.set` (inside it) is not modelled.
- The real clock: `Set` and `Scrape` take the current time as a parameter. The Python constructor opens its own `Cache()`; the model's takes an opened one.
- `async`/`await`, and the Rich console messages printed on a cache hit, on a scrape error and when no Brave key is set.
- The default arguments (`max_length = 5000`, `num_results = 5`): callers pass the values explicitly.
- `OpenAIClient.execute_prompt`, the client factories and the Ollama client: remote model calls, wall-clock timing and float token rates.
- The research agent (plan generation, fallback plan, step dispatch, synthesis): `app/agent/research_agent.py` is not part of this model. The CLI, settings and report writing in `app/research_assistant.py` are left out too.
