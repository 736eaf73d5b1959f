# Cardmarket price scraper: a verified model of its core

`app.py` is a small Flask service. It looks up a Pokémon card on Cardmarket
and reports two prices in euros:

- the lowest price of the product page filtered to French, near-mint offers
  from French sellers;
- the median offer of the same page, with the same filters plus
  `sellerType=1`.

This project models the deterministic core of that service in Dafny:

- parsing a `Cookie` header into a dictionary (`Cookies`);
- overwriting query parameters of a product URL (`Filters`);
- the walk up the document tree that finds the price block
  (`Lowest.SmallestCommonAncestor`);
- the anchor-driven extraction of the lowest price, with its document-wide
  fallback (`Lowest`);
- the choice of the lower-median offer row (`Median`);
- the decision order applied to a search response (`Locator`);
- the whole lookup, with the `"N/A"` placeholder for a missing price
  (`Pipeline`).

The parsed HTML page is a flat sequence of nodes in document order (`Dom`).
Each node names its parent by index, and a parent always precedes its
children. So node `c`'s subtree, `get_text(" ", strip=True)`,
`stripped_strings` and `find_all` in document order are all definable
functions, and the ancestor walk terminates because the parent index
decreases.

Four library facilities are passed in as function values in a `Library`
record (`Externals`). Each is a parameter, not a re-implementation:

- Unicode case folding;
- the price regular expression (app.py:25);
- `urljoin`;
- `urlparse` followed by `parse_qs`.

What is assumed of them is stated as predicates:

- a price match is a non-empty slice of the searched string that ends in `€`;
- a parsed query is a dictionary.

The HTTP exchanges are also parameters:

- the search request arrives as a `SearchResponse` record;
- page fetching is a function from the filtered URL to the parsed document.

## Model

| member | source | states |
|---|---|---|
| Text.Strip | app.py:32 | `str.strip()`: the result occurs in the input, has no leading or trailing whitespace, is empty exactly when the input is all whitespace, leaves a stripped string unchanged, and keeps a non-space last character |
| Text.StripTrims | app.py:32 | `strip()` removes whitespace and only whitespace from the two ends: the result is a slice `s[a..b]` with `s[..a]` and `s[b..]` all whitespace |
| Text.StripUnique | app.py:32 | conversely, any slice `s[a..b]` whose two ends are non-space characters and whose outside is all whitespace is the strip, so the cut points are unique |
| Text.TrimsStripped | app.py:115 | a non-empty stripped string obtained by trimming whitespace from a slice is the strip of that slice |
| Text.StripKeeps | app.py:138 | a non-space character such as `€` is in the strip exactly when it is in the string |
| Text.SplitOn | app.py:29 | `str.split(";")`: at least one piece, no piece holds the separator, and joining the pieces with it gives the input back |
| Text.SplitOnJoin | app.py:29 | splitting a join of separator-free pieces gives the pieces back |
| Text.SplitFirst | app.py:31 | `split("=", 1)`: the part before holds no separator, and before + separator + after is the input |
| Text.JoinStripped | app.py:97 | joining non-empty stripped pieces with a separator gives a stripped string, empty exactly when there are no pieces; its first and last characters are the first character of the first piece and the last character of the last piece |
| Text.JoinContains | app.py:97 | every piece occurs in the joined string |
| Text.JoinChars | app.py:97 | every character of the joined string other than the separator is a character of some piece |
| Cookies.CookieName | app.py:31-32 | the name of a kept segment holds no `=`, is stripped and occurs in the segment |
| Cookies.CookieValue | app.py:31-32 | the value of a kept segment is stripped and occurs in the segment |
| Cookies.CookieSplit | app.py:31-32 | a kept segment is cut at its first `=`: the name is the text before it and the value the text after it, each with whitespace, and only whitespace, removed from its two ends |
| Cookies.ParseCookieHeader | app.py:27-33 | the loop builds the dictionary of the `;`-separated segments, and no name holds `=` or `;` and no value holds `;` |
| Cookies.CookiesFromSegments | app.py:28-33 | names and values come from their segments, so they inherit the absence of `;` |
| Cookies.CookieNameKept | app.py:30-32 | a name is in the dictionary exactly when some segment holding `=` carries it |
| Cookies.LastSegmentWins | app.py:32 | the value under a name is that of the last kept segment with that name |
| Cookies.BareSegmentIgnored | app.py:30 | a segment without `=` contributes nothing, wherever it stands |
| Cookies.SegmentRoundTrip | app.py:31-32 | `name=value` splits back into name and value even when the value holds `=` |
| Cookies.HeaderRoundTrip | app.py:27-33 | parsing a header written from a cookie list gives the dictionary of that list, the later entry of a name winning |
| Cookies.SegmentsDenote | app.py:28-33 | the written segments, parsed in order, denote the cookie list |
| Filters.FilterSetsDistinct | app.py:12-16 | the default and median filter sets name each parameter once |
| Filters.Assign | app.py:71 | `query[k] = vs` keeps a dictionary a dictionary and binds `k` to `vs`; every other name keeps its presence and its list; the names keep their order, with `k` appended only when it is new |
| Filters.AddFilters | app.py:67-73 | the loop yields the URL with only its query changed, every filter name bound to the one-element list of its value, and every other name keeping its list |
| Filters.ApplyFiltersValues | app.py:70-71 | the values after the loop are the old dictionary overridden by the filters |
| Filters.ApplyFiltersKeys | app.py:70-71 | the result is a dictionary, old names keep their order, and its names are the old ones plus the filter names |
| Filters.NewNames | app.py:70-71 | the names a filter list adds to a dictionary are exactly its names not already present, each once |
| Filters.ApplyFiltersOrder | app.py:70-72 | the names after the loop are the old names followed by the new filter names in the order the filters first mention them |
| Filters.OverridesAt | app.py:71 | each filter name is overridden with exactly `[v]` |
| Filters.OverridesKeys | app.py:70 | the overridden names are exactly the filter names |
| Filters.ApplyKnownNames | app.py:71 | overriding names already present leaves the name order unchanged |
| Filters.ApplyFiltersIdempotent | app.py:67-73 | applying the same filters twice gives the same query as applying them once |
| Dom.Chain | app.py:96-100 | the ancestor chain starts at the node, steps to the parent each time and strictly decreases, so the walk is finite, and it ends at a node without a parent, where `cur.parent` is `None` |
| Dom.ChainNested | app.py:112 | ancestors of an ancestor are ancestors, so subtrees nest |
| Dom.UnderRoot | app.py:118 | every node of a parsed document lies under the document node |
| Dom.TextsIn | app.py:138 | exactly the text nodes of the subtree, in increasing document order |
| Dom.StrippedOf | app.py:138 | every string kept is non-empty, stripped, and the strip of one of the given text nodes |
| Dom.StrippedOfConcat | app.py:138 | the strings of two runs of text nodes are those of the first run followed by those of the second, so document order is kept |
| Dom.StrippedOfComplete | app.py:138 | every given text node whose strip is non-blank contributes that strip |
| Dom.StrippedStrings | app.py:138 | `stripped_strings` of a node: every string is non-empty and stripped |
| Dom.StrippedStringsOrigin | app.py:138 | each of those strings is the strip of a text node inside the subtree |
| Dom.StrippedStringsComplete | app.py:138 | every text node inside the subtree with a non-blank strip contributes it |
| Dom.GetText | app.py:97 | `get_text(" ", strip=True)` is stripped and empty exactly when the subtree has no non-blank string |
| Dom.GetTextHolds | app.py:97 | the text of a node holds each of its subtree's stripped strings, and apart from spaces only their characters, so a keyword in any string of the subtree occurs in it |
| Lowest.Narrow | app.py:94-101 | the walk's result is on the parent chain and qualifies, no nearer node qualifies, and `None` means no node of the chain qualifies |
| Lowest.SmallestCommonAncestor | app.py:94-101 | the `while` loop returns the nearest qualifying node of the chain, or `None` |
| Lowest.FindAnchor | app.py:106 | `soup.find(string=...)` returns the first text node in document order whose folded string holds the anchor, or `None` when none does |
| Lowest.EuroStrings | app.py:112 | the strings searched are exactly the text nodes under the container holding `€`, in document order |
| Lowest.PriceOf | app.py:113-115 | a stripped match exists exactly when the regex matches the string |
| Lowest.PriceOfShape | app.py:113-115 | a stripped match ends in `€`, is non-empty and stripped, and occurs in the searched string |
| Lowest.PriceOfMatch | app.py:113-115 | a price is `m.group(0).strip()`: the matched span `s[m.start()..m.end()]` with whitespace, and only whitespace, cut from its two ends |
| Lowest.StrippedMatchUnique | app.py:113-115 | a non-empty stripped string that trims the matched span is exactly `Strip` of that span, so the price is determined by the match |
| Lowest.PricesInShape | app.py:111-115 | every collected price has that shape and is the stripped regex match of one of the container's strings |
| Lowest.PricesInStep | app.py:112-115 | each visited string appends its stripped match, if any, to `prices` |
| Lowest.PricesInFirst | app.py:116-121 | when no earlier string matches, the first matching string gives the first price |
| Lowest.PricesInNone | app.py:112-115 | no match means no prices |
| Lowest.FirstPrice | app.py:105-117 | the anchor loop finds no price exactly when every anchor from the current one on yields none |
| Lowest.FirstPriceFrom | app.py:105-117 | when it finds one, the price is the first of the first anchor's list that is non-empty, every earlier list being empty |
| Lowest.FallbackCoversDocument | app.py:118 | the fallback scan covers every text node of the page that holds `€` |
| Lowest.LowestPriceShape | app.py:115-121 | a returned price is non-empty, stripped, ends in `€`, and is the stripped regex match of a text node holding `€` |
| Lowest.LowestPriceAnchorWins | app.py:105-117 | when anchor `i` is the first productive one, the result is its first price, whatever later anchors or the fallback give |
| Lowest.LowestPriceFallback | app.py:118-121 | when no anchor is productive, the result is the match of the first euro string that matches |
| Lowest.NoMatchNoLowestPrice | app.py:122 | when no euro string matches the regex, the result is `None` |
| Lowest.NoEuroNoLowestPrice | app.py:122 | a page without `€` has no lowest price |
| Lowest.CollectPrices | app.py:111-115 | the inner loop builds exactly the list of stripped matches |
| Lowest.PricesForAnchor | app.py:106-115 | one turn of the anchor loop: locate, narrow (or fall back to the parent), collect |
| Lowest.FallbackScan | app.py:118-122 | the fallback loop returns the first stripped match among all euro strings, or `None` |
| Lowest.ScanAnchors | app.py:105-117 | the anchor loop returns the first price of the first productive anchor |
| Lowest.ExtractLowestPrice | app.py:103-122 | the anchors, then the fallback, give `LowestPrice` |
| Median.TableBody | app.py:126-128 | the first `div.table-body` strictly below the document node, in document order; `None` exactly when there is none |
| Median.DirectDivs | app.py:129 | exactly the `div` children of the table, in document order; empty exactly when the table has no `div` child |
| Median.ArticleRows | app.py:131 | exactly the `article-row` divs strictly inside the table, in document order; empty exactly when there is none |
| Median.MedianIndex | app.py:134-136 | for `n >= 1` rows the index lies in `[0, n)` and has as many rows after it as before, or one more |
| Median.MedianIndexUnique | app.py:134-136 | that position is the only one with this balance, so the index is the lower median |
| Median.MedianIndexSmall | app.py:134-136 | for 1 to 5 rows the index is 0, 0, 1, 1, 2 |
| Median.EuroTextsFirst | app.py:138-139 | the list comprehension is empty exactly when no string holds `€`, and otherwise starts with the first such string, stripped |
| Median.EuroTextsConcat | app.py:138 | the euro filter distributes over concatenation, so it keeps order |
| Median.EuroOfStripped | app.py:138 | filtering `stripped_strings` for `€` gives the same list as filtering the raw strings of the text nodes, stripped |
| Median.RowEuroExists | app.py:138-139 | a row has a euro string exactly when one of its text nodes holds `€` |
| Median.RowEuroFirst | app.py:138-139 | a row's first euro string is the strip of its first text node, in document order, holding `€` |
| Median.MedianPrice | app.py:124-139 | `extract_median_price`: `None` without an offers table, and otherwise any price is non-empty, stripped and holds `€` |
| Median.MedianPriceExact | app.py:129-139 | once the table has rows, a price exists exactly when a text node of the lower-median row holds `€`, and it is the strip of the first such node |
| Median.EuroTextsOfStripped | app.py:138 | on strings already stripped, the first euro string is kept as it is |
| Median.MedianNeedsTable | app.py:126-128 | without a `table-body` div below the document node the result is `None` |
| Median.MedianNeedsRows | app.py:129-133 | a table with neither `div` children nor `article-row` descendants gives `None` |
| Median.MedianRowChoice | app.py:129-131 | the direct `div` children are used when there are any, otherwise the `article-row` descendants, and every row lies inside the table |
| Median.RowPriceShape | app.py:138-139 | a row's price is non-empty, stripped, holds `€` and is the stripped content of a text node in the row |
| Median.MedianPriceShape | app.py:124-139 | a median price is non-empty, stripped, holds `€` and comes from a text node inside the offers table |
| Median.NoEuroNoMedianPrice | app.py:138-139 | a page without `€` has no median price |
| Locator.FindProductUrl | app.py:75-92 | the method, with its early returns and selector loop, computes exactly `Located`, whose decision order `LocatedDecision` states |
| Locator.FirstUsable | app.py:84-91 | some selector is usable exactly when the result is present, and then it is the `href` of the first usable selector, none before it being usable |
| Locator.LocatedDecision | app.py:78-92 | a redirect onto a product page wins; then 403 is `Blocked`; then a 4xx/5xx status is `HttpError`; then the joined `href` of the first usable selector, success exactly when one is usable; otherwise `NotFound` with the card id |
| Locator.SelectFirstUsable | app.py:84-91 | the selector loop with its early return yields `FirstUsable` |
| Pipeline.OrNotAvailable | app.py:155 | `price or "N/A"` is never empty, keeps a non-empty price, and turns `None` or `""` into `"N/A"` |
| Pipeline.PlaceholderUnambiguous | app.py:155 | a price holding `€` is never shown as `"N/A"`, so `"N/A"` means no price |
| Pipeline.LowestShown | app.py:146-155 | the lowest price shown is `"N/A"` exactly when the page yields none |
| Pipeline.MedianShown | app.py:153-155 | the median price shown is `"N/A"` exactly when the page yields none |
| Pipeline.QuoteShape | app.py:144-155 | neither reported price is empty, each is `"N/A"` exactly when its extractor found nothing, and the reported URL carries the default filters over the product URL's query |
| Pipeline.QuoteProduct | app.py:144-155 | the two filtered requests and extractions give the quote of the product URL |
| Pipeline.GetPricesForQuery | app.py:141-155 | a located product yields its quote and a locating error is passed on unchanged: a redirect onto a product page yields its quote, 403 yields `Blocked`, an error status yields `HttpError` with that status, otherwise the quote of the joined `href` of the first usable selector, or `NotFound` with the card id when none is usable; every quote has non-empty prices |

## Left out

- `make_session` (app.py:35-65): environment variables, the optional `cloudscraper` import, headers and the cookie jar are configuration and I/O. `parse_cookie_header` is modelled on its own.
- The HTTP requests, `timeout`, and the transport inside `raise_for_status` (app.py:77, 82, 145, 152). The search response is a parameter, and so is the page served for a URL.
- `SEARCH_BASE` and `quote_plus` (app.py:11, 76): the search URL is only an input to the request, which is not modelled.
- The Flask routes, JSON framing and port setup (app.py:158-180).
- Python exceptions are errors in a `Result`: `SystemExit` on 403, `HTTPError` from `raise_for_status`, and `RuntimeError` when nothing is found.
- HTML parsing itself: the document arrives parsed. Comments, CDATA and other special strings are not represented, so every text node counts as a string.
- `class_=` matching is modelled as membership in the element's class list. BeautifulSoup also matches the whole `class` attribute string, which is not modelled.
- Case folding, the price regular expression, `urljoin` and `urlparse`/`parse_qs` are uninterpreted. Only the properties above are assumed of them.
- `parse_qs` drops blank-valued parameters before `add_filters` sees the query. That happens inside the uninterpreted parser.
- `urlencode(..., doseq=True)` and `urlunparse` (app.py:72-73) are not modelled. The URL stays in parsed form, so the string rendering of the filtered URL is not captured.
- `el.parent or el` (app.py:108, 110) is modelled as `el.parent`. A text node of a parsed document always has a parent, so the `or el` branch cannot be taken.
