/**
 * `get_prices_for_query`: locate the product page, request it twice with
 * two filter sets, extract the lowest price from the first page and the
 * median price from the second, and report a missing price as `"N/A"`.
 * Page fetching is a parameter: a function from the filtered URL to the
 * parsed document served for it.
 */
module Pipeline {
  import opened Wrappers
  import opened Text
  import opened Filters
  import opened Dom
  import opened Externals
  import opened Lowest
  import opened Median
  import opened Locator

  /** The triple returned: the lowest price, the median price and the URL of the lowest-price request. */
  datatype Prices = Prices(lowest: string, median: string, url: Url)

  /** The placeholder shown for a missing price. */
  const NotAvailable: string := "N/A"

  /** `price or "N/A"`: a missing or empty price becomes the placeholder, any other is shown as it is. */
  function OrNotAvailable(price: Option<string>): (shown: string)
    ensures shown != ""
    ensures price.Some? && price.value != "" ==> shown == price.value
    ensures price.None? || price.value == "" ==> shown == NotAvailable
  {
    if price.Some? && price.value != "" then price.value else NotAvailable
  }

  /** A price holding the euro sign cannot be mistaken for the placeholder. */
  lemma PlaceholderUnambiguous(price: Option<string>)
    requires price.Some? ==> Euro in price.value
    ensures OrNotAvailable(price) == NotAvailable <==> price.None?
  {
    if price.Some? {
      assert Euro !in NotAvailable;
    }
  }

  /** `url` with the query loop of `add_filters` applied. */
  function WithFilters(url: Url, filters: seq<(string, string)>): Url
  {
    url.(query := ApplyFilters(url.query, filters))
  }

  /** What `get_prices_for_query` returns once `product` is known. */
  function Quote(product: string, lib: Library, fetch: Url -> Document): Prices
    requires PriceSearchSound(lib.priceSearch)
    requires forall u :: WellFormed(fetch(u))
  {
    var url := lib.urlParse(product);
    var lowUrl := WithFilters(url, DefaultFilters);
    Prices(
      OrNotAvailable(LowestPrice(fetch(lowUrl), lib, PriceTrendAnchors)),
      OrNotAvailable(MedianPrice(fetch(WithFilters(url, MedianFilters)))),
      lowUrl)
  }

  /** The lowest price shown is the placeholder exactly when the page yields none. */
  lemma LowestShown(d: Document, lib: Library)
    requires WellFormed(d) && PriceSearchSound(lib.priceSearch)
    ensures OrNotAvailable(LowestPrice(d, lib, PriceTrendAnchors)) == NotAvailable <==>
      LowestPrice(d, lib, PriceTrendAnchors).None?
  {
    var low := LowestPrice(d, lib, PriceTrendAnchors);
    if low.Some? {
      LowestPriceShape(d, lib, PriceTrendAnchors);
      assert low.value[|low.value| - 1] == Euro;
    }
    PlaceholderUnambiguous(low);
  }

  /** The median price shown is the placeholder exactly when the page yields none. */
  lemma MedianShown(d: Document)
    requires WellFormed(d)
    ensures OrNotAvailable(MedianPrice(d)) == NotAvailable <==> MedianPrice(d).None?
  {
    if MedianPrice(d).Some? {
      MedianPriceShape(d);
    }
    PlaceholderUnambiguous(MedianPrice(d));
  }

  /**
   * Neither reported price is empty; each is the placeholder exactly when
   * its extractor found nothing; the reported URL carries the default
   * filters, each as a one-element list, and every other parameter of the
   * product URL unchanged.
   */
  lemma QuoteShape(product: string, lib: Library, fetch: Url -> Document)
    requires Sound(lib)
    requires forall u :: WellFormed(fetch(u))
    ensures var q := Quote(product, lib, fetch);
      var url := lib.urlParse(product);
      && q.lowest != "" && q.median != ""
      && (q.lowest == NotAvailable <==> LowestPrice(fetch(q.url), lib, PriceTrendAnchors).None?)
      && (q.median == NotAvailable <==> MedianPrice(fetch(WithFilters(url, MedianFilters))).None?)
      && q.url.query.values == url.query.values + Overrides(DefaultFilters)
  {
    var url := lib.urlParse(product);
    var q := Quote(product, lib, fetch);
    LowestShown(fetch(q.url), lib);
    MedianShown(fetch(WithFilters(url, MedianFilters)));
    ApplyFiltersValues(url.query, DefaultFilters);
  }

  /** The two requests and extractions of `get_prices_for_query` (app.py:144-155) for a located product page. */
  method QuoteProduct(product: string, lib: Library, fetch: Url -> Document) returns (prices: Prices)
    requires Sound(lib)
    requires forall u :: WellFormed(fetch(u))
    ensures prices == Quote(product, lib, fetch)
  {
    FilterSetsDistinct();
    var url := lib.urlParse(product);
    var filtered := AddFilters(url, DefaultFilters);
    var lowest := ExtractLowestPrice(fetch(filtered), lib);
    var medianUrl := AddFilters(url, MedianFilters);
    var median := MedianPrice(fetch(medianUrl));
    prices := Prices(OrNotAvailable(lowest), OrNotAvailable(median), filtered);
  }

  /**
   * `get_prices_for_query` (app.py:141-155): a located product yields its
   * quote; an error of `find_product_url` is passed on unchanged.
   */
  method GetPricesForQuery(cardId: string, r: SearchResponse, lib: Library, fetch: Url -> Document)
    returns (result: Result<Prices, LocateError>)
    requires Sound(lib)
    requires forall u :: WellFormed(fetch(u))
    ensures var located := Located(cardId, r, lib.urlJoin);
      && (located.Ok? ==> result == Ok(Quote(located.value, lib, fetch)))
      && (located.Err? ==> result == Err(located.error))
    ensures Contains(r.finalUrl, ProductPath) ==> result == Ok(Quote(r.finalUrl, lib, fetch))
    ensures !Contains(r.finalUrl, ProductPath) && r.status == 403 ==> result == Err(Blocked)
    ensures !Contains(r.finalUrl, ProductPath) && r.status != 403 && IsErrorStatus(r.status) ==>
      result == Err(HttpError(r.status))
    ensures !Contains(r.finalUrl, ProductPath) && r.status != 403 && !IsErrorStatus(r.status) ==>
      (result.Ok? <==> exists k :: 0 <= k < |ResultSelectors| && Usable(r.select(ResultSelectors[k])))
    ensures !Contains(r.finalUrl, ProductPath) && r.status != 403 && !IsErrorStatus(r.status) && result.Ok? ==>
      exists k :: 0 <= k < |ResultSelectors| && Usable(r.select(ResultSelectors[k])) &&
        result == Ok(Quote(lib.urlJoin(r.select(ResultSelectors[k]).value), lib, fetch)) &&
        forall l :: 0 <= l < k ==> !Usable(r.select(ResultSelectors[l]))
    ensures !Contains(r.finalUrl, ProductPath) && r.status != 403 && !IsErrorStatus(r.status) && result.Err? ==>
      result == Err(NotFound(cardId))
    ensures result.Ok? ==> result.value.lowest != "" && result.value.median != ""
  {
    LocatedDecision(cardId, r, lib.urlJoin);
    var located := FindProductUrl(cardId, r, lib.urlJoin);
    if located.Err? {
      return Err(located.error);
    }
    var prices := QuoteProduct(located.value, lib, fetch);
    QuoteShape(located.value, lib, fetch);
    return Ok(prices);
  }
}
