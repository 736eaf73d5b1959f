/**
 * `find_product_url`: what the search response decides. The HTTP exchange
 * itself is not modelled; the response arrives as a record holding the
 * address reached after redirects, the status code, and the `href` that
 * `select_one` finds for each CSS selector.
 */
module Locator {
  import opened Wrappers
  import opened Text

  /** The path fragment that marks a single-card product page. */
  const ProductPath: string := "/Products/Singles/"

  /** The selectors tried on a search-results page (app.py:84-88), most specific first. */
  const ResultSelectors: seq<string> := [
    "table#ProductsTable a[href*='/Products/Singles/']",
    "div#ProductsTable a[href*='/Products/Singles/']",
    "a[href*='/Products/Singles/']"
  ]

  /**
   * The search response: `r.url`, `r.status_code`, and for a selector the
   * `href` attribute of the first element it matches (`None` when nothing
   * matches or the element has no `href`).
   */
  datatype SearchResponse = SearchResponse(finalUrl: string, status: int, select: string -> Option<string>)

  /** Why no product page was found: the 403 exit, an HTTP error status, or an empty result list. */
  datatype LocateError = Blocked | HttpError(status: int) | NotFound(cardId: string)

  /** `raise_for_status`: the client and server error range. */
  predicate IsErrorStatus(status: int) {
    400 <= status < 600
  }

  /** `a and a.get("href")`: an element was found and its `href` is non-empty. */
  predicate Usable(href: Option<string>) {
    href.Some? && href.value != ""
  }

  /**
   * The first selector, in order, whose `select_one` gives a usable `href`,
   * and that `href`; `None` when no selector gives one.
   */
  function FirstUsable(select: string -> Option<string>, selectors: seq<string>): (href: Option<string>)
    ensures href.Some? <==> exists k :: 0 <= k < |selectors| && Usable(select(selectors[k]))
    ensures href.Some? ==>
      exists k :: (0 <= k < |selectors| && Usable(select(selectors[k])) && href == select(selectors[k]) &&
                   forall l :: 0 <= l < k ==> !Usable(select(selectors[l])))
  {
    if selectors == [] then None
    else if Usable(select(selectors[0])) then select(selectors[0])
    else
      var rest := FirstUsable(select, selectors[1..]);
      assert forall k :: 1 <= k < |selectors| ==> selectors[k] == selectors[1..][k - 1];
      rest
  }

  /**
   * What `find_product_url` (app.py:75-92) decides once the response is in:
   * a redirect onto a product page wins; otherwise 403 means blocked, an
   * error status is raised, and the first usable `href` of the result
   * selectors is joined onto the site root; when none is usable nothing is
   * found.
   */
  function Located(cardId: string, r: SearchResponse, urlJoin: string -> string): Result<string, LocateError>
  {
    if Contains(r.finalUrl, ProductPath) then Ok(r.finalUrl)
    else if r.status == 403 then Err(Blocked)
    else if IsErrorStatus(r.status) then Err(HttpError(r.status))
    else match FirstUsable(r.select, ResultSelectors)
      case Some(href) => Ok(urlJoin(href))
      case None => Err(NotFound(cardId))
  }

  /** The decision order of `find_product_url`, case by case. */
  lemma LocatedDecision(cardId: string, r: SearchResponse, urlJoin: string -> string)
    ensures var result := Located(cardId, r, urlJoin);
      && (Contains(r.finalUrl, ProductPath) ==> result == Ok(r.finalUrl))
      && (!Contains(r.finalUrl, ProductPath) && r.status == 403 ==> result == Err(Blocked))
      && (!Contains(r.finalUrl, ProductPath) && r.status != 403 && IsErrorStatus(r.status) ==>
            result == Err(HttpError(r.status)))
      && (!Contains(r.finalUrl, ProductPath) && r.status != 403 && !IsErrorStatus(r.status) ==>
            (result.Ok? <==> exists k :: 0 <= k < |ResultSelectors| && Usable(r.select(ResultSelectors[k]))))
      && (!Contains(r.finalUrl, ProductPath) && r.status != 403 && !IsErrorStatus(r.status) && result.Ok? ==>
            exists k :: 0 <= k < |ResultSelectors| && Usable(r.select(ResultSelectors[k])) &&
              result.value == urlJoin(r.select(ResultSelectors[k]).value) &&
              forall l :: 0 <= l < k ==> !Usable(r.select(ResultSelectors[l])))
      && (!Contains(r.finalUrl, ProductPath) && r.status != 403 && !IsErrorStatus(r.status) && result.Err? ==>
            result == Err(NotFound(cardId)))
  {
    var href := FirstUsable(r.select, ResultSelectors);
    if !Contains(r.finalUrl, ProductPath) && r.status != 403 && !IsErrorStatus(r.status) && href.Some? {
      var k :| 0 <= k < |ResultSelectors| && Usable(r.select(ResultSelectors[k])) &&
        href == r.select(ResultSelectors[k]) && forall l :: 0 <= l < k ==> !Usable(r.select(ResultSelectors[l]));
      assert Located(cardId, r, urlJoin).value == urlJoin(r.select(ResultSelectors[k]).value);
    }
  }

  /** `find_product_url` (app.py:75-92), after the request: the loop over the result selectors. */
  method FindProductUrl(cardId: string, r: SearchResponse, urlJoin: string -> string)
    returns (result: Result<string, LocateError>)
    ensures result == Located(cardId, r, urlJoin)
  {
    if Contains(r.finalUrl, ProductPath) {
      return Ok(r.finalUrl);
    }
    if r.status == 403 {
      return Err(Blocked);
    }
    if IsErrorStatus(r.status) {
      return Err(HttpError(r.status));
    }
    var href := SelectFirstUsable(r.select, ResultSelectors);
    if href.Some? {
      return Ok(urlJoin(href.value));
    }
    return Err(NotFound(cardId));
  }

  /** The selector loop of `find_product_url`: tries each selector in turn and stops at the first non-empty `href`. */
  method SelectFirstUsable(select: string -> Option<string>, selectors: seq<string>) returns (href: Option<string>)
    ensures href == FirstUsable(select, selectors)
  {
    for i := 0 to |selectors|
      invariant FirstUsable(select, selectors[i..]) == FirstUsable(select, selectors)
    {
      var a := select(selectors[i]);
      assert selectors[i..][1..] == selectors[i + 1..];
      if a.Some? && a.value != "" {
        return a;
      }
    }
    return None;
  }
}
