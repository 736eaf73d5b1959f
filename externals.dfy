/**
 * The library calls the core relies on but does not implement: Unicode case
 * folding, the price regular expression, URL joining and URL parsing. They
 * are passed in as function values; what the model assumes of them is stated
 * as predicates.
 */
module Externals {
  import opened Wrappers
  import opened Filters

  /** The bounds of a regular-expression match inside the searched string. */
  datatype Span = Span(start: nat, end: nat)

  /** The currency marker the extractors look for. */
  const Euro: char := '€'

  datatype Library = Library(
    /** Python's `str.casefold`. */
    casefold: string -> string,
    /** `PRICE_REGEX.search` (app.py:25): the leftmost match, if any. */
    priceSearch: string -> Option<Span>,
    /** `urljoin("https://www.cardmarket.com", href)`. */
    urlJoin: string -> string,
    /** `urlparse` followed by `parse_qs` of the query component. */
    urlParse: string -> Url)

  /**
   * What the model assumes of the price pattern: a match is a non-empty
   * substring of the searched string whose last character is the euro sign,
   * as the pattern's final `€` forces.
   */
  ghost predicate PriceSearchSound(search: string -> Option<Span>) {
    forall s :: search(s).Some? ==>
      search(s).value.start < search(s).value.end <= |s| && s[search(s).value.end - 1] == Euro
  }

  /** What `parse_qs` guarantees: its result is a dictionary. */
  ghost predicate UrlParseSound(parse: string -> Url) {
    forall s :: Valid(parse(s).query)
  }

  ghost predicate Sound(lib: Library) {
    PriceSearchSound(lib.priceSearch) && UrlParseSound(lib.urlParse)
  }
}
