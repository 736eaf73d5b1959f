/**
 * `extract_lowest_price` and the ancestor walk it relies on. For each anchor
 * phrase in priority order, the first text node whose folded string holds
 * the phrase is located, the search is narrowed to the nearest enclosing node
 * whose folded text holds some anchor, and the first price-pattern match
 * among that container's euro strings is returned, stripped. When no anchor
 * gives a price, the first match among all euro strings of the document is
 * returned; otherwise there is no price.
 */
module Lowest {
  import opened Wrappers
  import opened Text
  import opened Dom
  import opened Externals

  /** `PRICE_TREND_ANCHORS` (app.py:17-24), in priority order. */
  const PriceTrendAnchors: seq<string> := [
    "tendance des prix", "prix moyen", "articles disponibles",
    "price trend", "average price", "available items",
    "preistrend", "durchschnittspreis", "verfügbare artikel",
    "andamento del prezzo", "prezzo medio", "articoli disponibili",
    "tendencia de precios", "precio medio", "artículos disponibles",
    "prijstrend", "gemiddelde prijs", "beschikbare artikelen"
  ]

  /** `any(kw in text for kw in keywords)`. */
  predicate HasKeyword(text: string, keywords: seq<string>) {
    exists kw :: kw in keywords && Contains(text, kw)
  }

  /** Node `i` can serve as container: its folded text holds one of the keywords. */
  predicate Qualifies(d: Document, fold: string -> string, keywords: seq<string>, i: nat) {
    HasKeyword(fold(GetText(d, i)), keywords)
  }

  /**
   * The container the walk from `node` settles on: the nearest node of its
   * parent chain, `node` itself first, that qualifies; `None` when none does
   * (or when there is no start node, Python's `None`, written -1).
   */
  function Narrow(d: Document, fold: string -> string, keywords: seq<string>, node: int): (r: Option<nat>)
    requires -1 <= node < |d|
    ensures node < 0 ==> r.None?
    ensures r.Some? ==> 0 <= node && r.value in Chain(d, node) && Qualifies(d, fold, keywords, r.value)
    ensures r.Some? ==> forall a :: a in Chain(d, node) && a > r.value ==> !Qualifies(d, fold, keywords, a)
    ensures 0 <= node && r.None? ==> forall a :: a in Chain(d, node) ==> !Qualifies(d, fold, keywords, a)
    decreases node + 1
  {
    if node < 0 then None
    else if Qualifies(d, fold, keywords, node) then Some(node)
    else
      var p := d[node].parent;
      if 0 <= p < node then Narrow(d, fold, keywords, p) else None
  }

  /** `smallest_common_ancestor_with_keywords` (app.py:94-101): the walk up the parent links. */
  method SmallestCommonAncestor(d: Document, fold: string -> string, node: int, keywords: seq<string>)
    returns (container: Option<nat>)
    requires -1 <= node < |d|
    ensures container == Narrow(d, fold, keywords, node)
  {
    var cur := node;
    while cur != -1
      invariant -1 <= cur < |d|
      invariant Narrow(d, fold, keywords, node) == Narrow(d, fold, keywords, cur)
      decreases cur + 1
    {
      var text := fold(GetText(d, cur));
      if HasKeyword(text, keywords) {
        return Some(cur);
      }
      var p := d[cur].parent;
      cur := if 0 <= p < cur then p else -1;
    }
    return None;
  }

  /** `soup.find(string=...)`: the first text node, in document order, whose folded string holds `anchor`. */
  function FindAnchor(d: Document, fold: string -> string, anchor: string): (found: Option<nat>)
    ensures found.Some? ==> found.value < |d| && d[found.value].TextNode?
    ensures found.Some? ==> Contains(fold(d[found.value].content), anchor)
    ensures found.Some? ==> forall j :: 0 <= j < found.value && d[j].TextNode? ==> !Contains(fold(d[j].content), anchor)
    ensures found.None? ==> forall j :: 0 <= j < |d| && d[j].TextNode? ==> !Contains(fold(d[j].content), anchor)
  {
    var holds := (j: nat) => j < |d| && d[j].TextNode? && Contains(fold(d[j].content), anchor);
    var hits := Where(|d|, holds);
    WhereComplete(|d|, holds);
    assert forall j :: 0 <= j < |d| ==> (holds(j) <==> d[j].TextNode? && Contains(fold(d[j].content), anchor));
    if hits == [] then None else Some(hits[0])
  }

  /** `c.find_all(string=lambda t: "€" in t)`: the text nodes under `c` holding the euro sign, in document order. */
  function EuroStrings(d: Document, c: nat): (strs: seq<nat>)
    ensures forall k :: 0 <= k < |strs| ==> strs[k] < |d| && d[strs[k]].TextNode? && Euro in d[strs[k]].content
    ensures forall k :: 0 <= k < |strs| ==> InSubtree(d, strs[k], c)
    ensures forall j :: 0 <= j < |d| && d[j].TextNode? && InSubtree(d, j, c) && Euro in d[j].content ==> j in strs
    ensures forall k, l :: 0 <= k < l < |strs| ==> strs[k] < strs[l]
  {
    var holds := (j: nat) => j < |d| && d[j].TextNode? && InSubtree(d, j, c) && Euro in d[j].content;
    WhereComplete(|d|, holds);
    Where(|d|, holds)
  }

  /** The shape of every price the extractor returns: non-empty, stripped, ending in the euro sign. */
  predicate IsPrice(p: string) {
    p != "" && IsStripped(p) && p[|p| - 1] == Euro
  }

  /** `PRICE_REGEX.search(s)` on text node `j`, its match stripped. */
  function PriceOf(d: Document, search: string -> Option<Span>, j: nat): (price: Option<string>)
    requires j < |d| && d[j].TextNode? && PriceSearchSound(search)
    ensures price.Some? <==> search(d[j].content).Some?
  {
    var s := d[j].content;
    match search(s)
    case None => None
    case Some(m) => Some(Strip(s[m.start..m.end]))
  }

  /**
   * `p` is `m.group(0).strip()` for the match `m` of the price pattern in
   * `s`: the matched span with whitespace, and only whitespace, cut from its
   * two ends.
   */
  predicate StrippedMatch(search: string -> Option<Span>, s: string, p: string) {
    && search(s).Some?
    && search(s).value.start <= search(s).value.end <= |s|
    && Trims(s, search(s).value.start, search(s).value.end, p)
  }

  /** A price that is a stripped match is exactly `m.group(0).strip()`: the trimming is unique. */
  lemma StrippedMatchUnique(search: string -> Option<Span>, s: string, p: string)
    requires StrippedMatch(search, s, p) && IsPrice(p)
    ensures p == Strip(s[search(s).value.start..search(s).value.end])
  {
    TrimsStripped(s, search(s).value.start, search(s).value.end, p);
  }

  /** A stripped match has the price shape and occurs in the searched string. */
  lemma PriceOfShape(d: Document, search: string -> Option<Span>, j: nat)
    requires j < |d| && d[j].TextNode? && PriceSearchSound(search)
    ensures PriceOf(d, search, j).Some? ==>
      IsPrice(PriceOf(d, search, j).value) && Contains(d[j].content, PriceOf(d, search, j).value)
  {
    var s := d[j].content;
    if search(s).Some? {
      var m := search(s).value;
      var hit := s[m.start..m.end];
      assert hit[|hit| - 1] == Euro && !IsSpace(Euro);
      ContainsSlice(s, m.start, m.end);
      ContainsTransitive(s, hit, Strip(hit));
    }
  }

  /** The price of a text node is the pattern's match in its string, with whitespace trimmed from the two ends. */
  lemma PriceOfMatch(d: Document, search: string -> Option<Span>, j: nat)
    requires j < |d| && d[j].TextNode? && PriceSearchSound(search)
    ensures PriceOf(d, search, j).Some? ==> StrippedMatch(search, d[j].content, PriceOf(d, search, j).value)
  {
    var s := d[j].content;
    if search(s).Some? {
      StripOfSlice(s, search(s).value.start, search(s).value.end);
    }
  }

  /** The regex outcome for each of the strings `strs`, in order. */
  function MatchesOf(d: Document, search: string -> Option<Span>, strs: seq<nat>): (ms: seq<Option<string>>)
    requires PriceSearchSound(search)
    requires forall k :: 0 <= k < |strs| ==> strs[k] < |d| && d[strs[k]].TextNode?
    ensures |ms| == |strs|
  {
    seq(|strs|, k requires 0 <= k < |strs| => PriceOf(d, search, strs[k]))
  }

  /** Outcome `k` is the regex outcome of string `k`. */
  lemma MatchesOfAt(d: Document, search: string -> Option<Span>, strs: seq<nat>, k: nat)
    requires PriceSearchSound(search)
    requires forall j :: 0 <= j < |strs| ==> strs[j] < |d| && d[strs[j]].TextNode?
    requires k < |strs|
    ensures MatchesOf(d, search, strs)[k] == PriceOf(d, search, strs[k])
  {
  }

  /** The outcomes of a prefix of the strings are a prefix of the outcomes. */
  lemma MatchesOfPrefix(d: Document, search: string -> Option<Span>, strs: seq<nat>, k: nat)
    requires PriceSearchSound(search)
    requires forall j :: 0 <= j < |strs| ==> strs[j] < |d| && d[strs[j]].TextNode?
    requires k <= |strs|
    ensures MatchesOf(d, search, strs[..k]) == MatchesOf(d, search, strs)[..k]
  {
  }

  /** The present values of `ms`, in order: what `if m: prices.append(...)` keeps. */
  function Present(ms: seq<Option<string>>): seq<string>
  {
    if ms == [] then []
    else match ms[0]
      case None => Present(ms[1..])
      case Some(p) => [p] + Present(ms[1..])
  }

  /** Nothing is kept exactly when every outcome is absent. */
  lemma {:induction false} PresentEmpty(ms: seq<Option<string>>)
    ensures Present(ms) == [] <==> forall k :: 0 <= k < |ms| ==> ms[k].None?
  {
    if ms != [] {
      PresentEmpty(ms[1..]);
      assert forall k :: 1 <= k < |ms| ==> ms[k] == ms[1..][k - 1];
    }
  }

  /** Every kept value is one of the outcomes. */
  lemma {:induction false} PresentFrom(ms: seq<Option<string>>)
    ensures forall k :: 0 <= k < |Present(ms)| ==> Some(Present(ms)[k]) in ms
  {
    if ms != [] {
      PresentFrom(ms[1..]);
      assert forall m :: m in ms[1..] ==> m in ms;
      if ms[0].Some? {
        assert forall k :: 1 <= k < |Present(ms)| ==> Present(ms)[k] == Present(ms[1..])[k - 1];
      }
    }
  }

  /** Keeping the present values commutes with concatenation. */
  lemma {:induction false} PresentConcat(a: seq<Option<string>>, b: seq<Option<string>>)
    ensures Present(a + b) == Present(a) + Present(b)
  {
    if a == [] {
      assert a + b == b;
    } else {
      PresentConcat(a[1..], b);
      assert (a + b)[1..] == a[1..] + b;
    }
  }

  /** Keeping the present values of a prefix gives a prefix. */
  lemma PresentPrefix(a: seq<Option<string>>, b: seq<Option<string>>)
    requires a <= b
    ensures Present(a) <= Present(b)
  {
    assert b == a + b[|a|..];
    PresentConcat(a, b[|a|..]);
  }

  /** The list `prices` the inner loop builds from the strings `strs`: their matches, stripped, in order. */
  function PricesIn(d: Document, search: string -> Option<Span>, strs: seq<nat>): seq<string>
    requires PriceSearchSound(search)
    requires forall k :: 0 <= k < |strs| ==> strs[k] < |d| && d[strs[k]].TextNode?
  {
    Present(MatchesOf(d, search, strs))
  }

  /** Every collected price has the price shape and occurs in the string it was matched in. */
  lemma PricesInShape(d: Document, search: string -> Option<Span>, strs: seq<nat>)
    requires PriceSearchSound(search)
    requires forall k :: 0 <= k < |strs| ==> strs[k] < |d| && d[strs[k]].TextNode?
    ensures forall k :: 0 <= k < |PricesIn(d, search, strs)| ==>
      IsPrice(PricesIn(d, search, strs)[k]) &&
      exists t :: (t in strs && Contains(d[t].content, PricesIn(d, search, strs)[k]) &&
                   StrippedMatch(search, d[t].content, PricesIn(d, search, strs)[k]))
  {
    var ms := MatchesOf(d, search, strs);
    var prices := Present(ms);
    PresentFrom(ms);
    forall k | 0 <= k < |prices|
      ensures IsPrice(prices[k]) &&
        exists t :: t in strs && Contains(d[t].content, prices[k]) && StrippedMatch(search, d[t].content, prices[k])
    {
      var i :| 0 <= i < |ms| && ms[i] == Some(prices[k]);
      MatchesOfAt(d, search, strs, i);
      PriceOfShape(d, search, strs[i]);
      PriceOfMatch(d, search, strs[i]);
      assert strs[i] in strs;
    }
  }

  /** The outcomes of one more string are the earlier outcomes followed by its own. */
  lemma MatchesOfSnoc(d: Document, search: string -> Option<Span>, strs: seq<nat>, k: nat)
    requires PriceSearchSound(search)
    requires forall j :: 0 <= j < |strs| ==> strs[j] < |d| && d[strs[j]].TextNode?
    requires k < |strs|
    ensures MatchesOf(d, search, strs[..k + 1]) == MatchesOf(d, search, strs[..k]) + [PriceOf(d, search, strs[k])]
  {
    var before := MatchesOf(d, search, strs[..k]);
    var after := MatchesOf(d, search, strs[..k + 1]);
    var expected := before + [PriceOf(d, search, strs[k])];
    assert |after| == |expected| == k + 1;
    forall j | 0 <= j <= k
      ensures after[j] == expected[j]
    {
      assert strs[..k + 1][j] == strs[j];
      if j < k {
        assert strs[..k][j] == strs[j];
      }
    }
  }

  /** A single outcome keeps its value when present. */
  lemma PresentSingle(m: Option<string>)
    ensures Present([m]) == match m case None => [] case Some(p) => [p]
  {
    assert [m][1..] == [];
  }

  /** One more string adds its match, if any, to the end of the prices. */
  lemma PricesInStep(d: Document, search: string -> Option<Span>, strs: seq<nat>, k: nat)
    requires PriceSearchSound(search)
    requires forall j :: 0 <= j < |strs| ==> strs[j] < |d| && d[strs[j]].TextNode?
    requires k < |strs|
    ensures PricesIn(d, search, strs[..k + 1]) ==
      PricesIn(d, search, strs[..k]) + (match PriceOf(d, search, strs[k]) case None => [] case Some(p) => [p])
  {
    var last := PriceOf(d, search, strs[k]);
    MatchesOfSnoc(d, search, strs, k);
    PresentConcat(MatchesOf(d, search, strs[..k]), [last]);
    PresentSingle(last);
  }

  /** If no string before `k` matches and string `k` does, its match is the first price. */
  lemma PricesInFirst(d: Document, search: string -> Option<Span>, strs: seq<nat>, k: nat)
    requires PriceSearchSound(search)
    requires forall j :: 0 <= j < |strs| ==> strs[j] < |d| && d[strs[j]].TextNode?
    requires k < |strs| && PricesIn(d, search, strs[..k]) == [] && PriceOf(d, search, strs[k]).Some?
    ensures PricesIn(d, search, strs) != [] && PricesIn(d, search, strs)[0] == PriceOf(d, search, strs[k]).value
  {
    PricesInStep(d, search, strs, k);
    MatchesOfPrefix(d, search, strs, k + 1);
    PresentPrefix(MatchesOf(d, search, strs[..k + 1]), MatchesOf(d, search, strs));
  }

  /** What anchor `i` yields: the prices of the container found from the first text node holding it, or nothing. */
  function AnchorPrices(d: Document, lib: Library, anchors: seq<string>, i: nat): seq<string>
    requires WellFormed(d) && PriceSearchSound(lib.priceSearch) && i < |anchors|
  {
    match FindAnchor(d, lib.casefold, anchors[i])
    case None => []
    case Some(el) =>
      var start := d[el].parent;
      var container := match Narrow(d, lib.casefold, anchors, start)
        case Some(c) => c
        case None => start;
      PricesIn(d, lib.priceSearch, EuroStrings(d, container))
  }

  /** The prices each anchor yields, in priority order. */
  function AnchorPriceLists(d: Document, lib: Library, anchors: seq<string>): (lists: seq<seq<string>>)
    requires WellFormed(d) && PriceSearchSound(lib.priceSearch)
    ensures |lists| == |anchors|
    ensures forall i :: 0 <= i < |anchors| ==> lists[i] == AnchorPrices(d, lib, anchors, i)
  {
    seq(|anchors|, i requires 0 <= i < |anchors| => AnchorPrices(d, lib, anchors, i))
  }

  /**
   * The anchor loop from anchor `i` on, over the price lists of the anchors:
   * the first price of the first list that has one; `None` exactly when all
   * lists from `i` on are empty.
   */
  function FirstPrice(lists: seq<seq<string>>, i: nat): (r: Option<string>)
    requires i <= |lists|
    ensures r.None? <==> forall k :: i <= k < |lists| ==> lists[k] == []
    decreases |lists| - i
  {
    if i == |lists| then None
    else if lists[i] != [] then Some(lists[i][0])
    else FirstPrice(lists, i + 1)
  }

  /** The list the anchor loop takes its price from: the first non-empty one from `i` on. */
  lemma {:induction false} FirstPriceFrom(lists: seq<seq<string>>, i: nat) returns (k: nat)
    requires i <= |lists| && FirstPrice(lists, i).Some?
    ensures i <= k < |lists| && lists[k] != [] && FirstPrice(lists, i) == Some(lists[k][0])
    ensures forall l :: i <= l < k ==> lists[l] == []
    decreases |lists| - i
  {
    if lists[i] != [] {
      k := i;
    } else {
      k := FirstPriceFrom(lists, i + 1);
    }
  }

  /** The fallback scan: the matches among all euro strings of the document. */
  function FallbackPrices(d: Document, search: string -> Option<Span>): seq<string>
    requires PriceSearchSound(search)
  {
    PricesIn(d, search, EuroStrings(d, 0))
  }

  /** The fallback scans the whole document: every text node holding the euro sign is among its strings. */
  lemma FallbackCoversDocument(d: Document)
    requires WellFormed(d)
    ensures forall j :: 0 <= j < |d| && d[j].TextNode? && Euro in d[j].content ==> j in EuroStrings(d, 0)
  {
    forall j | 0 <= j < |d| && d[j].TextNode? && Euro in d[j].content
      ensures j in EuroStrings(d, 0)
    {
      UnderRoot(d, j);
    }
  }

  /** The value `extract_lowest_price` returns, `None` standing for Python's `None`. */
  function LowestPrice(d: Document, lib: Library, anchors: seq<string>): Option<string>
    requires WellFormed(d) && PriceSearchSound(lib.priceSearch)
  {
    var fromAnchors := FirstPrice(AnchorPriceLists(d, lib, anchors), 0);
    if fromAnchors.Some? then fromAnchors
    else
      var fallback := FallbackPrices(d, lib.priceSearch);
      if fallback != [] then Some(fallback[0]) else None
  }

  /** Collecting from no strings gives no prices. */
  lemma PricesInNone(d: Document, search: string -> Option<Span>, strs: seq<nat>)
    requires PriceSearchSound(search)
    requires forall k :: 0 <= k < |strs| ==> strs[k] < |d| && d[strs[k]].TextNode?
    requires forall k :: 0 <= k < |strs| ==> search(d[strs[k]].content).None?
    ensures PricesIn(d, search, strs) == []
  {
    var ms := MatchesOf(d, search, strs);
    forall k | 0 <= k < |ms|
      ensures ms[k].None?
    {
      MatchesOfAt(d, search, strs, k);
    }
    PresentEmpty(ms);
  }

  /** A price the extractor returns has the price shape and occurs in a text node holding the euro sign. */
  lemma LowestPriceShape(d: Document, lib: Library, anchors: seq<string>)
    requires WellFormed(d) && PriceSearchSound(lib.priceSearch)
    requires LowestPrice(d, lib, anchors).Some?
    ensures IsPrice(LowestPrice(d, lib, anchors).value)
    ensures exists j :: (0 <= j < |d| && d[j].TextNode? && Euro in d[j].content &&
                         Contains(d[j].content, LowestPrice(d, lib, anchors).value) &&
                         StrippedMatch(lib.priceSearch, d[j].content, LowestPrice(d, lib, anchors).value))
  {
    var lists := AnchorPriceLists(d, lib, anchors);
    var p := LowestPrice(d, lib, anchors).value;
    var strs: seq<nat>;
    var k: nat;
    if FirstPrice(lists, 0).Some? {
      var i := FirstPriceFrom(lists, 0);
      var el := FindAnchor(d, lib.casefold, anchors[i]).value;
      var start := d[el].parent;
      var c := match Narrow(d, lib.casefold, anchors, start) case Some(c) => c case None => start;
      strs := EuroStrings(d, c);
      k := 0;
      assert p == PricesIn(d, lib.priceSearch, strs)[0];
    } else {
      strs := EuroStrings(d, 0);
      k := 0;
      assert p == PricesIn(d, lib.priceSearch, strs)[0];
    }
    PricesInShape(d, lib.priceSearch, strs);
    var t :| t in strs && Contains(d[t].content, p) && StrippedMatch(lib.priceSearch, d[t].content, p);
  }

  /**
   * Anchor priority: when anchor `i` yields prices and no earlier anchor
   * does, the result is the first price of anchor `i`, whatever later
   * anchors and the fallback would give.
   */
  lemma LowestPriceAnchorWins(d: Document, lib: Library, anchors: seq<string>, i: nat)
    requires WellFormed(d) && PriceSearchSound(lib.priceSearch)
    requires i < |anchors| && AnchorPrices(d, lib, anchors, i) != []
    requires forall l :: 0 <= l < i ==> AnchorPrices(d, lib, anchors, l) == []
    ensures LowestPrice(d, lib, anchors) == Some(AnchorPrices(d, lib, anchors, i)[0])
  {
    var lists := AnchorPriceLists(d, lib, anchors);
    FirstPriceAt(lists, i);
  }

  /** The list loop stops at the first non-empty list. */
  lemma FirstPriceAt(lists: seq<seq<string>>, i: nat)
    requires i < |lists| && lists[i] != []
    requires forall l :: 0 <= l < i ==> lists[l] == []
    ensures FirstPrice(lists, 0) == Some(lists[i][0])
  {
    var k := FirstPriceFrom(lists, 0);
    assert k == i;
  }

  /**
   * The fallback runs only when no anchor yields a price; its result is
   * the match of the first euro string of the document that has one.
   */
  lemma LowestPriceFallback(d: Document, lib: Library, anchors: seq<string>, k: nat)
    requires WellFormed(d) && PriceSearchSound(lib.priceSearch)
    requires forall i :: 0 <= i < |anchors| ==> AnchorPrices(d, lib, anchors, i) == []
    requires k < |EuroStrings(d, 0)|
    requires forall l :: 0 <= l < k ==> PriceOf(d, lib.priceSearch, EuroStrings(d, 0)[l]).None?
    requires PriceOf(d, lib.priceSearch, EuroStrings(d, 0)[k]).Some?
    ensures LowestPrice(d, lib, anchors) == PriceOf(d, lib.priceSearch, EuroStrings(d, 0)[k])
  {
    var strs := EuroStrings(d, 0);
    var search := lib.priceSearch;
    var lists := AnchorPriceLists(d, lib, anchors);
    assert FirstPrice(lists, 0).None?;
    PricesInNone(d, search, strs[..k]);
    PricesInFirst(d, search, strs, k);
  }

  /** Without any match of the price pattern in a euro string, there is no price. */
  lemma NoMatchNoLowestPrice(d: Document, lib: Library, anchors: seq<string>)
    requires WellFormed(d) && PriceSearchSound(lib.priceSearch)
    requires forall j :: 0 <= j < |d| && d[j].TextNode? && Euro in d[j].content ==> lib.priceSearch(d[j].content).None?
    ensures LowestPrice(d, lib, anchors) == None
  {
    var lists := AnchorPriceLists(d, lib, anchors);
    forall i | 0 <= i < |anchors|
      ensures lists[i] == []
    {
      match FindAnchor(d, lib.casefold, anchors[i])
      case None =>
      case Some(el) =>
        var start := d[el].parent;
        var c := match Narrow(d, lib.casefold, anchors, start) case Some(c) => c case None => start;
        PricesInNone(d, lib.priceSearch, EuroStrings(d, c));
    }
    PricesInNone(d, lib.priceSearch, EuroStrings(d, 0));
  }

  /** A page without the euro sign has no price. */
  lemma NoEuroNoLowestPrice(d: Document, lib: Library, anchors: seq<string>)
    requires WellFormed(d) && PriceSearchSound(lib.priceSearch)
    requires forall j :: 0 <= j < |d| && d[j].TextNode? ==> Euro !in d[j].content
    ensures LowestPrice(d, lib, anchors) == None
  {
    NoMatchNoLowestPrice(d, lib, anchors);
  }

  /** The inner loop of `extract_lowest_price` (app.py:111-115): collect the stripped matches of `strs`. */
  method CollectPrices(d: Document, search: string -> Option<Span>, strs: seq<nat>) returns (prices: seq<string>)
    requires PriceSearchSound(search)
    requires forall k :: 0 <= k < |strs| ==> strs[k] < |d| && d[strs[k]].TextNode?
    ensures prices == PricesIn(d, search, strs)
  {
    prices := [];
    for k := 0 to |strs|
      invariant prices == PricesIn(d, search, strs[..k])
    {
      var s := d[strs[k]].content;
      var m := search(s);
      if m.Some? {
        prices := prices + [Strip(s[m.value.start..m.value.end])];
      }
      PricesInStep(d, search, strs, k);
    }
    assert strs[..|strs|] == strs;
  }

  /** One turn of the anchor loop (app.py:106-117): locate the anchor, narrow, collect. */
  method PricesForAnchor(d: Document, lib: Library, anchors: seq<string>, i: nat) returns (prices: seq<string>)
    requires WellFormed(d) && PriceSearchSound(lib.priceSearch) && i < |anchors|
    ensures prices == AnchorPrices(d, lib, anchors, i)
  {
    var el := FindAnchor(d, lib.casefold, anchors[i]);
    if el.None? {
      return [];
    }
    var start := d[el.value].parent;
    var container := SmallestCommonAncestor(d, lib.casefold, start, anchors);
    var c := if container.Some? then container.value else start;
    prices := CollectPrices(d, lib.priceSearch, EuroStrings(d, c));
  }

  /** The fallback scan (app.py:118-121): the first euro string whose match succeeds. */
  method FallbackScan(d: Document, search: string -> Option<Span>) returns (price: Option<string>)
    requires PriceSearchSound(search)
    ensures price == if FallbackPrices(d, search) == [] then None else Some(FallbackPrices(d, search)[0])
  {
    var strs := EuroStrings(d, 0);
    for k := 0 to |strs|
      invariant PricesIn(d, search, strs[..k]) == []
    {
      var s := d[strs[k]].content;
      var m := search(s);
      if m.Some? {
        PricesInFirst(d, search, strs, k);
        return Some(Strip(s[m.value.start..m.value.end]));
      }
      PricesInStep(d, search, strs, k);
    }
    assert strs[..|strs|] == strs;
    return None;
  }

  /** The anchor loop of `extract_lowest_price` (app.py:105-117): the first anchor whose container yields a price wins. */
  method ScanAnchors(d: Document, lib: Library, anchors: seq<string>) returns (price: Option<string>)
    requires WellFormed(d) && PriceSearchSound(lib.priceSearch)
    ensures price == FirstPrice(AnchorPriceLists(d, lib, anchors), 0)
  {
    ghost var lists := AnchorPriceLists(d, lib, anchors);
    for i := 0 to |anchors|
      invariant FirstPrice(lists, 0) == FirstPrice(lists, i)
    {
      var prices := PricesForAnchor(d, lib, anchors, i);
      if prices != [] {
        return Some(prices[0]);
      }
    }
    return None;
  }

  /** `extract_lowest_price` (app.py:103-122): the anchors in priority order, then the fallback scan. */
  method ExtractLowestPrice(d: Document, lib: Library) returns (price: Option<string>)
    requires WellFormed(d) && PriceSearchSound(lib.priceSearch)
    ensures price == LowestPrice(d, lib, PriceTrendAnchors)
  {
    price := ScanAnchors(d, lib, PriceTrendAnchors);
    ghost var fromAnchors := FirstPrice(AnchorPriceLists(d, lib, PriceTrendAnchors), 0);
    assert LowestPrice(d, lib, PriceTrendAnchors) ==
      if fromAnchors.Some? then fromAnchors
      else if FallbackPrices(d, lib.priceSearch) != [] then Some(FallbackPrices(d, lib.priceSearch)[0]) else None;
    if price.None? {
      price := FallbackScan(d, lib.priceSearch);
    }
  }
}
