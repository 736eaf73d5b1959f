/**
 * `extract_median_price`: the offers table of a filtered product page is
 * located, its offer rows are listed, the lower-median row is chosen and the
 * first of its strings holding the euro sign is returned.
 */
module Median {
  import opened Wrappers
  import opened Text
  import opened Dom
  import opened Externals

  /** Node `j` is a `div` element. */
  predicate IsDiv(d: Document, j: nat) {
    j < |d| && d[j].Element? && d[j].tag == "div"
  }

  /** Node `j` is a `div` carrying the class `cls`. */
  predicate IsDivOf(d: Document, j: nat, cls: string) {
    IsDiv(d, j) && cls in d[j].classes
  }

  /**
   * `soup.find("div", class_="table-body")`: the first such element in
   * document order below the document node 0 (`find` looks only at
   * descendants).
   */
  function TableBody(d: Document): (found: Option<nat>)
    ensures found.Some? ==> 0 < found.value && IsDivOf(d, found.value, "table-body")
    ensures found.Some? ==> forall j :: 0 < j < found.value ==> !IsDivOf(d, j, "table-body")
    ensures found.None? <==> forall j :: 0 < j < |d| ==> !IsDivOf(d, j, "table-body")
  {
    var holds := (j: nat) => 0 < j && IsDivOf(d, j, "table-body");
    var hits := Where(|d|, holds);
    WhereComplete(|d|, holds);
    assert forall j :: holds(j) <==> 0 < j && IsDivOf(d, j, "table-body");
    if hits == [] then None else Some(hits[0])
  }

  /** The table `c` has a `div` child. */
  predicate HasDivChild(d: Document, c: nat) {
    exists j :: 0 <= j < |d| && IsDiv(d, j) && d[j].parent == c
  }

  /** The table `c` has an `article-row` div strictly inside it. */
  predicate HasArticleRow(d: Document, c: nat) {
    exists j :: 0 <= j < |d| && IsDivOf(d, j, "article-row") && j != c && InSubtree(d, j, c)
  }

  /** `c.find_all("div", recursive=False)`: the `div` children of `c`, in document order. */
  function DirectDivs(d: Document, c: nat): (rows: seq<nat>)
    ensures forall k :: 0 <= k < |rows| ==> IsDiv(d, rows[k]) && d[rows[k]].parent == c
    ensures forall j :: 0 <= j < |d| && IsDiv(d, j) && d[j].parent == c ==> j in rows
    ensures forall k, l :: 0 <= k < l < |rows| ==> rows[k] < rows[l]
    ensures rows != [] <==> HasDivChild(d, c)
  {
    var holds := (j: nat) => IsDiv(d, j) && d[j].parent == c;
    WhereComplete(|d|, holds);
    assert forall j: nat :: holds(j) <==> IsDiv(d, j) && d[j].parent == c;
    var rows := Where(|d|, holds);
    assert rows != [] ==> holds(rows[0]);
    rows
  }

  /** `c.find_all("div", class_="article-row")`: the `article-row` divs strictly inside `c`, in document order. */
  function ArticleRows(d: Document, c: nat): (rows: seq<nat>)
    ensures forall k :: 0 <= k < |rows| ==> IsDivOf(d, rows[k], "article-row") && rows[k] != c && InSubtree(d, rows[k], c)
    ensures forall j :: 0 <= j < |d| && IsDivOf(d, j, "article-row") && j != c && InSubtree(d, j, c) ==> j in rows
    ensures forall k, l :: 0 <= k < l < |rows| ==> rows[k] < rows[l]
    ensures rows != [] <==> HasArticleRow(d, c)
  {
    var holds := (j: nat) => IsDivOf(d, j, "article-row") && j != c && InSubtree(d, j, c);
    WhereComplete(|d|, holds);
    assert forall j: nat :: holds(j) <==> IsDivOf(d, j, "article-row") && j != c && InSubtree(d, j, c);
    var rows := Where(|d|, holds);
    assert rows != [] ==> holds(rows[0]);
    rows
  }

  /** The offer rows of the table `c`: its direct `div` children, or failing those its `article-row` descendants. */
  function OfferRows(d: Document, c: nat): seq<nat>
  {
    var direct := DirectDivs(d, c);
    if direct != [] then direct else ArticleRows(d, c)
  }

  /** `(n + 1) // 2 - 1`, clamped at 0: the lower median position among `n` rows. */
  function MedianIndex(n: nat): (r: nat)
    ensures n >= 1 ==> r < n
    ensures n >= 1 ==> r <= n - 1 - r <= r + 1
    ensures n == 0 ==> r == 0
  {
    var m := (n + 1) / 2 - 1;
    if m < 0 then 0 else m
  }

  /** The lower median position is the only one with as many rows before it as after, or one fewer. */
  lemma MedianIndexUnique(n: nat, r: nat)
    requires n >= 1 && r <= n - 1 - r <= r + 1
    ensures r == MedianIndex(n)
  {
  }

  /** For one to five rows the chosen positions are 0, 0, 1, 1, 2. */
  lemma MedianIndexSmall()
    ensures MedianIndex(1) == 0 && MedianIndex(2) == 0 && MedianIndex(3) == 1
    ensures MedianIndex(4) == 1 && MedianIndex(5) == 2
  {
  }

  /** `[s.strip() for s in strs if "€" in s]`. */
  function EuroTexts(strs: seq<string>): seq<string>
  {
    if strs == [] then []
    else (if Euro in strs[0] then [Strip(strs[0])] else []) + EuroTexts(strs[1..])
  }

  /** The list is empty exactly when no string holds the euro sign; otherwise it starts with the first one that does, stripped. */
  lemma {:induction false} EuroTextsFirst(strs: seq<string>)
    ensures EuroTexts(strs) == [] <==> forall k :: 0 <= k < |strs| ==> Euro !in strs[k]
    ensures EuroTexts(strs) != [] ==>
      exists k :: 0 <= k < |strs| && Euro in strs[k] && EuroTexts(strs)[0] == Strip(strs[k]) &&
        forall l :: 0 <= l < k ==> Euro !in strs[l]
  {
    if strs != [] {
      EuroTextsFirst(strs[1..]);
      assert forall k :: 1 <= k < |strs| ==> strs[k] == strs[1..][k - 1];
      if Euro in strs[0] {
        assert EuroTexts(strs)[0] == Strip(strs[0]);
      } else if EuroTexts(strs) != [] {
        assert EuroTexts(strs) == EuroTexts(strs[1..]);
        var k :| 0 <= k < |strs[1..]| && Euro in strs[1..][k] && EuroTexts(strs[1..])[0] == Strip(strs[1..][k]) &&
          forall l :: 0 <= l < k ==> Euro !in strs[1..][l];
        assert Euro in strs[k + 1];
      }
    }
  }

  /** The filter keeps the order of the strings: it distributes over concatenation. */
  lemma {:induction false} EuroTextsConcat(a: seq<string>, b: seq<string>)
    ensures EuroTexts(a + b) == EuroTexts(a) + EuroTexts(b)
    decreases |a|
  {
    if a == [] {
      assert a + b == b;
    } else {
      assert (a + b)[0] == a[0];
      assert (a + b)[1..] == a[1..] + b;
      EuroTextsConcat(a[1..], b);
    }
  }

  /** The raw strings of the given text nodes, in order. */
  function Contents(d: Document, texts: seq<nat>): (strs: seq<string>)
    requires AllTexts(d, texts)
    ensures |strs| == |texts|
    ensures forall k :: 0 <= k < |texts| ==> strs[k] == d[texts[k]].content
  {
    seq(|texts|, k requires 0 <= k < |texts| => d[texts[k]].content)
  }

  /** Blank strings hold no euro sign, so dropping them before the euro filter changes nothing. */
  lemma PieceEuro(d: Document, t: nat)
    requires t < |d| && d[t].TextNode?
    ensures EuroTexts(Piece(d, t)) == EuroTexts([d[t].content])
  {
    var c := d[t].content;
    StripKeeps(c, Euro);
    assert [c][1..] == [];
    if Strip(c) != "" {
      assert [Strip(c)][1..] == [];
    }
  }

  /** The euro filter over `stripped_strings` sees the same euro strings as over the raw strings. */
  lemma {:induction false} EuroOfStripped(d: Document, texts: seq<nat>)
    requires AllTexts(d, texts)
    ensures EuroTexts(StrippedOf(d, texts)) == EuroTexts(Contents(d, texts))
  {
    if texts != [] {
      var n := |texts| - 1;
      assert AllTexts(d, texts[..n]);
      EuroOfStripped(d, texts[..n]);
      StrippedEuroStep(d, texts);
      ContentsEuroStep(d, texts);
    }
  }

  lemma StrippedEuroStep(d: Document, texts: seq<nat>)
    requires AllTexts(d, texts) && texts != []
    ensures AllTexts(d, texts[..|texts| - 1])
    ensures EuroTexts(StrippedOf(d, texts)) ==
      EuroTexts(StrippedOf(d, texts[..|texts| - 1])) + EuroTexts([d[texts[|texts| - 1]].content])
  {
    var n := |texts| - 1;
    var t := texts[n];
    assert AllTexts(d, texts[..n]);
    ConcatLast([], texts);
    StrippedOfSnoc(d, texts[..n], t);
    EuroTextsConcat(StrippedOf(d, texts[..n]), Piece(d, t));
    PieceEuro(d, t);
  }

  lemma ContentsEuroStep(d: Document, texts: seq<nat>)
    requires AllTexts(d, texts) && texts != []
    ensures AllTexts(d, texts[..|texts| - 1])
    ensures EuroTexts(Contents(d, texts)) ==
      EuroTexts(Contents(d, texts[..|texts| - 1])) + EuroTexts([d[texts[|texts| - 1]].content])
  {
    var n := |texts| - 1;
    assert AllTexts(d, texts[..n]);
    assert Contents(d, texts) == Contents(d, texts[..n]) + [d[texts[n]].content];
    EuroTextsConcat(Contents(d, texts[..n]), [d[texts[n]].content]);
  }

  /** The euro strings of a row, over its raw text-node strings. */
  lemma RowEuroTexts(d: Document, row: nat)
    ensures AllTexts(d, TextsIn(d, row))
    ensures EuroTexts(StrippedStrings(d, row)) == EuroTexts(Contents(d, TextsIn(d, row)))
  {
    EuroOfStripped(d, TextsIn(d, row));
  }

  /** The value `extract_median_price` returns, `None` standing for Python's `None`. */
  function MedianPrice(d: Document): (price: Option<string>)
    ensures TableBody(d).None? ==> price.None?
    ensures price.Some? ==> price.value != "" && IsStripped(price.value) && Euro in price.value
  {
    match TableBody(d)
    case None => None
    case Some(c) =>
      var rows := OfferRows(d, c);
      if rows == [] then None
      else
        var strs := StrippedStrings(d, rows[MedianIndex(|rows|)]);
        var texts := EuroTexts(strs);
        if texts == [] then None
        else
          EuroTextsFirst(strs);
          Some(texts[0])
  }

  /** Node `t` is a text node of the subtree of `row` whose string holds the euro sign. */
  predicate EuroNode(d: Document, row: nat, t: nat) {
    t < |d| && d[t].TextNode? && InSubtree(d, t, row) && Euro in d[t].content
  }

  /** A row's euro strings exist exactly when one of its text nodes holds the euro sign. */
  lemma RowEuroExists(d: Document, row: nat)
    ensures EuroTexts(StrippedStrings(d, row)) != [] <==> exists t: nat :: EuroNode(d, row, t)
  {
    var texts := TextsIn(d, row);
    var strs := Contents(d, texts);
    RowEuroTexts(d, row);
    EuroTextsFirst(strs);
    if exists t: nat :: EuroNode(d, row, t) {
      var t: nat :| EuroNode(d, row, t);
      var k :| 0 <= k < |texts| && texts[k] == t;
      assert Euro in strs[k];
    } else {
      forall k | 0 <= k < |strs| ensures Euro !in strs[k] {
        assert !EuroNode(d, row, texts[k]);
      }
    }
  }

  /** The first euro string of a row is the stripped string of its first text node holding the euro sign. */
  lemma RowEuroFirst(d: Document, row: nat)
    requires EuroTexts(StrippedStrings(d, row)) != []
    ensures exists t: nat :: (EuroNode(d, row, t) && EuroTexts(StrippedStrings(d, row))[0] == Strip(d[t].content) &&
                         forall u: nat :: u < t ==> !EuroNode(d, row, u))
  {
    var k := FirstEuroText(d, row);
    NoEuroBefore(d, row, k);
    assert EuroNode(d, row, TextsIn(d, row)[k]);
  }

  /** The position, among the row's text nodes, of the first one holding the euro sign. */
  lemma FirstEuroText(d: Document, row: nat) returns (k: nat)
    requires EuroTexts(StrippedStrings(d, row)) != []
    ensures k < |TextsIn(d, row)| && Euro in d[TextsIn(d, row)[k]].content
    ensures EuroTexts(StrippedStrings(d, row))[0] == Strip(d[TextsIn(d, row)[k]].content)
    ensures forall l :: 0 <= l < k ==> Euro !in d[TextsIn(d, row)[l]].content
  {
    RowEuroTexts(d, row);
    k := FirstEuroIndex(Contents(d, TextsIn(d, row)));
  }

  /** The index of the first string holding the euro sign, when the filter keeps anything. */
  lemma FirstEuroIndex(strs: seq<string>) returns (k: nat)
    requires EuroTexts(strs) != []
    ensures k < |strs| && Euro in strs[k] && EuroTexts(strs)[0] == Strip(strs[k])
    ensures forall l :: 0 <= l < k ==> Euro !in strs[l]
  {
    EuroTextsFirst(strs);
    k :| 0 <= k < |strs| && Euro in strs[k] && EuroTexts(strs)[0] == Strip(strs[k]) &&
      forall l :: 0 <= l < k ==> Euro !in strs[l];
  }

  /** Below the `k`-th text node of a row, in document order, only its first `k` text nodes lie in the row. */
  lemma NoEuroBefore(d: Document, row: nat, k: nat)
    requires k < |TextsIn(d, row)|
    requires forall l :: 0 <= l < k ==> Euro !in d[TextsIn(d, row)[l]].content
    ensures forall u: nat :: u < TextsIn(d, row)[k] ==> !EuroNode(d, row, u)
  {
    var texts := TextsIn(d, row);
    forall u: nat | u < texts[k] ensures !EuroNode(d, row, u) {
      if u < |d| && d[u].TextNode? && InSubtree(d, u, row) {
        var l :| 0 <= l < |texts| && texts[l] == u;
        assert l < k;
      }
    }
  }

  /**
   * Once the offers table and its rows are found, a median price exists
   * exactly when some text node of the lower-median row holds the euro
   * sign, and it is the stripped string of the first such node.
   */
  lemma MedianPriceExact(d: Document, c: nat)
    requires TableBody(d) == Some(c) && OfferRows(d, c) != []
    ensures var row := OfferRows(d, c)[MedianIndex(|OfferRows(d, c)|)];
      MedianPrice(d).Some? <==> exists t: nat :: EuroNode(d, row, t)
    ensures var row := OfferRows(d, c)[MedianIndex(|OfferRows(d, c)|)];
      MedianPrice(d).Some? ==>
        exists t: nat :: EuroNode(d, row, t) && MedianPrice(d).value == Strip(d[t].content) &&
          forall u: nat :: u < t ==> !EuroNode(d, row, u)
  {
    var rows := OfferRows(d, c);
    var row := rows[MedianIndex(|rows|)];
    RowEuroExists(d, row);
    if MedianPrice(d).Some? {
      RowEuroFirst(d, row);
    }
  }

  /** Without a `table-body` div below the document node there is no median price. */
  lemma MedianNeedsTable(d: Document)
    requires forall j :: 0 < j < |d| ==> !IsDivOf(d, j, "table-body")
    ensures MedianPrice(d) == None
  {
  }

  /** A table with neither `div` children nor `article-row` descendants gives no median price. */
  lemma MedianNeedsRows(d: Document, c: nat)
    requires TableBody(d) == Some(c)
    requires !HasDivChild(d, c) && !HasArticleRow(d, c)
    ensures MedianPrice(d) == None
  {
  }

  /**
   * Article rows are consulted only when the table has no `div` child: then
   * the row chosen is the lower-median `article-row` descendant.
   */
  lemma MedianRowChoice(d: Document, c: nat)
    requires WellFormed(d) && TableBody(d) == Some(c)
    ensures DirectDivs(d, c) != [] ==> OfferRows(d, c) == DirectDivs(d, c)
    ensures DirectDivs(d, c) == [] ==> OfferRows(d, c) == ArticleRows(d, c)
    ensures forall k :: 0 <= k < |OfferRows(d, c)| ==> IsDiv(d, OfferRows(d, c)[k]) && InSubtree(d, OfferRows(d, c)[k], c)
  {
    var rows := OfferRows(d, c);
    forall k | 0 <= k < |rows|
      ensures IsDiv(d, rows[k]) && InSubtree(d, rows[k], c)
    {
      var j := rows[k];
      if DirectDivs(d, c) != [] {
        assert d[j].parent == c;
        assert Chain(d, j)[1] == c;
      }
    }
  }

  /** Of strings already stripped, the first one holding the euro sign is kept as it is. */
  lemma EuroTextsOfStripped(strs: seq<string>)
    requires forall k :: 0 <= k < |strs| ==> IsStripped(strs[k])
    requires EuroTexts(strs) != []
    ensures EuroTexts(strs)[0] in strs && Euro in EuroTexts(strs)[0]
  {
    EuroTextsFirst(strs);
  }

  /** The price a row offers: a non-empty stripped string with the euro sign, the content of a text node in the row, stripped. */
  lemma RowPriceShape(d: Document, row: nat)
    requires WellFormed(d) && row < |d|
    requires EuroTexts(StrippedStrings(d, row)) != []
    ensures var p := EuroTexts(StrippedStrings(d, row))[0];
      p != "" && IsStripped(p) && Euro in p &&
      exists t :: (0 <= t < |d| && d[t].TextNode? && InSubtree(d, t, row) && Euro in d[t].content && p == Strip(d[t].content))
  {
    var strs := StrippedStrings(d, row);
    EuroTextsOfStripped(strs);
    var p := EuroTexts(strs)[0];
    var texts := TextsIn(d, row);
    assert exists t :: t in texts && p == Strip(d[t].content);
    var t :| t in texts && p == Strip(d[t].content);
    CharOfSubstring(d[t].content, p, Euro);
  }

  /**
   * A median price is a non-empty stripped string holding the euro sign, and
   * it is the stripped content of a text node inside the offers table.
   */
  lemma MedianPriceShape(d: Document)
    requires WellFormed(d)
    requires MedianPrice(d).Some?
    ensures MedianPrice(d).value != "" && IsStripped(MedianPrice(d).value) && Euro in MedianPrice(d).value
    ensures exists t :: (0 <= t < |d| && d[t].TextNode? && InSubtree(d, t, TableBody(d).value) &&
                         Euro in d[t].content && MedianPrice(d).value == Strip(d[t].content))
  {
    var c := TableBody(d).value;
    var rows := OfferRows(d, c);
    MedianRowChoice(d, c);
    var row := rows[MedianIndex(|rows|)];
    RowPriceShape(d, row);
    var p := MedianPrice(d).value;
    var t :| 0 <= t < |d| && d[t].TextNode? && InSubtree(d, t, row) && Euro in d[t].content && p == Strip(d[t].content);
    ChainNested(d, t, row);
  }

  /** A page without the euro sign has no median price. */
  lemma NoEuroNoMedianPrice(d: Document)
    requires WellFormed(d)
    requires forall j :: 0 <= j < |d| && d[j].TextNode? ==> Euro !in d[j].content
    ensures MedianPrice(d) == None
  {
    if MedianPrice(d).Some? {
      MedianPriceShape(d);
      assert false;
    }
  }
}
