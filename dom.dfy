/**
 * The parsed HTML document the extractors read, held flat: the nodes in
 * document order (the order in which a parser meets their start), each
 * naming its parent by index. A parent always precedes its children, so a
 * walk up the parent links is finite.
 */
module Dom {
  import opened Text

  /** An element with its tag name, its `class` list and its parent; or a text node with its string and its parent. */
  datatype Node =
    | Element(tag: string, classes: seq<string>, parent: int)
    | TextNode(content: string, parent: int)

  /** The nodes of a document in document order; node 0 is the document itself. */
  type Document = seq<Node>

  /** What a parser produces: node 0 is the parentless document element, and every other node has an element before it as parent. */
  ghost predicate WellFormed(d: Document) {
    && |d| >= 1
    && d[0].Element? && d[0].parent == -1
    && forall i :: 0 < i < |d| ==> 0 <= d[i].parent < i && d[d[i].parent].Element?
  }

  /** The indices below `n` that satisfy `p`, in increasing (document) order. */
  function Where(n: nat, p: nat -> bool): (r: seq<nat>)
    ensures forall k :: 0 <= k < |r| ==> r[k] < n && p(r[k])
    ensures forall k, l :: 0 <= k < l < |r| ==> r[k] < r[l]
  {
    if n == 0 then []
    else
      var prev := Where(n - 1, p);
      if p(n - 1) then prev + [n - 1] else prev
  }

  /** `Where` misses no index, and nothing before its first index satisfies `p`. */
  lemma {:induction false} WhereComplete(n: nat, p: nat -> bool)
    ensures forall j :: 0 <= j < n && p(j) ==> j in Where(n, p)
    ensures Where(n, p) != [] ==> forall j :: 0 <= j < Where(n, p)[0] ==> !p(j)
  {
    if n > 0 {
      WhereComplete(n - 1, p);
      var prev := Where(n - 1, p);
      if p(n - 1) {
        assert Where(n, p) == prev + [n - 1];
        assert forall j :: j in prev ==> j in Where(n, p);
        if prev != [] {
          assert Where(n, p)[0] == prev[0];
        }
      }
    }
  }

  /** The node `i` followed by its ancestors, nearest first, up to the parentless one. */
  function Chain(d: Document, i: nat): (c: seq<nat>)
    requires i < |d|
    ensures |c| >= 1 && c[0] == i
    ensures forall k :: 0 <= k < |c| ==> c[k] < |d|
    ensures forall k :: 0 <= k < |c| - 1 ==> c[k + 1] == d[c[k]].parent && c[k + 1] < c[k]
    ensures forall a :: a in c ==> a <= i
    ensures !(0 <= d[c[|c| - 1]].parent < c[|c| - 1])
    decreases i
  {
    var p := d[i].parent;
    if 0 <= p < i then [i] + Chain(d, p) else [i]
  }

  /** Node `j` lies in the subtree rooted at `c` (`c` itself included). */
  predicate InSubtree(d: Document, j: nat, c: nat) {
    j < |d| && c in Chain(d, j)
  }

  /** The ancestors of an ancestor are ancestors: subtrees nest. */
  lemma {:induction false} ChainNested(d: Document, i: nat, a: nat)
    requires i < |d| && a in Chain(d, i)
    ensures forall b :: b in Chain(d, a) ==> b in Chain(d, i)
    decreases i
  {
    var p := d[i].parent;
    if a != i {
      assert 0 <= p < i;
      ChainNested(d, p, a);
    }
  }

  /** In a parsed document every node lies under the document node 0. */
  lemma {:induction false} UnderRoot(d: Document, j: nat)
    requires WellFormed(d) && j < |d|
    ensures InSubtree(d, j, 0)
    decreases j
  {
    if j > 0 {
      UnderRoot(d, d[j].parent);
    }
  }

  /** The text nodes of the subtree of `c`, in document order. */
  function TextsIn(d: Document, c: nat): (texts: seq<nat>)
    ensures forall k :: 0 <= k < |texts| ==> texts[k] < |d| && d[texts[k]].TextNode? && InSubtree(d, texts[k], c)
    ensures forall j {:trigger InSubtree(d, j, c)} :: 0 <= j < |d| && d[j].TextNode? && InSubtree(d, j, c) ==> j in texts
    ensures forall k, l :: 0 <= k < l < |texts| ==> texts[k] < texts[l]
  {
    var holds := (j: nat) => j < |d| && d[j].TextNode? && InSubtree(d, j, c);
    WhereComplete(|d|, holds);
    Where(|d|, holds)
  }

  /** Every node listed is a text node of `d`. */
  predicate AllTexts(d: Document, texts: seq<nat>) {
    forall k :: 0 <= k < |texts| ==> texts[k] < |d| && d[texts[k]].TextNode?
  }

  /** The stripped, non-empty strings of the given text nodes, in order. */
  function StrippedOf(d: Document, texts: seq<nat>): (strings: seq<string>)
    requires AllTexts(d, texts)
    ensures forall k :: 0 <= k < |strings| ==> strings[k] != "" && IsStripped(strings[k])
    ensures forall k :: 0 <= k < |strings| ==> exists t :: t in texts && strings[k] == Strip(d[t].content)
  {
    if texts == [] then []
    else
      var n := |texts| - 1;
      var s := Strip(d[texts[n]].content);
      var earlier := StrippedOf(d, texts[..n]);
      assert forall t :: t in texts[..n] ==> t in texts;
      if s == "" then earlier else earlier + [s]
  }

  /** The string one text node contributes: its stripped content, unless that is empty. */
  function Piece(d: Document, t: nat): seq<string>
    requires t < |d| && d[t].TextNode?
  {
    var s := Strip(d[t].content);
    if s == "" then [] else [s]
  }

  lemma AllTextsConcat(d: Document, a: seq<nat>, b: seq<nat>)
    requires AllTexts(d, a) && AllTexts(d, b)
    ensures AllTexts(d, a + b)
  {
    forall k | 0 <= k < |a + b| ensures (a + b)[k] < |d| && d[(a + b)[k]].TextNode? {
      if k < |a| {
        assert (a + b)[k] == a[k];
      } else {
        assert (a + b)[k] == b[k - |a|];
      }
    }
  }

  lemma ConcatLast<T>(a: seq<T>, b: seq<T>)
    requires b != []
    ensures a + b == (a + b[..|b| - 1]) + [b[|b| - 1]]
    ensures b == b[..|b| - 1] + [b[|b| - 1]]
  {
  }

  /** One more text node appends its piece. */
  lemma StrippedOfSnoc(d: Document, texts: seq<nat>, t: nat)
    requires AllTexts(d, texts) && t < |d| && d[t].TextNode?
    ensures AllTexts(d, texts + [t])
    ensures StrippedOf(d, texts + [t]) == StrippedOf(d, texts) + Piece(d, t)
  {
    assert (texts + [t])[..|texts|] == texts;
  }

  /** The strings of consecutive runs of text nodes follow one another: document order is kept. */
  lemma {:induction false} StrippedOfConcat(d: Document, a: seq<nat>, b: seq<nat>)
    requires AllTexts(d, a) && AllTexts(d, b)
    ensures AllTexts(d, a + b)
    ensures StrippedOf(d, a + b) == StrippedOf(d, a) + StrippedOf(d, b)
    decreases |b|
  {
    AllTextsConcat(d, a, b);
    if b == [] {
      assert a + b == a;
    } else {
      var n := |b| - 1;
      var t := b[n];
      assert AllTexts(d, b[..n]);
      StrippedOfConcat(d, a, b[..n]);
      ConcatLast(a, b);
      StrippedOfSnoc(d, a + b[..n], t);
      StrippedOfSnoc(d, b[..n], t);
    }
  }

  /** No text node with a non-blank string is dropped. */
  lemma {:induction false} StrippedOfComplete(d: Document, texts: seq<nat>, k: nat)
    requires AllTexts(d, texts) && k < |texts|
    requires Strip(d[texts[k]].content) != ""
    ensures Strip(d[texts[k]].content) in StrippedOf(d, texts)
  {
    var n := |texts| - 1;
    assert AllTexts(d, texts[..n]);
    assert texts == texts[..n] + [texts[n]];
    StrippedOfSnoc(d, texts[..n], texts[n]);
    if k < n {
      assert texts[..n][k] == texts[k];
      StrippedOfComplete(d, texts[..n], k);
    }
  }

  /** BeautifulSoup's `stripped_strings` of node `c`: non-blank, stripped strings, taken in document order. */
  function StrippedStrings(d: Document, c: nat): (strings: seq<string>)
    ensures forall k :: 0 <= k < |strings| ==> strings[k] != "" && IsStripped(strings[k])
  {
    StrippedOf(d, TextsIn(d, c))
  }

  /** Each of the strings is the stripped content of a text node below `c`. */
  lemma StrippedStringsOrigin(d: Document, c: nat, k: nat)
    requires k < |StrippedStrings(d, c)|
    ensures exists t :: 0 <= t < |d| && d[t].TextNode? && InSubtree(d, t, c) && StrippedStrings(d, c)[k] == Strip(d[t].content)
  {
    var texts := TextsIn(d, c);
    var t :| t in texts && StrippedStrings(d, c)[k] == Strip(d[t].content);
  }

  /** `stripped_strings` lists, in document order, every text node below `c` whose string is not blank. */
  lemma StrippedStringsComplete(d: Document, c: nat, t: nat)
    requires t < |d| && d[t].TextNode? && InSubtree(d, t, c) && Strip(d[t].content) != ""
    ensures Strip(d[t].content) in StrippedStrings(d, c)
  {
    var texts := TextsIn(d, c);
    var k :| 0 <= k < |texts| && texts[k] == t;
    StrippedOfComplete(d, texts, k);
  }

  /** BeautifulSoup's `get_text(" ", strip=True)` of node `c`: empty exactly when there is no string, and stripped. */
  function GetText(d: Document, c: nat): (text: string)
    ensures IsStripped(text)
    ensures text == "" <==> StrippedStrings(d, c) == []
  {
    var strings := StrippedStrings(d, c);
    JoinStripped(strings, ' ');
    Join(strings, ' ')
  }

  /**
   * The text holds every string of the subtree, and nothing but those
   * strings and the separating spaces: a keyword in any string of the
   * subtree is in the text.
   */
  lemma GetTextHolds(d: Document, c: nat)
    ensures forall k :: 0 <= k < |StrippedStrings(d, c)| ==> Contains(GetText(d, c), StrippedStrings(d, c)[k])
    ensures forall ch :: ch in GetText(d, c) && ch != ' ' ==>
      exists k :: 0 <= k < |StrippedStrings(d, c)| && ch in StrippedStrings(d, c)[k]
  {
    var strings := StrippedStrings(d, c);
    forall k | 0 <= k < |strings| ensures Contains(GetText(d, c), strings[k]) {
      JoinContains(strings, ' ', k);
    }
    forall ch | ch in GetText(d, c) && ch != ' ' ensures exists k :: 0 <= k < |strings| && ch in strings[k] {
      JoinChars(strings, ' ', ch);
    }
  }
}
