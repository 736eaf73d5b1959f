/**
 * The string primitives the scraper relies on, with Python's semantics:
 * `str.strip()`, the substring test `t in s`, `str.split(sep)` and
 * `str.split(sep, 1)`. Strings are sequences of code points.
 */
module Text {

  /** The code points for which Python's `str.isspace()` holds; `str.strip()` removes them. */
  predicate IsSpace(c: char) {
    || c == ' '
    || ('\t' <= c <= '\r')
    || ('\U{001C}' <= c <= '\U{001F}')
    || c == '\U{0085}' || c == '\U{00A0}' || c == '\U{1680}'
    || ('\U{2000}' <= c <= '\U{200A}')
    || c == '\U{2028}' || c == '\U{2029}' || c == '\U{202F}' || c == '\U{205F}' || c == '\U{3000}'
  }

  /** A string that `strip()` leaves alone: empty, or bounded by non-space characters. */
  predicate IsStripped(s: string) {
    s == [] || (!IsSpace(s[0]) && !IsSpace(s[|s| - 1]))
  }

  /** Every character of `s` is whitespace (vacuously so for the empty string). */
  predicate AllSpace(s: string) {
    forall i :: 0 <= i < |s| ==> IsSpace(s[i])
  }

  /** Python's `t in s` on strings: `t` occurs in `s` as a contiguous substring. */
  predicate Contains(s: string, t: string)
    decreases |s|
  {
    t <= s || (s != [] && Contains(s[1..], t))
  }

  /** Number of whitespace characters at the start of `s`. */
  function LeadingSpaces(s: string): (n: nat)
    ensures n <= |s|
    ensures AllSpace(s[..n])
    ensures n < |s| ==> !IsSpace(s[n])
  {
    if s == [] || !IsSpace(s[0]) then 0 else 1 + LeadingSpaces(s[1..])
  }

  /** Number of whitespace characters at the end of `s`. */
  function TrailingSpaces(s: string): (n: nat)
    ensures n <= |s|
    ensures AllSpace(s[|s| - n..])
    ensures n < |s| ==> !IsSpace(s[|s| - 1 - n])
  {
    if s == [] || !IsSpace(s[|s| - 1]) then 0 else 1 + TrailingSpaces(s[..|s| - 1])
  }

  /** `r` is `s[i..j]` with some whitespace cut from its start and some from its end. */
  predicate Trims(s: string, i: nat, j: nat, r: string)
    requires i <= j <= |s|
  {
    exists a, b :: i <= a <= b <= j && r == s[a..b] && AllSpace(s[i..a]) && AllSpace(s[b..j])
  }

  /** Python's `str.strip()`: `s` without its leading and trailing whitespace. */
  function Strip(s: string): (r: string)
    ensures Contains(s, r)
    ensures IsStripped(r)
    ensures r == [] <==> AllSpace(s)
    ensures IsStripped(s) ==> r == s
    ensures s != [] && !IsSpace(s[|s| - 1]) ==> r != [] && r[|r| - 1] == s[|s| - 1]
  {
    var a := LeadingSpaces(s);
    if a == |s| then
      assert s[..a] == s;
      ContainsEmpty(s);
      ""
    else
      var b := |s| - TrailingSpaces(s);
      assert a < b by {
        var tail := s[b..];
        assert forall j :: b <= j < |s| ==> s[j] == tail[j - b];
        assert !IsSpace(s[a]);
      }
      assert !AllSpace(s) by { assert !IsSpace(s[a]); }
      ContainsSlice(s, a, b);
      s[a..b]
  }

  lemma {:induction false} ContainsEmpty(s: string)
    ensures Contains(s, "")
  {
  }

  /** Every slice of `s` occurs in `s`. */
  lemma {:induction false} ContainsSlice(s: string, i: nat, j: nat)
    requires i <= j <= |s|
    ensures Contains(s, s[i..j])
    decreases i
  {
    if i == 0 {
      assert s[..j] <= s;
    } else {
      ContainsSlice(s[1..], i - 1, j - 1);
      assert s[1..][i - 1..j - 1] == s[i..j];
    }
  }

  /** A substring of a substring of `s` is a substring of `s`. */
  lemma {:induction false} ContainsTransitive(s: string, t: string, u: string)
    requires Contains(s, t) && Contains(t, u)
    ensures Contains(s, u)
    decreases |s|
  {
    if t <= s {
      ContainsPrefix(s, t, u);
    } else {
      ContainsTransitive(s[1..], t, u);
    }
  }

  lemma {:induction false} ContainsPrefix(s: string, t: string, u: string)
    requires t <= s && Contains(t, u)
    ensures Contains(s, u)
    decreases |t|
  {
    if u <= t {
      assert u <= s;
    } else {
      ContainsPrefix(s[1..], t[1..], u);
    }
  }

  /** A character occurs as a one-character substring exactly when it is an element. */
  lemma {:induction false} ContainsChar(s: string, c: char)
    ensures Contains(s, [c]) <==> c in s
    decreases |s|
  {
    if s != [] {
      ContainsChar(s[1..], c);
      assert s == [s[0]] + s[1..];
    }
  }

  /** Every character of a substring of `s` is a character of `s`. */
  lemma CharOfSubstring(s: string, t: string, c: char)
    requires Contains(s, t)
    ensures c in t ==> c in s
  {
    if c in t {
      ContainsChar(t, c);
      ContainsTransitive(s, t, [c]);
      ContainsChar(s, c);
    }
  }

  /** `strip()` cuts whitespace, and only whitespace, from the two ends of `s`. */
  lemma StripTrims(s: string)
    ensures Trims(s, 0, |s|, Strip(s))
  {
    StripOfSlice(s, 0, |s|);
    assert s[0..|s|] == s;
  }

  /** Stripping a slice `s[i..j]` keeps a slice of it, cutting only whitespace on either side. */
  lemma StripOfSlice(s: string, i: nat, j: nat)
    requires i <= j <= |s|
    ensures Trims(s, i, j, Strip(s[i..j]))
  {
    var a, b := StripBounds(s[i..j]);
    TrimsOfSlice(s, i, j, a, b);
  }

  /** Cutting whitespace from the two ends of the slice `s[i..j]` leaves a slice of `s`. */
  lemma TrimsOfSlice(s: string, i: nat, j: nat, a: nat, b: nat)
    requires i <= j <= |s| && a <= b <= j - i
    requires AllSpace(s[i..j][0..a]) && AllSpace(s[i..j][b..j - i])
    ensures Trims(s, i, j, s[i..j][a..b])
  {
    AllSpaceShift(s, i, j, 0, a);
    AllSpaceShift(s, i, j, b, j - i);
    SliceOfSlice(s, i, j, a, b);
    TrimsIntro(s, i, j, s[i + a..i + b], i + a, i + b);
  }

  /** The two cut points of `strip()`. */
  lemma StripBounds(t: string) returns (a: nat, b: nat)
    ensures a <= b <= |t| && Strip(t) == t[a..b]
    ensures AllSpace(t[0..a]) && AllSpace(t[b..|t|])
  {
    a := LeadingSpaces(t);
    assert t[0..a] == t[..a];
    if a == |t| {
      b := a;
    } else {
      b := |t| - TrailingSpaces(t);
      assert t[b..|t|] == t[|t| - TrailingSpaces(t)..];
    }
  }

  /**
   * Conversely, cutting whitespace from the two ends of `s` until both ends
   * are non-space characters yields exactly `strip()`.
   */
  lemma StripUnique(s: string, a: nat, b: nat)
    requires a < b <= |s|
    requires AllSpace(s[..a]) && AllSpace(s[b..])
    requires !IsSpace(s[a]) && !IsSpace(s[b - 1])
    ensures Strip(s) == s[a..b]
  {
    var n := LeadingSpaces(s);
    assert forall k :: 0 <= k < a ==> IsSpace(s[k]) by {
      forall k | 0 <= k < a ensures IsSpace(s[k]) { assert s[..a][k] == s[k]; }
    }
    assert forall k :: 0 <= k < n ==> IsSpace(s[k]) by {
      forall k | 0 <= k < n ensures IsSpace(s[k]) { assert s[..n][k] == s[k]; }
    }
    assert n == a;
    var m := TrailingSpaces(s);
    assert forall k :: b <= k < |s| ==> IsSpace(s[k]) by {
      forall k | b <= k < |s| ensures IsSpace(s[k]) { assert s[b..][k - b] == s[k]; }
    }
    assert forall k :: |s| - m <= k < |s| ==> IsSpace(s[k]) by {
      forall k | |s| - m <= k < |s| ensures IsSpace(s[k]) { assert s[|s| - m..][k - (|s| - m)] == s[k]; }
    }
    assert m == |s| - b;
  }

  /** A non-empty stripped string cut from `s[i..j]` by trimming whitespace only is the strip of `s[i..j]`. */
  lemma TrimsStripped(s: string, i: nat, j: nat, r: string)
    requires i <= j <= |s| && Trims(s, i, j, r)
    requires r != "" && IsStripped(r)
    ensures r == Strip(s[i..j])
  {
    var a, b := TrimsWitness(s, i, j, r);
    StripOfSlice(s, i, j);
    var p := Strip(s[i..j]);
    var a2, b2 := TrimsWitness(s, i, j, p);
    NotAllSpace(s, i, j, a, b);
    TrimsUnique(s, i, j, a, b, r, a2, b2, p);
  }

  lemma TrimsWitness(s: string, i: nat, j: nat, r: string) returns (a: nat, b: nat)
    requires i <= j <= |s| && Trims(s, i, j, r)
    ensures i <= a <= b <= j && r == s[a..b] && AllSpace(s[i..a]) && AllSpace(s[b..j])
  {
    a, b :| i <= a <= b <= j && r == s[a..b] && AllSpace(s[i..a]) && AllSpace(s[b..j]);
  }

  lemma NotAllSpace(s: string, i: nat, j: nat, a: nat, b: nat)
    requires i <= a < b <= j <= |s| && !IsSpace(s[a])
    ensures !AllSpace(s[i..j])
  {
    assert s[i..j][a - i] == s[a];
  }

  /** Two non-empty stripped strings cut from `s[i..j]` by trimming whitespace only are the same. */
  lemma TrimsUnique(s: string, i: nat, j: nat, a: nat, b: nat, r: string, a2: nat, b2: nat, p: string)
    requires i <= a <= b <= j <= |s| && i <= a2 <= b2 <= j
    requires r == s[a..b] && p == s[a2..b2]
    requires AllSpace(s[i..a]) && AllSpace(s[b..j]) && AllSpace(s[i..a2]) && AllSpace(s[b2..j])
    requires r != [] && IsStripped(r) && p != [] && IsStripped(p)
    ensures r == p
  {
    assert r[0] == s[a] && r[|r| - 1] == s[b - 1];
    assert p[0] == s[a2] && p[|p| - 1] == s[b2 - 1];
    assert forall k :: i <= k < a ==> IsSpace(s[k]) by {
      forall k | i <= k < a ensures IsSpace(s[k]) { assert s[i..a][k - i] == s[k]; }
    }
    assert forall k :: i <= k < a2 ==> IsSpace(s[k]) by {
      forall k | i <= k < a2 ensures IsSpace(s[k]) { assert s[i..a2][k - i] == s[k]; }
    }
    assert forall k :: b <= k < j ==> IsSpace(s[k]) by {
      forall k | b <= k < j ensures IsSpace(s[k]) { assert s[b..j][k - b] == s[k]; }
    }
    assert forall k :: b2 <= k < j ==> IsSpace(s[k]) by {
      forall k | b2 <= k < j ensures IsSpace(s[k]) { assert s[b2..j][k - b2] == s[k]; }
    }
    assert a == a2 && b == b2;
  }

  lemma SliceOfSlice(s: string, i: nat, j: nat, a: nat, b: nat)
    requires i <= j <= |s| && a <= b <= j - i
    ensures s[i..j][a..b] == s[i + a..i + b]
  {
    var t := s[i..j];
    assert forall k :: 0 <= k < b - a ==> t[a..b][k] == t[a + k] == s[i + a + k];
  }

  lemma AllSpaceShift(s: string, i: nat, j: nat, x: nat, y: nat)
    requires i <= j <= |s| && x <= y <= j - i
    requires AllSpace(s[i..j][x..y])
    ensures AllSpace(s[i + x..i + y])
  {
    SliceOfSlice(s, i, j, x, y);
  }

  lemma TrimsIntro(s: string, i: nat, j: nat, r: string, a: nat, b: nat)
    requires i <= a <= b <= j <= |s|
    requires r == s[a..b] && AllSpace(s[i..a]) && AllSpace(s[b..j])
    ensures Trims(s, i, j, r)
  {
    assert i <= a <= b <= j && r == s[a..b] && AllSpace(s[i..a]) && AllSpace(s[b..j]);
  }

  /** Stripping removes only whitespace: a non-space character survives it. */
  lemma StripKeeps(s: string, c: char)
    requires !IsSpace(c)
    ensures c in Strip(s) <==> c in s
  {
    var a, b := StripBounds(s);
    var r := s[a..b];
    assert forall p :: 0 <= p < |r| ==> r[p] == s[a + p];
    assert forall p :: 0 <= p < a ==> IsSpace(s[p]) by {
      forall p | 0 <= p < a ensures IsSpace(s[p]) { assert s[0..a][p] == s[p]; }
    }
    assert forall p :: b <= p < |s| ==> IsSpace(s[p]) by {
      forall p | b <= p < |s| ensures IsSpace(s[p]) { assert s[b..|s|][p - b] == s[p]; }
    }
    if c in s {
      var p :| 0 <= p < |s| && s[p] == c;
      assert a <= p < b;
      assert s[a..b][p - a] == c;
    }
  }

  /** Index of the first `c` in `s`, or `|s|` when there is none. */
  function FindChar(s: string, c: char): (i: nat)
    ensures i <= |s|
    ensures c !in s[..i]
    ensures i < |s| ==> s[i] == c
    ensures i == |s| <==> c !in s
  {
    if s == [] then 0
    else if s[0] == c then 0
    else
      assert s[1..][..FindChar(s[1..], c)] == s[1..1 + FindChar(s[1..], c)];
      1 + FindChar(s[1..], c)
  }

  /** The inverse of `SplitOn`: the pieces glued back with the separator between them. */
  function Join(pieces: seq<string>, sep: char): string
  {
    if pieces == [] then ""
    else if |pieces| == 1 then pieces[0]
    else pieces[0] + [sep] + Join(pieces[1..], sep)
  }

  /** Joining non-empty stripped pieces gives a stripped string, empty only for no pieces. */
  lemma {:induction false} JoinStripped(pieces: seq<string>, sep: char)
    requires forall k :: 0 <= k < |pieces| ==> pieces[k] != "" && IsStripped(pieces[k])
    ensures IsStripped(Join(pieces, sep))
    ensures Join(pieces, sep) == "" <==> pieces == []
    ensures pieces != [] ==> Join(pieces, sep)[0] == pieces[0][0]
    ensures pieces != [] ==> Join(pieces, sep)[|Join(pieces, sep)| - 1] == pieces[|pieces| - 1][|pieces[|pieces| - 1]| - 1]
    decreases |pieces|
  {
    if |pieces| > 1 {
      JoinStripped(pieces[1..], sep);
      var rest := Join(pieces[1..], sep);
      assert Join(pieces, sep) == pieces[0] + [sep] + rest;
      assert pieces[1..][|pieces[1..]| - 1] == pieces[|pieces| - 1];
    }
  }

  /** Every piece occurs in the joined string. */
  lemma {:induction false} JoinContains(pieces: seq<string>, sep: char, k: nat)
    requires k < |pieces|
    ensures Contains(Join(pieces, sep), pieces[k])
    decreases |pieces|
  {
    var joined := Join(pieces, sep);
    if |pieces| == 1 {
      assert joined[0..|joined|] == pieces[0];
      ContainsSlice(joined, 0, |joined|);
    } else {
      var rest := Join(pieces[1..], sep);
      assert joined == pieces[0] + [sep] + rest;
      if k == 0 {
        assert joined[0..|pieces[0]|] == pieces[0];
        ContainsSlice(joined, 0, |pieces[0]|);
      } else {
        JoinContains(pieces[1..], sep, k - 1);
        assert pieces[1..][k - 1] == pieces[k];
        assert joined[|pieces[0]| + 1..|joined|] == rest;
        ContainsSlice(joined, |pieces[0]| + 1, |joined|);
        ContainsTransitive(joined, rest, pieces[k]);
      }
    }
  }

  /** The joined string holds nothing but the separator and the characters of the pieces. */
  lemma {:induction false} JoinChars(pieces: seq<string>, sep: char, c: char)
    requires c in Join(pieces, sep) && c != sep
    ensures exists k :: 0 <= k < |pieces| && c in pieces[k]
    decreases |pieces|
  {
    if |pieces| == 1 {
      assert c in pieces[0];
    } else {
      var rest := Join(pieces[1..], sep);
      assert Join(pieces, sep) == pieces[0] + [sep] + rest;
      if c !in pieces[0] {
        assert c in rest;
        JoinChars(pieces[1..], sep, c);
        var k :| 0 <= k < |pieces[1..]| && c in pieces[1..][k];
        assert c in pieces[k + 1];
      }
    }
  }

  /** Python's `s.split(sep)` for a one-character separator: never empty, no piece holds `sep`. */
  function SplitOn(s: string, sep: char): (pieces: seq<string>)
    ensures |pieces| >= 1
    ensures forall k :: 0 <= k < |pieces| ==> sep !in pieces[k]
    ensures Join(pieces, sep) == s
    decreases |s|
  {
    var i := FindChar(s, sep);
    if i == |s| then
      assert s[..i] == s;
      [s]
    else
      var rest := SplitOn(s[i + 1..], sep);
      var pieces := [s[..i]] + rest;
      assert pieces[1..] == rest;
      assert Join(pieces, sep) == s[..i] + [sep] + Join(rest, sep);
      assert s == s[..i] + [sep] + s[i + 1..];
      assert forall k :: 1 <= k < |pieces| ==> pieces[k] == rest[k - 1];
      pieces
  }

  /** Splitting undoes joining when no piece holds the separator. */
  lemma {:induction false} SplitOnJoin(pieces: seq<string>, sep: char)
    requires |pieces| >= 1
    requires forall k :: 0 <= k < |pieces| ==> sep !in pieces[k]
    ensures SplitOn(Join(pieces, sep), sep) == pieces
    decreases |pieces|
  {
    var p := pieces[0];
    if |pieces| == 1 {
      assert FindChar(p, sep) == |p|;
    } else {
      var rest := Join(pieces[1..], sep);
      var s := p + [sep] + rest;
      FindCharAfter(p, sep, rest);
      assert s[..|p|] == p;
      assert s[|p| + 1..] == rest;
      SplitOnJoin(pieces[1..], sep);
      assert pieces == [p] + pieces[1..];
    }
  }

  lemma FindCharAfter(p: string, c: char, rest: string)
    requires c !in p
    ensures FindChar(p + [c] + rest, c) == |p|
  {
    var s := p + [c] + rest;
    assert s[|p|] == c;
    assert s[..|p|] == p;
  }

  /** Python's `s.split(sep, 1)` on a string that holds `sep`: the text before and after its first occurrence. */
  function SplitFirst(s: string, sep: char): (halves: (string, string))
    requires sep in s
    ensures sep !in halves.0
    ensures s == halves.0 + [sep] + halves.1
  {
    var i := FindChar(s, sep);
    assert s == s[..i] + [sep] + s[i + 1..];
    (s[..i], s[i + 1..])
  }
}
