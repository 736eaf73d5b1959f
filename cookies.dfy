/**
 * `parse_cookie_header`: turns a `name=value; name=value` header into a
 * dictionary. Segments are the pieces between `;`; a segment without `=`
 * is skipped, a kept one is split at its first `=`, both halves are
 * stripped, and a later segment overwrites an earlier one of the same name.
 */
module Cookies {
  import opened Text

  /** A segment the loop keeps: it holds an `=`. */
  predicate IsPair(segment: string) {
    '=' in segment
  }

  /**
   * The text before the first `=` of a kept segment with the whitespace on
   * both sides cut off.
   */
  function CookieName(segment: string): (name: string)
    requires IsPair(segment)
    ensures '=' !in name && IsStripped(name)
    ensures Contains(segment, name)
  {
    var raw := SplitFirst(segment, '=').0;
    CharOfSubstring(raw, Strip(raw), '=');
    assert segment[..|raw|] == raw;
    ContainsSlice(segment, 0, |raw|);
    ContainsTransitive(segment, raw, Strip(raw));
    Strip(raw)
  }

  /**
   * The text after the first `=` of a kept segment with the whitespace on
   * both sides cut off; it may itself hold `=`.
   */
  function CookieValue(segment: string): (value: string)
    requires IsPair(segment)
    ensures IsStripped(value)
    ensures Contains(segment, value)
  {
    var halves := SplitFirst(segment, '=');
    assert segment[|halves.0| + 1..] == halves.1;
    assert segment[|halves.0| + 1..|segment|] == halves.1;
    ContainsSlice(segment, |halves.0| + 1, |segment|);
    ContainsTransitive(segment, halves.1, Strip(halves.1));
    Strip(halves.1)
  }

  /**
   * Where a kept segment is cut: the name is the text before the first `=`
   * and the value the text after it, each with only whitespace removed
   * from its two ends.
   */
  lemma CookieSplit(segment: string)
    requires IsPair(segment)
    ensures Trims(segment, 0, FindChar(segment, '='), CookieName(segment))
    ensures Trims(segment, FindChar(segment, '=') + 1, |segment|, CookieValue(segment))
  {
    var halves := FirstEquals(segment);
    StripOfSlice(segment, 0, |halves.0|);
    StripOfSlice(segment, |halves.0| + 1, |segment|);
  }

  /** The halves `split("=", 1)` gives are the slices on either side of the first `=`. */
  lemma FirstEquals(segment: string) returns (halves: (string, string))
    requires IsPair(segment)
    ensures halves == SplitFirst(segment, '=') && |halves.0| == FindChar(segment, '=')
    ensures CookieName(segment) == Strip(segment[0..|halves.0|])
    ensures CookieValue(segment) == Strip(segment[|halves.0| + 1..|segment|])
  {
    halves := SplitFirst(segment, '=');
    FindCharAfter(halves.0, '=', halves.1);
    assert segment[0..|halves.0|] == halves.0;
    assert segment[|halves.0| + 1..|segment|] == halves.1;
  }

  /** The dictionary after the loop has visited `segments` in order. */
  function CookiesOf(segments: seq<string>): map<string, string>
  {
    if segments == [] then map[]
    else
      var last := segments[|segments| - 1];
      var earlier := CookiesOf(segments[..|segments| - 1]);
      if IsPair(last) then earlier[CookieName(last) := CookieValue(last)] else earlier
  }

  /** `parse_cookie_header`: the loop over the `;`-separated segments of the header. */
  method ParseCookieHeader(header: string) returns (cookies: map<string, string>)
    ensures cookies == CookiesOf(SplitOn(header, ';'))
    ensures forall name :: name in cookies ==> '=' !in name && ';' !in name && ';' !in cookies[name]
  {
    cookies := map[];
    var parts := SplitOn(header, ';');
    for i := 0 to |parts|
      invariant cookies == CookiesOf(parts[..i])
    {
      var part := parts[i];
      CookiesOfSnoc(parts[..i], part);
      assert parts[..i] + [part] == parts[..i + 1];
      if '=' in part {
        var halves := SplitFirst(part, '=');
        cookies := cookies[Strip(halves.0) := Strip(halves.1)];
      }
    }
    assert parts[..|parts|] == parts;
    CookiesFromSegments(parts);
  }

  /** Names and values come from kept segments, so they hold no `;` when the segments hold none. */
  lemma {:induction false} CookiesFromSegments(segments: seq<string>)
    requires forall k :: 0 <= k < |segments| ==> ';' !in segments[k]
    ensures forall name :: name in CookiesOf(segments) ==>
      '=' !in name && ';' !in name && ';' !in CookiesOf(segments)[name]
  {
    if segments != [] {
      var last := segments[|segments| - 1];
      CookiesFromSegments(segments[..|segments| - 1]);
      if IsPair(last) {
        CharOfSubstring(last, CookieName(last), ';');
        CharOfSubstring(last, CookieValue(last), ';');
      }
    }
  }

  /** A name is in the dictionary exactly when some kept segment carries it. */
  lemma CookieNameKept(segments: seq<string>, name: string)
    ensures name in CookiesOf(segments) <==>
      exists i :: 0 <= i < |segments| && IsPair(segments[i]) && CookieName(segments[i]) == name
  {
    if name in CookiesOf(segments) {
      var i := NameCarrier(segments, name);
    } else {
      forall i | 0 <= i < |segments| && IsPair(segments[i])
        ensures CookieName(segments[i]) != name
      {
        if CookieName(segments[i]) == name {
          CarriedName(segments, i);
        }
      }
    }
  }

  /** A name in the dictionary was carried by some kept segment. */
  lemma {:induction false} NameCarrier(segments: seq<string>, name: string) returns (i: nat)
    requires name in CookiesOf(segments)
    ensures i < |segments| && IsPair(segments[i]) && CookieName(segments[i]) == name
  {
    var n := |segments| - 1;
    assert segments[..n] + [segments[n]] == segments;
    CookiesOfSnoc(segments[..n], segments[n]);
    if IsPair(segments[n]) && CookieName(segments[n]) == name {
      i := n;
    } else {
      i := NameCarrier(segments[..n], name);
      assert segments[i] == segments[..n][i];
    }
  }

  /** The name of every kept segment is in the dictionary. */
  lemma {:induction false} CarriedName(segments: seq<string>, i: nat)
    requires i < |segments| && IsPair(segments[i])
    ensures CookieName(segments[i]) in CookiesOf(segments)
  {
    var n := |segments| - 1;
    assert segments[..n] + [segments[n]] == segments;
    CookiesOfSnoc(segments[..n], segments[n]);
    if i < n {
      assert segments[i] == segments[..n][i];
      CarriedName(segments[..n], i);
    }
  }

  /** The value stored under a name is that of the LAST kept segment carrying it. */
  lemma {:induction false} LastSegmentWins(segments: seq<string>, i: nat)
    requires i < |segments| && IsPair(segments[i])
    requires forall j :: i < j < |segments| && IsPair(segments[j]) ==> CookieName(segments[j]) != CookieName(segments[i])
    ensures CookieName(segments[i]) in CookiesOf(segments)
    ensures CookiesOf(segments)[CookieName(segments[i])] == CookieValue(segments[i])
  {
    var n := |segments| - 1;
    var earlier := segments[..n];
    var name := CookieName(segments[i]);
    assert earlier + [segments[n]] == segments;
    CookiesOfSnoc(earlier, segments[n]);
    if i < n {
      assert earlier[i] == segments[i];
      forall j | i < j < |earlier| && IsPair(earlier[j])
        ensures CookieName(earlier[j]) != name
      {
        assert earlier[j] == segments[j];
      }
      LastSegmentWins(earlier, i);
      if IsPair(segments[n]) {
        assert CookieName(segments[n]) != name;
      }
    }
  }

  /** Visiting one more segment updates the dictionary with it when it is kept. */
  lemma CookiesOfSnoc(segments: seq<string>, last: string)
    ensures CookiesOf(segments + [last]) ==
      if IsPair(last) then CookiesOf(segments)[CookieName(last) := CookieValue(last)] else CookiesOf(segments)
  {
    assert (segments + [last])[..|segments|] == segments;
  }

  /** A segment without `=` contributes nothing, wherever it stands. */
  lemma {:induction false} BareSegmentIgnored(before: seq<string>, bare: string, after: seq<string>)
    requires !IsPair(bare)
    ensures CookiesOf(before + [bare] + after) == CookiesOf(before + after)
    decreases |after|
  {
    if after == [] {
      CookiesOfSnoc(before, bare);
      assert before + [bare] + [] == before + [bare];
      assert before + [] == before;
    } else {
      var m := |after| - 1;
      var last := after[m];
      BareSegmentIgnored(before, bare, after[..m]);
      assert before + [bare] + after == (before + [bare] + after[..m]) + [last];
      assert before + after == (before + after[..m]) + [last];
      CookiesOfSnoc(before + [bare] + after[..m], last);
      CookiesOfSnoc(before + after[..m], last);
    }
  }

  /** The segment `name=value`, as a header writer would emit it. */
  function Segment(cookie: (string, string)): string
  {
    cookie.0 + "=" + cookie.1
  }

  /** The segments of a header written from `cookies`, in order. */
  function Segments(cookies: seq<(string, string)>): (segments: seq<string>)
    ensures |segments| == |cookies|
    ensures forall k :: 0 <= k < |cookies| ==> segments[k] == Segment(cookies[k])
  {
    if cookies == [] then [] else Segments(cookies[..|cookies| - 1]) + [Segment(cookies[|cookies| - 1])]
  }

  /** The dictionary a list of cookies denotes, a later entry overriding an earlier one. */
  function CookieMap(cookies: seq<(string, string)>): map<string, string>
  {
    if cookies == [] then map[]
    else CookieMap(cookies[..|cookies| - 1])[cookies[|cookies| - 1].0 := cookies[|cookies| - 1].1]
  }

  /** A name and a value a header can carry unchanged through parsing. */
  predicate Writable(cookie: (string, string)) {
    && '=' !in cookie.0 && ';' !in cookie.0 && ';' !in cookie.1
    && IsStripped(cookie.0) && IsStripped(cookie.1)
  }

  /** Splitting a written segment at its first `=` gives back the name and the value, even when the value holds `=`. */
  lemma SegmentRoundTrip(cookie: (string, string))
    requires '=' !in cookie.0 && IsStripped(cookie.0) && IsStripped(cookie.1)
    ensures IsPair(Segment(cookie))
    ensures CookieName(Segment(cookie)) == cookie.0 && CookieValue(Segment(cookie)) == cookie.1
  {
    var s := Segment(cookie);
    assert s == cookie.0 + ['='] + cookie.1;
    FindCharAfter(cookie.0, '=', cookie.1);
    assert s[..|cookie.0|] == cookie.0;
    assert s[|cookie.0| + 1..] == cookie.1;
  }

  /** Parsing a header written as `n1=v1;n2=v2;...` gives back the cookies, the last of a name winning. */
  lemma {:induction false} HeaderRoundTrip(cookies: seq<(string, string)>)
    requires forall k :: 0 <= k < |cookies| ==> Writable(cookies[k])
    ensures CookiesOf(SplitOn(Join(Segments(cookies), ';'), ';')) == CookieMap(cookies)
  {
    if cookies == [] {
      // The empty header splits into one empty segment, which holds no `=`.
      assert SplitOn("", ';') == [""];
      assert CookiesOf([""]) == CookiesOf([]);
      return;
    }
    var segments := Segments(cookies);
    forall k | 0 <= k < |segments| ensures ';' !in segments[k] {
      assert segments[k] == cookies[k].0 + ['='] + cookies[k].1;
    }
    SplitOnJoin(segments, ';');
    SegmentsDenote(cookies);
  }

  /** The written segments, parsed one by one, denote the cookies. */
  lemma {:induction false} SegmentsDenote(cookies: seq<(string, string)>)
    requires forall k :: 0 <= k < |cookies| ==> Writable(cookies[k])
    ensures CookiesOf(Segments(cookies)) == CookieMap(cookies)
  {
    if cookies != [] {
      var n := |cookies| - 1;
      SegmentsDenote(cookies[..n]);
      SegmentRoundTrip(cookies[n]);
      assert Segments(cookies) == Segments(cookies[..n]) + [Segment(cookies[n])];
      CookiesOfSnoc(Segments(cookies[..n]), Segment(cookies[n]));
    }
  }
}
