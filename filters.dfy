/**
 * `add_filters`: overwrite named query parameters of a product URL. The URL
 * is held in the form `urlparse` and `parse_qs` give it: six components, the
 * query as an insertion-ordered dictionary from name to list of values.
 */
module Filters {

  /** A parsed query string: its names in insertion order and the value list of each. */
  datatype QueryDict = QueryDict(keys: seq<string>, values: map<string, seq<string>>)

  /** The six components of `urlparse`, with the query already parsed. */
  datatype Url = Url(scheme: string, netloc: string, path: string, params: string, query: QueryDict, fragment: string)

  /** A Python dictionary: no name twice, and the order lists exactly the names present. */
  ghost predicate Valid(q: QueryDict) {
    && (forall i, j :: 0 <= i < j < |q.keys| ==> q.keys[i] != q.keys[j])
    && (forall k :: k in q.values <==> k in q.keys)
  }

  /** A filter set given as the items of a Python dictionary: no name twice. */
  predicate IsFilterSet(filters: seq<(string, string)>) {
    forall i, j :: 0 <= i < j < |filters| ==> filters[i].0 != filters[j].0
  }

  /** The filters of the lowest-price request (app.py:12-16). */
  const DefaultFilters: seq<(string, string)> :=
    [("sellerCountry", "12"), ("language", "2"), ("minCondition", "2")]

  /** The filters of the median-price request (app.py:148-150). */
  const MedianFilters: seq<(string, string)> :=
    [("sellerCountry", "12"), ("sellerType", "1"), ("language", "2"), ("minCondition", "2")]

  /** Both filter sets are dictionary items: their names are pairwise distinct. */
  lemma FilterSetsDistinct()
    ensures IsFilterSet(DefaultFilters) && IsFilterSet(MedianFilters)
  {
    var names := ["sellerCountry", "sellerType", "language", "minCondition"];
    assert |names[0]| == 13 && |names[1]| == 10 && |names[2]| == 8 && |names[3]| == 12;
    assert forall i :: 0 <= i < |DefaultFilters| ==> DefaultFilters[i].0 in {names[0], names[2], names[3]};
    assert forall i :: 0 <= i < |MedianFilters| ==> MedianFilters[i].0 == names[i];
  }

  /** Python's `query[k] = vs`: an existing name keeps its place, a new one goes last. */
  function Assign(q: QueryDict, k: string, vs: seq<string>): (r: QueryDict)
    ensures Valid(q) ==> Valid(r)
    ensures k in r.values && r.values[k] == vs
    ensures forall j :: j != k ==> (j in r.values <==> j in q.values)
    ensures forall j :: j != k && j in q.values ==> r.values[j] == q.values[j]
    ensures |q.keys| <= |r.keys| && r.keys[..|q.keys|] == q.keys
    ensures Valid(q) && k in q.keys ==> r.keys == q.keys
    ensures Valid(q) && k !in q.keys ==> r.keys == q.keys + [k]
  {
    if k in q.values then QueryDict(q.keys, q.values[k := vs])
    else QueryDict(q.keys + [k], q.values[k := vs])
  }

  /** The query after the loop of `add_filters` has visited `filters` in order. */
  function ApplyFilters(q: QueryDict, filters: seq<(string, string)>): QueryDict
  {
    if filters == [] then q
    else
      var last := filters[|filters| - 1];
      Assign(ApplyFilters(q, filters[..|filters| - 1]), last.0, [last.1])
  }

  /** The overrides a filter set denotes: each name bound to the one-element list of its value. */
  function Overrides(filters: seq<(string, string)>): map<string, seq<string>>
  {
    if filters == [] then map[]
    else
      var last := filters[|filters| - 1];
      Overrides(filters[..|filters| - 1])[last.0 := [last.1]]
  }

  /** `add_filters` (app.py:67-73): the loop `query[k] = [v]` over the filter items. */
  method AddFilters(url: Url, filters: seq<(string, string)>) returns (filtered: Url)
    requires Valid(url.query) && IsFilterSet(filters)
    ensures filtered == url.(query := ApplyFilters(url.query, filters))
    ensures Valid(filtered.query)
    ensures forall i :: 0 <= i < |filters| ==>
      filters[i].0 in filtered.query.values && filtered.query.values[filters[i].0] == [filters[i].1]
    ensures forall k :: k !in Overrides(filters) ==>
      (k in filtered.query.values <==> k in url.query.values) &&
      (k in url.query.values ==> filtered.query.values[k] == url.query.values[k])
  {
    var query := url.query;
    for i := 0 to |filters|
      invariant query == ApplyFilters(url.query, filters[..i])
    {
      var (k, v) := filters[i];
      assert filters[..i + 1][..i] == filters[..i];
      query := Assign(query, k, [v]);
    }
    assert filters[..|filters|] == filters;
    filtered := url.(query := query);
    ApplyFiltersValues(url.query, filters);
    ApplyFiltersKeys(url.query, filters);
    forall i | 0 <= i < |filters|
      ensures filters[i].0 in filtered.query.values && filtered.query.values[filters[i].0] == [filters[i].1]
    {
      OverridesAt(filters, i);
    }
  }

  /** The loop's effect on the values: the old dictionary updated by the overrides, later entries winning. */
  lemma {:induction false} ApplyFiltersValues(q: QueryDict, filters: seq<(string, string)>)
    ensures ApplyFilters(q, filters).values == q.values + Overrides(filters)
  {
    if filters != [] {
      var n := |filters| - 1;
      ApplyFiltersValues(q, filters[..n]);
      var last := filters[n];
      assert (q.values + Overrides(filters[..n]))[last.0 := [last.1]]
          == q.values + Overrides(filters[..n])[last.0 := [last.1]];
    }
  }

  /**
   * The filter names not among `known`, in the order the filters list them,
   * each taken at its first occurrence.
   */
  function NewNames(known: seq<string>, filters: seq<(string, string)>): (names: seq<string>)
    ensures forall k :: k in names <==> k !in known && exists i :: 0 <= i < |filters| && filters[i].0 == k
    ensures forall i, j :: 0 <= i < j < |names| ==> names[i] != names[j]
  {
    if filters == [] then []
    else
      var n := |filters| - 1;
      var earlier := NewNames(known, filters[..n]);
      assert forall i :: 0 <= i < n ==> filters[..n][i] == filters[i];
      if filters[n].0 in known || filters[n].0 in earlier then earlier else earlier + [filters[n].0]
  }

  /** The loop keeps a dictionary valid, keeps the old names first and in order, and adds exactly the filter names. */
  lemma {:induction false} ApplyFiltersKeys(q: QueryDict, filters: seq<(string, string)>)
    requires Valid(q)
    ensures Valid(ApplyFilters(q, filters))
    ensures |q.keys| <= |ApplyFilters(q, filters).keys|
    ensures ApplyFilters(q, filters).keys[..|q.keys|] == q.keys
    ensures forall k :: k in ApplyFilters(q, filters).values <==> k in q.values || k in Overrides(filters)
  {
    if filters != [] {
      var n := |filters| - 1;
      ApplyFiltersKeys(q, filters[..n]);
      var before := ApplyFilters(q, filters[..n]);
      assert before.keys[..|q.keys|] == q.keys;
      assert ApplyFilters(q, filters).keys[..|before.keys|] == before.keys;
      assert ApplyFilters(q, filters).keys[..|q.keys|] == before.keys[..|q.keys|];
    }
  }

  /** The names the loop adds follow the old ones, in the order the filters list them. */
  lemma {:induction false} ApplyFiltersOrder(q: QueryDict, filters: seq<(string, string)>)
    requires Valid(q)
    ensures ApplyFilters(q, filters).keys == q.keys + NewNames(q.keys, filters)
  {
    if filters != [] {
      ApplyFiltersOrder(q, filters[..|filters| - 1]);
      ApplyFiltersOrderStep(q, filters);
    }
  }

  lemma {:induction false} ApplyFiltersOrderStep(q: QueryDict, filters: seq<(string, string)>)
    requires Valid(q) && filters != []
    requires ApplyFilters(q, filters[..|filters| - 1]).keys == q.keys + NewNames(q.keys, filters[..|filters| - 1])
    ensures ApplyFilters(q, filters).keys == q.keys + NewNames(q.keys, filters)
  {
    var n := |filters| - 1;
    var before := ApplyFilters(q, filters[..n]);
    var names := NewNames(q.keys, filters[..n]);
    var k := filters[n].0;
    assert ApplyFilters(q, filters).keys == if k in before.values then before.keys else before.keys + [k];
    assert k in before.values <==> k in q.keys || k in names by {
      ApplyFiltersKeys(q, filters[..n]);
      assert k in before.values <==> k in before.keys;
    }
    if k in q.keys || k in names {
      assert NewNames(q.keys, filters) == names;
    } else {
      assert NewNames(q.keys, filters) == names + [k];
      assert (q.keys + names) + [k] == q.keys + (names + [k]);
    }
  }

  /** In a filter set each name is overridden by its own value. */
  lemma {:induction false} OverridesAt(filters: seq<(string, string)>, i: nat)
    requires IsFilterSet(filters) && i < |filters|
    ensures filters[i].0 in Overrides(filters) && Overrides(filters)[filters[i].0] == [filters[i].1]
  {
    var n := |filters| - 1;
    if i < n {
      OverridesAt(filters[..n], i);
    }
  }

  /** The overrides bind exactly the names of the filter set. */
  lemma {:induction false} OverridesKeys(filters: seq<(string, string)>)
    ensures forall k :: k in Overrides(filters) <==> exists i :: 0 <= i < |filters| && filters[i].0 == k
  {
    if filters != [] {
      var n := |filters| - 1;
      OverridesKeys(filters[..n]);
      forall k | k in Overrides(filters)
        ensures exists i :: 0 <= i < |filters| && filters[i].0 == k
      {
        if k != filters[n].0 {
          assert k in Overrides(filters[..n]);
          var i :| 0 <= i < n && filters[..n][i].0 == k;
          assert filters[i].0 == k;
        }
      }
      forall k, i | 0 <= i < |filters| && filters[i].0 == k
        ensures k in Overrides(filters)
      {
        if i < n {
          assert filters[..n][i].0 == k;
        }
      }
    }
  }

  /** A name that the loop only overwrites leaves the order of names as it is. */
  lemma {:induction false} ApplyKnownNames(q: QueryDict, filters: seq<(string, string)>)
    requires forall k :: k in Overrides(filters) ==> k in q.values
    ensures ApplyFilters(q, filters).keys == q.keys
  {
    if filters != [] {
      var n := |filters| - 1;
      assert filters[n].0 in Overrides(filters);
      forall k | k in Overrides(filters[..n]) ensures k in q.values {
        OverridesMonotone(filters, n, k);
      }
      ApplyKnownNames(q, filters[..n]);
      ApplyFiltersValues(q, filters[..n]);
    }
  }

  lemma OverridesMonotone(filters: seq<(string, string)>, n: nat, k: string)
    requires n == |filters| - 1 && k in Overrides(filters[..n])
    ensures k in Overrides(filters)
  {
  }

  /** Applying the same filters twice gives the same query as applying them once. */
  lemma ApplyFiltersIdempotent(q: QueryDict, filters: seq<(string, string)>)
    ensures ApplyFilters(ApplyFilters(q, filters), filters) == ApplyFilters(q, filters)
  {
    var once := ApplyFilters(q, filters);
    ApplyFiltersValues(q, filters);
    ApplyFiltersValues(once, filters);
    assert once.values + Overrides(filters) == once.values;
    ApplyKnownNames(once, filters);
  }
}
