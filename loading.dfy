/** `loading_Data` (projectAttempt1.py lines 12-41): the listings of the
    twelve Metro Vancouver cities in British Columbia with one of four
    property types, ordered by locality. Reading and writing the CSV files
    is not modelled; the input is the table already read. */
module Loading {
  import opened Wrappers
  import opened Table

  const PropertyTypes: seq<string> := ["Single Family", "Condo", "Townhome", "MultiFamily"]

  const MetroVancouverCities: seq<string> := [
    "Vancouver", "Burnaby", "Richmond", "Surrey", "Coquitlam", "North Vancouver",
    "West Vancouver", "New Westminster", "Delta", "Port Coquitlam", "Port Moody", "Langley"
  ]

  /* ---------------------------------------------------------------- */
  /* Ordering by locality                                             */

  /** Python's string order: lexicographic on code points. */
  predicate LexLe(a: string, b: string) {
    if a == [] then true
    else if b == [] then false
    else if a[0] != b[0] then a[0] < b[0]
    else LexLe(a[1..], b[1..])
  }

  lemma {:induction false} LexTotal(a: string, b: string)
    ensures LexLe(a, b) || LexLe(b, a)
  {
    if a != [] && b != [] && a[0] == b[0] {
      LexTotal(a[1..], b[1..]);
    }
  }

  lemma {:induction false} LexTransitive(a: string, b: string, c: string)
    requires LexLe(a, b) && LexLe(b, c)
    ensures LexLe(a, c)
  {
    if a != [] && b != [] && c != [] && a[0] == b[0] == c[0] {
      LexTransitive(a[1..], b[1..], c[1..]);
    }
  }

  /** `sort_values(by='addressLocality')`: ascending, missing values last. */
  predicate LocalityLe(x: Listing, y: Listing) {
    match (x.locality, y.locality)
    case (_, None) => true
    case (None, Some(_)) => false
    case (Some(a), Some(b)) => LexLe(a, b)
  }

  lemma LocalityTotal(x: Listing, y: Listing)
    ensures LocalityLe(x, y) || LocalityLe(y, x)
  {
    if x.locality.Some? && y.locality.Some? {
      LexTotal(x.locality.value, y.locality.value);
    }
  }

  lemma LocalityTransitive(x: Listing, y: Listing, z: Listing)
    requires LocalityLe(x, y) && LocalityLe(y, z)
    ensures LocalityLe(x, z)
  {
    if x.locality.Some? && y.locality.Some? && z.locality.Some? {
      LexTransitive(x.locality.value, y.locality.value, z.locality.value);
    }
  }

  ghost predicate SortedByLocality(s: seq<Listing>) {
    forall i, j | 0 <= i < j < |s| :: LocalityLe(s[i], s[j])
  }

  /** Places r before the first row it does not follow. */
  function Insert(r: Listing, s: seq<Listing>): (t: seq<Listing>)
    requires SortedByLocality(s)
    ensures SortedByLocality(t)
    ensures multiset(t) == multiset(s) + multiset{r}
  {
    if s == [] then [r]
    else if LocalityLe(r, s[0]) then
      assert forall j | 0 < j < |s| :: LocalityLe(r, s[j]) by {
        forall j | 0 < j < |s| ensures LocalityLe(r, s[j]) { LocalityTransitive(r, s[0], s[j]); }
      }
      [r] + s
    else
      LocalityTotal(r, s[0]);
      var rest := Insert(r, s[1..]);
      assert s == [s[0]] + s[1..];
      assert forall x | x in multiset(rest) :: LocalityLe(s[0], x);
      [s[0]] + rest
  }

  /** The rows ordered by locality (pandas' default sort is not stable; this
      one is, which is one of the orders pandas may produce). */
  function SortByLocality(rows: seq<Listing>): (sorted: seq<Listing>)
    ensures SortedByLocality(sorted)
    ensures multiset(sorted) == multiset(rows)
  {
    if rows == [] then []
    else
      assert rows == [rows[0]] + rows[1..];
      Insert(rows[0], SortByLocality(rows[1..]))
  }

  /* ---------------------------------------------------------------- */
  /* The filters                                                      */

  predicate InBritishColumbia(r: Listing) {
    r.region == Some("BC")
  }

  predicate HasListedType(r: Listing) {
    r.propertyType.Text? && r.propertyType.text in PropertyTypes
  }

  predicate InMetroVancouver(r: Listing) {
    r.locality.Some? && r.locality.value in MetroVancouverCities
  }

  predicate Selected(r: Listing) {
    InBritishColumbia(r) && HasListedType(r) && InMetroVancouver(r)
  }

  /** Filtering keeps a sequence sorted. */
  lemma {:induction false} FilterKeepsSorted(p: Listing -> bool, s: seq<Listing>)
    requires SortedByLocality(s)
    ensures SortedByLocality(Filter(p, s))
  {
    if s != [] {
      FilterKeepsSorted(p, s[1..]);
      var rest := Filter(p, s[1..]);
      assert forall x | x in rest :: x in s[1..];
      assert forall x | x in rest :: LocalityLe(s[0], x);
    }
  }

  /** `loading_Data` (lines 17-36): region filter, sort by locality, then
      the property-type and city filters. */
  function LoadingData(rows: seq<Listing>): seq<Listing> {
    var inBC := Filter(InBritishColumbia, rows);
    var sorted := SortByLocality(inBC);
    var typed := Filter(HasListedType, sorted);
    Filter(InMetroVancouver, typed)
  }

  /** Every listing loaded is a BC listing of a listed type in a listed
      city; the listings are in locality order; and they are exactly the
      input listings that pass the three filters, each as often as it
      occurs in the input. */
  lemma LoadingDataSpec(rows: seq<Listing>)
    ensures forall r | r in LoadingData(rows) :: Selected(r)
    ensures SortedByLocality(LoadingData(rows))
    ensures multiset(LoadingData(rows)) == multiset(Filter(Selected, rows))
  {
    var inBC := Filter(InBritishColumbia, rows);
    var sorted := SortByLocality(inBC);
    var typed := Filter(HasListedType, sorted);
    var out := Filter(InMetroVancouver, typed);
    assert out == LoadingData(rows);
    FilterKeepsSorted(HasListedType, sorted);
    FilterKeepsSorted(InMetroVancouver, typed);
    forall r | r in out
      ensures Selected(r)
    {
      assert r in typed && r in sorted;
      assert r in multiset(sorted);
      assert r in inBC;
    }
    LoadingDataCounts(rows);
  }

  lemma LoadingDataCounts(rows: seq<Listing>)
    ensures multiset(LoadingData(rows)) == multiset(Filter(Selected, rows))
  {
    var inBC := Filter(InBritishColumbia, rows);
    var sorted := SortByLocality(inBC);
    var typed := Filter(HasListedType, sorted);
    var out := Filter(InMetroVancouver, typed);
    var selected := Filter(Selected, rows);
    forall x
      ensures multiset(out)[x] == multiset(selected)[x]
    {
      FilterCounts(InMetroVancouver, typed, x);
      FilterCounts(HasListedType, sorted, x);
      FilterCounts(InBritishColumbia, rows, x);
      FilterCounts(Selected, rows, x);
    }
    MultisetExt(multiset(out), multiset(selected));
  }
}
