/** `amenities_function` (projectAttempt1.py lines 44-83): for every
    listing, the amenities around it are looked up through the cache, each
    amenity's distance from the listing is put into at most one of three
    buckets, and each bucket is averaged.

    The haversine distance is a parameter `dist(lat1, lon1, lat2, lon2)`;
    writing the result table to JSON and CSV is not modelled. */
module Amenities {
  import opened Wrappers
  import opened GeoKeys
  import opened Geo
  import opened Table

  /** The search radius the listings are looked up with (line 54). */
  const Radius: int := 3000

  datatype Bucket = Convenience | Transit | School | Ignored

  /** The classification of lines 62-67, checked in this order. */
  function BucketOf(a: AmenityRecord): Bucket {
    if a.shop in ["convenience", "grocery"] then Convenience
    else if a.amenity in ["bus_station", "subway_station", "railway_station"] then Transit
    else if a.amenity in ["school", "university"] then School
    else Ignored
  }

  /** An amenity whose distance can be computed; `haversine` on a missing
      coordinate raises a TypeError. */
  predicate Located(a: AmenityRecord) {
    a.latitude.Some? && a.longitude.Some?
  }

  predicate AllLocated(list: seq<AmenityRecord>) {
    forall i | 0 <= i < |list| :: Located(list[i])
  }

  /** The distances appended to bucket b, in order. */
  function BucketDistances(lat: real, lon: real, list: seq<AmenityRecord>, b: Bucket,
                           dist: (real, real, real, real) -> real): (ds: seq<real>)
    requires AllLocated(list)
    ensures |ds| <= |list|
  {
    if list == [] then []
    else
      var n := |list| - 1;
      var a := list[n];
      BucketDistances(lat, lon, list[..n], b, dist)
        + (if BucketOf(a) == b then [dist(lat, lon, a.latitude.value, a.longitude.value)] else [])
  }

  /** The number of amenities of a list that fall in bucket b. */
  function CountIn(list: seq<AmenityRecord>, b: Bucket): nat {
    if list == [] then 0 else CountIn(list[..|list| - 1], b) + (if BucketOf(list[|list| - 1]) == b then 1 else 0)
  }

  /** Bucket b receives one distance per amenity classified b. */
  lemma {:induction false} BucketSize(lat: real, lon: real, list: seq<AmenityRecord>, b: Bucket,
                                      dist: (real, real, real, real) -> real)
    requires AllLocated(list)
    ensures |BucketDistances(lat, lon, list, b, dist)| == CountIn(list, b)
  {
    if list != [] {
      BucketSize(lat, lon, list[..|list| - 1], b, dist);
    }
  }

  /** Every amenity lands in exactly one of the three buckets or is
      ignored: the four counts add up to the length of the list. */
  lemma {:induction false} BucketsPartition(list: seq<AmenityRecord>)
    ensures CountIn(list, Convenience) + CountIn(list, Transit) + CountIn(list, School) + CountIn(list, Ignored)
            == |list|
  {
    if list != [] {
      BucketsPartition(list[..|list| - 1]);
    }
  }

  /** A bucket is empty exactly when no amenity of the list belongs to it. */
  lemma {:induction false} CountInZero(list: seq<AmenityRecord>, b: Bucket)
    ensures CountIn(list, b) == 0 <==> forall i | 0 <= i < |list| :: BucketOf(list[i]) != b
  {
    if list != [] {
      var n := |list| - 1;
      CountInZero(list[..n], b);
      assert forall i | 0 <= i < n :: list[..n][i] == list[i];
    }
  }

  /** `np.mean(xs) if xs else np.nan`. */
  function Mean(xs: seq<real>): Option<real> {
    if xs == [] then None else Some(Sum(xs) / |xs| as real)
  }

  lemma {:induction false} SumBounds(xs: seq<real>, lo: real, hi: real)
    requires forall i | 0 <= i < |xs| :: lo <= xs[i] <= hi
    ensures |xs| as real * lo <= Sum(xs) <= |xs| as real * hi
  {
    if xs != [] {
      SumBounds(xs[1..], lo, hi);
    }
  }

  /** A mean lies between any lower and upper bound of its values. */
  lemma MeanBounds(xs: seq<real>, lo: real, hi: real)
    requires xs != []
    requires forall i | 0 <= i < |xs| :: lo <= xs[i] <= hi
    ensures lo <= Mean(xs).value <= hi
  {
    SumBounds(xs, lo, hi);
    var n := |xs| as real;
    var m := Mean(xs).value;
    assert m * n == Sum(xs);
  }

  /** The summary of one listing (lines 55-75), or None when an amenity
      without coordinates makes the distance computation raise. A failed
      or empty lookup gives three missing averages. */
  function Summarize(lat: real, lon: real, amenities: Option<seq<AmenityRecord>>,
                     dist: (real, real, real, real) -> real): Option<Summary>
  {
    var list := if amenities.Some? then amenities.value else [];
    if !AllLocated(list) then None
    else
      Some(Summary(lat, lon,
                   Mean(BucketDistances(lat, lon, list, Convenience, dist)),
                   Mean(BucketDistances(lat, lon, list, Transit, dist)),
                   Mean(BucketDistances(lat, lon, list, School, dist))))
  }

  /** A summary carries the listing's own (unrounded) coordinate, and each
      average is present exactly when some amenity of its bucket was found. */
  lemma SummarizeSpec(lat: real, lon: real, amenities: Option<seq<AmenityRecord>>,
                      dist: (real, real, real, real) -> real)
    requires Summarize(lat, lon, amenities, dist).Some?
    ensures var s := Summarize(lat, lon, amenities, dist).value;
      var list := if amenities.Some? then amenities.value else [];
      && s.latitude == lat && s.longitude == lon
      && (s.convenience.Some? <==> exists i | 0 <= i < |list| :: BucketOf(list[i]) == Convenience)
      && (s.transit.Some? <==> exists i | 0 <= i < |list| :: BucketOf(list[i]) == Transit)
      && (s.school.Some? <==> exists i | 0 <= i < |list| :: BucketOf(list[i]) == School)
  {
    var list := if amenities.Some? then amenities.value else [];
    BucketSize(lat, lon, list, Convenience, dist);
    BucketSize(lat, lon, list, Transit, dist);
    BucketSize(lat, lon, list, School, dist);
    CountInZero(list, Convenience);
    CountInZero(list, Transit);
    CountInZero(list, School);
  }

  /** With non-negative distances every present average is non-negative. */
  lemma {:induction false} BucketDistancesNonNegative(lat: real, lon: real, list: seq<AmenityRecord>, b: Bucket,
                                                      dist: (real, real, real, real) -> real)
    requires AllLocated(list)
    requires forall a, b, c, d :: dist(a, b, c, d) >= 0.0
    ensures forall i | 0 <= i < |BucketDistances(lat, lon, list, b, dist)| ::
      BucketDistances(lat, lon, list, b, dist)[i] >= 0.0
  {
    if list != [] {
      BucketDistancesNonNegative(lat, lon, list[..|list| - 1], b, dist);
    }
  }

  /* ---------------------------------------------------------------- */
  /* The loop over the listings                                       */

  /** The summaries so far (None once one listing has raised) and the cache. */
  datatype Run = Run(results: Option<seq<Summary>>, entries: Entries)

  /** One iteration of the loop at line 53; `fetch` says what a cache miss
      stores for an Overpass answer. */
  function Step(run: Run, listing: Listing, overpass: Query -> Response,
                fetch: Response -> Option<seq<AmenityRecord>>,
                dist: (real, real, real, real) -> real): Run
  {
    if run.results.None? then run
    else
      var lat, lon := listing.latitude, listing.longitude;
      var l := GetOrFetch(run.entries, KeyOf(lat, lon), fetch(overpass(Query(lat, lon, Radius))));
      match Summarize(lat, lon, l.result, dist)
      case None => Run(None, l.entries)
      case Some(s) => Run(Some(run.results.value + [s]), l.entries)
  }

  /** The loop over all listings, from a cache holding `entries`. */
  function AmenitiesRun(entries: Entries, data: seq<Listing>, overpass: Query -> Response,
                        fetch: Response -> Option<seq<AmenityRecord>>,
                        dist: (real, real, real, real) -> real): Run
  {
    if data == [] then Run(Some([]), entries)
    else
      var n := |data| - 1;
      Step(AmenitiesRun(entries, data[..n], overpass, fetch, dist), data[n], overpass, fetch, dist)
  }

  /** One summary per listing, in input order, each carrying its listing's
      coordinate. */
  lemma {:induction false} AmenitiesRunShape(entries: Entries, data: seq<Listing>, overpass: Query -> Response,
                                             fetch: Response -> Option<seq<AmenityRecord>>,
                                             dist: (real, real, real, real) -> real)
    requires AmenitiesRun(entries, data, overpass, fetch, dist).results.Some?
    ensures var rs := AmenitiesRun(entries, data, overpass, fetch, dist).results.value;
      && |rs| == |data|
      && forall i | 0 <= i < |data| :: rs[i].latitude == data[i].latitude && rs[i].longitude == data[i].longitude
  {
    if data != [] {
      var n := |data| - 1;
      var prev := AmenitiesRun(entries, data[..n], overpass, fetch, dist);
      assert AmenitiesRun(entries, data, overpass, fetch, dist) == Step(prev, data[n], overpass, fetch, dist);
      SummarizeKeepsCoordinate(data[n], overpass, fetch, dist, prev);
      AmenitiesRunShape(entries, data[..n], overpass, fetch, dist);
      var rs := AmenitiesRun(entries, data, overpass, fetch, dist).results.value;
      forall i | 0 <= i < n
        ensures rs[i].latitude == data[i].latitude && rs[i].longitude == data[i].longitude
      {
        assert rs[i] == rs[..n][i] == prev.results.value[i];
        assert data[..n][i] == data[i];
      }
    }
  }

  lemma SummarizeKeepsCoordinate(listing: Listing, overpass: Query -> Response,
                                 fetch: Response -> Option<seq<AmenityRecord>>,
                                 dist: (real, real, real, real) -> real, run: Run)
    requires Step(run, listing, overpass, fetch, dist).results.Some?
    ensures run.results.Some?
    ensures var rs := Step(run, listing, overpass, fetch, dist).results.value;
      && |rs| == |run.results.value| + 1
      && rs[..|rs| - 1] == run.results.value
      && rs[|rs| - 1].latitude == listing.latitude && rs[|rs| - 1].longitude == listing.longitude
  {
  }

  /** Once a listing has raised, the rest of the loop changes nothing. */
  lemma {:induction false} FailureIsFinal(entries: Entries, data: seq<Listing>, i: nat, overpass: Query -> Response,
                                          fetch: Response -> Option<seq<AmenityRecord>>,
                                          dist: (real, real, real, real) -> real)
    requires i <= |data|
    requires AmenitiesRun(entries, data[..i], overpass, fetch, dist).results.None?
    ensures AmenitiesRun(entries, data, overpass, fetch, dist) == AmenitiesRun(entries, data[..i], overpass, fetch, dist)
  {
    if i < |data| {
      var n := |data| - 1;
      assert data[..n][..i] == data[..i];
      FailureIsFinal(entries, data[..n], i, overpass, fetch, dist);
    } else {
      assert data[..i] == data;
    }
  }

  /** With the cached fetch as written, a cache whose stored lists are all
      empty stays so, and every listing then gets three missing averages. */
  lemma {:induction false} AsWrittenSummariesMissing(entries: Entries, data: seq<Listing>, overpass: Query -> Response,
                                                     dist: (real, real, real, real) -> real)
    requires forall k | k in entries :: entries[k] == []
    ensures var run := AmenitiesRun(entries, data, overpass, StoredAsWritten, dist);
      && run.results.Some?
      && (forall k | k in run.entries :: run.entries[k] == [])
      && forall i | 0 <= i < |run.results.value| ::
           run.results.value[i].convenience.None? && run.results.value[i].transit.None?
           && run.results.value[i].school.None?
  {
    if data != [] {
      var n := |data| - 1;
      AsWrittenSummariesMissing(entries, data[..n], overpass, dist);
    }
  }

  /** The body of the loop at lines 55-75 for one listing: the bucket
      loop and the three means. Returns None where `haversine` raises. */
  method SummarizeListing(lat: real, lon: real, amenities: Option<seq<AmenityRecord>>,
                          dist: (real, real, real, real) -> real)
    returns (summary: Option<Summary>)
    ensures summary == Summarize(lat, lon, amenities, dist)
  {
    var conv: seq<real> := [];
    var transit: seq<real> := [];
    var school: seq<real> := [];
    var list := if amenities.Some? then amenities.value else [];
    for j := 0 to |list|
      invariant AllLocated(list[..j])
      invariant conv == BucketDistances(lat, lon, list[..j], Convenience, dist)
      invariant transit == BucketDistances(lat, lon, list[..j], Transit, dist)
      invariant school == BucketDistances(lat, lon, list[..j], School, dist)
    {
      assert list[..j + 1][..j] == list[..j];
      var a := list[j];
      if !Located(a) {
        assert !AllLocated(list);
        return None;
      }
      var d := dist(lat, lon, a.latitude.value, a.longitude.value);
      if a.shop in ["convenience", "grocery"] {
        conv := conv + [d];
      } else if a.amenity in ["bus_station", "subway_station", "railway_station"] {
        transit := transit + [d];
      } else if a.amenity in ["school", "university"] {
        school := school + [d];
      }
    }
    assert list[..|list|] == list;
    summary := Some(Summary(lat, lon, Mean(conv), Mean(transit), Mean(school)));
  }

  /** `amenities_function`, with the corrected cached fetch. Returns None
      where the program raises. */
  method AmenitiesFunction(cache: AmenityCache, data: seq<Listing>, overpass: Query -> Response,
                           dist: (real, real, real, real) -> real)
    returns (results: Option<seq<Summary>>)
    modifies cache
    ensures var run := AmenitiesRun(old(cache.entries), data, overpass, Fetched, dist);
      results == run.results && cache.entries == run.entries
  {
    var out: seq<Summary> := [];
    for i := 0 to |data|
      invariant AmenitiesRun(old(cache.entries), data[..i], overpass, Fetched, dist) == Run(Some(out), cache.entries)
    {
      assert data[..i + 1][..i] == data[..i];
      var lat, lon := data[i].latitude, data[i].longitude;
      var amenities := cache.GetCachedFixed(lat, lon, overpass, Radius);
      var summary := SummarizeListing(lat, lon, amenities, dist);
      if summary.None? {
        FailureIsFinal(old(cache.entries), data, i + 1, overpass, Fetched, dist);
        return None;
      }
      out := out + [summary.value];
    }
    assert data[..|data|] == data;
    results := Some(out);
  }
}
