/** The amenity fetchers of geo.py: the mapping of Overpass elements to
    amenity records, the uncached fetch `get_specific_amenities`, and the
    process-wide cache behind `get_specific_amenities_cached`.

    The Overpass interpreter is an oracle `overpass: Query -> Response`
    handed to each call; the query text itself (five node filters around
    the centre) is not modelled. */
module Geo {
  import opened Wrappers
  import opened GeoKeys

  /** One element of the Overpass answer: `type`, `id`, optional `tags`,
      optional `lat` and `lon`. */
  datatype Element = Element(
    elementType: Option<string>,
    id: Option<int>,
    tags: Option<map<string, string>>,
    lat: Option<real>,
    lon: Option<real>)

  /** The amenity dictionary built per tagged element (geo.py lines 92-100). */
  datatype AmenityRecord = AmenityRecord(
    elementType: Option<string>,
    id: Option<int>,
    name: string,
    amenity: string,
    shop: string,
    latitude: Option<real>,
    longitude: Option<real>)

  /** An Overpass request: centre and radius in metres. */
  datatype Query = Query(lat: real, lon: real, radius: int)

  /** The HTTP answer: its status code and the `elements` list of its body. */
  datatype Response = Response(status: int, elements: seq<Element>)

  const NotAvailable: string := "N/A"

  /** `tags.get(name, 'N/A')`. */
  function Tag(tags: map<string, string>, name: string): string {
    if name in tags then tags[name] else NotAvailable
  }

  /** The record for one tagged element (geo.py lines 92-100). */
  function ToRecord(e: Element): AmenityRecord
    requires e.tags.Some?
  {
    var t := e.tags.value;
    AmenityRecord(e.elementType, e.id, Tag(t, "name"), Tag(t, "amenity"), Tag(t, "shop"), e.lat, e.lon)
  }

  /** The list the loop at geo.py lines 88-101 builds: one record per
      element that has tags, in order. */
  function RecordsOf(es: seq<Element>): seq<AmenityRecord> {
    if es == [] then []
    else
      var last := es[|es| - 1];
      RecordsOf(es[..|es| - 1]) + (if last.tags.Some? then [ToRecord(last)] else [])
  }

  /** The positions of the tagged elements, in increasing order. */
  function TaggedIndices(es: seq<Element>): (ix: seq<nat>)
    ensures forall j | 0 <= j < |ix| :: ix[j] < |es| && es[ix[j]].tags.Some?
    ensures forall j, j' | 0 <= j < j' < |ix| :: ix[j] < ix[j']
    ensures forall i | 0 <= i < |es| && es[i].tags.Some? :: i in ix
  {
    if es == [] then []
    else
      var n := |es| - 1;
      var before := TaggedIndices(es[..n]);
      assert forall i | 0 <= i < n :: es[..n][i] == es[i];
      before + (if es[n].tags.Some? then [n] else [])
  }

  /** The mapping keeps exactly the tagged elements, one record each, in
      input order: record j is built from the j-th tagged element. */
  lemma {:induction false} RecordsOfTagged(es: seq<Element>)
    ensures |RecordsOf(es)| == |TaggedIndices(es)|
    ensures forall j | 0 <= j < |RecordsOf(es)| :: RecordsOf(es)[j] == ToRecord(es[TaggedIndices(es)[j]])
  {
    if es != [] {
      var n := |es| - 1;
      RecordsOfTagged(es[..n]);
      assert forall i | 0 <= i < n :: es[..n][i] == es[i];
    }
  }

  /** Every tagged element has its record; absent tags read 'N/A' and an
      element without coordinates is kept, with None for them. */
  lemma TaggedElementRecorded(es: seq<Element>, i: nat)
    requires i < |es| && es[i].tags.Some?
    ensures exists j :: 0 <= j < |RecordsOf(es)| && RecordsOf(es)[j] == ToRecord(es[i])
    ensures var r := ToRecord(es[i]);
      && r.id == es[i].id
      && ("name" !in es[i].tags.value ==> r.name == NotAvailable)
      && ("amenity" !in es[i].tags.value ==> r.amenity == NotAvailable)
      && ("shop" !in es[i].tags.value ==> r.shop == NotAvailable)
      && (r.latitude.None? <==> es[i].lat.None?)
      && (r.longitude.None? <==> es[i].lon.None?)
  {
    RecordsOfTagged(es);
    var ix := TaggedIndices(es);
    var j :| 0 <= j < |ix| && ix[j] == i;
  }

  /** What a fetch yields: the records on status 200, None otherwise. */
  function Fetched(resp: Response): Option<seq<AmenityRecord>> {
    if resp.status == 200 then Some(RecordsOf(resp.elements)) else None
  }

  /** `get_specific_amenities` (geo.py lines 60-106). */
  method GetSpecificAmenities(lat: real, lon: real, overpass: Query -> Response, radius: int := 1000)
    returns (amenities: Option<seq<AmenityRecord>>)
    ensures amenities == Fetched(overpass(Query(lat, lon, radius)))
  {
    var response := overpass(Query(lat, lon, radius));
    if response.status == 200 {
      var elements := response.elements;
      var list: seq<AmenityRecord> := [];
      for i := 0 to |elements|
        invariant list == RecordsOf(elements[..i])
      {
        assert elements[..i + 1][..i] == elements[..i];
        var element := elements[i];
        if element.tags.Some? {
          list := list + [ToRecord(element)];
        }
      }
      assert elements[..|elements|] == elements;
      amenities := Some(list);
    } else {
      amenities := None;
    }
  }

  /* ---------------------------------------------------------------- */
  /* The cache                                                        */

  type Entries = map<Key, seq<AmenityRecord>>

  /** The answer of one cached lookup and the cache afterwards. */
  datatype Lookup = Lookup(result: Option<seq<AmenityRecord>>, entries: Entries)

  /** Get-or-fetch: a stored key answers from the cache; otherwise the
      fetched list, when there is one, is stored under the key. */
  function GetOrFetch(entries: Entries, key: Key, fetched: Option<seq<AmenityRecord>>): (l: Lookup)
    ensures key in entries ==> l == Lookup(Some(entries[key]), entries)
    ensures key !in entries && fetched.Some? ==> l == Lookup(fetched, entries[key := fetched.value])
    ensures key !in entries && fetched.None? ==> l == Lookup(None, entries)
    ensures key in l.entries <==> key in entries || fetched.Some?
    ensures forall k | k != key :: (k in l.entries <==> k in entries)
    ensures forall k | k != key && k in entries :: l.entries[k] == entries[k]
    ensures l.result.Some? ==> key in l.entries && l.result.value == l.entries[key]
    ensures l.result.None? ==> l.entries == entries && fetched.None?
  {
    if key in entries then Lookup(Some(entries[key]), entries)
    else
      match fetched
      case Some(list) => Lookup(Some(list), entries[key := list])
      case None => Lookup(None, entries)
  }

  /** What the cached fetch stores on status 200 as written: the list it
      starts is never appended to (geo.py lines 134-148). */
  function StoredAsWritten(resp: Response): Option<seq<AmenityRecord>> {
    if resp.status == 200 then Some([]) else None
  }

  /** `get_specific_amenities_cached` as written (geo.py lines 108-152). */
  function CachedLookup(entries: Entries, lat: real, lon: real, radius: int, overpass: Query -> Response): Lookup {
    GetOrFetch(entries, KeyOf(lat, lon), StoredAsWritten(overpass(Query(lat, lon, radius))))
  }

  /** The cached fetch with the record appended, as evidently intended:
      it stores what `get_specific_amenities` returns. */
  function CachedLookupFixed(entries: Entries, lat: real, lon: real, radius: int, overpass: Query -> Response): Lookup {
    GetOrFetch(entries, KeyOf(lat, lon), Fetched(overpass(Query(lat, lon, radius))))
  }

  /** As written, a successful miss stores and returns the empty list. */
  lemma CachedMissStoresEmpty(entries: Entries, lat: real, lon: real, radius: int, overpass: Query -> Response)
    requires KeyOf(lat, lon) !in entries
    requires overpass(Query(lat, lon, radius)).status == 200
    ensures CachedLookup(entries, lat, lon, radius, overpass).result == Some([])
    ensures CachedLookup(entries, lat, lon, radius, overpass).entries == entries[KeyOf(lat, lon) := []]
  {
  }

  /** One tagged school node at the centre: the uncached fetch returns its
      record, the cached fetch as written returns nothing. */
  lemma CachedLookupDropsRecords()
    ensures var school := Element(Some("node"), Some(1), Some(map["amenity" := "school"]), Some(49.2827), Some(-123.1207));
      var overpass := (q: Query) => Response(200, [school]);
      && Fetched(overpass(Query(49.2827, -123.1207, 3000))) == Some([ToRecord(school)])
      && CachedLookup(map[], 49.2827, -123.1207, 3000, overpass).result == Some([])
  {
    var school := Element(Some("node"), Some(1), Some(map["amenity" := "school"]), Some(49.2827), Some(-123.1207));
    var overpass := (q: Query) => Response(200, [school]);
    assert [school][..0] == [];
    assert RecordsOf([school]) == [ToRecord(school)];
    assert overpass(Query(49.2827, -123.1207, 3000)) == Response(200, [school]);
  }

  /** The corrected cached fetch stores and returns the records of a
      successful answer, and answers like the uncached fetch on a miss. */
  lemma CachedLookupFixedStoresRecords(entries: Entries, lat: real, lon: real, radius: int, overpass: Query -> Response)
    requires KeyOf(lat, lon) !in entries
    ensures var l := CachedLookupFixed(entries, lat, lon, radius, overpass);
      var resp := overpass(Query(lat, lon, radius));
      && l.result == Fetched(resp)
      && (resp.status == 200 ==> l.entries == entries[KeyOf(lat, lon) := RecordsOf(resp.elements)])
      && (resp.status != 200 ==> l.entries == entries)
  {
  }

  /** Once a lookup has stored a key, any coordinate with the same key is
      answered from the cache with the identical list, whatever the
      oracle would now say. */
  lemma {:induction false} NeverRefetched(entries: Entries, key: Key, fetched: Option<seq<AmenityRecord>>,
                                          again: Option<seq<AmenityRecord>>)
    requires GetOrFetch(entries, key, fetched).result.Some?
    ensures var first := GetOrFetch(entries, key, fetched);
      GetOrFetch(first.entries, key, again) == first
  {
  }

  /** The module-level `amenity_cache` dictionary and the two fetchers that
      consult it. `queries` records every request sent to Overpass. */
  class AmenityCache {
    var entries: Entries
    ghost var queries: seq<Query>

    /** The cache as loaded at module start (see GeoKeys.LoadDoc). */
    constructor (loaded: Entries)
      ensures entries == loaded && queries == []
    {
      entries := loaded;
      queries := [];
    }

    /** `get_specific_amenities_cached`, as written (geo.py lines 108-152). */
    method GetCached(lat: real, lon: real, overpass: Query -> Response, radius: int := 3000)
      returns (amenities: Option<seq<AmenityRecord>>)
      modifies this
      ensures Lookup(amenities, entries) == CachedLookup(old(entries), lat, lon, radius, overpass)
      ensures queries == if KeyOf(lat, lon) in old(entries) then old(queries)
                         else old(queries) + [Query(lat, lon, radius)]
    {
      var key := KeyOf(lat, lon);
      if key in entries {
        return Some(entries[key]);
      }
      var query := Query(lat, lon, radius);
      var response := overpass(query);
      queries := queries + [query];
      if response.status == 200 {
        var elements := response.elements;
        var list: seq<AmenityRecord> := [];
        for i := 0 to |elements| {
          var element := elements[i];
          if element.tags.Some? {
            var amenity := ToRecord(element);
          }
        }
        entries := entries[key := list];
        amenities := Some(list);
      } else {
        amenities := None;
      }
    }

    /** The cached fetch with the record appended, as evidently intended. */
    method GetCachedFixed(lat: real, lon: real, overpass: Query -> Response, radius: int := 3000)
      returns (amenities: Option<seq<AmenityRecord>>)
      modifies this
      ensures Lookup(amenities, entries) == CachedLookupFixed(old(entries), lat, lon, radius, overpass)
      ensures queries == if KeyOf(lat, lon) in old(entries) then old(queries)
                         else old(queries) + [Query(lat, lon, radius)]
    {
      var key := KeyOf(lat, lon);
      if key in entries {
        return Some(entries[key]);
      }
      var query := Query(lat, lon, radius);
      queries := queries + [query];
      amenities := GetSpecificAmenities(lat, lon, overpass, radius);
      if amenities.Some? {
        entries := entries[key := amenities.value];
      }
    }

    /** `save_cache` (geo.py lines 15-17): the document written to the file. */
    method Save() returns (doc: map<string, seq<AmenityRecord>>)
      ensures LoadDoc(Some(doc)) == Some(entries)
    {
      doc := SaveDoc(entries);
      SaveLoadRoundTrip(entries);
    }
  }
}
