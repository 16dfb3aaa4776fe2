/** `merge_df` (projectAttempt1.py lines 86-91): the left join of the
    listings with the amenity table on equal (latitude, longitude). */
module Merge {
  import opened Wrappers
  import opened Table

  predicate SameCoordinate(l: Listing, s: Summary) {
    s.latitude == l.latitude && s.longitude == l.longitude
  }

  /** The amenity rows whose key equals the listing's, in table order. */
  function Matches(l: Listing, amen: seq<Summary>): (ms: seq<Summary>)
    ensures forall s | s in ms :: s in amen && SameCoordinate(l, s)
    ensures forall s | s in amen && SameCoordinate(l, s) :: s in ms
  {
    if amen == [] then []
    else (if SameCoordinate(l, amen[0]) then [amen[0]] else []) + Matches(l, amen[1..])
  }

  /** `Matches` is the order-keeping filter on the listing's coordinate. */
  lemma {:induction false} MatchesIsFilter(l: Listing, amen: seq<Summary>, p: Summary -> bool)
    requires forall s :: p(s) == SameCoordinate(l, s)
    ensures Matches(l, amen) == Filter(p, amen)
  {
    if amen != [] {
      MatchesIsFilter(l, amen[1..], p);
    }
  }

  /** The matches keep the table's order, and hold every amenity row with
      the listing's coordinate as often as the table does, and no other. */
  lemma MatchesSpec(l: Listing, amen: seq<Summary>)
    ensures SubsequenceOf(Matches(l, amen), amen)
    ensures forall s :: multiset(Matches(l, amen))[s] == if SameCoordinate(l, s) then multiset(amen)[s] else 0
  {
    var p := (s: Summary) => SameCoordinate(l, s);
    MatchesIsFilter(l, amen, p);
    FilterSubsequence(p, amen);
    forall s
      ensures multiset(Matches(l, amen))[s] == if SameCoordinate(l, s) then multiset(amen)[s] else 0
    {
      FilterCounts(p, amen, s);
    }
  }

  /** Two amenity rows with the listing's coordinate give two matches. */
  lemma {:induction false} TwoMatches(l: Listing, amen: seq<Summary>, a: int, b: int)
    requires 0 <= a < b < |amen|
    requires SameCoordinate(l, amen[a]) && SameCoordinate(l, amen[b])
    ensures |Matches(l, amen)| >= 2
  {
    if a == 0 {
      assert amen[b] == amen[1..][b - 1];
      assert amen[b] in Matches(l, amen[1..]);
    } else {
      TwoMatches(l, amen[1..], a - 1, b - 1);
    }
  }

  /** The rows one listing contributes: one per match, or one with missing
      averages when nothing matches. */
  function JoinOne(l: Listing, ms: seq<Summary>): seq<Joined> {
    if ms == [] then [Joined(l, None, None, None)]
    else seq(|ms|, k requires 0 <= k < |ms| => Joined(l, ms[k].convenience, ms[k].transit, ms[k].school))
  }

  /** `main_df.merge(amenities_df, on=['latitude', 'longitude'], how='left')`. */
  function MergeDf(main: seq<Listing>, amen: seq<Summary>): seq<Joined> {
    if main == [] then [] else JoinOne(main[0], Matches(main[0], amen)) + MergeDf(main[1..], amen)
  }

  /** The joined row carries the averages of amenity row s, whose key
      equals its listing's. */
  predicate Carries(j: Joined, s: Summary) {
    SameCoordinate(j.listing, s)
      && j.convenience == s.convenience && j.transit == s.transit && j.school == s.school
  }

  predicate HasMatch(l: Listing, amen: seq<Summary>) {
    exists s | s in amen :: SameCoordinate(l, s)
  }

  /** A joined row carries the averages of an amenity row with its key, or
      missing averages when the amenity table has no such key. */
  predicate JoinedFrom(j: Joined, amen: seq<Summary>) {
    || (exists s | s in amen :: Carries(j, s))
    || (!HasMatch(j.listing, amen) && j.convenience.None? && j.transit.None? && j.school.None?)
  }

  /** Every listing has a row in r. */
  predicate ListsAll(main: seq<Listing>, r: seq<Joined>) {
    forall i | 0 <= i < |main| :: exists k | 0 <= k < |r| :: r[k].listing == main[i]
  }

  /** Every row of r is a listing of main joined from amen. */
  predicate RowsFrom(main: seq<Listing>, r: seq<Joined>, amen: seq<Summary>) {
    forall k | 0 <= k < |r| :: r[k].listing in main && JoinedFrom(r[k], amen)
  }

  /** Every listing is paired with every amenity row of its coordinate. */
  predicate PairsAll(main: seq<Listing>, amen: seq<Summary>, r: seq<Joined>) {
    forall i, s | 0 <= i < |main| && s in amen && SameCoordinate(main[i], s) ::
      exists k | 0 <= k < |r| :: r[k].listing == main[i] && Carries(r[k], s)
  }

  /** The rows a listing gets: one per matching amenity row, or a single
      row when nothing matches. */
  function RowsFor(l: Listing, amen: seq<Summary>): (n: nat)
    ensures n >= 1
    ensures n >= |Matches(l, amen)|
  {
    if Matches(l, amen) == [] then 1 else |Matches(l, amen)|
  }

  /** The row count of the join: the rows of each listing, added up. */
  function RowCount(main: seq<Listing>, amen: seq<Summary>): (n: nat)
    ensures n >= |main|
  {
    if main == [] then 0 else RowsFor(main[0], amen) + RowCount(main[1..], amen)
  }

  lemma JoinOneFrom(l: Listing, amen: seq<Summary>)
    ensures var rs := JoinOne(l, Matches(l, amen));
      && rs != []
      && forall k | 0 <= k < |rs| :: rs[k].listing == l && JoinedFrom(rs[k], amen)
  {
    var ms := Matches(l, amen);
    var rs := JoinOne(l, ms);
    forall k | 0 <= k < |rs|
      ensures rs[k].listing == l && JoinedFrom(rs[k], amen)
    {
      if ms != [] {
        assert ms[k] in ms;
      }
    }
  }

  /** Left join: every listing appears, paired with every amenity row of
      its coordinate; every row of the result is a listing with the averages
      of a matching amenity row, or with missing averages when none matches;
      and a listing contributes one row per match, or one row without a
      match. (Listing order is proved for unique coordinates, in
      MergeDfPreservesRows.) */
  lemma MergeDfLeftJoin(main: seq<Listing>, amen: seq<Summary>)
    ensures ListsAll(main, MergeDf(main, amen))
    ensures RowsFrom(main, MergeDf(main, amen), amen)
    ensures PairsAll(main, amen, MergeDf(main, amen))
    ensures |MergeDf(main, amen)| == RowCount(main, amen)
  {
    MergeDfCovers(main, amen);
    MergeDfRowsFrom(main, amen);
    MergeDfPairsAll(main, amen);
    MergeDfRowCount(main, amen);
  }

  lemma {:induction false} MergeDfRowCount(main: seq<Listing>, amen: seq<Summary>)
    ensures |MergeDf(main, amen)| == RowCount(main, amen)
  {
    if main != [] {
      MergeDfRowCount(main[1..], amen);
    }
  }

  /** The join of a table is the join of its first i listings followed by
      the join of the rest. */
  lemma {:induction false} MergeDfSplit(main: seq<Listing>, amen: seq<Summary>, i: int)
    requires 0 <= i <= |main|
    ensures MergeDf(main, amen) == MergeDf(main[..i], amen) + MergeDf(main[i..], amen)
  {
    if i == 0 {
      assert main[..0] == [] && main[0..] == main;
    } else {
      var rest := main[1..];
      MergeDfSplit(rest, amen, i - 1);
      var first := JoinOne(main[0], Matches(main[0], amen));
      var a, b := MergeDf(rest[..i - 1], amen), MergeDf(rest[i - 1..], amen);
      assert MergeDf(main, amen) == first + (a + b);
      assert rest[..i - 1] == main[..i][1..];
      assert main[..i][0] == main[0];
      assert MergeDf(main[..i], amen) == first + a;
      assert rest[i - 1..] == main[i..];
      assert first + (a + b) == (first + a) + b;
    }
  }

  /** Adding a listing at the end adds its rows to the count. */
  lemma {:induction false} RowCountAppend(main: seq<Listing>, l: Listing, amen: seq<Summary>)
    ensures RowCount(main + [l], amen) == RowCount(main, amen) + RowsFor(l, amen)
  {
    if main == [] {
      assert ([l])[1..] == [];
    } else {
      RowCountAppend(main[1..], l, amen);
      assert (main + [l])[1..] == main[1..] + [l];
    }
  }

  lemma RowCountPrefix(main: seq<Listing>, amen: seq<Summary>, i: int)
    requires 0 <= i < |main|
    ensures RowCount(main[..i + 1], amen) == RowCount(main[..i], amen) + RowsFor(main[i], amen)
  {
    assert main[..i + 1] == main[..i] + [main[i]];
    RowCountAppend(main[..i], main[i], amen);
  }

  /** The rows of r from `start` on are listing l's: one row with missing
      averages when it has no match, otherwise one row per match, row k
      carrying the averages of the k-th match. */
  predicate BlockOf(r: seq<Joined>, start: nat, l: Listing, ms: seq<Summary>) {
    && (ms == [] ==> start < |r| && r[start] == Joined(l, None, None, None))
    && forall k | 0 <= k < |ms| :: start + k < |r| && r[start + k] == Joined(l, ms[k].convenience, ms[k].transit, ms[k].school)
  }

  lemma BlockRows(r: seq<Joined>, start: nat, l: Listing, ms: seq<Summary>)
    requires start + |JoinOne(l, ms)| <= |r|
    requires r[start..start + |JoinOne(l, ms)|] == JoinOne(l, ms)
    ensures BlockOf(r, start, l, ms)
  {
    var head := JoinOne(l, ms);
    var block := r[start..start + |head|];
    if ms == [] {
      assert r[start] == block[0];
    } else {
      forall k | 0 <= k < |ms|
        ensures start + k < |r| && r[start + k] == Joined(l, ms[k].convenience, ms[k].transit, ms[k].school)
      {
        assert r[start + k] == block[k];
      }
    }
  }

  /** Listing i owns the block of RowsFor rows that starts after the rows of
      the listings before it, and the blocks follow one another. */
  lemma MergeDfShare(main: seq<Listing>, amen: seq<Summary>, i: int)
    requires 0 <= i < |main|
    ensures RowCount(main[..i], amen) + RowsFor(main[i], amen) <= |MergeDf(main, amen)|
    ensures RowCount(main[..i + 1], amen) == RowCount(main[..i], amen) + RowsFor(main[i], amen)
    ensures BlockOf(MergeDf(main, amen), RowCount(main[..i], amen), main[i], Matches(main[i], amen))
  {
    RowCountPrefix(main, amen, i);
    MergeDfBlock(main, amen, i);
    BlockRows(MergeDf(main, amen), RowCount(main[..i], amen), main[i], Matches(main[i], amen));
  }

  lemma MergeDfBlock(main: seq<Listing>, amen: seq<Summary>, i: int)
    requires 0 <= i < |main|
    ensures var r := MergeDf(main, amen);
      var start := RowCount(main[..i], amen);
      var head := JoinOne(main[i], Matches(main[i], amen));
      && start + |head| <= |r|
      && r[start..start + |head|] == head
  {
    var ms := Matches(main[i], amen);
    var head := JoinOne(main[i], ms);
    MergeDfSplit(main, amen, i);
    MergeDfRowCount(main[..i], amen);
    var tail := MergeDf(main[i..], amen);
    assert main[i..][0] == main[i];
    assert tail == head + MergeDf(main[i..][1..], amen);
  }

  lemma {:induction false} MergeDfPairsAll(main: seq<Listing>, amen: seq<Summary>)
    ensures PairsAll(main, amen, MergeDf(main, amen))
  {
    if main != [] {
      MergeDfPairsAll(main[1..], amen);
      var ms := Matches(main[0], amen);
      var head := JoinOne(main[0], ms);
      var rest := MergeDf(main[1..], amen);
      var r := head + rest;
      assert r == MergeDf(main, amen);
      forall i, s | 0 <= i < |main| && s in amen && SameCoordinate(main[i], s)
        ensures exists k | 0 <= k < |r| :: r[k].listing == main[i] && Carries(r[k], s)
      {
        if i == 0 {
          assert s in ms;
          var m :| 0 <= m < |ms| && ms[m] == s;
          assert r[m] == head[m];
        } else {
          assert main[1..][i - 1] == main[i];
          var k :| 0 <= k < |rest| && rest[k].listing == main[i] && Carries(rest[k], s);
          assert r[|head| + k] == rest[k];
        }
      }
    }
  }

  /** A listing with more than one match makes the join longer than the
      listing table. */
  lemma {:induction false} RowCountExceeds(main: seq<Listing>, amen: seq<Summary>, i: int)
    requires 0 <= i < |main| && |Matches(main[i], amen)| >= 2
    ensures RowCount(main, amen) > |main|
  {
    if i > 0 {
      assert main[1..][i - 1] == main[i];
      RowCountExceeds(main[1..], amen, i - 1);
    }
  }

  /** As written, a listing that meets two amenity rows of its coordinate
      is repeated: the join has more rows than there are listings. */
  lemma MergeDfDuplicates(main: seq<Listing>, amen: seq<Summary>, i: int, a: int, b: int)
    requires 0 <= i < |main| && 0 <= a < b < |amen|
    requires SameCoordinate(main[i], amen[a]) && SameCoordinate(main[i], amen[b])
    ensures |MergeDf(main, amen)| > |main|
  {
    TwoMatches(main[i], amen, a, b);
    RowCountExceeds(main, amen, i);
    MergeDfRowCount(main, amen);
  }

  lemma {:induction false} MergeDfCovers(main: seq<Listing>, amen: seq<Summary>)
    ensures ListsAll(main, MergeDf(main, amen))
  {
    if main != [] {
      MergeDfCovers(main[1..], amen);
      JoinOneFrom(main[0], amen);
      var head := JoinOne(main[0], Matches(main[0], amen));
      var rest := MergeDf(main[1..], amen);
      var r := head + rest;
      assert r == MergeDf(main, amen);
      forall i | 0 <= i < |main|
        ensures exists k | 0 <= k < |r| :: r[k].listing == main[i]
      {
        if i == 0 {
          assert r[0].listing == main[0];
        } else {
          assert main[1..][i - 1] == main[i];
          var k :| 0 <= k < |rest| && rest[k].listing == main[1..][i - 1];
          assert r[|head| + k] == rest[k];
        }
      }
    }
  }

  lemma {:induction false} MergeDfRowsFrom(main: seq<Listing>, amen: seq<Summary>)
    ensures RowsFrom(main, MergeDf(main, amen), amen)
  {
    if main != [] {
      MergeDfRowsFrom(main[1..], amen);
      JoinOneFrom(main[0], amen);
      var head := JoinOne(main[0], Matches(main[0], amen));
      var rest := MergeDf(main[1..], amen);
      var r := head + rest;
      assert r == MergeDf(main, amen);
      assert main == [main[0]] + main[1..];
      forall k | 0 <= k < |r|
        ensures r[k].listing in main && JoinedFrom(r[k], amen)
      {
        if k < |head| {
          assert r[k] == head[k];
        } else {
          assert r[k] == rest[k - |head|];
        }
      }
    }
  }

  /** No two amenity rows share a key. */
  predicate UniqueCoordinates(amen: seq<Summary>) {
    forall i, j | 0 <= i < j < |amen| ::
      !(amen[i].latitude == amen[j].latitude && amen[i].longitude == amen[j].longitude)
  }

  lemma {:induction false} AtMostOneMatch(l: Listing, amen: seq<Summary>)
    requires UniqueCoordinates(amen)
    ensures |Matches(l, amen)| <= 1
  {
    if amen != [] {
      AtMostOneMatch(l, amen[1..]);
      if SameCoordinate(l, amen[0]) {
        forall s | s in amen[1..]
          ensures !SameCoordinate(l, s)
        {
          var j :| 0 <= j < |amen[1..]| && amen[1..][j] == s;
          assert amen[j + 1] == s;
        }
        NoMatches(l, amen[1..]);
      }
    }
  }

  /** A table without the listing's coordinate gives no matches. */
  lemma {:induction false} NoMatches(l: Listing, amen: seq<Summary>)
    requires forall s | s in amen :: !SameCoordinate(l, s)
    ensures Matches(l, amen) == []
  {
    if amen != [] {
      assert amen[0] in amen;
      assert forall s | s in amen[1..] :: s in amen;
      NoMatches(l, amen[1..]);
    }
  }

  /** With unique keys in the amenity table the join keeps the listings one
      for one and in order. */
  lemma {:induction false} MergeDfPreservesRows(main: seq<Listing>, amen: seq<Summary>)
    requires UniqueCoordinates(amen)
    ensures var r := MergeDf(main, amen);
      |r| == |main| && forall i | 0 <= i < |main| :: r[i].listing == main[i]
  {
    if main != [] {
      AtMostOneMatch(main[0], amen);
      MergeDfPreservesRows(main[1..], amen);
    }
  }

  /** Two condominium listings at one coordinate. `amenities_function`
      gives one amenity row per listing, both with that key, so the join
      gives each listing two rows: four rows for two listings. */
  lemma MergeDfDuplicatesSharedCoordinates()
    ensures var l := Listing(None, Some("Vancouver"), Some("BC"), None, 49.2827, -123.1207,
                             Some(650000.0), Some(1.0), Some(1.0), Some(600.0), Text("No"), Text("Condo"), None);
      var s := Summary(49.2827, -123.1207, Some(250.0), None, Some(900.0));
      |MergeDf([l, l], [s, s])| == 4
  {
    var l := Listing(None, Some("Vancouver"), Some("BC"), None, 49.2827, -123.1207,
                     Some(650000.0), Some(1.0), Some(1.0), Some(600.0), Text("No"), Text("Condo"), None);
    var s := Summary(49.2827, -123.1207, Some(250.0), None, Some(900.0));
    assert Matches(l, [s, s]) == [s, s] by {
      assert [s, s][1..] == [s];
      assert Matches(l, [s]) == [s] by { assert [s][1..] == []; }
    }
    assert [l, l][1..] == [l];
    assert MergeDf([l], [s, s]) == JoinOne(l, [s, s]) by { assert [l][1..] == []; }
  }

  predicate SameKey(a: Summary, b: Summary) {
    a.latitude == b.latitude && a.longitude == b.longitude
  }

  /** The amenity rows whose key differs from k's, in table order. */
  function WithoutKey(k: Summary, amen: seq<Summary>): (r: seq<Summary>)
    ensures |r| <= |amen|
    ensures forall t | t in r :: t in amen && !SameKey(t, k)
    ensures forall t | t in amen && !SameKey(t, k) :: t in r
  {
    if amen == [] then []
    else (if SameKey(amen[0], k) then [] else [amen[0]]) + WithoutKey(k, amen[1..])
  }

  /** The first amenity row of every key (`drop_duplicates` on the key). */
  function FirstPerCoordinate(amen: seq<Summary>): (d: seq<Summary>)
    ensures forall s | s in d :: s in amen
    decreases |amen|
  {
    if amen == [] then []
    else [amen[0]] + FirstPerCoordinate(WithoutKey(amen[0], amen[1..]))
  }

  lemma {:induction false} FirstPerCoordinateUnique(amen: seq<Summary>)
    ensures UniqueCoordinates(FirstPerCoordinate(amen))
    decreases |amen|
  {
    if amen != [] {
      var others := WithoutKey(amen[0], amen[1..]);
      FirstPerCoordinateUnique(others);
      var d := FirstPerCoordinate(amen);
      var tail := FirstPerCoordinate(others);
      assert d == [amen[0]] + tail;
      forall i, j | 0 <= i < j < |d|
        ensures !(d[i].latitude == d[j].latitude && d[i].longitude == d[j].longitude)
      {
        assert d[j] == tail[j - 1];
        assert tail[j - 1] in others;
        if i > 0 {
          assert d[i] == tail[i - 1];
        }
      }
    }
  }

  /** Every coordinate of the amenity table keeps a row. */
  lemma FirstPerCoordinateCovers(amen: seq<Summary>)
    ensures forall s | s in amen :: exists t | t in FirstPerCoordinate(amen) :: SameKey(s, t)
  {
    forall s | s in amen
      ensures exists t | t in FirstPerCoordinate(amen) :: SameKey(s, t)
    {
      CoordinateKept(amen, s);
    }
  }

  lemma {:induction false} CoordinateKept(amen: seq<Summary>, s: Summary)
    requires s in amen
    ensures exists t | t in FirstPerCoordinate(amen) :: SameKey(s, t)
    decreases |amen|
  {
    var others := WithoutKey(amen[0], amen[1..]);
    var d := FirstPerCoordinate(amen);
    assert d == [amen[0]] + FirstPerCoordinate(others);
    if SameKey(s, amen[0]) {
      assert d[0] == amen[0];
    } else {
      assert s in amen[1..] by { assert amen == [amen[0]] + amen[1..]; }
      assert s in others;
      CoordinateKept(others, s);
      var t :| t in FirstPerCoordinate(others) && SameKey(s, t);
      assert t in d;
    }
  }

  /** The join as evidently intended: one row per listing, which drops
      the amenity rows that repeat a key before joining. */
  function MergeDfFixed(main: seq<Listing>, amen: seq<Summary>): seq<Joined> {
    MergeDf(main, FirstPerCoordinate(amen))
  }

  lemma MatchedRow(j: Joined, amen: seq<Summary>, d: seq<Summary>)
    requires JoinedFrom(j, d)
    requires forall s | s in d :: s in amen
    requires forall s | s in amen :: exists t | t in d :: SameKey(s, t)
    requires HasMatch(j.listing, amen)
    ensures exists s | s in amen :: Carries(j, s)
  {
    var s :| s in amen && SameCoordinate(j.listing, s);
    var t :| t in d && SameKey(s, t);
    assert SameCoordinate(j.listing, t);
  }

  /** The corrected join keeps the listings one for one and in order, and
      a listing gets the averages of an amenity row of its key whenever the
      table has one. */
  lemma MergeDfFixedPreservesRows(main: seq<Listing>, amen: seq<Summary>)
    ensures |MergeDfFixed(main, amen)| == |main|
    ensures forall i | 0 <= i < |main| :: MergeDfFixed(main, amen)[i].listing == main[i]
    ensures forall i | 0 <= i < |main| && HasMatch(main[i], amen) ::
      exists s | s in amen :: Carries(MergeDfFixed(main, amen)[i], s)
  {
    var d := FirstPerCoordinate(amen);
    var r := MergeDf(main, d);
    FirstPerCoordinateUnique(amen);
    FirstPerCoordinateCovers(amen);
    MergeDfPreservesRows(main, d);
    MergeDfRowsFrom(main, d);
    forall i | 0 <= i < |main| && HasMatch(main[i], amen)
      ensures exists s | s in amen :: Carries(r[i], s)
    {
      MatchedRow(r[i], amen, d);
    }
  }
}
