/** `scale_data` (projectAttempt1.py lines 114-151): the categorical columns
    become numbers, missing average distances are imputed, the ten feature
    columns are min-max scaled and every row with a missing cell is
    dropped. The conversion of `property-sqft` from text (line 122) is not
    modelled: the column arrives as numbers. */
module Normalise {
  import opened Wrappers
  import opened Table

  /* ---------------------------------------------------------------- */
  /* Encoding of the categorical columns                              */

  /** The ordinal Property Type table of line 125; anything else maps to
      NaN. */
  function EncodeType(c: Cell): Cell {
    if c == Text("Condo") then Num(0.25)
    else if c == Text("Townhome") then Num(0.5)
    else if c == Text("Single Family") then Num(0.75)
    else if c == Text("MultiFamily") then Num(1.0)
    else Missing
  }

  /** Line 137: 1 where the cell equals 'Yes', 0 otherwise (NaN included). */
  function EncodeGarage(c: Cell): Cell {
    if c == Text("Yes") then Num(1.0) else Num(0.0)
  }

  /** The four listed types get increasing values in (0, 1], Condo lowest
      and MultiFamily highest; every other cell becomes missing. */
  lemma EncodeTypeOrdinal(c: Cell)
    ensures EncodeType(c).Num? <==> c in [Text("Condo"), Text("Townhome"), Text("Single Family"), Text("MultiFamily")]
    ensures EncodeType(c).Num? ==> 0.0 < EncodeType(c).x <= 1.0
    ensures EncodeType(Text("Condo")).x < EncodeType(Text("Townhome")).x
              < EncodeType(Text("Single Family")).x < EncodeType(Text("MultiFamily")).x
  {
  }

  /** Garage becomes a 0/1 indicator of 'Yes'. */
  lemma EncodeGarageIndicator(c: Cell)
    ensures EncodeGarage(c).Num?
    ensures EncodeGarage(c).x == 1.0 <==> c == Text("Yes")
    ensures EncodeGarage(c).x == 0.0 || EncodeGarage(c).x == 1.0
  {
  }

  /* ---------------------------------------------------------------- */
  /* Column extremes over present values (pandas skips NaN)           */

  function MaxPresent(col: seq<Option<real>>): (m: Option<real>)
    ensures m.None? <==> forall i | 0 <= i < |col| :: col[i].None?
    ensures m.Some? ==> exists i | 0 <= i < |col| :: col[i] == m
    ensures m.Some? ==> forall i | 0 <= i < |col| && col[i].Some? :: col[i].value <= m.value
  {
    if col == [] then None
    else
      var n := |col| - 1;
      var rest := MaxPresent(col[..n]);
      assert forall i | 0 <= i < n :: col[..n][i] == col[i];
      if col[n].None? then rest
      else if rest.None? || rest.value < col[n].value then col[n]
      else rest
  }

  function MinPresent(col: seq<Option<real>>): (m: Option<real>)
    ensures m.None? <==> forall i | 0 <= i < |col| :: col[i].None?
    ensures m.Some? ==> exists i | 0 <= i < |col| :: col[i] == m
    ensures m.Some? ==> forall i | 0 <= i < |col| && col[i].Some? :: m.value <= col[i].value
  {
    if col == [] then None
    else
      var n := |col| - 1;
      var rest := MinPresent(col[..n]);
      assert forall i | 0 <= i < n :: col[..n][i] == col[i];
      if col[n].None? then rest
      else if rest.None? || col[n].value < rest.value then col[n]
      else rest
  }

  /* ---------------------------------------------------------------- */
  /* Imputation of the average distances (lines 130-136)              */

  /** `fillna(column_max * 1.1)`; with no present value the maximum is NaN
      and the cell stays missing. */
  function Fill(x: Option<real>, max: Option<real>): Option<real> {
    if x.Some? then x else if max.Some? then Some(max.value * 1.1) else None
  }

  function FillColumn(col: seq<Option<real>>): (filled: seq<Option<real>>)
    ensures |filled| == |col|
  {
    var m := MaxPresent(col);
    seq(|col|, i requires 0 <= i < |col| => Fill(col[i], m))
  }

  /** Present values are kept; each missing one becomes exactly the
      column's maximum times 1.1; nothing stays missing unless the whole
      column was; and with non-negative distances an imputed value is at
      least every present one, so it ranks as the farthest. */
  lemma FillColumnSpec(col: seq<Option<real>>, i: int)
    requires 0 <= i < |col|
    ensures col[i].Some? ==> FillColumn(col)[i] == col[i]
    ensures col[i].None? && MaxPresent(col).Some? ==> FillColumn(col)[i] == Some(MaxPresent(col).value * 1.1)
    ensures FillColumn(col)[i].None? <==> forall k | 0 <= k < |col| :: col[k].None?
    ensures (forall k | 0 <= k < |col| && col[k].Some? :: col[k].value >= 0.0) && col[i].None? ==>
      forall k | 0 <= k < |col| && col[k].Some? :: col[k].value <= FillColumn(col)[i].value || FillColumn(col)[i].None?
  {
  }

  function Convenience(r: Row): Option<real> { r.convenience }
  function Transit(r: Row): Option<real> { r.transit }
  function School(r: Row): Option<real> { r.school }

  function Column(rows: seq<Row>, f: Row -> Option<real>): (col: seq<Option<real>>)
    ensures |col| == |rows|
  {
    seq(|rows|, i requires 0 <= i < |rows| => f(rows[i]))
  }

  /** Line 125 on one row. */
  function TypeEncoded(r: Row): Row {
    r.(listing := r.listing.(propertyType := EncodeType(r.listing.propertyType)))
  }

  /** Lines 134-136 on one row, given the three column maxima. */
  function Filled(r: Row, mc: Option<real>, mt: Option<real>, ms: Option<real>): Row {
    r.(convenience := Fill(r.convenience, mc), transit := Fill(r.transit, mt), school := Fill(r.school, ms))
  }

  /** Line 137 on one row. */
  function GarageEncoded(r: Row): Row {
    r.(listing := r.listing.(garage := EncodeGarage(r.listing.garage)))
  }

  /** The table `data` as lines 122-137 leave it. */
  function Prepared(rows: seq<Row>): (p: seq<Row>)
    ensures |p| == |rows|
  {
    var mc := MaxPresent(Column(rows, Convenience));
    var mt := MaxPresent(Column(rows, Transit));
    var ms := MaxPresent(Column(rows, School));
    seq(|rows|, i requires 0 <= i < |rows| => GarageEncoded(Filled(TypeEncoded(rows[i]), mc, mt, ms)))
  }

  /** Preparation imputes each distance column by its own maximum, encodes
      the two categorical columns and leaves every other cell alone. */
  lemma PreparedSpec(rows: seq<Row>, i: int)
    requires 0 <= i < |rows|
    ensures var p := Prepared(rows)[i];
      && p.convenience == FillColumn(Column(rows, Convenience))[i]
      && p.transit == FillColumn(Column(rows, Transit))[i]
      && p.school == FillColumn(Column(rows, School))[i]
      && p.listing.propertyType == EncodeType(rows[i].listing.propertyType)
      && p.listing.garage == EncodeGarage(rows[i].listing.garage)
      && p.priceToIncome == rows[i].priceToIncome
      && p.listing == rows[i].listing.(propertyType := p.listing.propertyType, garage := p.listing.garage)
  {
    assert Column(rows, Convenience)[i] == rows[i].convenience;
    assert Column(rows, Transit)[i] == rows[i].transit;
    assert Column(rows, School)[i] == rows[i].school;
  }

  /* ---------------------------------------------------------------- */
  /* Min-max scaling of the ten features (lines 115-119, 139-148)     */

  const FeatureCount: nat := 10

  function CellValue(c: Cell): Option<real> {
    if c.Num? then Some(c.x) else None
  }

  function CellOf(x: Option<real>): Cell {
    if x.Some? then Num(x.value) else Missing
  }

  /** The feature columns in the order of `features` (lines 115-119). */
  function Features(r: Row): (f: seq<Option<real>>)
    ensures |f| == FeatureCount
  {
    [r.listing.price, r.listing.beds, r.listing.baths, r.listing.sqft,
     CellValue(r.listing.garage), CellValue(r.listing.propertyType),
     r.convenience, r.transit, r.school, r.priceToIncome]
  }

  /** The row with its feature cells replaced. */
  function WithFeatures(r: Row, f: seq<Option<real>>): (w: Row)
    requires |f| == FeatureCount
    ensures Features(w) == f
  {
    r.(listing := r.listing.(price := f[0], beds := f[1], baths := f[2], sqft := f[3],
                             garage := CellOf(f[4]), propertyType := CellOf(f[5])),
       convenience := f[6], transit := f[7], school := f[8], priceToIncome := f[9])
  }

  function FeatureColumn(rows: seq<Row>, j: nat): (col: seq<Option<real>>)
    requires j < FeatureCount
    ensures |col| == |rows|
  {
    seq(|rows|, i requires 0 <= i < |rows| => Features(rows[i])[j])
  }

  /** `MinMaxScaler` on one value: NaN stays NaN, and a column whose
      present values are all equal scales to 0. */
  function ScaleValue(x: Option<real>, lo: Option<real>, hi: Option<real>): Option<real> {
    if x.Some? && lo.Some? && hi.Some? then
      if hi.value == lo.value then Some(0.0) else Some((x.value - lo.value) / (hi.value - lo.value))
    else None
  }

  lemma ScaleValueBounds(x: real, lo: real, hi: real)
    requires lo <= x <= hi
    ensures var s := ScaleValue(Some(x), Some(lo), Some(hi)).value;
      && 0.0 <= s <= 1.0
      && (x == lo ==> s == 0.0)
      && (x == hi && lo < hi ==> s == 1.0)
  {
    if lo < hi {
      var s := (x - lo) / (hi - lo);
      assert s * (hi - lo) == x - lo;
    }
  }

  lemma ScaleValueMonotone(x: real, y: real, lo: real, hi: real)
    requires lo <= x <= y <= hi
    ensures ScaleValue(Some(x), Some(lo), Some(hi)).value <= ScaleValue(Some(y), Some(lo), Some(hi)).value
    ensures x < y ==> ScaleValue(Some(x), Some(lo), Some(hi)).value < ScaleValue(Some(y), Some(lo), Some(hi)).value
  {
    if lo < hi {
      var sx := (x - lo) / (hi - lo);
      var sy := (y - lo) / (hi - lo);
      assert sx * (hi - lo) == x - lo;
      assert sy * (hi - lo) == y - lo;
    }
  }

  /** The scaled features of row i, with the scaler fit on `source`. */
  function ScaledFeatures(source: seq<Row>, i: int): (f: seq<Option<real>>)
    requires 0 <= i < |source|
    ensures |f| == FeatureCount
  {
    seq(FeatureCount, j requires 0 <= j < FeatureCount =>
      ScaleValue(Features(source[i])[j], MinPresent(FeatureColumn(source, j)), MaxPresent(FeatureColumn(source, j))))
  }

  /** `target[features] = scaler.fit_transform(source[features])`. */
  function ScaleFeaturesFrom(target: seq<Row>, source: seq<Row>): (r: seq<Row>)
    requires |target| == |source|
    ensures |r| == |target|
  {
    seq(|target|, i requires 0 <= i < |target| => WithFeatures(target[i], ScaledFeatures(source, i)))
  }

  /** A feature is missing after scaling exactly when it was missing
      before; a present one lies in [0, 1], the column minimum goes to 0
      and the column maximum to 1 when the column is not constant. */
  lemma ScaledFeatureBounds(target: seq<Row>, source: seq<Row>, i: int, j: nat)
    requires |target| == |source|
    requires 0 <= i < |source| && j < FeatureCount
    ensures var x := Features(source[i])[j];
      var col := FeatureColumn(source, j);
      var sx := Features(ScaleFeaturesFrom(target, source)[i])[j];
      && (sx.None? <==> x.None?)
      && (x.Some? ==> 0.0 <= sx.value <= 1.0)
      && (x.Some? && x == MinPresent(col) ==> sx == Some(0.0))
      && (x.Some? && x == MaxPresent(col) && MinPresent(col).value < MaxPresent(col).value ==> sx == Some(1.0))
  {
    var col := FeatureColumn(source, j);
    var x := Features(source[i])[j];
    assert col[i] == x;
    assert Features(ScaleFeaturesFrom(target, source)[i]) == ScaledFeatures(source, i);
    if x.Some? {
      ScaleValueBounds(x.value, MinPresent(col).value, MaxPresent(col).value);
    }
  }

  /** Scaling keeps the order of the present values of a column, strictly
      for distinct values. */
  lemma ScaledFeatureMonotone(target: seq<Row>, source: seq<Row>, i: int, k: int, j: nat)
    requires |target| == |source|
    requires 0 <= i < |source| && 0 <= k < |source| && j < FeatureCount
    requires Features(source[i])[j].Some? && Features(source[k])[j].Some?
    requires Features(source[i])[j].value <= Features(source[k])[j].value
    ensures Features(ScaleFeaturesFrom(target, source)[i])[j].Some?
    ensures Features(ScaleFeaturesFrom(target, source)[k])[j].Some?
    ensures Features(ScaleFeaturesFrom(target, source)[i])[j].value
              <= Features(ScaleFeaturesFrom(target, source)[k])[j].value
    ensures Features(source[i])[j].value < Features(source[k])[j].value ==>
      Features(ScaleFeaturesFrom(target, source)[i])[j].value
        < Features(ScaleFeaturesFrom(target, source)[k])[j].value
  {
    var col := FeatureColumn(source, j);
    var x, y := Features(source[i])[j], Features(source[k])[j];
    assert col[i] == x && col[k] == y;
    assert Features(ScaleFeaturesFrom(target, source)[i]) == ScaledFeatures(source, i);
    assert Features(ScaleFeaturesFrom(target, source)[k]) == ScaledFeatures(source, k);
    ScaleValueMonotone(x.value, y.value, MinPresent(col).value, MaxPresent(col).value);
  }

  /* ---------------------------------------------------------------- */
  /* The "1 - x" inversions of lines 140-146                          */

  function OneMinus(x: Option<real>): Option<real> {
    if x.Some? then Some(1.0 - x.value) else None
  }

  /** Lines 143-146 on one row of the copy `data_scaled`. */
  function Inverted(r: Row): Row {
    r.(listing := r.listing.(price := OneMinus(r.listing.price)),
       convenience := OneMinus(r.convenience), transit := OneMinus(r.transit), school := OneMinus(r.school))
  }

  function InvertedRows(rows: seq<Row>): (inv: seq<Row>)
    ensures |inv| == |rows|
  {
    seq(|rows|, i requires 0 <= i < |rows| => Inverted(rows[i]))
  }

  /** Line 148 as written: the copy's features are replaced by the
      scaling of `data`, which has not been inverted. */
  function ScaledAsWritten(rows: seq<Row>): (r: seq<Row>)
    ensures |r| == |rows|
  {
    ScaleFeaturesFrom(InvertedRows(rows), rows)
  }

  /** As written the inversions are overwritten: the result is the plain
      min-max scaling of the prepared table, so a dearer listing gets a
      larger scaled price (by ScaledFeatureMonotone) and, with the weights of
      `final_scores`, a higher score. */
  lemma InversionOverwritten(rows: seq<Row>)
    ensures ScaledAsWritten(rows) == ScaleFeaturesFrom(rows, rows)
  {
    var a, b := ScaledAsWritten(rows), ScaleFeaturesFrom(rows, rows);
    forall i | 0 <= i < |rows|
      ensures a[i] == b[i]
    {
      assert InvertedRows(rows)[i] == Inverted(rows[i]);
    }
  }

  /** The scaling as evidently intended: fit on the inverted copy, so that
      a cheaper listing and nearer amenities give larger feature values. */
  function ScaledFixed(rows: seq<Row>): (r: seq<Row>)
    ensures |r| == |rows|
  {
    var inv := InvertedRows(rows);
    ScaleFeaturesFrom(inv, inv)
  }

  lemma InvertedFeature(rows: seq<Row>, i: int, j: nat)
    requires 0 <= i < |rows| && (j == 0 || 6 <= j <= 8)
    ensures Features(InvertedRows(rows)[i])[j] == OneMinus(Features(rows[i])[j])
  {
    assert InvertedRows(rows)[i] == Inverted(rows[i]);
  }

  /** Fit on the inverted copy, every present value of the price feature
      (column 0) and the three distance features (columns 6-8) still lies
      in [0, 1], and only missing values are missing. */
  lemma ScaledFixedBounds(rows: seq<Row>, i: int, j: nat)
    requires 0 <= i < |rows|
    requires j == 0 || 6 <= j <= 8
    ensures Features(ScaledFixed(rows)[i])[j].None? <==> Features(rows[i])[j].None?
    ensures Features(rows[i])[j].Some? ==> 0.0 <= Features(ScaledFixed(rows)[i])[j].value <= 1.0
  {
    var inv := InvertedRows(rows);
    assert ScaledFixed(rows) == ScaleFeaturesFrom(inv, inv);
    InvertedFeature(rows, i, j);
    ScaledFeatureBounds(inv, inv, i, j);
  }

  /** Fit on the inverted copy, those features reverse the order of the
      inputs: a cheaper listing or a nearer amenity never scales lower, and
      a strictly cheaper or nearer one scales strictly higher. */
  lemma ScaledFixedReverses(rows: seq<Row>, i: int, k: int, j: nat)
    requires 0 <= i < |rows| && 0 <= k < |rows|
    requires j == 0 || 6 <= j <= 8
    requires Features(rows[i])[j].Some? && Features(rows[k])[j].Some?
    requires Features(rows[i])[j].value <= Features(rows[k])[j].value
    ensures Features(ScaledFixed(rows)[i])[j].Some? && Features(ScaledFixed(rows)[k])[j].Some?
    ensures Features(ScaledFixed(rows)[k])[j].value <= Features(ScaledFixed(rows)[i])[j].value
    ensures Features(rows[i])[j].value < Features(rows[k])[j].value ==>
      Features(ScaledFixed(rows)[k])[j].value < Features(ScaledFixed(rows)[i])[j].value
  {
    var inv := InvertedRows(rows);
    assert ScaledFixed(rows) == ScaleFeaturesFrom(inv, inv);
    InvertedFeature(rows, i, j);
    InvertedFeature(rows, k, j);
    ScaledFeatureMonotone(inv, inv, k, i, j);
  }

  /* ---------------------------------------------------------------- */
  /* dropna (line 149)                                                */

  /** No cell of the row is missing. */
  predicate Complete(r: Row) {
    && r.listing.streetAddress.Some? && r.listing.locality.Some? && r.listing.region.Some?
    && r.listing.postalCode.Some? && r.listing.price.Some? && r.listing.beds.Some?
    && r.listing.baths.Some? && r.listing.sqft.Some? && !r.listing.garage.Missing?
    && !r.listing.propertyType.Missing? && r.listing.squareFootage.Some?
    && r.convenience.Some? && r.transit.Some? && r.school.Some? && r.priceToIncome.Some?
  }

  function DropNa(rows: seq<Row>): seq<Row> {
    Filter(Complete, rows)
  }

  /** `dropna` keeps exactly the complete rows, in order, each as often as
      it occurs; a kept row has every feature present. */
  lemma DropNaSpec(rows: seq<Row>, x: Row)
    ensures forall r | r in DropNa(rows) :: Complete(r)
    ensures SubsequenceOf(DropNa(rows), rows)
    ensures multiset(DropNa(rows))[x] == if Complete(x) then multiset(rows)[x] else 0
  {
    FilterSubsequence(Complete, rows);
    FilterCounts(Complete, rows, x);
  }

  /** After scaling, the categorical cells are numbers or missing, so a
      row that survives `dropna` has all ten features present. */
  lemma ScaledRowsHaveFeatures(target: seq<Row>, source: seq<Row>)
    requires |target| == |source|
    ensures forall r | r in DropNa(ScaleFeaturesFrom(target, source)) ::
      forall j | 0 <= j < FeatureCount :: Features(r)[j].Some?
  {
    var scaled := ScaleFeaturesFrom(target, source);
    forall r | r in DropNa(scaled)
      ensures forall j | 0 <= j < FeatureCount :: Features(r)[j].Some?
    {
      var i :| 0 <= i < |scaled| && scaled[i] == r;
      CompleteHasFeatures(target[i], ScaledFeatures(source, i));
    }
  }

  lemma CompleteHasFeatures(r: Row, f: seq<Option<real>>)
    requires |f| == FeatureCount && Complete(WithFeatures(r, f))
    ensures forall j | 0 <= j < FeatureCount :: f[j].Some?
  {
    var w := WithFeatures(r, f);
    assert w.listing.garage == CellOf(f[4]) && w.listing.propertyType == CellOf(f[5]);
  }

  /* ---------------------------------------------------------------- */
  /* scale_data                                                       */

  /** `scale_data(data)`: rewrites the categorical and distance columns of
      `data` in place and returns the scaled table without incomplete rows,
      as written (the inversions have no effect). */
  method ScaleData(data: array<Row>) returns (scaled: seq<Row>)
    modifies data
    ensures data[..] == Prepared(old(data[..]))
    ensures scaled == DropNa(ScaledAsWritten(data[..]))
  {
    ghost var orig := data[..];
    // line 125
    for i := 0 to data.Length
      invariant forall k | 0 <= k < i :: data[k] == TypeEncoded(orig[k])
      invariant forall k | i <= k < data.Length :: data[k] == orig[k]
    {
      data[i] := TypeEncoded(data[i]);
    }
    assert Column(data[..], Convenience) == Column(orig, Convenience);
    assert Column(data[..], Transit) == Column(orig, Transit);
    assert Column(data[..], School) == Column(orig, School);
    // lines 130-136
    var convenienceMax := MaxPresent(Column(data[..], Convenience));
    var transitMax := MaxPresent(Column(data[..], Transit));
    var schoolMax := MaxPresent(Column(data[..], School));
    for i := 0 to data.Length
      invariant forall k | 0 <= k < i :: data[k] == Filled(TypeEncoded(orig[k]), convenienceMax, transitMax, schoolMax)
      invariant forall k | i <= k < data.Length :: data[k] == TypeEncoded(orig[k])
    {
      data[i] := Filled(data[i], convenienceMax, transitMax, schoolMax);
    }
    // line 137
    for i := 0 to data.Length
      invariant forall k | 0 <= k < i ::
        data[k] == GarageEncoded(Filled(TypeEncoded(orig[k]), convenienceMax, transitMax, schoolMax))
      invariant forall k | i <= k < data.Length ::
        data[k] == Filled(TypeEncoded(orig[k]), convenienceMax, transitMax, schoolMax)
    {
      data[i] := GarageEncoded(data[i]);
    }
    // lines 140-149
    var copy := InvertedRows(data[..]);
    scaled := DropNa(ScaleFeaturesFrom(copy, data[..]));
  }
}
