/** The price-to-income column of `price_to_income` (projectAttempt1.py
    line 109). Reading the census table and picking the median employment
    income out of it (lines 96-106) is not modelled: the median is an
    input, missing when the census cell is not numeric. */
module Income {
  import opened Wrappers
  import opened Table

  /** `price / median_income`, missing when either is missing. */
  function Ratio(price: Option<real>, medianIncome: Option<real>): Option<real>
    requires medianIncome.Some? ==> medianIncome.value != 0.0
  {
    if price.Some? && medianIncome.Some? then Some(price.value / medianIncome.value) else None
  }

  /** Adds the ratio column to every joined row. */
  function PriceToIncome(rows: seq<Joined>, medianIncome: Option<real>): (r: seq<Row>)
    requires medianIncome.Some? ==> medianIncome.value != 0.0
    ensures |r| == |rows|
  {
    seq(|rows|, i requires 0 <= i < |rows| =>
      Row(rows[i].listing, rows[i].convenience, rows[i].transit, rows[i].school,
          Ratio(rows[i].listing.price, medianIncome)))
  }

  /** The rows keep their listing and averages; the ratio times the median
      gives back the price, and it is missing exactly when the price or the
      median is. A positive median keeps the order of prices. */
  lemma PriceToIncomeSpec(rows: seq<Joined>, medianIncome: Option<real>, i: int, j: int)
    requires medianIncome.Some? ==> medianIncome.value != 0.0
    requires 0 <= i < |rows| && 0 <= j < |rows|
    ensures var r := PriceToIncome(rows, medianIncome);
      && r[i].listing == rows[i].listing
      && r[i].convenience == rows[i].convenience && r[i].transit == rows[i].transit
      && r[i].school == rows[i].school
      && (r[i].priceToIncome.Some? <==> rows[i].listing.price.Some? && medianIncome.Some?)
      && (r[i].priceToIncome.Some? ==> r[i].priceToIncome.value * medianIncome.value == rows[i].listing.price.value)
      && ((r[i].priceToIncome.Some? && r[j].priceToIncome.Some? && medianIncome.value > 0.0
           && rows[i].listing.price.value <= rows[j].listing.price.value)
          ==> r[i].priceToIncome.value <= r[j].priceToIncome.value)
  {
    var r := PriceToIncome(rows, medianIncome);
    if r[i].priceToIncome.Some? && r[j].priceToIncome.Some? && medianIncome.value > 0.0 {
      var m := medianIncome.value;
      var p, q := rows[i].listing.price.value, rows[j].listing.price.value;
      assert r[i].priceToIncome.value * m == p;
      assert r[j].priceToIncome.value * m == q;
    }
  }
}
