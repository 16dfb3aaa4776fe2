/** The rows that flow through projectAttempt1.py. A missing cell (pandas'
    NaN) is None; the two categorical columns hold text until scale_data
    rewrites them as numbers, so their cells carry either. */
module Table {
  import opened Wrappers

  /** A cell of a column that holds text before encoding and numbers after. */
  datatype Cell = Missing | Text(text: string) | Num(x: real)

  /** A listing after the column selection of `loading_Data` (lines 21-25). */
  datatype Listing = Listing(
    streetAddress: Option<string>,
    locality: Option<string>,
    region: Option<string>,
    postalCode: Option<string>,
    latitude: real,
    longitude: real,
    price: Option<real>,
    beds: Option<real>,
    baths: Option<real>,
    sqft: Option<real>,
    garage: Cell,
    propertyType: Cell,
    squareFootage: Option<string>)

  /** One entry of the amenity table `amenities_function` returns. */
  datatype Summary = Summary(
    latitude: real,
    longitude: real,
    convenience: Option<real>,
    transit: Option<real>,
    school: Option<real>)

  /** A row of `merge_df`'s result: a listing and the three averages. */
  datatype Joined = Joined(
    listing: Listing,
    convenience: Option<real>,
    transit: Option<real>,
    school: Option<real>)

  /** A row of the merged table, with the price-to-income ratio column. */
  datatype Row = Row(
    listing: Listing,
    convenience: Option<real>,
    transit: Option<real>,
    school: Option<real>,
    priceToIncome: Option<real>)

  /** The sum of the values, left to right. */
  function Sum(xs: seq<real>): real {
    if xs == [] then 0.0 else xs[0] + Sum(xs[1..])
  }

  /** Keeps the elements satisfying p, in order. */
  function Filter<T>(p: T -> bool, s: seq<T>): (r: seq<T>)
    ensures |r| <= |s|
    ensures forall x | x in r :: x in s && p(x)
  {
    if s == [] then [] else (if p(s[0]) then [s[0]] else []) + Filter(p, s[1..])
  }

  /** Filtering keeps every element that satisfies p as often as it occurs,
      and nothing else. */
  lemma {:induction false} FilterCounts<T>(p: T -> bool, s: seq<T>, x: T)
    ensures multiset(Filter(p, s))[x] == if p(x) then multiset(s)[x] else 0
  {
    if s != [] {
      FilterCounts(p, s[1..], x);
      assert s == [s[0]] + s[1..];
    }
  }

  lemma MultisetExt<T>(a: multiset<T>, b: multiset<T>)
    requires forall x :: a[x] == b[x]
    ensures a == b
  {
  }

  /** a is b with some elements left out, the rest in the same order. */
  predicate SubsequenceOf<T(==)>(a: seq<T>, b: seq<T>) {
    if a == [] then true
    else if b == [] then false
    else if a[0] == b[0] then SubsequenceOf(a[1..], b[1..])
    else SubsequenceOf(a, b[1..])
  }

  lemma {:induction false} FilterSubsequence<T>(p: T -> bool, s: seq<T>)
    ensures SubsequenceOf(Filter(p, s), s)
  {
    if s != [] {
      FilterSubsequence(p, s[1..]);
      var rest := Filter(p, s[1..]);
      if p(s[0]) {
        assert Filter(p, s) == [s[0]] + rest;
        assert ([s[0]] + rest)[1..] == rest;
      } else {
        assert Filter(p, s) == rest;
        SkipOne(rest, s);
      }
    }
  }

  /** Putting an element in front of b keeps a a subsequence of it. */
  lemma {:induction false} SkipOne<T>(a: seq<T>, b: seq<T>)
    requires b != [] && SubsequenceOf(a, b[1..])
    ensures SubsequenceOf(a, b)
    decreases |b|, 0
  {
    if a != [] && a[0] == b[0] {
      DropHead(a, b[1..]);
    }
  }

  /** Leaving out a's first element keeps it a subsequence of c. */
  lemma {:induction false} DropHead<T>(a: seq<T>, c: seq<T>)
    requires a != [] && SubsequenceOf(a, c)
    ensures SubsequenceOf(a[1..], c)
    decreases |c|, 1
  {
    if a[0] == c[0] {
      SkipOne(a[1..], c);
    } else {
      DropHead(a, c[1..]);
      SkipOne(a[1..], c);
    }
  }
}
