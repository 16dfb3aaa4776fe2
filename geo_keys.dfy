/** The amenity cache key of geo.py: a coordinate rounded to 4 decimals, its
    text form `str((lat, lon))` in the cache file, and the reading of that
    text back into a key when the cache is loaded.

    The key is held exactly, as a pair of integers counting 1e-4 degree
    units; `str` of such a float tuple is rendered digit by digit. Loading
    uses a parser that accepts exactly the texts `str` produces, where the
    program evaluates the stored text as Python code. */
module GeoKeys {
  import opened Wrappers

  /** `(round(lat, 4), round(lon, 4))`, in units of 1e-4 degree. */
  datatype Key = Key(lat: int, lon: int)

  /** Python's `round` on an exact value: to the nearest integer, ties to even. */
  function RoundHalfEven(x: real): (n: int)
    ensures -0.5 <= x - n as real <= 0.5
    ensures (x - n as real == 0.5 || n as real - x == 0.5) ==> n % 2 == 0
  {
    var f := x.Floor;
    var frac := x - f as real;
    if frac < 0.5 then f
    else if frac > 0.5 then f + 1
    else if f % 2 == 0 then f
    else f + 1
  }

  /** The cache key of a coordinate (geo.py line 109). */
  function KeyOf(lat: real, lon: real): (k: Key)
    ensures -0.5 <= lat * 10000.0 - k.lat as real <= 0.5
    ensures -0.5 <= lon * 10000.0 - k.lon as real <= 0.5
  {
    Key(RoundHalfEven(lat * 10000.0), RoundHalfEven(lon * 10000.0))
  }

  /* ---------------------------------------------------------------- */
  /* Decimal digits                                                   */

  predicate IsDigit(c: char) {
    '0' <= c <= '9'
  }

  predicate AllDigits(s: string) {
    forall i | 0 <= i < |s| :: IsDigit(s[i])
  }

  function DigitChar(d: nat): (c: char)
    requires d < 10
    ensures IsDigit(c)
  {
    (48 + d) as char
  }

  function DigitValue(c: char): (d: nat)
    requires IsDigit(c)
    ensures d < 10
  {
    c as int - 48
  }

  /** The decimal numeral of n, without leading zeros. */
  function Decimal(n: nat): (s: string)
    ensures |s| >= 1 && AllDigits(s)
  {
    if n < 10 then [DigitChar(n)] else Decimal(n / 10) + [DigitChar(n % 10)]
  }

  /** The number a string of digits denotes. */
  function DecimalValue(s: string): nat
    requires AllDigits(s)
  {
    if s == [] then 0 else DecimalValue(s[..|s| - 1]) * 10 + DigitValue(s[|s| - 1])
  }

  lemma {:induction false} DecimalRoundTrip(n: nat)
    ensures DecimalValue(Decimal(n)) == n
  {
    if n >= 10 {
      DecimalRoundTrip(n / 10);
      var s := Decimal(n);
      assert s[..|s| - 1] == Decimal(n / 10);
    }
  }

  /** The four fractional digits of a value in 1e-4 units, zero-padded. */
  function Fraction4(f: nat): (s: string)
    requires f < 10000
    ensures |s| == 4 && AllDigits(s)
  {
    var q1 := f / 10;
    var q2 := q1 / 10;
    var q3 := q2 / 10;
    [DigitChar(q3), DigitChar(q2 % 10), DigitChar(q1 % 10), DigitChar(f % 10)]
  }

  lemma Fraction4Value(f: nat)
    requires f < 10000
    ensures DecimalValue(Fraction4(f)) == f
  {
    var s := Fraction4(f);
    var q1 := f / 10;
    var q2 := q1 / 10;
    assert s[..3][..2] == s[..2] && s[..2][..1] == s[..1] && s[..1][..0] == [];
    assert DecimalValue(s[..1]) == q2 / 10;
    assert DecimalValue(s[..2]) == q2 / 10 * 10 + q2 % 10 == q2;
    assert DecimalValue(s[..3]) == q2 * 10 + q1 % 10 == q1;
    assert s[..4] == s;
  }

  /** Drops trailing zeros but keeps at least one digit, as Python's float
      repr does after the decimal point ("49.28", "49.0"). */
  function StripZeros(s: string): (r: string)
    ensures r <= s
    ensures |s| >= 1 ==> |r| >= 1
    ensures forall i | |r| <= i < |s| :: s[i] == '0'
  {
    if |s| > 1 && s[|s| - 1] == '0' then StripZeros(s[..|s| - 1]) else s
  }

  /** Appends zeros up to length n. */
  function PadZeros(s: string, n: nat): (r: string)
    ensures |s| <= n ==> |r| == n && s <= r && forall i | |s| <= i < n :: r[i] == '0'
    ensures |s| > n ==> r == s
    decreases n - |s|
  {
    if |s| >= n then s else PadZeros(s + "0", n)
  }

  lemma PadStripped(s: string)
    requires |s| >= 1
    ensures PadZeros(StripZeros(s), |s|) == s
  {
    var r := PadZeros(StripZeros(s), |s|);
    assert forall i | 0 <= i < |s| :: r[i] == s[i];
  }

  /** The digits of a non-negative value m / 10000: whole part, '.', and
      the fraction without trailing zeros. */
  function UnsignedText(m: nat): string {
    Decimal(m / 10000) + "." + StripZeros(Fraction4(m % 10000))
  }

  /** Python's `repr` of the float `n / 10000`, in positional notation. */
  function FloatText(n: int): string {
    if n < 0 then "-" + UnsignedText(-n) else UnsignedText(n)
  }

  /** `str(key)` for the tuple of two floats (geo.py line 17). */
  function KeyText(k: Key): string {
    "(" + FloatText(k.lat) + ", " + FloatText(k.lon) + ")"
  }

  /* ---------------------------------------------------------------- */
  /* Reading a key back                                               */

  /** The first position of c in s, or |s| when c does not occur. */
  function IndexOf(s: string, c: char): (i: nat)
    ensures i <= |s|
    ensures i < |s| ==> s[i] == c
    ensures forall j | 0 <= j < i :: s[j] != c
  {
    if s == [] then 0 else if s[0] == c then 0 else 1 + IndexOf(s[1..], c)
  }

  function ParseDigits(s: string): Option<nat> {
    if |s| >= 1 && AllDigits(s) then Some(DecimalValue(s)) else None
  }

  /** Reads whole digits, '.', and one to four fractional digits, as a
      count of 1e-4 units. */
  function ParseUnsigned(body: string): Option<nat> {
    var dot := IndexOf(body, '.');
    if dot == |body| then None
    else
      var whole := ParseDigits(body[..dot]);
      var fracText := body[dot + 1..];
      var frac := ParseDigits(PadZeros(fracText, 4));
      if whole.None? || !(1 <= |fracText| <= 4) || frac.None? then None
      else Some(whole.value * 10000 + frac.value)
  }

  /** Reads an optional '-' followed by an unsigned value. */
  function ParseFloat(t: string): Option<int> {
    if |t| > 0 && t[0] == '-' then
      match ParseUnsigned(t[1..])
      case Some(m) => Some(-(m as int))
      case None => None
    else
      match ParseUnsigned(t)
      case Some(m) => Some(m)
      case None => None
  }

  /** Splits "<a>, <b>" at the first comma. */
  function SplitPair(inner: string): Option<(string, string)> {
    var comma := IndexOf(inner, ',');
    if comma + 1 >= |inner| || inner[comma + 1] != ' ' then None
    else Some((inner[..comma], inner[comma + 2..]))
  }

  /** Reads "(<float>, <float>)" without checking that it is canonical. */
  function ParseKeyText(s: string): Option<Key> {
    if |s| < 2 || s[0] != '(' || s[|s| - 1] != ')' then None
    else
      match SplitPair(s[1..|s| - 1])
      case None => None
      case Some((a, b)) =>
        var lat := ParseFloat(a);
        var lon := ParseFloat(b);
        if lat.None? || lon.None? then None else Some(Key(lat.value, lon.value))
  }

  /** The safe replacement for `eval(k)` (geo.py line 11): accepts exactly
      the texts that `str` writes for some key. */
  function ParseKey(s: string): (r: Option<Key>)
    ensures r.Some? ==> KeyText(r.value) == s
  {
    var k := ParseKeyText(s);
    if k.Some? && KeyText(k.value) == s then k else None
  }

  lemma UnsignedTextRoundTrip(m: nat)
    ensures ParseUnsigned(UnsignedText(m)) == Some(m)
  {
    var whole := Decimal(m / 10000);
    var fracText := StripZeros(Fraction4(m % 10000));
    var body := UnsignedText(m);
    assert body == whole + "." + fracText;
    assert body[|whole|] == '.';
    assert IndexOf(body, '.') == |whole|;
    assert body[..|whole|] == whole;
    assert body[|whole| + 1..] == fracText;
    DecimalRoundTrip(m / 10000);
    PadStripped(Fraction4(m % 10000));
    Fraction4Value(m % 10000);
  }

  lemma FloatTextRoundTrip(n: int)
    ensures ParseFloat(FloatText(n)) == Some(n)
  {
    if n < 0 {
      UnsignedTextRoundTrip(-n);
      assert FloatText(n)[1..] == UnsignedText(-n);
    } else {
      UnsignedTextRoundTrip(n);
      assert FloatText(n)[0] == Decimal(n / 10000)[0];
    }
  }

  lemma FloatTextHasNoComma(n: int)
    ensures forall i | 0 <= i < |FloatText(n)| :: FloatText(n)[i] != ','
  {
    var m := if n < 0 then -n else n;
    var f := Fraction4(m % 10000);
    assert forall i | 0 <= i < |StripZeros(f)| :: StripZeros(f)[i] == f[i];
    assert UnsignedText(m) == Decimal(m / 10000) + "." + StripZeros(f);
  }

  lemma SplitPairOf(a: string, b: string)
    requires forall i | 0 <= i < |a| :: a[i] != ','
    ensures SplitPair(a + ", " + b) == Some((a, b))
  {
    var inner := a + ", " + b;
    assert inner[|a|] == ',' && inner[|a| + 1] == ' ';
    assert IndexOf(inner, ',') == |a|;
    assert inner[..|a|] == a;
    assert inner[|a| + 2..] == b;
  }

  /** Writing a key and reading it back gives the same key. */
  lemma KeyRoundTrip(k: Key)
    ensures ParseKey(KeyText(k)) == Some(k)
  {
    var a, b := FloatText(k.lat), FloatText(k.lon);
    var s := KeyText(k);
    assert s[1..|s| - 1] == a + ", " + b;
    FloatTextHasNoComma(k.lat);
    SplitPairOf(a, b);
    FloatTextRoundTrip(k.lat);
    FloatTextRoundTrip(k.lon);
    assert ParseKeyText(s) == Some(k);
  }

  /* ---------------------------------------------------------------- */
  /* The cache document                                               */

  /** A map re-keyed through an injective encoding. */
  function Encoded<K(!new), V>(m: map<K, V>, encode: K -> string): (doc: map<string, V>)
    requires forall k1, k2 :: encode(k1) == encode(k2) ==> k1 == k2
    ensures forall k | k in m :: encode(k) in doc && doc[encode(k)] == m[k]
    ensures forall s | s in doc :: exists k :: k in m && encode(k) == s
  {
    map k | k in m :: encode(k) := m[k]
  }

  /** A document read back through a decoder, failing when any key does
      not decode. */
  function Decoded<K(!new), V>(doc: map<string, V>, decode: string -> Option<K>, encode: K -> string)
    : (r: Option<map<K, V>>)
    requires forall s :: decode(s).Some? ==> encode(decode(s).value) == s
    ensures r.Some? <==> forall s | s in doc :: decode(s).Some?
  {
    if forall s | s in doc :: decode(s).Some? then
      Some(map s | s in doc :: decode(s).value := doc[s])
    else None
  }

  lemma {:induction false} DecodedEncoded<K(!new), V>(m: map<K, V>, encode: K -> string, decode: string -> Option<K>)
    requires forall k :: decode(encode(k)) == Some(k)
    requires forall s :: decode(s).Some? ==> encode(decode(s).value) == s
    ensures forall k1, k2 :: encode(k1) == encode(k2) ==> k1 == k2
    ensures Decoded(Encoded(m, encode), decode, encode) == Some(m)
  {
    forall k1, k2 | encode(k1) == encode(k2)
      ensures k1 == k2
    {
      assert decode(encode(k1)) == Some(k1);
    }
    var loaded := Decoded(Encoded(m, encode), decode, encode).value;
    assert loaded == m;
  }

  lemma KeyTextInjective()
    ensures forall k1: Key, k2: Key :: KeyText(k1) == KeyText(k2) ==> k1 == k2
  {
    forall k1: Key, k2: Key | KeyText(k1) == KeyText(k2)
      ensures k1 == k2
    {
      KeyRoundTrip(k1);
      KeyRoundTrip(k2);
    }
  }

  /** `save_cache` (geo.py lines 15-17): every key written as its text. */
  function SaveDoc<V>(cache: map<Key, V>): map<string, V>
  {
    KeyTextInjective();
    Encoded(cache, KeyText)
  }

  /** The module start-up load (geo.py lines 8-13): no file gives an empty
      cache; a key text that does not read back fails the whole load. */
  function LoadDoc<V>(file: Option<map<string, V>>): (r: Option<map<Key, V>>)
    ensures file.None? ==> r == Some(map[])
    ensures file.Some? ==> (r.Some? <==> forall s | s in file.value :: ParseKey(s).Some?)
  {
    match file
    case None => Some(map[])
    case Some(doc) => Decoded(doc, ParseKey, KeyText)
  }

  /** Saving the cache and loading the file again reproduces the same map. */
  lemma SaveLoadRoundTrip<V>(cache: map<Key, V>)
    ensures LoadDoc(Some(SaveDoc(cache))) == Some(cache)
  {
    forall k
      ensures ParseKey(KeyText(k)) == Some(k)
    {
      KeyRoundTrip(k);
    }
    DecodedEncoded(cache, KeyText, ParseKey);
  }
}
