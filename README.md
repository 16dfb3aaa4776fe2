# BC housing listing scores — a Dafny model

This project models the scoring pipeline of BC-Housing-Analysis. The pipeline
ranks Metro Vancouver real-estate listings by a score built from price,
size, property type and distances to nearby amenities.

- `wrappers.dfy` (`Wrappers`): the `Option` type. `None` stands for pandas' NaN and for Python's `None`.
- `geo_keys.dfy` (`GeoKeys`): the amenity-cache key `(round(lat, 4), round(lon, 4))`, held as integers in units of 1e-4 degree. It also has the key's `str` text, a parser that replaces `eval` when the cache file is read back, and the save/load round trip of the cache file's document.
- `geo.dfy` (`Geo`): turns Overpass elements into amenity records. It holds the uncached fetch `get_specific_amenities` and the get-or-fetch cache `get_specific_amenities_cached`. The cache is a class with a `map` field. The fetch is modelled twice: as written, where the records are dropped, and as corrected.
- `table.dfy` (`Table`): the listing, summary and row types, with a generic order-keeping filter and its lemmas.
- `loading.dfy` (`Loading`): `loading_Data`, which filters on region, property type and city and orders the rows by locality.
- `amenities.dfy` (`Amenities`): `amenities_function`. It sorts each listing's amenities into three buckets in a fixed priority and averages each bucket. Distances come from an uninterpreted `dist` parameter.
- `merge.dfy` (`Merge`): `merge_df`, the left join on (latitude, longitude), plus a corrected join.
- `income.dfy` (`Income`): the price-to-income column.
- `normalise.dfy` (`Normalise`): `scale_data`. It encodes the categorical columns, fills missing distances with max × 1.1, min-max scales the ten features and drops incomplete rows.
- `scoring.dfy` (`Scoring`): `final_scores`. It takes the weighted sum with ten weights of 1/10, then sorts by score, highest first.

All numbers are `real`, so arithmetic is exact.

The parts that change state in place are imperative:
- `AmenityCache` methods update the cache map.
- `GetSpecificAmenities` builds its record list in a loop. `GetCached` runs the same loop but, as written, never appends, so its list stays empty.
- `ScaleData` overwrites columns of an `array` of rows.
- `SortByScore` sorts an `array` in place.

The cache methods, the fetch loop and `ScaleData` are proved equal to specification functions. `SortByScore` is proved to leave the array ordered by score and a permutation of its input. The pure parts (loading, merge, income, scaling, scoring) are functions with lemmas.

Behaviours of the code that the model keeps as they are:
- The element-to-record mapping keeps amenity records without coordinates. `haversine` on such a record raises, and `AmenitiesFunction` returns `None` there.
- `scale_data` inverts price and distances on a copy and then overwrites those columns with the plain scaling, so the inversion has no effect (Findings).
- `merge_df` gives a listing one row per amenity row of its coordinate, so listings that share a coordinate are repeated (Findings).
- `final_scores` sorts with pandas' default sort, which is not stable, so the model leaves the order among equal scores open.
- A zero-range feature column scales to 0. The code leaves this to the scaling library, which does the same, and the model states it explicitly.

## Model

| member | source | states |
|---|---|---|
| GeoKeys.RoundHalfEven | geo.py:109 | The rounded integer is within 0.5 of the input, and a tie goes to the even integer (Python's `round`). |
| GeoKeys.KeyOf | geo.py:109 | Each key component is the coordinate in 1e-4 degree units, rounded to within half a unit. |
| GeoKeys.KeyText | geo.py:17 | The `str` of a key tuple: the two coordinates in positional notation with at least one fractional digit, separated by a comma and a space, in parentheses. |
| GeoKeys.ParseKey | geo.py:11 | A text is accepted only when it is exactly the `str` of the key it yields. |
| GeoKeys.UnsignedTextRoundTrip | geo.py:17 | Reading back the printed digits of a non-negative 4-decimal value gives the value. |
| GeoKeys.FloatTextRoundTrip | geo.py:17 | Reading back the float text of a signed 4-decimal value gives the value. |
| GeoKeys.KeyRoundTrip | geo.py:11-17 | Parsing `str(key)` gives back the key. |
| GeoKeys.KeyTextInjective | geo.py:17 | Distinct keys have distinct texts, so no two cache entries collide in the file. |
| GeoKeys.SaveDoc | geo.py:15-17 | The JSON document `save_cache` writes: every cache entry under the `str` text of its key, with its list unchanged. |
| GeoKeys.LoadDoc | geo.py:8-13 | No file gives an empty cache. A file loads exactly when every key text parses. |
| GeoKeys.SaveLoadRoundTrip | geo.py:8-17 | Saving the cache and loading the file again reproduces the same map. |
| Geo.RecordsOf | geo.py:88-101 | The records of the elements that carry tags, in element order, each built from its element's coordinates and tags. Untagged elements are skipped. |
| Geo.RecordsOfTagged | geo.py:88-101 | The fetcher's list has one record per element with tags, in input order. Record j is built from the j-th tagged element. |
| Geo.TaggedElementRecorded | geo.py:92-100 | Every tagged element has its record. Absent name/amenity/shop tags read 'N/A'. An element without coordinates is kept, with None for them. |
| Geo.GetSpecificAmenities | geo.py:60-106 | Status 200 returns the records of the answer's elements. Any other status returns None. |
| Geo.GetOrFetch | geo.py:109-112 | A hit returns the stored list and changes nothing. A successful miss stores the fetched list under the key, and no other key changes. A failed fetch leaves the cache unchanged and returns None. |
| Geo.CachedLookup | geo.py:108-152 | The cached fetch as written: a stored key answers from the cache; on a miss, status 200 stores and returns the empty list and any other status returns None with the cache unchanged. |
| Geo.CachedLookupFixed | geo.py:108-152 | The cached fetch with the record appended: a stored key answers from the cache; on a miss it returns what the uncached fetch returns and stores it when present. |
| Geo.CachedMissStoresEmpty | geo.py:130-149 | As written, a successful miss stores and returns the empty list. |
| Geo.CachedLookupDropsRecords | geo.py:134-148 | For one tagged school node, the uncached fetch returns its record and the cached fetch returns `[]`. |
| Geo.CachedLookupFixedStoresRecords | geo.py:130-152 | On a miss, the corrected fetch returns what the uncached fetch returns. It stores exactly that list on status 200 and leaves the cache unchanged otherwise. |
| Geo.NeverRefetched | geo.py:109-112 | Once a lookup has stored a key, the next lookup of that key returns the identical result and leaves the cache unchanged, whatever Overpass would now answer. Lookups of other keys keep the entry by the frame clauses of `Geo.GetOrFetch`. |
| Geo.AmenityCache.constructor | geo.py:8-13 | The cache starts as the loaded map, with no queries sent. |
| Geo.AmenityCache.GetCached | geo.py:108-152 | The result and the new map are the as-written get-or-fetch. A query is sent only on a miss. |
| Geo.AmenityCache.GetCachedFixed | geo.py:108-152 | The same, with the fetched records stored. |
| Geo.AmenityCache.Save | geo.py:15-17 | The document written reads back as the current cache. |
| Loading.LoadingData | projectAttempt1.py:17-36 | The rows in region BC, sorted by locality, then those of the four listed property types, then those in the twelve Metro Vancouver cities. |
| Loading.SortByLocality | projectAttempt1.py:18 | The rows are ordered by locality (missing last) and are a permutation of the input. |
| Loading.LoadingDataSpec | projectAttempt1.py:17-36 | Every row kept is in BC, of a listed type and in a listed city. The output is in locality order. It holds exactly the input rows passing the three filters, with their multiplicities. |
| Loading.LoadingDataCounts | projectAttempt1.py:17-36 | The multiset of the output equals that of the input rows passing all three filters. |
| Table.FilterSubsequence | projectAttempt1.py:149 | A filter keeps its rows in their input order. |
| Amenities.BucketOf | projectAttempt1.py:62-67 | The bucket of an amenity, first match wins: convenience or grocery shop, then bus, subway or railway station, then school or university, else none. |
| Amenities.BucketSize | projectAttempt1.py:59-67 | A bucket gets one distance per amenity classified into it. |
| Amenities.BucketsPartition | projectAttempt1.py:62-67 | The convenience, transit, school and ignored counts add up to the number of amenities, so each amenity lands in exactly one. |
| Amenities.MeanBounds | projectAttempt1.py:72-74 | The mean of a non-empty bucket lies between any lower and upper bound of its distances. |
| Amenities.Summarize | projectAttempt1.py:55-75 | The summary of one listing: its coordinate and the mean distance of each bucket, missing for an empty bucket; None when any amenity of the list has no coordinates, since `haversine` runs before the bucket test. |
| Amenities.SummarizeSpec | projectAttempt1.py:55-75 | A summary carries the listing's unrounded coordinate. Each average is present exactly when some amenity of its bucket was found, so None or `[]` gives three missing averages. |
| Amenities.BucketDistancesNonNegative | projectAttempt1.py:60-67 | With a non-negative distance function every bucketed distance is non-negative. |
| Amenities.AmenitiesRun | projectAttempt1.py:53-75 | The loop over listings: each listing's amenities come from the cache or the oracle, the cache carries over to the next listing, and the first listing whose summary fails ends the run with None. |
| Amenities.AmenitiesRunShape | projectAttempt1.py:53-75 | One summary per listing, in input order, each with its listing's latitude and longitude. |
| Amenities.FailureIsFinal | projectAttempt1.py:61 | Once a listing has raised, the later listings change neither the result nor the cache. |
| Amenities.AsWrittenSummariesMissing | projectAttempt1.py:53-75 | With the cached fetch as written, a cache of empty lists stays so, and every listing gets three missing averages. |
| Amenities.SummarizeListing | projectAttempt1.py:55-75 | The bucket loop and the three means equal the specified summary. The result is None where `haversine` meets a missing coordinate. |
| Amenities.AmenitiesFunction | projectAttempt1.py:44-83 | The summaries and the final cache equal the specified run over all listings, using the corrected cached fetch. |
| Merge.Matches | projectAttempt1.py:86-91 | The amenity rows returned are exactly those with the listing's coordinate. |
| Merge.MergeDf | projectAttempt1.py:86-91 | The listings in order; each gets one row per amenity row of its coordinate, in table order, or one row with missing averages. |
| Merge.MatchesSpec | projectAttempt1.py:86-91 | The matches of a listing keep the table's order and hold every amenity row of its coordinate exactly as often as the table does, and no other row. |
| Merge.MergeDfLeftJoin | projectAttempt1.py:86-91 | Every listing appears, and it is paired with every amenity row of its coordinate. Every row is a listing with the averages of an amenity row of its coordinate, or with missing averages when none has it. The row count is the sum over listings of the number of matching amenity rows, counting 1 for a listing with none. |
| Merge.MergeDfPairsAll | projectAttempt1.py:86-91 | For every listing and every amenity row of its coordinate, the join has a row of that listing carrying that row's averages. |
| Merge.MergeDfRowCount | projectAttempt1.py:86-91 | The join's length is the sum over listings of the number of matching amenity rows, counting 1 for a listing with none. |
| Merge.MergeDfSplit | projectAttempt1.py:86-91 | The join of a table is the join of its first i listings followed by the join of the rest. |
| Merge.MergeDfShare | projectAttempt1.py:86-91 | Listing i owns the block of rows that starts after the rows of the listings before it, and the blocks follow one another. With no match the block is one row with missing averages. Otherwise row k of the block carries the averages of the k-th matching amenity row, in table order. |
| Merge.MergeDfCovers | projectAttempt1.py:86-91 | Every listing has at least one row in the join. |
| Merge.MergeDfRowsFrom | projectAttempt1.py:86-91 | Every row of the join is a listing joined from a matching amenity row, or with missing averages. |
| Merge.MergeDfPreservesRows | projectAttempt1.py:86-91 | With unique coordinates in the amenity table, the join keeps the listings one for one and in order. |
| Merge.MergeDfDuplicates | projectAttempt1.py:86-91 | When a listing meets two amenity rows of its coordinate, the join has more rows than there are listings. |
| Merge.MergeDfDuplicatesSharedCoordinates | projectAttempt1.py:86-91 | Two listings at one coordinate, each with its amenity row, give four joined rows. |
| Merge.FirstPerCoordinateUnique | projectAttempt1.py:86-91 | Keeping the first amenity row of each coordinate leaves unique coordinates. |
| Merge.FirstPerCoordinateCovers | projectAttempt1.py:86-91 | Every coordinate of the amenity table keeps a row. |
| Merge.MergeDfFixed | projectAttempt1.py:86-91 | The corrected join: the join against the amenity table with only the first row of each coordinate kept. |
| Merge.MergeDfFixedPreservesRows | projectAttempt1.py:86-91 | The corrected join keeps the listings one for one and in order. A listing gets the averages of an amenity row of its coordinate whenever one exists. |
| Income.PriceToIncome | projectAttempt1.py:109 | Every joined row with the column price divided by the median income added, missing when either is. |
| Income.PriceToIncomeSpec | projectAttempt1.py:109 | Listing and averages are kept. The ratio times the median is the price, and it is missing exactly when the price or the median is. A positive median keeps the price order. |
| Normalise.EncodeTypeOrdinal | projectAttempt1.py:125-127 | Condo < Townhome < Single Family < MultiFamily map into (0, 1]. Any other cell becomes missing. |
| Normalise.EncodeGarageIndicator | projectAttempt1.py:137 | Garage becomes 1 exactly when it is 'Yes', and 0 otherwise. |
| Normalise.MaxPresent | projectAttempt1.py:130-132 | The maximum over present values is one of them and bounds them all. It is missing exactly when every value is. |
| Normalise.MinPresent | projectAttempt1.py:148 | The minimum over present values is one of them and bounds them all from below. It is missing exactly when every value is. |
| Normalise.FillColumnSpec | projectAttempt1.py:130-136 | Present values are unchanged. Each missing one becomes exactly max × 1.1. Nothing stays missing unless the whole column is. With non-negative distances the imputed value is at least every present one. |
| Normalise.Prepared | projectAttempt1.py:122-137 | The table after the preparation steps: property type encoded, the three distance columns filled with their maximum × 1.1, and garage encoded as 1 or 0. |
| Normalise.PreparedSpec | projectAttempt1.py:122-137 | Each distance column is filled by its own maximum, the two categorical columns are encoded, and every other cell is left alone. |
| Normalise.ScaleValueBounds | projectAttempt1.py:148 | A value between the column's minimum and maximum scales into [0, 1]. The minimum maps to 0, and the maximum maps to 1 when the range is non-zero. |
| Normalise.ScaleValueMonotone | projectAttempt1.py:148 | Scaling keeps the order of two values of one column, strictly for distinct values. |
| Normalise.ScaledFeatureBounds | projectAttempt1.py:148 | After scaling, a feature is missing exactly when it was before. A present one lies in [0, 1], with the column minimum at 0 and, when the column is not constant, the maximum at 1. |
| Normalise.ScaledFeatureMonotone | projectAttempt1.py:148 | Scaling keeps the order of the present values of a feature column, strictly for distinct values. |
| Normalise.ScaledAsWritten | projectAttempt1.py:143-148 | The scaled table as written: the inverted copy whose ten feature columns are then replaced by the min-max scaling fit on the uninverted table. |
| Normalise.InversionOverwritten | projectAttempt1.py:140-148 | As written, the result equals plain min-max scaling of `data`. The "1 − x" columns are overwritten. |
| Normalise.ScaledFixed | projectAttempt1.py:143-148 | The scaled table as intended: the min-max scaling fit on the copy with price and distances inverted. |
| Normalise.ScaledFixedBounds | projectAttempt1.py:143-148 | With the scaler fit on the inverted copy, price and distance features stay in [0, 1]. Only missing inputs stay missing. |
| Normalise.ScaledFixedReverses | projectAttempt1.py:143-148 | With the scaler fit on the inverted copy, a lower or equal price or distance never gives a lower scaled value, and a strictly lower one gives a strictly higher scaled value. |
| Normalise.DropNa | projectAttempt1.py:149 | The rows with no missing cell, in order. |
| Normalise.DropNaSpec | projectAttempt1.py:149 | `dropna` keeps exactly the complete rows, in input order, each as often as it occurs. |
| Normalise.ScaledRowsHaveFeatures | projectAttempt1.py:148-149 | Every row left after scaling and `dropna` has all ten features present. |
| Normalise.ScaleData | projectAttempt1.py:114-151 | `data` is rewritten in place to the prepared table. The result is the as-written scaling of it without incomplete rows. |
| Scoring.UniformSum | projectAttempt1.py:161 | n weights of 1/n add up to one. |
| Scoring.WeightsUniform | projectAttempt1.py:161 | Ten weights, each 0.1, summing to 1. |
| Scoring.DotBounds | projectAttempt1.py:164 | With values in [0, 1] and non-negative weights, the weighted sum lies between 0 and the weight total. |
| Scoring.Score | projectAttempt1.py:164 | The dot product of the ten features with the weights, missing when any feature is. |
| Scoring.ScoreBounds | projectAttempt1.py:164 | A score is present exactly when every feature is. Features in [0, 1] give a score in [0, 1]. |
| Scoring.ScaledRowsScoreInUnitInterval | projectAttempt1.py:148-164 | Every row `scale_data` returns has a score in [0, 1]. |
| Scoring.SortByScore | projectAttempt1.py:165 | In place: the array ends sorted by score, highest first with NaN last, and is a permutation of what it held. |
| Scoring.FinalScores | projectAttempt1.py:153-167 | Each input row appears once with its score, and the rows are ordered highest score first. |

## Left out

- Network I/O: the Overpass and Nominatim requests and all of `get_lat_lon` are left out. Overpass is an oracle `Query -> Response`, and the query text is not modelled.
- The Overpass query never asks for subway or railway stations. The transit bucket then only sees bus stations, which the free oracle does not capture.
- `haversine` is float trigonometry. It is an uninterpreted parameter `dist`.
- File I/O is left out: the cache file, CSV and JSON reads and writes, and the plots and argument check of `main`. The cache file is modelled as the document `SaveDoc` writes and `LoadDoc` reads.
- The census table parsing in `price_to_income` is left out. The median income is an input.
- The `property-sqft` text-to-number conversion is left out. The column arrives as numbers.
- scraper.py is not part of this model.
- Floats are exact reals. Python's `round` works on the binary float, which can differ from the exact value at a decimal tie.
- GeoKeys.FloatText: writes positional notation only, and there is no key for `-0.0`. Python writes `-0.0` for a small negative coordinate that rounds to zero.
- GeoKeys.ParseKey: accepts only the canonical text `str` produces. `eval` accepts any Python expression, so a hand-edited file may load there and fail here.
- Loading.SortByLocality: is stable, which is one of the orders pandas' unstable sort may produce.
- Scoring.SortByScore: leaves the order among equal scores open.
- Table.Listing: latitude and longitude are always present. A NaN coordinate, whose key and join behaviour differ in pandas, is not modelled.
- Income.PriceToIncome: requires a non-zero median. A zero median gives infinities in pandas.
- Normalise.ScaledFeatures: reads a text cell in a feature column as missing, where the scaling library would raise. Only unprepared rows can hold one.
- The module-level cache is an `AmenityCache` object passed to `AmenitiesFunction`, not a global. `queries` is a ghost log of the requests sent.
- Amenities.AmenitiesFunction: uses the corrected cached fetch. `AmenitiesRun` with `StoredAsWritten` gives the as-written loop (see `AsWrittenSummariesMissing`).
- Merge.MergeDf: returns no rows for an empty listing table. In the code, `amenities_function` then builds `pd.DataFrame([])`, which has no `latitude` column, so the merge raises KeyError.
- Normalise.ScaleData: returns no rows for an empty table. The scaling library raises on a table with no rows.
- GeoKeys.KeyText: assumes the rounded coordinates are Python floats, or NumPy older than 2. The listing loop passes NumPy values, and under NumPy 2 `str` of the key prints `np.float64(...)`, which `eval` cannot read back without NumPy in scope.
- Normalise.ScaleData: models `scale_data` as written. The corrected scaling is the function `ScaledFixed`.

## Findings

| source | as written | input that shows it | evidently intended | confidence | as-written member | corrected member |
|---|---|---|---|---|---|---|
| geo.py:136-148 | The record built per tagged element is never appended, so a successful miss stores and returns `[]`. | One tagged school node at (49.2827, -123.1207), status 200. | Store and return the records, as `get_specific_amenities` does. | high; not executed | Geo.CachedLookupDropsRecords | Geo.CachedLookupFixedStoresRecords |
| projectAttempt1.py:86-91 | The left join on coordinates meets one amenity row per listing. Listings that share a coordinate, such as condominiums in one building, each get one row per such listing. | Two listings at (49.2827, -123.1207) give four merged rows. | One merged row per listing. | medium; not executed | Merge.MergeDfDuplicates | Merge.MergeDfFixedPreservesRows |
| projectAttempt1.py:143-148 | The "1 − x" inversions go to `data_scaled`, but the scaler is fit on `data` and overwrites them. A dearer listing and farther amenities then raise the score. | Any two listings with different prices: the dearer one gets the larger scaled price. | Lower price and shorter distances score higher. | medium; not executed | Normalise.InversionOverwritten | Normalise.ScaledFixedReverses |
