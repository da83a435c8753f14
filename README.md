# DefiLlama chain TVL: top-30 selection, day bucketing and deduplication

This project models, in Dafny, the data shaping done by `pull_defillama_chain_tvl.py`
once the DefiLlama responses are in memory:

1. **Top-30 selection** (line 29-30). The `/v2/chains` records are sorted by `tvl`, largest
   first, with a missing `tvl` counted as 0. Python's sort is stable, so ties keep their input order.
   The first 30 are kept and their names are lower-cased.
2. **Day bucketing** (lines 34-46). For each selected chain the history points are read in
   order. A point lacking `date` or `tvl` is skipped. Every other point becomes a row
   `(day, chain, value)`, where `day` is the UTC calendar date of the UNIX timestamp written
   `YYYY-MM-DD` (the full-date of section 5.6 of RFC 3339). An exception abandons the rest of
   that chain, keeps the rows it already appended, and the loop moves on to the next chain.
3. **Deduplication and ordering** (lines 48-51). Rows go into a dictionary keyed by
   `(day, chain)`, so a later row replaces an earlier one. The items are then listed in ascending
   key order.

Modules, one per step, plus two helpers:

- `Options`: the optional value of a JSON field.
- `Strings`: Python's `<` on `str`, and lower-casing.
- `CivilDate`: `utcfromtimestamp(ts).date().isoformat()`. It uses a day-count-to-civil-date
  conversion in integers only, proved against its inverse `Ordinal`.
- `ChainRanking`: the stable descending sort, the top-30 cut and the name list.
- `ChainHistory`: the per-chain, per-point loop, as two methods proved against the
  specification functions `ChainRows` and `AllRows`.
- `RowTable`: the dedup dictionary, as a method with a loop, and the sorted listing of its
  items, as a function.
- `ChainTvlPipeline`: the whole data path, from the chains list and the history responses to
  the rows written to the CSV file.

Inputs the script fetches over the network are parameters. `chainsData` is the parsed
`/v2/chains` list. `responses[i]` is what the history request for the i-th selected chain
returned: either a list of points or `FetchFailed`, which stands for any exception raised by
`session.get(...).json()`. A point is either a record or `NotARecord`, an element on which
`p.get` raises. The `date` field of a record is an integer `int()` accepts or `NotAnInteger`.
Its `tvl` field is a number `float()` accepts or `NotANumber`. Either field can be missing,
which covers both an absent key and a JSON null.

## Model

| member | source | states |
|---|---|---|
| `Strings.StrLess` | pull_defillama_chain_tvl.py:51 | definition of Python's `<` on `str` (code point by code point, a proper prefix first); its order properties are the three lemmas below |
| `Strings.StrLessIrreflexive` | pull_defillama_chain_tvl.py:51 | no string sorts before itself under Python's string order |
| `Strings.StrLessTransitive` | pull_defillama_chain_tvl.py:51 | Python's string order is transitive |
| `Strings.StrLessTotal` | pull_defillama_chain_tvl.py:51 | any two distinct strings are ordered one way or the other |
| `Strings.StrLessConcat` | pull_defillama_chain_tvl.py:51 | when the first parts have equal length, two concatenations compare by their first parts, then by the rest |
| `Strings.Lower` | pull_defillama_chain_tvl.py:30 | lower-casing keeps the length and lower-cases every ASCII capital in place |
| `Strings.LowerIdempotent` | pull_defillama_chain_tvl.py:30 | a lower-cased name has no ASCII capital, and lower-casing it again changes nothing |
| `CivilDate.DaysBeforeYearStep` | pull_defillama_chain_tvl.py:42 | consecutive years start 365 or 366 days apart, 366 after a Gregorian leap year |
| `CivilDate.DaysBeforeYearCycles` | pull_defillama_chain_tvl.py:42 | 400, 100, 4 and 1 Gregorian years hold 146097, 36524, 1461 and 365 days |
| `CivilDate.YearAndDay` | pull_defillama_chain_tvl.py:42 | a day count from 0001-01-01 splits into a year and a day of that year inside the year's length, and adding back the days before that year gives the count |
| `CivilDate.MonthOf` | pull_defillama_chain_tvl.py:42 | the month found is the one whose day range holds the given day of the year |
| `CivilDate.FromOrdinal` | pull_defillama_chain_tvl.py:42 | every day count in 0001-01-01 .. 9999-12-31 gives a valid date whose day count is that count |
| `CivilDate.OrdinalBounds` | pull_defillama_chain_tvl.py:42 | a valid date lies inside its own year and before 10000-01-01 |
| `CivilDate.OrdinalMonotone` | pull_defillama_chain_tvl.py:42 | a date earlier in the calendar has a smaller day count |
| `CivilDate.OrdinalRoundTrip` | pull_defillama_chain_tvl.py:42 | converting a valid date to its day count and back gives the same date |
| `CivilDate.Digits` | pull_defillama_chain_tvl.py:42 | zero-padded printing yields exactly `width` decimal digits |
| `CivilDate.DigitsOrder` | pull_defillama_chain_tvl.py:42 | for zero-padded numbers of one width, numeric order equals string order |
| `CivilDate.IsoFormat` | pull_defillama_chain_tvl.py:42 | definition of `date.isoformat()` (`%04d-%02d-%02d`); its shape and order are stated by `IsoFormatShape` and `IsoFormatOrder` |
| `CivilDate.IsoFormatShape` | pull_defillama_chain_tvl.py:42 | `isoformat()` of a valid date is 10 characters: 4 digits, `-`, 2 digits, `-`, 2 digits |
| `CivilDate.IsoFormatOrder` | pull_defillama_chain_tvl.py:42 | two labels compare as strings exactly as their dates compare in the calendar (both directions) |
| `CivilDate.UtcDate` | pull_defillama_chain_tvl.py:42 | a timestamp has a date exactly when floor(ts / 86400) days after 1970-01-01 is in years 1..9999, and that date is floor(ts / 86400) days after 1970-01-01 |
| `CivilDate.DayLabel` | pull_defillama_chain_tvl.py:42 | the label exists exactly in that range (elsewhere Python raises) and is a `YYYY-MM-DD` string |
| `CivilDate.DayLabelSameDay` | pull_defillama_chain_tvl.py:42 | two timestamps get the same label exactly when they fall in the same 86400-second block |
| `CivilDate.DayLabelOrder` | pull_defillama_chain_tvl.py:42 | one label is lexicographically smaller than another exactly when its day is earlier |
| `ChainRanking.SortKey` | pull_defillama_chain_tvl.py:29 | definition of the key `x.get("tvl", 0)`; the ordering by it is stated by `SortByTvl` and `TopChainsDominate` |
| `ChainRanking.Insert` | pull_defillama_chain_tvl.py:29 | inserting a chain adds exactly that chain to the multiset, and it lands first or behind the old head |
| `ChainRanking.InsertKeepsOrder` | pull_defillama_chain_tvl.py:29 | inserting into a list ordered by `tvl`, largest first, keeps it ordered |
| `ChainRanking.SortByTvl` | pull_defillama_chain_tvl.py:29 | the sorted list is a permutation of the input, ordered by `tvl` largest first, a missing `tvl` counting as 0 |
| `ChainRanking.InsertWithKey` | pull_defillama_chain_tvl.py:29 | an inserted chain goes ahead of every chain with the same `tvl` |
| `ChainRanking.SortByTvlStable` | pull_defillama_chain_tvl.py:29 | for every `tvl` value, the chains with that value come out in their input order (stability) |
| `ChainRanking.WithKeyPrefix` | pull_defillama_chain_tvl.py:29 | cutting a list short keeps a prefix of each group of equal-`tvl` chains |
| `ChainRanking.TopChains` | pull_defillama_chain_tvl.py:29 | the selection has min(30, input length) chains, is ordered by `tvl` largest first, and is a sub-multiset of the input |
| `ChainRanking.TopChainsDominate` | pull_defillama_chain_tvl.py:29 | every chain left out has a `tvl` no larger than that of every chain selected |
| `ChainRanking.TopChainsKeepTieOrder` | pull_defillama_chain_tvl.py:29 | among chains of equal `tvl`, the selected ones are the earliest in the input, in input order |
| `ChainRanking.ChainNames` | pull_defillama_chain_tvl.py:30 | `CHAIN_NAMES` has the selection's length and order, and element i is the lower-cased name of selected chain i |
| `ChainHistory.HasFields` | pull_defillama_chain_tvl.py:40-41 | definition of the test at line 41 (a record whose `date` and `tvl` are both present and not null); its role is stated by `PointOutcome` and `Emitted` |
| `ChainHistory.PointOutcome` | pull_defillama_chain_tvl.py:40-43 | a record lacking `date` or `tvl` is skipped, and only such a record. A point yields a row exactly when it is a record with an integer `date` in years 1..9999 and a numeric `tvl`; every other point raises. The row names the chain, carries the `YYYY-MM-DD` label of the timestamp and the point's `tvl` value |
| `ChainHistory.ChainRows` | pull_defillama_chain_tvl.py:37-45 | the rows one chain appends, point by point up to the first exception; at most one row per point. Its meaning is stated by `ChainRowsUpToRaise` and `ChainRowsWithoutRaise` |
| `ChainHistory.ResponseRows` | pull_defillama_chain_tvl.py:37-45 | definition of what one chain contributes: nothing when the fetch raised, else `ChainRows` of its points; `CollectRows` is proved against it |
| `ChainHistory.AllRows` | pull_defillama_chain_tvl.py:34-46 | definition of `all_rows` after the chain loop, chain by chain in order; its properties are `AllRowsGrows` and `AllRowsWellFormed` |
| `ChainHistory.FirstRaise` | pull_defillama_chain_tvl.py:37-45 | the index found is the first point that raises, or the number of points when none does |
| `ChainHistory.Emitted` | pull_defillama_chain_tvl.py:39-43 | when no point raises, there is one row per point that has both fields |
| `ChainHistory.ChainRowsUpToRaise` | pull_defillama_chain_tvl.py:37-45 | a chain contributes the rows of the points before its first exception, in order, and nothing from that point on |
| `ChainHistory.ChainRowsWithoutRaise` | pull_defillama_chain_tvl.py:39-43 | without an exception every point with both fields adds exactly one row, the others none, in point order |
| `ChainHistory.AllRowsGrows` | pull_defillama_chain_tvl.py:34-46 | `all_rows` only grows: after i chains it is a prefix of what it is after any later chain |
| `ChainHistory.ChainRowsWellFormed` | pull_defillama_chain_tvl.py:39-43 | every row of a chain names that chain and carries a `YYYY-MM-DD` day |
| `ChainHistory.AllRowsWellFormed` | pull_defillama_chain_tvl.py:35-43 | every row names a selected chain and carries a `YYYY-MM-DD` day |
| `ChainHistory.AppendChainRows` | pull_defillama_chain_tvl.py:39-43 | the point loop appends exactly that chain's rows to what `all_rows` held, stopping at the first exception |
| `ChainHistory.CollectRows` | pull_defillama_chain_tvl.py:34-46 | the chain loop leaves `all_rows` as the rows of every chain in turn; a failed fetch adds nothing and the loop goes on |
| `RowTable.KeyLess` | pull_defillama_chain_tvl.py:51 | definition of Python's `<` on `(day, chain)` tuples: by day, then by chain; its order properties are the three lemmas below |
| `RowTable.KeyLessIrreflexive` | pull_defillama_chain_tvl.py:51 | no `(day, chain)` key sorts before itself |
| `RowTable.KeyLessTransitive` | pull_defillama_chain_tvl.py:51 | the tuple order on keys is transitive |
| `RowTable.KeyLessTotal` | pull_defillama_chain_tvl.py:51 | any two distinct keys are ordered one way or the other |
| `RowTable.KeysOfAppend` | pull_defillama_chain_tvl.py:48-50 | the keys of two row lists joined are the union of their keys |
| `RowTable.LastWins` | pull_defillama_chain_tvl.py:48-50 | definition of the dictionary after `dedup[(d, c)] = v` for every row in order; its meaning is stated by `LastWinsMeaning` |
| `RowTable.Dedup` | pull_defillama_chain_tvl.py:48-50 | the loop leaves `dedup` as the dictionary of all rows written in order |
| `RowTable.LastWinsMeaning` | pull_defillama_chain_tvl.py:48-50 | the dictionary holds exactly the keys of `all_rows`, and each key maps to the value of the last row with that key |
| `RowTable.KeysOfSize` | pull_defillama_chain_tvl.py:48-50 | there are no more keys than rows |
| `RowTable.KeyOrderIsStrictTotal` | pull_defillama_chain_tvl.py:51 | every two keys are equal or ordered |
| `RowTable.MinKeyExists` | pull_defillama_chain_tvl.py:51 | every non-empty set of keys has a smallest element |
| `RowTable.MinKey` | pull_defillama_chain_tvl.py:51 | the key chosen is in the set and no key of the set is smaller |
| `RowTable.SortedItems` | pull_defillama_chain_tvl.py:51 | the rows list the dictionary's items, one per key, with keys strictly ascending |
| `RowTable.SmallestFirst` | pull_defillama_chain_tvl.py:51 | putting the smallest item in front of the sorted other items sorts them all |
| `RowTable.AscendingKeysDistinct` | pull_defillama_chain_tvl.py:51 | each key occurs once in the sorted rows |
| `RowTable.FirstKeyIsSmallest` | pull_defillama_chain_tvl.py:51 | the first sorted row has the dictionary's smallest key |
| `RowTable.TailIsSortedItems` | pull_defillama_chain_tvl.py:51 | without its first row, the sorted listing is the sorted listing of the rest of the dictionary |
| `RowTable.SameFirstRow` | pull_defillama_chain_tvl.py:51 | two sorted listings of one dictionary start with the same row |
| `RowTable.SortedItemsUnique` | pull_defillama_chain_tvl.py:51 | only one sequence lists a dictionary's items in strictly ascending key order |
| `RowTable.LastWinsOfSortedItems` | pull_defillama_chain_tvl.py:48-51 | putting the sorted rows back through the dictionary gives the same dictionary |
| `RowTable.DedupSortIdempotent` | pull_defillama_chain_tvl.py:48-51 | running the dedup-and-sort step on the final rows returns them unchanged |
| `RowTable.FinalRows` | pull_defillama_chain_tvl.py:48-51 | the final rows have exactly the keys of `all_rows`, each once, are no more than `all_rows`, and carry the last value written for each key |
| `RowTable.SortedDaysNonDecreasing` | pull_defillama_chain_tvl.py:51 | in rows with strictly ascending keys, no later row has a lexicographically smaller day |
| `RowTable.SortedRowsChronological` | pull_defillama_chain_tvl.py:51 | a row listed before another is from the same UTC day or an earlier one |
| `ChainTvlPipeline.PullChainTvl` | pull_defillama_chain_tvl.py:28-51 | the script's data path yields `CHAIN_NAMES` and the deduplicated rows in strictly ascending `(day, chain)` order, each naming a selected chain with a `YYYY-MM-DD` day |

## Left out

- HTTP session and retry policy (lines 15-26): configuration of the `requests` library, whose behaviour is not part of this code.
- Network fetches (lines 28 and 38): their results are parameters of the model (`chainsData`, `responses`).
- The 0.5 s sleep between chains (line 46), the progress and warning messages (lines 31, 36, 45, 57, 60), the package install, the Drive mount and the copy (lines 1, 6, 8, 59): I/O with no effect on the data.
- CSV writing (lines 53-57): file output through the `csv` module; the model stops at the `rows` list that is written.
- `float(tvl)` (line 43): a value is kept as an exact `real`. Floating-point rounding, NaN and infinities are not modelled.
- ChainRanking.TopChains: a `tvl` is a `real` or missing. Python's `json` also accepts `NaN`, and every comparison with NaN is false. The sort at line 29 then need not return a non-increasing order. So `NonIncreasing` and `TopChainsDominate` do not describe Python for a chains list holding a NaN `tvl`.
- `int(ts)` (line 42): the model receives the integer `int()` produces, or `NotAnInteger` for a value it rejects. Truncation of a fractional timestamp happens before the model sees it.
- Negative timestamps follow Linux `gmtime`, where the day is floor(ts / 86400). On platforms where `utcfromtimestamp` rejects negative values, such points raise instead.
- A `/v2/chains` record without a string `name` that is among the 30 selected makes line 30 raise and ends the script. The model's `Chain` always has a string name.
- A `tvl` present but null or a string is compared with the other keys at line 29. The sort raises `TypeError` as soon as it compares such a key with a number or with null. No comparison happens for a list of one record, and a list whose keys are all strings is sorted as strings. The model's `Chain.tvl` is a number or missing, so none of these cases is modelled.
- A history response that is a JSON object rather than a list yields its keys when iterated, and `p.get` then raises on the first one. In the model this is the same as a response of `NotARecord` points.
- Strings.Lower: lower-cases ASCII letters only, where Python's `str.lower()` also lower-cases non-ASCII letters (and can change the length for a few of them).
- Python's `<` on strings is modelled by code point, which is how CPython compares `str`; the byte encoding of the CSV output is not modelled.
