# Bitcoin halving and issuance schedule

A Dafny model of `halvings.py`, the part of this cryptocurrency data-collection
repository that computes a synthetic daily Bitcoin issuance series from
halving economics.

- `halving_map.dfy`, module `HalvingMap`: `get_halving_map`. It lists the 49
  halving heights `210000 * i` for `i = 1..49`. It maps each height to its
  estimated timestamp, genesis plus ten minutes per block. The module also
  holds `Sorted`, a model of Python's `sorted` on the map's keys.
- `issuance.dfy`, module `Issuance`: `get_bitcoin_issuance`. The method
  `GetBitcoinIssuance` keeps the source's nested loops. The outer loop walks
  the 48 pairs of consecutive halvings. The inner loop appends one record per
  day of `pd.date_range(start, end, freq="D")`. The loop variable `reward`
  starts at 50 and is halved after every epoch. The method is proved equal to
  the specification function `IssuanceSchedule`, and the lemmas below it pin
  that function down row by row.

Time is counted in whole minutes since the genesis instant, 2009-01-03 00:00.
`dt.normalize()` truncates a timestamp to midnight. Genesis is itself a
midnight, so a normalised Date is the day index `minutes / 1440`.

What the code does:

- The height list starts at 210000, not 0. So the first epoch runs from the
  first halving (minute 2,100,000, 2012-12-31 08:00) to the second, and it
  is paid the initial reward of 50. The first row is therefore not on the
  genesis date: it is day 1458 (2012-12-31), with issuance 7200.
- An epoch lasts 2,100,000 minutes: 1458 days and 8 hours. So every epoch
  emits 1459 records, and the table has 48 × 1459 = 70,032 rows.
- Row `1459 * i + k` is day `1458 * (i + 1) + k + (i + 1) / 3` with issuance
  `7200 / 2^i`.
- Both ends of a range are inclusive. At the boundary after epoch `i` the day
  repeats unless `i % 3 == 1`. For example, epochs 0 and 1 both emit day 2916,
  while epochs 1 and 2 share no day. No day between the first row (day 1458)
  and the last (day 71458) is missing.

## Model

| member | source | states |
|---|---|---|
| `HalvingMap.HalvingBlocks` | halvings.py:13 | the list comprehension of heights; `HalvingBlocksMembership` and `HalvingBlocksShape` state what it holds |
| `HalvingMap.BlockTimestamp` | halvings.py:14-17 | genesis plus ten minutes per block; `HalvingMapSpec` and `HalvingTimestampAt` state the resulting timestamps |
| `HalvingMap.GetHalvingMap` | halvings.py:7-18 | `get_halving_map` without its unused fetch; `HalvingMapSpec` states its keys and values |
| `HalvingMap.HalvingBlocksMembership` | halvings.py:13 | a height is listed iff it is a multiple of 210000 between 210000 and 49 × 210000 |
| `HalvingMap.HalvingBlocksShape` | halvings.py:13 | 49 heights, strictly increasing, all multiples of 210000, first 210000, last 10,290,000 |
| `HalvingMap.HalvingMapSpec` | halvings.py:13-17 | the map's keys are exactly the listed heights, and each maps to genesis + 10 × height minutes |
| `HalvingMap.HalvingTimestampAt` | halvings.py:14-17 | the i-th listed halving is in the map at genesis + 2,100,000 × (i + 1) minutes |
| `HalvingMap.ConsecutiveHalvingsGap` | halvings.py:13-17 | consecutive halvings are exactly 2,100,000 minutes apart |
| `HalvingMap.HalvingTimestampsIncrease` | halvings.py:17 | among map keys, a lower height has an earlier timestamp, and conversely |
| `HalvingMap.Sorted` | halvings.py:24 | `sorted` of a set of integers holds exactly the set's elements, in strictly increasing order |
| `HalvingMap.StrictlyIncreasingUnique` | halvings.py:24 | two strictly increasing sequences with the same elements are equal, so the sorted order is unique |
| `HalvingMap.SortedKeysAreHalvingBlocks` | halvings.py:24 | sorting the map's keys gives back the listed heights in their listed order |
| `Issuance.EpochReward` | halvings.py:27-40 | the value of `reward` in epoch i, 50 halved i times; `RewardHalves` states the halving |
| `Issuance.DailyIssuance` | halvings.py:35 | `reward * 6 * 24` in epoch i; `DailyIssuanceValue` states it is 7200 / 2^i |
| `Issuance.DateRange` | halvings.py:34 | `pd.date_range(start, end, freq="D")`; `DateRangeSpec` states its closed form |
| `Issuance.EpochEntries` | halvings.py:34-38 | the records the inner loop appends in epoch i; `EpochEntriesAt` states them |
| `Issuance.Entries` | halvings.py:28-38 | the list `data` after n epochs; `EntriesAt` states its length and layout |
| `Issuance.IssuanceSchedule` | halvings.py:21-44 | the table `get_bitcoin_issuance` returns; `ScheduleRowAt` and `ScheduleLength` fix every row |
| `Issuance.SortKeys` | halvings.py:24 | `sorted(halving_dates.keys())` returns the 49 listed heights, ascending |
| `Issuance.EpochLookup` | halvings.py:30-32 | both dictionary lookups of pair i succeed, and they give the start and end of epoch i |
| `Issuance.GetBitcoinIssuance` | halvings.py:21-44 | the loops build exactly `IssuanceSchedule()`: 70,032 rows, the first being (day 1458, 7200) |
| `Issuance.RewardHalves` | halvings.py:35-40 | the reward and the daily issuance of epoch i + 1 are half those of epoch i |
| `Issuance.DailyIssuanceValue` | halvings.py:27-40 | epoch i issues 7200 / 2^i a day: 7200 in the first epoch, positive and strictly smaller in each later one |
| `Issuance.DateRangeSpec` | halvings.py:34 | `date_range(start, end, "D")` holds exactly the timestamps start + 1440k that do not pass end: (end − start) / 1440 + 1 of them, none if start > end |
| `Issuance.EpochBounds` | halvings.py:31-32 | epoch i runs from 2,100,000 × (i + 1) to 2,100,000 × (i + 2) minutes |
| `Issuance.EpochEntriesAt` | halvings.py:34-38 | each epoch appends 1459 records; the k-th is dated start + 1440k and carries the epoch's daily issuance |
| `Issuance.EntriesAt` | halvings.py:28-38 | after n epochs `data` holds 1459 × n records, epoch i's k-th at position 1459 × i + k |
| `Issuance.Normalize` | halvings.py:43 | normalising keeps the row count and the issuance; each Date is the day whose midnight-to-midnight span contains the timestamp |
| `Issuance.EpochDay` | halvings.py:43 | the k-th timestamp of epoch i falls on day 1458 × (i + 1) + k + (i + 1) / 3 |
| `Issuance.ScheduleRowAt` | halvings.py:30-43 | row 1459 × i + k of the table is (day 1458 × (i + 1) + k + (i + 1) / 3, issuance 7200 / 2^i) |
| `Issuance.ScheduleDayAt` | halvings.py:30-43 | the Date of row 1459 × i + k is day 1458 × (i + 1) + k + (i + 1) / 3 |
| `Issuance.ScheduleLength` | halvings.py:30-38 | the table has 48 × 1459 = 70,032 rows |
| `Issuance.ScheduleRow` | halvings.py:30-43 | row n belongs to epoch n / 1459 and carries that epoch's daily issuance; its day follows from n / 1459 and n % 1459 |
| `Issuance.ScheduleEnds` | halvings.py:30-43 | the first row is (day 1458 = 2012-12-31, 7200); the last row is day 71458 |
| `Issuance.ConsecutiveRows` | halvings.py:34-43 | the next row is one day later inside an epoch and after epoch i with i % 3 = 1; it is the same day at every other boundary |
| `Issuance.DatesNonDecreasing` | halvings.py:34-43 | Dates never decrease down the table |
| `Issuance.DatesIncreaseWithinEpoch` | halvings.py:34-43 | within one epoch Dates strictly increase |
| `Issuance.BoundaryExamples` | halvings.py:34-43 | epochs 0 and 1 both emit day 2916; epoch 2 starts one day after epoch 1 ends |
| `Issuance.EveryDayCovered` | halvings.py:34-43 | every day from 1458 to 71458 appears in some row |

## Left out

- The block-height request to the blockchair API (halvings.py:9-11) is network I/O. Its result `current_block` is never used, so the model takes no input. `GetHalvingMap` has no parameter, so the map cannot depend on `current_block`.
- The `__main__` block (halvings.py:47-50) writes the table to a file and prints its head. This is file I/O. The file is CSV despite its `.parquet` name.
- The pandas DataFrame is modelled as a sequence of `Row(day, issuance)`. Column dtypes and the index are not modelled.
- Dates are modelled as day indices since 2009-01-03. Calendar conversion (day 1458 is 2012-12-31) is stated in comments only. Every value in the source is a whole number of minutes, so pandas' nanosecond timestamps add nothing.
- The reward is modelled as a real number, 50 / 2^i. In the source, `reward` is the integer 50 in the first epoch and a binary64 float afterwards. Halving 50 is exact in binary64 for these 48 epochs, so no rounding is lost.
- Python's `sorted` is modelled for the only input it receives here, a set of distinct integers. Stability and key functions do not matter for that input.
- get_ohlcv.py (ticker list request, yfinance download, parquet writes), db.py (glob and concat of snapshot files) and src/plots/style.py (matplotlib defaults and number formatting) are library and I/O glue, so they are not part of this model. None of these files has a staleness check, deduplication or database sync, so the model has none.
