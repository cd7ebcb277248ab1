/**
 The daily issuance series of halvings.py (`get_bitcoin_issuance`).

 For each pair of consecutive halvings the source emits one record per day,
 from the first halving's timestamp to the second's inclusive. Each record
 carries the epoch's daily issuance, `reward * 144`, and the reward halves
 after every epoch. The first epoch is the one between the first and the
 second listed halving (heights 210000 and 420000), and it is paid at the
 initial reward of 50. Finally the timestamps are truncated to midnight.

 Timestamps are minutes since genesis (2009-01-03 00:00). Genesis falls on a
 midnight, so a truncated date is a day index `minutes / 1440`.
 */
module Issuance {
  import opened HalvingMap

  const MinutesPerDay: nat := 1440
  /** Six blocks an hour, 24 hours a day. */
  const BlocksPerDay: nat := 6 * 24
  const InitialReward: real := 50.0
  /** `len(halving_blocks) - 1` consecutive pairs. */
  const EpochCount: nat := HalvingCount - 1
  /** Days one epoch emits: `2,100,000 / 1440 + 1`. */
  const DaysPerEpoch: nat := 1459
  /** Records in the whole series. */
  const RowCount: nat := EpochCount * DaysPerEpoch

  /** A record as the loop appends it: a timestamp and that day's issuance. */
  datatype Entry = Entry(timestamp: nat, issuance: real)

  /** A row of the returned table, its Date truncated to a day index. */
  datatype Row = Row(day: nat, issuance: real)

  function Pow2(n: nat): (p: nat)
    ensures p >= 1
  {
    if n == 0 then 1 else 2 * Pow2(n - 1)
  }

  /** The reward during epoch `i`: 50 halved `i` times. */
  function EpochReward(i: nat): (r: real)
  {
    InitialReward / (Pow2(i) as real)
  }

  /** `reward * 6 * 24` in epoch `i`. */
  function DailyIssuance(i: nat): (r: real)
  {
    EpochReward(i) * (BlocksPerDay as real)
  }

  /**
   `pd.date_range(start, end, freq="D")`: `start`, then one day later and so
   on, as long as the timestamp does not pass `end`.
   */
  function DateRange(start: nat, end: nat): (r: seq<nat>)
    decreases end - start
  {
    if start > end then [] else [start] + DateRange(start + MinutesPerDay, end)
  }

  /** The timestamps of epoch `i`: from halving `i + 1` to halving `i + 2` (1-based). */
  function EpochStart(i: nat): (t: nat)
    requires i < EpochCount
  {
    BlockTimestamp(HalvingBlocks()[i])
  }

  function EpochEnd(i: nat): (t: nat)
    requires i < EpochCount
  {
    BlockTimestamp(HalvingBlocks()[i + 1])
  }

  /** The records epoch `i` appends. */
  function EpochEntries(i: nat): (es: seq<Entry>)
    requires i < EpochCount
  {
    var dates := DateRange(EpochStart(i), EpochEnd(i));
    seq(|dates|, k requires 0 <= k < |dates| => Entry(dates[k], DailyIssuance(i)))
  }

  /** The list `data` after the first `n` epochs. */
  function Entries(n: nat): (es: seq<Entry>)
    requires n <= EpochCount
  {
    if n == 0 then [] else Entries(n - 1) + EpochEntries(n - 1)
  }

  /** `df["Date"].dt.normalize()`: every timestamp truncated to the midnight before it. */
  function Normalize(entries: seq<Entry>): (rows: seq<Row>)
    ensures |rows| == |entries|
    ensures forall k :: 0 <= k < |rows| ==>
      rows[k].day * MinutesPerDay <= entries[k].timestamp < (rows[k].day + 1) * MinutesPerDay
    ensures forall k :: 0 <= k < |rows| ==> rows[k].issuance == entries[k].issuance
  {
    seq(|entries|, k requires 0 <= k < |entries| => Row(entries[k].timestamp / MinutesPerDay, entries[k].issuance))
  }

  /** The table `get_bitcoin_issuance` returns. */
  function IssuanceSchedule(): (rows: seq<Row>)
  {
    Normalize(Entries(EpochCount))
  }

  /** The source's loop: walk the consecutive halving pairs and append one record per day. */
  method GetBitcoinIssuance() returns (df: seq<Row>)
    ensures df == IssuanceSchedule()
    ensures |df| == RowCount
    ensures df[0] == Row(1458, 7200.0)
  {
    var halvingDates := GetHalvingMap();
    var halvingBlocks := SortKeys(halvingDates);

    var reward := InitialReward;
    var data: seq<Entry> := [];
    for i := 0 to |halvingBlocks| - 1
      invariant reward == EpochReward(i)
      invariant data == Entries(i)
    {
      EpochLookup(halvingDates, halvingBlocks, i);
      var startDate := halvingDates[halvingBlocks[i]];
      var endDate := halvingDates[halvingBlocks[i + 1]];
      var dateRange := DateRange(startDate, endDate);
      var dailyIssuance := reward * (BlocksPerDay as real);
      DailyIssuanceOfReward(i, reward);
      ghost var epoch := EpochEntries(i);
      EpochEntriesOfRange(i, dateRange, dailyIssuance);
      for j := 0 to |dateRange|
        invariant data == Entries(i) + epoch[..j]
      {
        PrefixExtend(epoch, j);
        data := data + [Entry(dateRange[j], dailyIssuance)];
      }
      assert epoch[..|dateRange|] == epoch;
      RewardHalves(i);
      reward := reward / 2.0;
    }
    df := Normalize(data);
    ScheduleEnds();
  }

  /**
   `sorted(halving_dates.keys())`: the listed heights, in increasing order.
   This is `Sorted` applied to the map's keys, kept as a separate method only
   so that the facts about `Sorted` stay out of the loop's proof; it adds no
   behaviour of its own.
   */
  method SortKeys(halvingDates: map<nat, nat>) returns (blocks: seq<nat>)
    requires halvingDates == GetHalvingMap()
    ensures blocks == HalvingBlocks()
  {
    blocks := Sorted(halvingDates.Keys);
    SortedKeysAreHalvingBlocks(halvingDates);
  }

  /** The dictionary lookups of epoch `i` give its start and end. */
  lemma EpochLookup(halvingDates: map<nat, nat>, halvingBlocks: seq<nat>, i: nat)
    requires halvingDates == GetHalvingMap() && halvingBlocks == HalvingBlocks()
    requires i < EpochCount
    ensures i + 1 < |halvingBlocks|
    ensures halvingBlocks[i] in halvingDates && halvingDates[halvingBlocks[i]] == EpochStart(i)
    ensures halvingBlocks[i + 1] in halvingDates && halvingDates[halvingBlocks[i + 1]] == EpochEnd(i)
  {
    HalvingTimestampAt(i);
    HalvingTimestampAt(i + 1);
  }

  /** Proof hint: the records the inner loop appends for epoch `i` are those of `EpochEntries(i)`. */
  lemma EpochEntriesOfRange(i: nat, dateRange: seq<nat>, dailyIssuance: real)
    requires i < EpochCount
    requires dateRange == DateRange(EpochStart(i), EpochEnd(i))
    requires dailyIssuance == DailyIssuance(i)
    ensures |EpochEntries(i)| == |dateRange|
    ensures forall j :: 0 <= j < |dateRange| ==> EpochEntries(i)[j] == Entry(dateRange[j], dailyIssuance)
  {
  }

  /** Proof hint: extending a prefix by one element. */
  lemma PrefixExtend(s: seq<Entry>, j: nat)
    requires j < |s|
    ensures s[..j + 1] == s[..j] + [s[j]]
  {
  }

  // ---------------------------------------------------------------------------
  // Reward and issuance per epoch

  /** Each epoch's reward is half the previous one's. */
  lemma RewardHalves(i: nat)
    ensures EpochReward(i + 1) == EpochReward(i) / 2.0
    ensures DailyIssuance(i + 1) * 2.0 == DailyIssuance(i)
  {
    var p := Pow2(i) as real;
    assert Pow2(i + 1) as real == 2.0 * p;
  }

  /** Proof hint: the loop's `reward * 6 * 24` is the epoch's daily issuance. */
  lemma DailyIssuanceOfReward(i: nat, reward: real)
    requires reward == EpochReward(i)
    ensures reward * (BlocksPerDay as real) == DailyIssuance(i)
  {
  }

  /** Epoch `i` issues `7200 / 2^i` a day; the first epoch 7200, and strictly less each epoch. */
  lemma DailyIssuanceValue(i: nat)
    ensures DailyIssuance(i) == 7200.0 / (Pow2(i) as real)
    ensures DailyIssuance(0) == 7200.0
    ensures 0.0 < DailyIssuance(i + 1) < DailyIssuance(i)
  {
    RewardHalves(i);
  }

  // ---------------------------------------------------------------------------
  // pd.date_range

  /**
   The range holds exactly the timestamps `start + 1440 * k` that do not pass
   `end`: `(end - start) / 1440 + 1` of them when `start <= end`, none otherwise.
   */
  lemma {:induction false} DateRangeSpec(start: nat, end: nat)
    ensures |DateRange(start, end)| == if start <= end then (end - start) / MinutesPerDay + 1 else 0
    ensures forall k :: 0 <= k < |DateRange(start, end)| ==>
      DateRange(start, end)[k] == start + MinutesPerDay * k
    decreases end - start
  {
    if start <= end {
      var rest := DateRange(start + MinutesPerDay, end);
      DateRangeSpec(start + MinutesPerDay, end);
      if start + MinutesPerDay <= end {
        assert (end - start) / MinutesPerDay == (end - start - MinutesPerDay) / MinutesPerDay + 1;
      }
      forall k | 0 <= k < |DateRange(start, end)|
        ensures DateRange(start, end)[k] == start + MinutesPerDay * k
      {
        if k > 0 {
          assert DateRange(start, end)[k] == rest[k - 1];
        }
      }
    }
  }

  /** Epoch `i` runs from `(i + 1) * 2,100,000` to `(i + 2) * 2,100,000` minutes. */
  lemma EpochBounds(i: nat)
    requires i < EpochCount
    ensures EpochStart(i) == MinutesPerHalving * (i + 1)
    ensures EpochEnd(i) == EpochStart(i) + MinutesPerHalving
  {
  }

  /** Epoch `i` appends 1459 records, the `k`-th dated `start + 1440 * k`. */
  lemma EpochEntriesAt(i: nat, k: nat)
    requires i < EpochCount
    ensures |EpochEntries(i)| == DaysPerEpoch
    ensures k < DaysPerEpoch ==>
      EpochEntries(i)[k] == Entry(EpochStart(i) + MinutesPerDay * k, DailyIssuance(i))
  {
    EpochBounds(i);
    DateRangeSpec(EpochStart(i), EpochEnd(i));
  }

  /** After `n` epochs `data` holds `1459 * n` records, epoch by epoch. */
  lemma {:induction false} EntriesAt(n: nat, i: nat, k: nat)
    requires n <= EpochCount
    ensures |Entries(n)| == DaysPerEpoch * n
    ensures i < n ==> |EpochEntries(i)| == DaysPerEpoch
    ensures i < n && k < DaysPerEpoch ==> Entries(n)[DaysPerEpoch * i + k] == EpochEntries(i)[k]
  {
    if n > 0 {
      EntriesAt(n - 1, i, k);
      EpochEntriesAt(n - 1, k);
      var before, last := Entries(n - 1), EpochEntries(n - 1);
      assert Entries(n) == before + last;
      if i < n && k < DaysPerEpoch {
        if i < n - 1 {
          assert DaysPerEpoch * i + k < |before|;
        } else {
          EpochEntriesAt(i, k);
          assert DaysPerEpoch * i + k == |before| + k;
        }
      }
    }
  }

  // ---------------------------------------------------------------------------
  // Dates after truncation to midnight

  /** The day index of `start + 1440 * k` in epoch `i`: `1458 * (i + 1) + k + (i + 1) / 3`. */
  lemma EpochDay(i: nat, k: nat)
    ensures (MinutesPerHalving * (i + 1) + MinutesPerDay * k) / MinutesPerDay
      == 1458 * (i + 1) + k + (i + 1) / 3
  {
    var n := i + 1;
    var q := 1458 * n + k + n / 3;
    var r := 480 * (n % 3);
    assert MinutesPerHalving * n == MinutesPerDay * 1458 * n + 480 * n;
    assert 480 * n == MinutesPerDay * (n / 3) + r;
    assert MinutesPerHalving * n + MinutesPerDay * k == MinutesPerDay * q + r;
    assert 0 <= r < MinutesPerDay;
  }

  /**
   The whole table, row by row: row `1459 * i + k` (epoch `i`, day `k` of it)
   has day index `1458 * (i + 1) + k + (i + 1) / 3` and issuance `7200 / 2^i`.
   */
  lemma ScheduleRowAt(i: nat, k: nat)
    requires i < EpochCount && k < DaysPerEpoch
    ensures |IssuanceSchedule()| == RowCount
    ensures IssuanceSchedule()[DaysPerEpoch * i + k]
      == Row(1458 * (i + 1) + k + (i + 1) / 3, 7200.0 / (Pow2(i) as real))
  {
    EntriesAt(EpochCount, i, k);
    EpochEntriesAt(i, k);
    EpochBounds(i);
    EpochDay(i, k);
    DailyIssuanceValue(i);
  }

  /**
   The day component of `ScheduleRowAt` alone. Proofs about Dates use it so
   that the real-valued issuance stays out of their arithmetic.
   */
  lemma ScheduleDayAt(i: nat, k: nat)
    requires i < EpochCount && k < DaysPerEpoch
    ensures |IssuanceSchedule()| == RowCount
    ensures IssuanceSchedule()[DaysPerEpoch * i + k].day == 1458 * (i + 1) + k + (i + 1) / 3
  {
    ScheduleRowAt(i, k);
  }

  /** 48 epochs of 1459 records: 70,032 rows. */
  lemma ScheduleLength()
    ensures |IssuanceSchedule()| == RowCount == 70032
  {
    EntriesAt(EpochCount, 0, 0);
  }

  /** Row `n` belongs to epoch `n / 1459` and is day `n % 1459` of it. */
  lemma ScheduleRow(n: nat)
    requires n < RowCount
    ensures |IssuanceSchedule()| == RowCount
    ensures IssuanceSchedule()[n].day == 1458 * (n / DaysPerEpoch + 1) + n % DaysPerEpoch + (n / DaysPerEpoch + 1) / 3
    ensures IssuanceSchedule()[n].issuance == DailyIssuance(n / DaysPerEpoch)
  {
    var i, k := n / DaysPerEpoch, n % DaysPerEpoch;
    assert n == DaysPerEpoch * i + k;
    ScheduleRowAt(i, k);
    DailyIssuanceValue(i);
  }

  /** The first row is day 1458 after genesis (2012-12-31) with issuance 7200; the last is day 71458. */
  lemma ScheduleEnds()
    ensures |IssuanceSchedule()| == RowCount
    ensures IssuanceSchedule()[0] == Row(1458, 7200.0)
    ensures IssuanceSchedule()[RowCount - 1].day == 71458
  {
    ScheduleRowAt(0, 0);
    ScheduleRowAt(EpochCount - 1, DaysPerEpoch - 1);
  }

  /** Proof hint: row `n` is day `n % 1459` of epoch `n / 1459`. */
  lemma RowPosition(n: nat, i: nat, k: nat)
    requires n == DaysPerEpoch * i + k && k < DaysPerEpoch
    ensures n / DaysPerEpoch == i && n % DaysPerEpoch == k
  {
  }

  /** Proof hint: across the boundary after epoch `i` the day index steps by 1 exactly when `i % 3 == 1`. */
  lemma BoundaryStep(i: nat)
    ensures (i + 2) / 3 == (i + 1) / 3 + (if i % 3 == 1 then 1 else 0)
  {
  }

  /**
   Consecutive rows are on the same day or on the next: the next inside an
   epoch and across an epoch boundary after epoch `i` with `i % 3 == 1`; the
   same day across the other boundaries.
   */
  lemma ConsecutiveRows(n: nat)
    requires n + 1 < RowCount
    ensures |IssuanceSchedule()| == RowCount
    ensures IssuanceSchedule()[n + 1].day == IssuanceSchedule()[n].day + 1 <==>
      (n + 1) % DaysPerEpoch != 0 || (n / DaysPerEpoch) % 3 == 1
    ensures IssuanceSchedule()[n + 1].day == IssuanceSchedule()[n].day <==>
      (n + 1) % DaysPerEpoch == 0 && (n / DaysPerEpoch) % 3 != 1
  {
    var i, k := n / DaysPerEpoch, n % DaysPerEpoch;
    RowPosition(n, i, k);
    ScheduleDayAt(i, k);
    if k + 1 < DaysPerEpoch {
      RowPosition(n + 1, i, k + 1);
      ScheduleDayAt(i, k + 1);
    } else {
      RowPosition(n + 1, i + 1, 0);
      ScheduleDayAt(i + 1, 0);
      BoundaryStep(i);
    }
  }

  /** Dates never decrease down the table. */
  lemma {:induction false} DatesNonDecreasing(m: nat, n: nat)
    requires m <= n < RowCount
    ensures |IssuanceSchedule()| == RowCount
    ensures IssuanceSchedule()[m].day <= IssuanceSchedule()[n].day
    decreases n - m
  {
    ScheduleLength();
    if m < n {
      DatesNonDecreasing(m, n - 1);
      ConsecutiveRows(n - 1);
    }
  }

  /** Within one epoch the dates strictly increase. */
  lemma DatesIncreaseWithinEpoch(i: nat, k1: nat, k2: nat)
    requires i < EpochCount && k1 < k2 < DaysPerEpoch
    ensures |IssuanceSchedule()| == RowCount
    ensures IssuanceSchedule()[DaysPerEpoch * i + k1].day < IssuanceSchedule()[DaysPerEpoch * i + k2].day
  {
    ScheduleDayAt(i, k1);
    ScheduleDayAt(i, k2);
  }

  /** Epochs 0 and 1 both emit day 2916; epochs 1 and 2 share no day. */
  lemma BoundaryExamples()
    ensures |IssuanceSchedule()| == RowCount
    ensures IssuanceSchedule()[DaysPerEpoch - 1].day == IssuanceSchedule()[DaysPerEpoch].day == 2916
    ensures IssuanceSchedule()[2 * DaysPerEpoch - 1].day + 1 == IssuanceSchedule()[2 * DaysPerEpoch].day
  {
    ScheduleDayAt(0, DaysPerEpoch - 1);
    ScheduleDayAt(1, 0);
    ScheduleDayAt(1, DaysPerEpoch - 1);
    ScheduleDayAt(2, 0);
  }

  /** No day between the first and the last row is missing. */
  lemma {:induction false} EveryDayCovered(d: nat)
    requires 1458 <= d <= 71458
    ensures |IssuanceSchedule()| == RowCount
    ensures exists n :: 0 <= n < RowCount && IssuanceSchedule()[n].day == d
    decreases d
  {
    ScheduleEnds();
    if d > 1458 {
      EveryDayCovered(d - 1);
      var n :| 0 <= n < RowCount && IssuanceSchedule()[n].day == d - 1;
      // the last row with day d - 1 is followed by a row with day d
      var last := n;
      while last + 1 < RowCount && IssuanceSchedule()[last + 1].day == d - 1
        invariant n <= last < RowCount
        invariant IssuanceSchedule()[last].day == d - 1
        decreases RowCount - last
      {
        last := last + 1;
      }
      assert last + 1 < RowCount;
      ConsecutiveRows(last);
      assert IssuanceSchedule()[last + 1].day == d;
    }
  }
}
