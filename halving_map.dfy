/**
 The halving schedule of halvings.py (`get_halving_map`): the block heights at
 which the block reward halves, each mapped to its estimated timestamp.

 Timestamps are whole minutes since the genesis instant, 2009-01-03 00:00.
 The block-height fetch that the source performs first is not modelled: its
 result is never used, so the map is a function of constants alone.
 */
module HalvingMap {

  /** Blocks between two halvings. */
  const BlocksPerHalving: nat := 210000
  /** Number of halvings listed: heights `BlocksPerHalving * i` for `i` in `1..49`. */
  const HalvingCount: nat := 49
  /** Average block interval, in minutes. */
  const BlockTime: nat := 10
  /** The genesis instant 2009-01-03 00:00, origin of the minute count. */
  const Genesis: nat := 0
  /** Minutes between two consecutive halvings: 2,100,000. */
  const MinutesPerHalving: nat := BlocksPerHalving * BlockTime

  ghost predicate StrictlyIncreasing(s: seq<nat>)
  {
    forall i, j :: 0 <= i < j < |s| ==> s[i] < s[j]
  }

  /** A height the schedule lists: a positive multiple of 210000, at most the 49th. */
  ghost predicate IsHalvingHeight(b: nat)
  {
    b % BlocksPerHalving == 0 && BlocksPerHalving <= b <= HalvingCount * BlocksPerHalving
  }

  /** The list comprehension of heights, in the order the source builds it. */
  function HalvingBlocks(): (blocks: seq<nat>)
  {
    seq(HalvingCount, i requires 0 <= i < HalvingCount => BlocksPerHalving * (i + 1))
  }

  /** The estimated timestamp of a block: genesis plus ten minutes per block. */
  function BlockTimestamp(block: nat): (t: nat)
  {
    Genesis + block * BlockTime
  }

  /** The dictionary `get_halving_map` returns: each listed height to its timestamp. */
  function GetHalvingMap(): (m: map<nat, nat>)
  {
    map b | b in HalvingBlocks() :: BlockTimestamp(b)
  }

  /** The map's keys are exactly the listed heights, each mapped to genesis plus ten minutes per block. */
  lemma HalvingMapSpec()
    ensures forall b :: b in GetHalvingMap() <==> IsHalvingHeight(b)
    ensures forall b :: b in GetHalvingMap() ==> GetHalvingMap()[b] == Genesis + b * BlockTime
  {
    HalvingBlocksMembership();
  }

  /** The listed heights are exactly the multiples of 210000 from the 1st to the 49th. */
  lemma HalvingBlocksMembership()
    ensures forall b :: b in HalvingBlocks() <==> IsHalvingHeight(b)
  {
    var blocks := HalvingBlocks();
    forall b: nat | IsHalvingHeight(b)
      ensures b in blocks
    {
      var i := b / BlocksPerHalving - 1;
      assert blocks[i] == b;
    }
  }

  /** 49 heights in strictly increasing order, the first 210000 and the last 10,290,000. */
  lemma HalvingBlocksShape()
    ensures |HalvingBlocks()| == HalvingCount
    ensures StrictlyIncreasing(HalvingBlocks())
    ensures HalvingBlocks()[0] == 210000
    ensures HalvingBlocks()[HalvingCount - 1] == 10290000
    ensures forall i :: 0 <= i < HalvingCount ==> HalvingBlocks()[i] % BlocksPerHalving == 0
  {
  }

  /** The timestamp of the `i`-th listed halving is `(i + 1) * 2,100,000` minutes after genesis. */
  lemma HalvingTimestampAt(i: nat)
    requires i < HalvingCount
    ensures HalvingBlocks()[i] in GetHalvingMap()
    ensures GetHalvingMap()[HalvingBlocks()[i]] == Genesis + MinutesPerHalving * (i + 1)
  {
    HalvingBlocksMembership();
  }

  /** Consecutive halvings are exactly 2,100,000 minutes apart. */
  lemma ConsecutiveHalvingsGap(i: nat)
    requires i + 1 < HalvingCount
    ensures HalvingBlocks()[i] in GetHalvingMap() && HalvingBlocks()[i + 1] in GetHalvingMap()
    ensures GetHalvingMap()[HalvingBlocks()[i + 1]] - GetHalvingMap()[HalvingBlocks()[i]] == MinutesPerHalving
  {
    HalvingTimestampAt(i);
    HalvingTimestampAt(i + 1);
  }

  /** Timestamps strictly increase with block height. */
  lemma HalvingTimestampsIncrease(b1: nat, b2: nat)
    requires b1 in GetHalvingMap() && b2 in GetHalvingMap()
    ensures b1 < b2 <==> GetHalvingMap()[b1] < GetHalvingMap()[b2]
  {
    HalvingMapSpec();
  }

  /** Python's `sorted` on a set of distinct integers: the smallest first, then the rest sorted. */
  function Sorted(keys: set<nat>): (s: seq<nat>)
    ensures forall x :: x in s <==> x in keys
    ensures StrictlyIncreasing(s)
    decreases keys
  {
    if keys == {} then []
    else
      assert IsLeast(Minimum(keys), keys);
      var least :| IsLeast(least, keys);
      var rest := Sorted(keys - {least});
      PrependLeast(keys, least, rest);
      [least] + rest
  }

  predicate IsLeast(least: nat, keys: set<nat>)
  {
    least in keys && forall y :: y in keys ==> least <= y
  }

  /** The smallest element of a non-empty set. */
  ghost function Minimum(keys: set<nat>): (least: nat)
    requires keys != {}
    ensures IsLeast(least, keys)
    decreases keys
  {
    var x :| x in keys;
    if keys == {x} then x
    else
      var m := Minimum(keys - {x});
      assert forall y :: y in keys ==> y == x || y in keys - {x};
      if x < m then x else m
  }

  /** Putting the least key in front of the sorted others sorts all keys. */
  lemma PrependLeast(keys: set<nat>, least: nat, rest: seq<nat>)
    requires IsLeast(least, keys)
    requires forall x :: x in rest <==> x in keys - {least}
    requires StrictlyIncreasing(rest)
    ensures forall x :: x in [least] + rest <==> x in keys
    ensures StrictlyIncreasing([least] + rest)
  {
    assert forall x :: x in rest ==> least < x;
    var s := [least] + rest;
    forall i, j | 0 <= i < j < |s|
      ensures s[i] < s[j]
    {
      assert s[j] == rest[j - 1];
      if i > 0 {
        assert s[i] == rest[i - 1];
      } else {
        assert s[j] in rest;
      }
    }
  }

  /** Two strictly increasing sequences with the same elements are equal. */
  lemma {:induction false} StrictlyIncreasingUnique(a: seq<nat>, b: seq<nat>)
    requires StrictlyIncreasing(a) && StrictlyIncreasing(b)
    requires forall x :: x in a <==> x in b
    ensures a == b
    decreases |a|
  {
    if a != [] {
      assert a[0] in b;
      assert b[0] in a;
      assert a[0] == b[0];
      forall x
        ensures x in a[1..] <==> x in b[1..]
      {
        if x in a[1..] {
          assert x in a && x > a[0];
        }
        if x in b[1..] {
          assert x in b && x > b[0];
        }
      }
      StrictlyIncreasingUnique(a[1..], b[1..]);
      assert a == [a[0]] + a[1..];
      assert b == [b[0]] + b[1..];
    } else {
      HeadIsMember(b);
    }
  }

  /** Proof hint: a non-empty sequence contains its first element. */
  lemma HeadIsMember(s: seq<nat>)
    ensures |s| > 0 ==> s[0] in s
  {
  }

  /** `sorted(halving_dates.keys())` gives back the heights in the order they were listed. */
  lemma SortedKeysAreHalvingBlocks(m: map<nat, nat>)
    requires m == GetHalvingMap()
    ensures Sorted(m.Keys) == HalvingBlocks()
  {
    HalvingMapSpec();
    HalvingBlocksMembership();
    HalvingBlocksShape();
    StrictlyIncreasingUnique(Sorted(m.Keys), HalvingBlocks());
  }
}
