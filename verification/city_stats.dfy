/** The per-city record of main.go, `cityTemperatureInfo` (lines 23-28), and the three ways it
    is built: from a first reading, by one more reading, and by merging two records. Readings are
    whole numbers of tenths of a degree, so `sum` is exact. */
module CityStats {

  /** `cityTemperatureInfo`: how many readings, the least, the greatest and their total. */
  datatype Info = Info(count: int, min: int, max: int, sum: int)

  /** `cityMap` (line 21): the record of each city seen so far. */
  type CityMap = map<string, Info>

  /** The total of the readings. */
  function Sum(rs: seq<int>): int
  {
    if |rs| == 0 then 0 else Sum(rs[..|rs| - 1]) + rs[|rs| - 1]
  }

  /** The least reading: no reading is below it, and it is one of them. */
  function Min(rs: seq<int>): (m: int)
    requires |rs| > 0
    ensures forall i :: 0 <= i < |rs| ==> m <= rs[i]
    ensures m in rs
  {
    if |rs| == 1 then rs[0]
    else
      var m := Min(rs[..|rs| - 1]);
      if rs[|rs| - 1] < m then rs[|rs| - 1] else m
  }

  /** The greatest reading: no reading is above it, and it is one of them. */
  function Max(rs: seq<int>): (m: int)
    requires |rs| > 0
    ensures forall i :: 0 <= i < |rs| ==> rs[i] <= m
    ensures m in rs
  {
    if |rs| == 1 then rs[0]
    else
      var m := Max(rs[..|rs| - 1]);
      if rs[|rs| - 1] > m then rs[|rs| - 1] else m
  }

  /** The record a non-empty sequence of readings of one city should produce. */
  function StatsOf(rs: seq<int>): (info: Info)
    requires |rs| > 0
  {
    Info(|rs|, Min(rs), Max(rs), Sum(rs))
  }

  /** The record of a city's first reading (main.go:185-191). */
  function First(v: int): Info
  {
    Info(1, v, v, v)
  }

  /** The record of a first reading is the record of that one reading. */
  lemma FirstStats(v: int)
    ensures First(v) == StatsOf([v])
  {
    var rs := [v];
    assert rs[..0] == [] && Sum(rs) == Sum(rs[..0]) + v;
    assert Min(rs) == v && Max(rs) == v;
  }

  /** A later reading of a city (main.go:194-213): one more reading, the new minimum and maximum
      kept only when the reading goes beyond them, and the reading added to the sum. */
  function Add(info: Info, v: int): Info
  {
    Info(info.count + 1, if v < info.min then v else info.min, if v > info.max then v else info.max,
         info.sum + v)
  }

  /** Adding a reading to the record of some readings gives the record of all of them. */
  lemma AddStats(rs: seq<int>, v: int)
    requires |rs| > 0
    ensures Add(StatsOf(rs), v) == StatsOf(rs + [v])
  {
    assert (rs + [v])[..|rs|] == rs;
  }

  /** Merging a batch's record into the accumulated one (main.go:93-103): counts and sums add,
      and the minimum and maximum are replaced when the batch goes beyond them. */
  function Combine(acc: Info, batch: Info): Info
  {
    Info(acc.count + batch.count, if batch.min < acc.min then batch.min else acc.min,
         if batch.max > acc.max then batch.max else acc.max, acc.sum + batch.sum)
  }

  /** The record of two runs of readings, merged, is the record of the two runs together. */
  lemma CombineStats(a: seq<int>, b: seq<int>)
    requires |a| > 0 && |b| > 0
    ensures Combine(StatsOf(a), StatsOf(b)) == StatsOf(a + b)
  {
    SumConcat(a, b);
    MinConcat(a, b);
    MaxConcat(a, b);
  }

  /** Merging records does not depend on which one is the accumulator. */
  lemma CombineCommutes(x: Info, y: Info)
    ensures Combine(x, y) == Combine(y, x)
  {
  }

  /** Merging records does not depend on how the merges are grouped. */
  lemma CombineAssociates(x: Info, y: Info, z: Info)
    ensures Combine(Combine(x, y), z) == Combine(x, Combine(y, z))
  {
  }

  lemma {:induction false} SumConcat(a: seq<int>, b: seq<int>)
    ensures Sum(a + b) == Sum(a) + Sum(b)
    decreases |b|
  {
    if |b| == 0 {
      assert a + b == a;
    } else {
      var b' := b[..|b| - 1];
      assert (a + b)[..|a + b| - 1] == a + b';
      SumConcat(a, b');
    }
  }

  lemma {:induction false} MinConcat(a: seq<int>, b: seq<int>)
    requires |a| > 0 && |b| > 0
    ensures Min(a + b) == if Min(b) < Min(a) then Min(b) else Min(a)
  {
    var m := Min(a + b);
    var i :| 0 <= i < |a + b| && (a + b)[i] == m;
    if i < |a| {
      assert a[i] == m;
    } else {
      assert b[i - |a|] == m;
    }
    var j :| 0 <= j < |a| && a[j] == Min(a);
    assert (a + b)[j] == Min(a);
    var k :| 0 <= k < |b| && b[k] == Min(b);
    assert (a + b)[|a| + k] == Min(b);
  }

  lemma {:induction false} MaxConcat(a: seq<int>, b: seq<int>)
    requires |a| > 0 && |b| > 0
    ensures Max(a + b) == if Max(b) > Max(a) then Max(b) else Max(a)
  {
    var m := Max(a + b);
    var i :| 0 <= i < |a + b| && (a + b)[i] == m;
    if i < |a| {
      assert a[i] == m;
    } else {
      assert b[i - |a|] == m;
    }
    var j :| 0 <= j < |a| && a[j] == Max(a);
    assert (a + b)[j] == Max(a);
    var k :| 0 <= k < |b| && b[k] == Max(b);
    assert (a + b)[|a| + k] == Max(b);
  }
}
