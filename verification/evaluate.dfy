/** The merge loop of main.go's `evaluate` (lines 90-108): the maps of the batches, as they
    arrive on the result channel, merged city by city into one `cityMap`. The goroutines and
    channels are left out: the batches arrive as a sequence, in any order. */
module Evaluate {
  import opened Wrappers
  import opened CityStats
  import opened Batches

  /** One batch map merged into the accumulator (lines 92-107): a city in both gets the merged
      record, a city in one of them keeps its record. */
  function Merge(acc: CityMap, batch: CityMap): (r: CityMap)
    ensures r.Keys == acc.Keys + batch.Keys
    ensures forall c :: c in acc && c !in batch ==> r[c] == acc[c]
    ensures forall c :: c in batch && c !in acc ==> r[c] == batch[c]
  {
    map c | c in acc.Keys + batch.Keys ::
      if c in acc && c in batch then Combine(acc[c], batch[c]) else if c in acc then acc[c] else batch[c]
  }

  /** The accumulator after the batches have been merged in, first to last. */
  function MergeAll(batches: seq<CityMap>): CityMap
  {
    if |batches| == 0 then map[] else Merge(MergeAll(batches[..|batches| - 1]), batches[|batches| - 1])
  }

  /** The inner loop of the merge (lines 92-107), over the batch's cities in Go's unspecified map
      order: the accumulator becomes `Merge(cityMap, t)`, holding the cities of both maps, with a
      city absent from the accumulator copied unchanged. */
  method MergeInto(cityMap: CityMap, t: CityMap) returns (r: CityMap)
    ensures r == Merge(cityMap, t)
  {
    r := cityMap;
    var remaining := t.Keys;
    ghost var done: set<string> := {};
    while remaining != {}
      invariant remaining !! done && remaining + done == t.Keys
      invariant r == Merge(cityMap, Restrict(t, done))
      decreases |remaining|
    {
      var city :| city in remaining;
      r := MergeCity(r, t, city, cityMap, done);
      remaining := remaining - {city};
      done := done + {city};
    }
    assert Restrict(t, done) == t;
  }

  /** One city of the batch merged into the accumulator (lines 93-106): the record is merged
      when the city is there, and copied otherwise. */
  method MergeCity(r: CityMap, t: CityMap, city: string, ghost cityMap: CityMap, ghost done: set<string>)
      returns (r': CityMap)
    requires city in t && city !in done && r == Merge(cityMap, Restrict(t, done))
    ensures r' == Merge(cityMap, Restrict(t, done + {city}))
  {
    MergeOneMore(cityMap, t, done, city);
    if city in r {
      var val := MergeRecord(r[city], t[city]);
      r' := r[city := val];
    } else {
      r' := r[city := t[city]];
    }
  }

  /** The update of a city present in both maps (lines 93-103), on the accumulated record `val`. */
  method MergeRecord(val: Info, batch: Info) returns (r: Info)
    ensures r == Combine(val, batch)
    ensures r.count == val.count + batch.count && r.sum == val.sum + batch.sum
    ensures r.min <= val.min && r.min <= batch.min && (r.min == val.min || r.min == batch.min)
    ensures r.max >= val.max && r.max >= batch.max && (r.max == val.max || r.max == batch.max)
  {
    r := val;
    r := r.(count := r.count + batch.count);
    r := r.(sum := r.sum + batch.sum);
    if batch.min < r.min {
      r := r.(min := batch.min);
    }
    if batch.max > r.max {
      r := r.(max := batch.max);
    }
  }

  /** The cities of `t` in `keys`, with their records. */
  function Restrict(t: CityMap, keys: set<string>): CityMap
  {
    map c | c in t.Keys * keys :: t[c]
  }

  /** Merging one more city of the batch changes the accumulator at that city only. */
  lemma MergeOneMore(acc: CityMap, t: CityMap, done: set<string>, city: string)
    requires city in t && city !in done
    ensures var m := Merge(acc, Restrict(t, done));
      Merge(acc, Restrict(t, done + {city}))
        == m[city := if city in m then Combine(m[city], t[city]) else t[city]]
  {
    var b := Restrict(t, done);
    assert Restrict(t, done + {city}) == b[city := t[city]];
    MergeUpdate(acc, b, city, t[city]);
  }

  /** A batch with one more city merges to the accumulator changed at that city only. */
  lemma MergeUpdate(acc: CityMap, b: CityMap, city: string, info: Info)
    requires city !in b
    ensures var m := Merge(acc, b);
      Merge(acc, b[city := info]) == m[city := if city in m then Combine(m[city], info) else info]
  {
    var m := Merge(acc, b);
    var lhs := Merge(acc, b[city := info]);
    var rhs := m[city := if city in m then Combine(m[city], info) else info];
    assert lhs.Keys == rhs.Keys;
  }

  /** The outer merge loop (lines 91-108): every batch map merged into `cityMap` in arrival order. */
  method MergeBatches(batches: seq<CityMap>) returns (cityMap: CityMap)
    ensures cityMap == MergeAll(batches)
  {
    cityMap := map[];
    for i := 0 to |batches|
      invariant cityMap == MergeAll(batches[..i])
    {
      assert batches[..i + 1][..i] == batches[..i];
      cityMap := MergeInto(cityMap, batches[i]);
    }
    assert batches[..|batches|] == batches;
  }

  /** Merging does not depend on which map is the accumulator. */
  lemma MergeCommutes(a: CityMap, b: CityMap)
    ensures Merge(a, b) == Merge(b, a)
  {
    forall c | c in a && c in b
      ensures Combine(a[c], b[c]) == Combine(b[c], a[c])
    {
      CombineCommutes(a[c], b[c]);
    }
  }

  /** Merging does not depend on how the merges are grouped. */
  lemma MergeAssociates(a: CityMap, b: CityMap, c: CityMap)
    ensures Merge(Merge(a, b), c) == Merge(a, Merge(b, c))
  {
    var lhs := Merge(Merge(a, b), c);
    var rhs := Merge(a, Merge(b, c));
    forall k | k in lhs
      ensures lhs[k] == rhs[k]
    {
      if k in a && k in b && k in c {
        CombineAssociates(a[k], b[k], c[k]);
      }
    }
  }

  /** The accumulator of `batches` is the accumulator of the others with batch `j` merged in
      last. */
  lemma {:induction false} MergeAllRemove(batches: seq<CityMap>, j: nat)
    requires j < |batches|
    ensures MergeAll(batches) == Merge(MergeAll(batches[..j] + batches[j + 1..]), batches[j])
    decreases |batches|
  {
    var n := |batches|;
    var others := batches[..j] + batches[j + 1..];
    if j == n - 1 {
      assert others == batches[..n - 1];
    } else {
      var init := batches[..n - 1];
      var last := batches[n - 1];
      var rest := init[..j] + init[j + 1..];
      MergeAllRemove(init, j);
      assert init[j] == batches[j];
      assert others == rest + [last];
      assert others[..|others| - 1] == rest;
      calc {
        MergeAll(batches);
        Merge(MergeAll(init), last);
        Merge(Merge(MergeAll(rest), batches[j]), last);
        { MergeAssociates(MergeAll(rest), batches[j], last);
          MergeCommutes(batches[j], last);
          MergeAssociates(MergeAll(rest), last, batches[j]); }
        Merge(Merge(MergeAll(rest), last), batches[j]);
        Merge(MergeAll(others), batches[j]);
      }
    }
  }

  /** The merged `cityMap` does not depend on the order in which the batches arrive (lines
      91-108): any rearrangement of the batches merges to the same map. */
  lemma {:induction false} MergeAllOrderFree(b1: seq<CityMap>, b2: seq<CityMap>)
    requires multiset(b1) == multiset(b2)
    ensures MergeAll(b1) == MergeAll(b2)
    decreases |b1|
  {
    if |b1| > 0 {
      var n := |b1|;
      var last := b1[n - 1];
      var j := RemoveLast(b1, b2);
      MergeAllOrderFree(b1[..n - 1], b2[..j] + b2[j + 1..]);
      MergeAllRemove(b2, j);
    } else {
      assert |b2| == 0;
    }
  }

  /** The last of `b1` is somewhere in a rearrangement `b2`, and what remains of each is a
      rearrangement of the other. */
  lemma RemoveLast(b1: seq<CityMap>, b2: seq<CityMap>) returns (j: nat)
    requires |b1| > 0 && multiset(b1) == multiset(b2)
    ensures j < |b2| && b2[j] == b1[|b1| - 1]
    ensures multiset(b1[..|b1| - 1]) == multiset(b2[..j] + b2[j + 1..])
  {
    var n := |b1|;
    var last := b1[n - 1];
    assert b1 == b1[..n - 1] + [last];
    assert last in multiset(b2);
    j :| 0 <= j < |b2| && b2[j] == last;
    assert b2 == b2[..j] + [last] + b2[j + 1..];
    calc {
      multiset(b1[..n - 1]);
      multiset(b1) - multiset{last};
      multiset(b2) - multiset{last};
      multiset(b2[..j]) + multiset(b2[j + 1..]);
      multiset(b2[..j] + b2[j + 1..]);
    }
  }

  /** The readings of a city in two runs of lines, in order. */
  lemma {:induction false} ReadingsConcat(l1: seq<string>, l2: seq<string>,
                                          parseReading: string -> Option<int>, city: string)
    requires Parsed(l1, parseReading) && Parsed(l2, parseReading)
    ensures Parsed(l1 + l2, parseReading)
    ensures ReadingsOf(l1 + l2, parseReading, city)
         == ReadingsOf(l1, parseReading, city) + ReadingsOf(l2, parseReading, city)
    decreases |l2|
  {
    var l := l1 + l2;
    if |l2| == 0 {
      assert l == l1;
    } else {
      var init := l2[..|l2| - 1];
      ParsedSnoc(l2, parseReading);
      ReadingsConcat(l1, init, parseReading, city);
      assert l[..|l| - 1] == l1 + init && l[|l| - 1] == l2[|l2| - 1];
      ParsedSnoc(l, parseReading);
      ReadingsSnoc(l, parseReading, city);
      ReadingsSnoc(l2, parseReading, city);
    }
  }

  /** How the lines are cut into batches does not matter: the merge of the maps of two runs of
      lines is the map of all the lines as one batch. */
  lemma SummarizeConcat(l1: seq<string>, l2: seq<string>, parseReading: string -> Option<int>)
    requires Summarize(l1, parseReading).Success? && Summarize(l2, parseReading).Success?
    ensures Summarize(l1 + l2, parseReading).Success?
    ensures Summarize(l1 + l2, parseReading).value
         == Merge(Summarize(l1, parseReading).value, Summarize(l2, parseReading).value)
  {
    SummarizeSucceeds(l1, parseReading);
    SummarizeSucceeds(l2, parseReading);
    ReadingsConcat(l1, l2, parseReading, "");
    SummarizeSucceeds(l1 + l2, parseReading);
    var m := Summarize(l1 + l2, parseReading).value;
    var merged := Merge(Summarize(l1, parseReading).value, Summarize(l2, parseReading).value);
    forall city
      ensures (city in m <==> city in merged) && (city in m ==> m[city] == merged[city])
    {
      SummarizeConcatAt(l1, l2, parseReading, city);
    }
    assert m.Keys == merged.Keys;
  }

  /** `SummarizeConcat` for one city. */
  lemma SummarizeConcatAt(l1: seq<string>, l2: seq<string>, parseReading: string -> Option<int>,
                          city: string)
    requires Parsed(l1, parseReading) && Parsed(l2, parseReading)
    ensures Parsed(l1 + l2, parseReading)
    ensures Summarize(l1, parseReading).Success? && Summarize(l2, parseReading).Success?
    ensures Summarize(l1 + l2, parseReading).Success?
    ensures var m := Summarize(l1 + l2, parseReading).value;
      var merged := Merge(Summarize(l1, parseReading).value, Summarize(l2, parseReading).value);
      (city in m <==> city in merged) && (city in m ==> m[city] == merged[city])
  {
    ReadingsConcat(l1, l2, parseReading, city);
    SummarizeStats(l1, parseReading);
    SummarizeStats(l2, parseReading);
    SummarizeStats(l1 + l2, parseReading);
    var m1 := Summarize(l1, parseReading).value;
    var m2 := Summarize(l2, parseReading).value;
    var r1 := ReadingsOf(l1, parseReading, city);
    var r2 := ReadingsOf(l2, parseReading, city);
    if city in m1 && city in m2 {
      CombineStats(r1, r2);
    } else if city in m1 {
      assert r1 + r2 == r1;
    } else if city in m2 {
      assert r1 + r2 == r2;
    }
  }

  /** The lines of the batches, batch after batch. */
  function Concat(chunks: seq<seq<string>>): seq<string>
  {
    if |chunks| == 0 then [] else Concat(chunks[..|chunks| - 1]) + chunks[|chunks| - 1]
  }

  /** The maps the batches produce, in order. */
  function BatchMaps(chunks: seq<seq<string>>, parseReading: string -> Option<int>): seq<CityMap>
    requires forall i :: 0 <= i < |chunks| ==> Summarize(chunks[i], parseReading).Success?
  {
    seq(|chunks|, i requires 0 <= i < |chunks| => Summarize(chunks[i], parseReading).value)
  }

  /** The whole of `evaluate` (lines 64-108): whatever batches the lines are cut into, when every
      batch produces a map, the merge of the batches' maps is the map of all the lines read as
      one batch. With `MergeAllOrderFree`, the order in which the batches arrive does not matter
      either. */
  lemma {:induction false} EvaluateSummary(chunks: seq<seq<string>>, parseReading: string -> Option<int>)
    requires forall i :: 0 <= i < |chunks| ==> Summarize(chunks[i], parseReading).Success?
    ensures Summarize(Concat(chunks), parseReading).Success?
    ensures MergeAll(BatchMaps(chunks, parseReading)) == Summarize(Concat(chunks), parseReading).value
    decreases |chunks|
  {
    var n := |chunks|;
    if n > 0 {
      var init := chunks[..n - 1];
      EvaluateSummary(init, parseReading);
      assert BatchMaps(chunks, parseReading)[..n - 1] == BatchMaps(init, parseReading);
      SummarizeConcat(Concat(init), chunks[n - 1], parseReading);
    }
  }
}
