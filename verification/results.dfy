/** The result array of main.go's `evaluate` (lines 110-122): one row per city of the merged
    `cityMap`, sorted by city name with Go's `<` on strings. The rounding of the figures and the
    printing are left out; a row keeps the city's record. */
module Results {
  import opened CityStats

  /** Go's `<` on strings: lexicographic order, a proper prefix before its extensions. */
  predicate Less(a: string, b: string)
  {
    if |a| == 0 then |b| > 0
    else if |b| == 0 then false
    else if a[0] != b[0] then a[0] < b[0]
    else Less(a[1..], b[1..])
  }

  /** No string is before itself. */
  lemma {:induction false} LessIrreflexive(a: string)
    ensures !Less(a, a)
  {
    if |a| > 0 {
      LessIrreflexive(a[1..]);
    }
  }

  /** Of two strings, at most one is before the other. */
  lemma {:induction false} LessAsymmetric(a: string, b: string)
    ensures Less(a, b) ==> !Less(b, a)
  {
    if |a| > 0 && |b| > 0 && a[0] == b[0] {
      LessAsymmetric(a[1..], b[1..]);
    }
  }

  /** The order is transitive. */
  lemma {:induction false} LessTransitive(a: string, b: string, c: string)
    requires Less(a, b) && Less(b, c)
    ensures Less(a, c)
  {
    if |a| > 0 && a[0] == b[0] && b[0] == c[0] {
      LessTransitive(a[1..], b[1..], c[1..]);
    }
  }

  /** Of two different strings, one is before the other. */
  lemma {:induction false} LessTotal(a: string, b: string)
    requires a != b
    ensures Less(a, b) || Less(b, a)
  {
    if |a| > 0 && |b| > 0 && a[0] == b[0] {
      assert a == [a[0]] + a[1..] && b == [b[0]] + b[1..];
      LessTotal(a[1..], b[1..]);
    }
  }

  /** A row of `resultArray`, `cityTemperatureResult` (lines 30-33): the city and its record. */
  datatype Row = Row(city: string, info: Info)

  /** The cities of the rows, in order. */
  function Cities(rows: seq<Row>): (cities: seq<string>)
    ensures |cities| == |rows| && forall i :: 0 <= i < |rows| ==> cities[i] == rows[i].city
  {
    if |rows| == 0 then [] else Cities(rows[..|rows| - 1]) + [rows[|rows| - 1].city]
  }

  /** No city has two rows. */
  predicate Distinct(rows: seq<Row>)
  {
    forall i, j :: 0 <= i < j < |rows| ==> rows[i].city != rows[j].city
  }

  /** The rows are the cities of `m` with their records, each once. */
  predicate RowsOf(rows: seq<Row>, m: CityMap)
  {
    Distinct(rows) && |rows| == |m|
    && (forall i :: 0 <= i < |rows| ==> rows[i].city in m && rows[i].info == m[rows[i].city])
    && (forall city :: city in m ==> city in Cities(rows))
  }

  /** No row is before the one in front of it. */
  predicate Sorted(rows: seq<Row>)
  {
    forall k :: 0 < k < |rows| ==> !Less(rows[k].city, rows[k - 1].city)
  }

  /** Every row is before all the rows after it. */
  predicate Ascending(rows: seq<Row>)
  {
    forall i, j :: 0 <= i < j < |rows| ==> Less(rows[i].city, rows[j].city)
  }

  /** The loop that fills `resultArray` (lines 110-118), over the cities in Go's unspecified map
      order: one row per city of `m`, with its record. */
  method Collect(m: CityMap) returns (rows: seq<Row>)
    ensures RowsOf(rows, m)
  {
    rows := [];
    var remaining := m.Keys;
    ghost var done: set<string> := {};
    while remaining != {}
      invariant remaining !! done && remaining + done == m.Keys && Collected(rows, m, done)
      decreases |remaining|
    {
      var city :| city in remaining;
      CollectStep(rows, m, done, city);
      rows := rows + [Row(city, m[city])];
      remaining := remaining - {city};
      done := done + {city};
    }
  }

  /** The rows so far are the cities of `done` with their records, each once. */
  ghost predicate Collected(rows: seq<Row>, m: CityMap, done: set<string>)
  {
    |rows| == |done| && Distinct(rows)
    && (forall i :: 0 <= i < |rows| ==> rows[i].city in done && rows[i].city in m && rows[i].info == m[rows[i].city])
    && (forall city :: city in done ==> city in Cities(rows))
  }

  /** The row of one more city keeps the rows collected. */
  lemma CollectStep(rows: seq<Row>, m: CityMap, done: set<string>, city: string)
    requires Collected(rows, m, done) && city in m && city !in done
    ensures Collected(rows + [Row(city, m[city])], m, done + {city})
  {
    var rows' := rows + [Row(city, m[city])];
    assert rows'[..|rows|] == rows;
    assert Cities(rows') == Cities(rows) + [city];
    forall i | 0 <= i < |rows'|
      ensures rows'[i].city in done + {city} && rows'[i].city in m && rows'[i].info == m[rows'[i].city]
    {
      if i < |rows| {
        assert rows'[i] == rows[i];
      }
    }
  }

  /** `sort.Slice` by city (lines 120-122), as an insertion sort: the rows end up in order and
      are a rearrangement of the rows before. */
  method SortByCity(a: array<Row>)
    modifies a
    ensures Sorted(a[..]) && multiset(a[..]) == multiset(old(a[..]))
  {
    for i := 0 to a.Length
      invariant Sorted(a[..i]) && multiset(a[..]) == multiset(old(a[..]))
    {
      InsertDown(a, i);
    }
    if a.Length > 0 {
      assert a[..a.Length] == a[..];
    }
  }

  /** Moves `a[i]` down past the rows before it that come after it, so that `a[..i + 1]` is in
      order. */
  method InsertDown(a: array<Row>, i: nat)
    requires i < a.Length && Sorted(a[..i])
    modifies a
    ensures Sorted(a[..i + 1]) && multiset(a[..]) == multiset(old(a[..]))
  {
    var j: nat := i;
    InsertStart(a[..], i);
    while j > 0 && Less(a[j].city, a[j - 1].city)
      invariant Inserting(a[..], i, j) && multiset(a[..]) == multiset(old(a[..]))
    {
      SwapStep(a[..], i, j);
      a[j - 1], a[j] := a[j], a[j - 1];
      j := j - 1;
    }
    InsertDone(a[..], i, j);
  }

  /** While `InsertDown` moves the row from `i` down, it is at `j`: the rows up to `i` are in
      order around it, the rows on either side of it are in order with each other, and it is
      before the row after it. */
  ghost predicate Inserting(s: seq<Row>, i: nat, j: nat)
  {
    j <= i < |s|
    && (forall k :: 0 < k <= i && k != j ==> !Less(s[k].city, s[k - 1].city))
    && (0 < j < i ==> !Less(s[j + 1].city, s[j - 1].city))
    && (j < i ==> Less(s[j].city, s[j + 1].city))
  }

  lemma InsertStart(s: seq<Row>, i: nat)
    requires i < |s| && Sorted(s[..i])
    ensures Inserting(s, i, i)
  {
    forall k | 0 < k < i
      ensures !Less(s[k].city, s[k - 1].city)
    {
      assert s[..i][k] == s[k] && s[..i][k - 1] == s[k - 1];
    }
  }

  lemma SwapStep(s: seq<Row>, i: nat, j: nat)
    requires Inserting(s, i, j) && 0 < j && Less(s[j].city, s[j - 1].city)
    ensures Inserting(s[j - 1 := s[j]][j := s[j - 1]], i, j - 1)
  {
    LessAsymmetric(s[j].city, s[j - 1].city);
  }

  lemma InsertDone(s: seq<Row>, i: nat, j: nat)
    requires Inserting(s, i, j) && (j == 0 || !Less(s[j].city, s[j - 1].city))
    ensures Sorted(s[..i + 1])
  {
    if j < i {
      LessAsymmetric(s[j].city, s[j + 1].city);
    }
  }

  /** Rows in order with no city twice are in strictly ascending order. */
  lemma {:induction false} SortedAscending(rows: seq<Row>)
    requires Sorted(rows) && Distinct(rows)
    ensures Ascending(rows)
    decreases |rows|
  {
    if |rows| > 1 {
      var init := rows[..|rows| - 1];
      SortedAscending(init);
      var n := |rows| - 1;
      LessTotal(rows[n - 1].city, rows[n].city);
      forall i | 0 <= i < n
        ensures Less(rows[i].city, rows[n].city)
      {
        if i < n - 1 {
          assert Less(init[i].city, init[n - 1].city);
          LessTransitive(rows[i].city, rows[n - 1].city, rows[n].city);
        }
      }
    }
  }

  /** The rows of a map in strictly ascending order are unique: however the map's cities are
      listed and whichever unstable sort orders them, the sorted result is the same. */
  lemma AscendingUnique(r1: seq<Row>, r2: seq<Row>, m: CityMap)
    requires RowsOf(r1, m) && RowsOf(r2, m) && Ascending(r1) && Ascending(r2)
    ensures r1 == r2
  {
    AscendingPrefix(r1, r2, m, |r1|);
  }

  /** The two lists have the same first `n` rows. */
  predicate AgreeBefore(r1: seq<Row>, r2: seq<Row>, n: nat)
  {
    n <= |r1| && n <= |r2| && forall p :: 0 <= p < n ==> r1[p] == r2[p]
  }

  /** `AscendingUnique` on the first `n` rows. */
  lemma {:induction false} AscendingPrefix(r1: seq<Row>, r2: seq<Row>, m: CityMap, n: nat)
    requires RowsOf(r1, m) && RowsOf(r2, m) && Ascending(r1) && Ascending(r2) && n <= |r1|
    ensures AgreeBefore(r1, r2, n)
    decreases n
  {
    if n > 0 {
      AscendingPrefix(r1, r2, m, n - 1);
      AscendingStep(r1, r2, m, n - 1);
    }
  }

  /** When two ascending lists of the rows of `m` agree before position `i`, they agree at `i`:
      the city at `i` of one list can be neither earlier nor later in the other. */
  lemma AscendingStep(r1: seq<Row>, r2: seq<Row>, m: CityMap, i: nat)
    requires RowsOf(r1, m) && RowsOf(r2, m) && Ascending(r1) && Ascending(r2) && i < |r1|
    requires AgreeBefore(r1, r2, i)
    ensures AgreeBefore(r1, r2, i + 1)
  {
    var c := r1[i].city;
    var j := IndexOf(r2, c);
    if j < i {
      assert false;
    }
    if j > i {
      var d := r2[i].city;
      var k := IndexOf(r1, d);
      if k < i {
        assert false;
      }
      if k == i {
        assert false;
      }
      assert Less(c, d) && Less(d, c);
      LessAsymmetric(c, d);
      assert false;
    }
  }

  /** The position of a city's row. */
  lemma IndexOf(rows: seq<Row>, city: string) returns (j: nat)
    requires city in Cities(rows)
    ensures j < |rows| && rows[j].city == city
  {
    j :| 0 <= j < |rows| && Cities(rows)[j] == city;
  }

  /** `resultArray` as `evaluate` builds it (lines 110-122): the rows of the merged map, one per
      city, in strictly ascending order of city. */
  method ResultArray(m: CityMap) returns (a: array<Row>)
    ensures RowsOf(a[..], m) && Ascending(a[..])
  {
    var rows := Collect(m);
    a := new Row[|rows|](i requires 0 <= i < |rows| => rows[i]);
    assert a[..] == rows;
    SortByCity(a);
    RowsOfRearranged(rows, a[..], m);
    SortedAscending(a[..]);
  }

  /** A rearrangement of the rows of a map is again the rows of the map. */
  lemma RowsOfRearranged(rows: seq<Row>, s: seq<Row>, m: CityMap)
    requires RowsOf(rows, m) && multiset(s) == multiset(rows)
    ensures RowsOf(s, m)
  {
    assert |s| == |rows| by {
      assert |multiset(s)| == |multiset(rows)|;
    }
    forall i | 0 <= i < |s|
      ensures s[i].city in m && s[i].info == m[s[i].city]
    {
      assert s[i] in multiset(rows);
    }
    forall i, j | 0 <= i < j < |s|
      ensures s[i].city != s[j].city
    {
      if s[i].city == s[j].city {
        assert s[i] == s[j];
        assert multiset(s)[s[i]] >= 2 by {
          MultisetTwo(s, i, j);
        }
        OnceInDistinct(rows, s[i]);
      }
    }
    forall city | city in m
      ensures city in Cities(s)
    {
      var k := IndexOf(rows, city);
      assert rows[k] in multiset(s);
      var l :| 0 <= l < |s| && s[l] == rows[k];
      assert Cities(s)[l] == city;
    }
  }

  /** Two positions holding `x` make it occur twice. */
  lemma MultisetTwo(s: seq<Row>, i: nat, j: nat)
    requires i < j < |s| && s[i] == s[j]
    ensures multiset(s)[s[i]] >= 2
  {
    assert s == s[..i] + [s[i]] + s[i + 1..j] + [s[j]] + s[j + 1..];
  }

  /** In rows with distinct cities, a row occurs at most once. */
  lemma {:induction false} OnceInDistinct(rows: seq<Row>, x: Row)
    requires Distinct(rows)
    ensures multiset(rows)[x] <= 1
    decreases |rows|
  {
    if |rows| > 0 {
      var init := rows[..|rows| - 1];
      assert rows == init + [rows[|rows| - 1]];
      OnceInDistinct(init, x);
      if x == rows[|rows| - 1] {
        assert x !in init;
      }
    }
  }
}
