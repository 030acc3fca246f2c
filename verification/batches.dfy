/** `processLine` of main.go (lines 171-218): one batch of lines folded into a `cityMap`, one
    record per city, stopping at the first line that does not parse. The channel the map is sent
    on is left out; the map is returned instead. */
module Batches {
  import opened Wrappers
  import opened LineParser
  import opened CityStats

  /** One line read as a city and a reading: `parseLine` (line 175), then the temperature field
      through `parseReading`, which stands for `strconv.ParseFloat(strings.TrimSpace(.), 64)`
      (line 180) on readings in tenths of a degree. */
  function ParseRecord(line: string, parseReading: string -> Option<int>): Result<(string, int), LineError>
  {
    match ParseLine(line)
    case Failure(e) => Failure(e)
    case Success((city, temperature)) =>
      match parseReading(temperature)
      case None => Failure(InvalidTemperature(temperature))
      case Some(v) => Success((city, v))
  }

  /** The update for one reading (lines 185-214): a new city gets the record of its first reading,
      a known city the reading added. No other city's record changes. */
  function Observe(m: CityMap, city: string, v: int): (r: CityMap)
    ensures r.Keys == m.Keys + {city}
    ensures forall c :: c in m && c != city ==> r[c] == m[c]
  {
    if city !in m then m[city := First(v)] else m[city := Add(m[city], v)]
  }

  /** The map `processLine` builds from `lines`, or the error of the first line it panics on. */
  function Summarize(lines: seq<string>, parseReading: string -> Option<int>): Result<CityMap, LineError>
    decreases |lines|
  {
    if |lines| == 0 then Success(map[])
    else
      match Summarize(lines[..|lines| - 1], parseReading)
      case Failure(e) => Failure(e)
      case Success(m) =>
        match ParseRecord(lines[|lines| - 1], parseReading)
        case Failure(e) => Failure(e)
        case Success((city, v)) => Success(Observe(m, city, v))
  }

  /** Every line parses. */
  predicate Parsed(lines: seq<string>, parseReading: string -> Option<int>)
  {
    forall i :: 0 <= i < |lines| ==> ParseRecord(lines[i], parseReading).Success?
  }

  /** The readings of `city` among the lines, in order. */
  function ReadingsOf(lines: seq<string>, parseReading: string -> Option<int>, city: string): seq<int>
    requires Parsed(lines, parseReading)
    decreases |lines|
  {
    if |lines| == 0 then []
    else
      var prefix := lines[..|lines| - 1];
      assert Parsed(prefix, parseReading) by {
        forall i | 0 <= i < |prefix| ensures ParseRecord(prefix[i], parseReading).Success? {
          assert prefix[i] == lines[i];
        }
      }
      var rest := ReadingsOf(prefix, parseReading, city);
      var record := ParseRecord(lines[|lines| - 1], parseReading).value;
      if record.0 == city then rest + [record.1] else rest
  }

  /** A batch yields a map exactly when every line parses. */
  lemma {:induction false} SummarizeSucceeds(lines: seq<string>, parseReading: string -> Option<int>)
    ensures Summarize(lines, parseReading).Success? <==> Parsed(lines, parseReading)
    decreases |lines|
  {
    if |lines| > 0 {
      ParsedSnoc(lines, parseReading);
      SummarizeSucceeds(lines[..|lines| - 1], parseReading);
    }
  }

  /** The lines parse exactly when all but the last do and the last does too. */
  lemma ParsedSnoc(lines: seq<string>, parseReading: string -> Option<int>)
    requires |lines| > 0
    ensures Parsed(lines, parseReading) <==>
      Parsed(lines[..|lines| - 1], parseReading) && ParseRecord(lines[|lines| - 1], parseReading).Success?
  {
    var prefix := lines[..|lines| - 1];
    assert forall i :: 0 <= i < |prefix| ==> prefix[i] == lines[i];
  }

  /** A batch stops at its first line that does not parse, with that line's error. */
  lemma {:induction false} SummarizeFails(lines: seq<string>, parseReading: string -> Option<int>, i: nat)
    requires i < |lines| && Parsed(lines[..i], parseReading)
    requires ParseRecord(lines[i], parseReading).Failure?
    ensures Summarize(lines, parseReading) == Failure(ParseRecord(lines[i], parseReading).error)
    decreases |lines|
  {
    var prefix := lines[..|lines| - 1];
    if i == |lines| - 1 {
      SummarizeSucceeds(prefix, parseReading);
    } else {
      assert prefix[..i] == lines[..i] && prefix[i] == lines[i];
      SummarizeFails(prefix, parseReading, i);
    }
  }

  /** The readings of a city among the lines grow by the last line's reading when that line is
      about the city, and stay as they were otherwise. */
  lemma ReadingsSnoc(lines: seq<string>, parseReading: string -> Option<int>, city: string)
    requires |lines| > 0 && Parsed(lines, parseReading)
    ensures Parsed(lines[..|lines| - 1], parseReading)
    ensures var record := ParseRecord(lines[|lines| - 1], parseReading).value;
      var rest := ReadingsOf(lines[..|lines| - 1], parseReading, city);
      ReadingsOf(lines, parseReading, city) == if record.0 == city then rest + [record.1] else rest
  {
    ParsedSnoc(lines, parseReading);
  }

  /** When every line parses, the map holds exactly the cities that have a reading, and the
      record of each city is the record of its readings: their number, least, greatest and sum
      (lines 171-215). */
  lemma {:induction false} SummarizeStats(lines: seq<string>, parseReading: string -> Option<int>)
    requires Parsed(lines, parseReading)
    ensures Summarize(lines, parseReading).Success?
    ensures var m := Summarize(lines, parseReading).value;
      forall city :: (city in m <==> |ReadingsOf(lines, parseReading, city)| > 0) &&
                     (city in m ==> m[city] == StatsOf(ReadingsOf(lines, parseReading, city)))
    decreases |lines|
  {
    SummarizeSucceeds(lines, parseReading);
    if |lines| > 0 {
      var prefix := lines[..|lines| - 1];
      ParsedSnoc(lines, parseReading);
      SummarizeStats(prefix, parseReading);
      var m := Summarize(prefix, parseReading).value;
      var (c, v) := ParseRecord(lines[|lines| - 1], parseReading).value;
      var m' := Summarize(lines, parseReading).value;
      assert m' == Observe(m, c, v);
      forall city
        ensures city in m' <==> |ReadingsOf(lines, parseReading, city)| > 0
        ensures city in m' ==> m'[city] == StatsOf(ReadingsOf(lines, parseReading, city))
      {
        ReadingsSnoc(lines, parseReading, city);
        var rs := ReadingsOf(prefix, parseReading, city);
        if city == c {
          if c in m {
            AddStats(rs, v);
          } else {
            assert rs + [v] == [v];
            FirstStats(v);
          }
        }
      }
    }
  }

  /** The update of `cityMap` for one reading `v` of `city` (lines 185-214). */
  method Record(cityMap: CityMap, city: string, v: int) returns (r: CityMap)
    ensures r == Observe(cityMap, city, v)
  {
    if city !in cityMap {
      r := cityMap[city := Info(1, v, v, v)];
    } else {
      var tempMin := cityMap[city].min;
      var tempMax := cityMap[city].max;
      var tempSum := cityMap[city].sum;
      var tempCount := cityMap[city].count;
      if v < tempMin {
        tempMin := v;
      }
      if v > tempMax {
        tempMax := v;
      }
      tempSum := tempSum + v;
      tempCount := tempCount + 1;
      r := cityMap[city := Info(tempCount, tempMin, tempMax, tempSum)];
    }
  }

  /** `processLine` (lines 171-218) on one batch of lines: the map of records, or the error of
      the first line that does not parse, where Go panics. */
  method ProcessLine(lines: seq<string>, parseReading: string -> Option<int>)
      returns (r: Result<CityMap, LineError>)
    ensures r == Summarize(lines, parseReading)
  {
    var cityMap: CityMap := map[];
    for i := 0 to |lines|
      invariant Summarize(lines[..i], parseReading) == Success(cityMap)
    {
      var line := lines[i];
      assert lines[..i + 1][..i] == lines[..i];
      SummarizeSucceeds(lines[..i], parseReading);
      var parsed := ParseLine(line);
      if parsed.Failure? {
        SummarizeFails(lines, parseReading, i);
        return Failure(parsed.error);
      }
      var (city, temperature) := parsed.value;
      var reading := parseReading(temperature);
      if reading.None? {
        SummarizeFails(lines, parseReading, i);
        return Failure(InvalidTemperature(temperature));
      }
      cityMap := Record(cityMap, city, reading.value);
    }
    assert lines[..|lines|] == lines;
    return Success(cityMap);
  }
}
