/** `parseLine` of main.go (lines 159-169) and the part of Go's `strings.Split` it relies on: a
    line `<city>;<temperature>` splits into its two fields, and any other line is an error. */
module LineParser {
  import opened Wrappers

  /** The error `parseLine` returns, `fmt.Errorf("invalid line: %s", line)`, and the one a
      temperature field that does not parse as a number produces. */
  datatype LineError = InvalidLine(line: string) | InvalidTemperature(temperature: string)

  /** The number of occurrences of `c` in `s`. */
  function Count(s: string, c: char): nat
  {
    if |s| == 0 then 0 else (if s[0] == c then 1 else 0) + Count(s[1..], c)
  }

  /** Go's `strings.Split(s, string(c))`: the pieces of `s` between the occurrences of `c`, in
      order. There is one more piece than there are separators, so the empty string gives `[""]`,
      and no piece holds a separator. */
  function Split(s: string, c: char): (parts: seq<string>)
    ensures |parts| == Count(s, c) + 1
    ensures forall i :: 0 <= i < |parts| ==> c !in parts[i]
  {
    if |s| == 0 then [""]
    else
      var rest := Split(s[1..], c);
      if s[0] == c then [""] + rest
      else [[s[0]] + rest[0]] + rest[1..]
  }

  /** Go's `strings.Join(parts, string(c))`, the inverse of `Split`. */
  function Join(parts: seq<string>, c: char): string
    requires |parts| >= 1
  {
    if |parts| == 1 then parts[0] else parts[0] + [c] + Join(parts[1..], c)
  }

  /** Joining the pieces of `s` with the separator gives `s` back. */
  lemma {:induction false} JoinSplit(s: string, c: char)
    ensures Join(Split(s, c), c) == s
  {
    if |s| > 0 {
      var rest := Split(s[1..], c);
      JoinSplit(s[1..], c);
      if s[0] == c {
        assert Split(s, c)[1..] == rest;
      } else if |rest| == 1 {
        assert Split(s, c) == [[s[0]] + rest[0]];
      } else {
        var parts := Split(s, c);
        assert parts[1..] == rest[1..];
        assert Join(rest, c) == rest[0] + [c] + Join(rest[1..], c);
      }
    }
  }

  /** A piece without the separator in front of `tail` is glued onto the first piece of `tail`. */
  lemma {:induction false} SplitPrefix(p: string, tail: string, c: char)
    requires c !in p
    ensures var rest := Split(tail, c); Split(p + tail, c) == [p + rest[0]] + rest[1..]
  {
    if |p| > 0 {
      SplitPrefix(p[1..], tail, c);
      assert (p + tail)[1..] == p[1..] + tail;
      assert (p + tail)[0] == p[0];
      assert [p[0]] + (p[1..] + Split(tail, c)[0]) == p + Split(tail, c)[0];
    } else {
      var rest := Split(tail, c);
      assert p + tail == tail && p + rest[0] == rest[0];
      assert [rest[0]] + rest[1..] == rest;
    }
  }

  /** Splitting the join of pieces without separators gives the pieces back. */
  lemma {:induction false} SplitJoin(parts: seq<string>, c: char)
    requires |parts| >= 1 && forall i :: 0 <= i < |parts| ==> c !in parts[i]
    ensures Split(Join(parts, c), c) == parts
  {
    if |parts| == 1 {
      SplitPrefix(parts[0], "", c);
      assert parts[0] + "" == parts[0];
    } else {
      var tail := Join(parts[1..], c);
      SplitJoin(parts[1..], c);
      SplitPrefix(parts[0], [c] + tail, c);
      assert parts[0] + [c] + tail == parts[0] + ([c] + tail);
      assert ([c] + tail)[1..] == tail;
      assert Split([c] + tail, c) == [""] + Split(tail, c);
      assert parts[0] + "" == parts[0];
      assert [parts[0]] + parts[1..] == parts;
    }
  }

  /** `parseLine` (lines 159-169): a line that `strings.Split` cuts into exactly two pieces gives
      the city and the temperature field; any other line is `InvalidLine`. So a line parses
      exactly when it holds one `;`, and neither field holds one. */
  function ParseLine(line: string): (r: Result<(string, string), LineError>)
    ensures r.Success? <==> Count(line, ';') == 1
    ensures r.Success? ==> ';' !in r.value.0 && ';' !in r.value.1
    ensures r.Failure? ==> r.error == InvalidLine(line)
  {
    var parts := Split(line, ';');
    if |parts| != 2 then Failure(InvalidLine(line)) else Success((parts[0], parts[1]))
  }

  /** The two fields `parseLine` returns, put back together with `;`, are the line. */
  lemma ParseLineJoin(line: string)
    requires ParseLine(line).Success?
    ensures ParseLine(line).value.0 + ";" + ParseLine(line).value.1 == line
  {
    var parts := Split(line, ';');
    JoinSplit(line, ';');
    assert Join(parts, ';') == parts[0] + [';'] + Join(parts[1..], ';');
  }

  /** A city and a temperature field without `;`, written as a line, parse back to themselves. */
  lemma ParseLineOfFields(city: string, temperature: string)
    requires ';' !in city && ';' !in temperature
    ensures ParseLine(city + ";" + temperature) == Success((city, temperature))
  {
    var parts := [city, temperature];
    SplitJoin(parts, ';');
    assert Join(parts, ';') == city + ";" + temperature by {
      assert Join(parts[1..], ';') == temperature;
    }
  }
}
