/**
 * The header handling of the `minicurl` command-line client: the `-H` string
 * is cut into comma-separated segments, each segment into a name and a value
 * at its colons, both are validated, and the resulting pairs are inserted one
 * by one into a header map in which a later pair replaces an earlier one of
 * the same name.
 *
 * Every `expect` in `parse_headers` aborts the whole run; here it is a `Failure`
 * carrying the reason, and no partial list is ever produced.
 */
module Minicurl {
  import opened Strings
  import opened Http

  /** A validated, lower-cased header name. */
  type Name = string
  /** A validated header value, kept exactly as written. */
  type Value = string

  datatype HeaderPair = HeaderPair(name: Name, value: Value)

  /** The three `expect` messages of `parse_headers`. */
  datatype ParseError =
    | NoHeader        // "There was no header!": the segment has no second piece
    | BadHeaderName   // "Error parsing header name"
    | BadHeaderValue  // "Error parsing header value."

  datatype Result<T> = Success(value: T) | Failure(error: ParseError)

  type HeaderMap = map<Name, Value>

  // ---------------------------------------------------------------------------
  // Reading of one segment, stated without `Split`
  // ---------------------------------------------------------------------------

  /** The text of a segment before its first colon (all of it if it has none). */
  function NameText(segment: string): string
  {
    Before(segment, ':')
  }

  /** The text between a segment's first colon and its second colon (or its end). */
  function ValueText(segment: string): string
    requires ':' in segment
  {
    Before(After(segment, ':'), ':')
  }

  /** A segment that `parse_headers` turns into a pair rather than a panic. */
  predicate WellFormed(segment: string)
  {
    IsToken(NameText(segment)) && ':' in segment && IsFieldValue(ValueText(segment))
  }

  // ---------------------------------------------------------------------------
  // parse_headers
  // ---------------------------------------------------------------------------

  /**
   * The closure of `parse_headers` applied to one segment: split it at every
   * colon, validate the first piece as a name, demand a second piece and
   * validate it as a value. Pieces after the second are ignored and nothing
   * is trimmed. The checks run in the order of the source, so a segment with
   * an invalid name and no colon reports the name.
   */
  function ParseSegment(segment: string): (r: Result<HeaderPair>)
    ensures r.Success? <==> WellFormed(segment)
    ensures r.Success? ==> r.value == HeaderPair(Lowercase(NameText(segment)), ValueText(segment))
    ensures !IsToken(NameText(segment)) ==> r == Failure(BadHeaderName)
    ensures IsToken(NameText(segment)) && ':' !in segment ==> r == Failure(NoHeader)
    ensures IsToken(NameText(segment)) && ':' in segment && !IsFieldValue(ValueText(segment)) ==>
              r == Failure(BadHeaderValue)
  {
    SplitParts(segment, ':');
    var parts := Split(segment, ':');
    match ParseName(parts[0])
    case None => Failure(BadHeaderName)
    case Some(name) =>
      if |parts| < 2 then Failure(NoHeader)
      else
        match ParseValue(parts[1])
        case None => Failure(BadHeaderValue)
        case Some(value) => Success(HeaderPair(name, value))
  }

  /**
   * `collect` into a vector of results that may panic: the results are taken
   * in order and the first failure decides the outcome; otherwise there is
   * one value per result, in the same order.
   */
  function Collect<T>(results: seq<Result<T>>): (r: Result<seq<T>>)
    ensures r.Success? <==> forall i :: 0 <= i < |results| ==> results[i].Success?
    ensures r.Success? ==> |r.value| == |results|
    ensures r.Success? ==> forall i :: 0 <= i < |results| ==> results[i] == Success(r.value[i])
    decreases |results|
  {
    if |results| == 0 then Success([])
    else if results[0].Failure? then Failure(results[0].error)
    else
      var rest := Collect(results[1..]);
      if rest.Failure? then Failure(rest.error)
      else Success([results[0].value] + rest.value)
  }

  /** A failed collection reports the error of the first result that failed. */
  lemma {:induction false} CollectFailure<T>(results: seq<Result<T>>)
    requires Collect(results).Failure?
    ensures exists k :: 0 <= k < |results|
                        && (forall j :: 0 <= j < k ==> results[j].Success?)
                        && results[k] == Failure(Collect(results).error)
    decreases |results|
  {
    if results[0].Success? {
      var tail := results[1..];
      CollectFailure(tail);
      var k :| 0 <= k < |tail|
               && (forall j :: 0 <= j < k ==> tail[j].Success?)
               && tail[k] == Failure(Collect(tail).error);
      assert forall j :: 1 <= j < k + 1 ==> results[j] == tail[j - 1];
      assert results[k + 1] == tail[k];
    }
  }

  /** Results that all succeed collect to their values. */
  lemma CollectSuccesses<T>(results: seq<Result<T>>, values: seq<T>)
    requires |results| == |values|
    requires forall i :: 0 <= i < |results| ==> results[i] == Success(values[i])
    ensures Collect(results) == Success(values)
  {
    var r := Collect(results);
    assert r.Success?;
    assert |r.value| == |values|;
    assert forall i :: 0 <= i < |values| ==> results[i] == Success(r.value[i]) && r.value[i] == values[i];
    assert r.value == values;
  }

  /** The segment closure mapped over the segments, before `collect`. */
  function ParseEach(segments: seq<string>): (results: seq<Result<HeaderPair>>)
    ensures |results| == |segments|
    ensures forall i :: 0 <= i < |segments| ==> results[i] == ParseSegment(segments[i])
  {
    seq(|segments|, i requires 0 <= i < |segments| => ParseSegment(segments[i]))
  }

  /** `parse_headers`: split the whole string at every comma and parse each segment. */
  function ParseHeaders(s: string): (r: Result<seq<HeaderPair>>)
    ensures r.Success? ==> |r.value| == multiset(s)[','] + 1
  {
    Collect(ParseEach(Split(s, ',')))
  }

  /** The parse succeeds exactly when every comma-separated segment is well formed. */
  lemma ParseHeadersSucceeds(s: string)
    ensures ParseHeaders(s).Success? <==> forall i :: 0 <= i < |Split(s, ',')| ==> WellFormed(Split(s, ',')[i])
  {
    var segments := Split(s, ',');
    var results := ParseEach(segments);
    assert ParseHeaders(s) == Collect(results);
    if ParseHeaders(s).Failure? {
      var k :| 0 <= k < |results| && !results[k].Success?;
      assert results[k] == ParseSegment(segments[k]);
      assert !WellFormed(segments[k]);
      assert k < |Split(s, ',')| && !WellFormed(Split(s, ',')[k]);
      assert !(forall i :: 0 <= i < |Split(s, ',')| ==> WellFormed(Split(s, ',')[i]));
    } else {
      forall i | 0 <= i < |segments|
        ensures WellFormed(segments[i])
      {
        assert results[i] == ParseSegment(segments[i]);
      }
    }
  }

  /**
   * On success the i-th pair is read off the i-th segment: its name is the
   * lower-cased text before the first colon, its value the untrimmed text
   * between the first and the second colon.
   */
  lemma ParseHeadersPairs(s: string, i: nat)
    requires ParseHeaders(s).Success? && i < |ParseHeaders(s).value|
    ensures i < |Split(s, ',')| && WellFormed(Split(s, ',')[i])
    ensures ParseHeaders(s).value[i] == HeaderPair(Lowercase(NameText(Split(s, ',')[i])), ValueText(Split(s, ',')[i]))
  {
    var segments := Split(s, ',');
    var results := ParseEach(segments);
    assert ParseHeaders(s) == Collect(results);
    assert results[i] == ParseSegment(segments[i]);
  }

  /** A failed parse reports the error of the first ill-formed segment. */
  lemma ParseHeadersFailure(s: string)
    requires ParseHeaders(s).Failure?
    ensures exists k :: 0 <= k < |Split(s, ',')|
                        && (forall j :: 0 <= j < k ==> WellFormed(Split(s, ',')[j]))
                        && ParseSegment(Split(s, ',')[k]) == Failure(ParseHeaders(s).error)
  {
    var segments := Split(s, ',');
    var results := ParseEach(segments);
    CollectFailure(results);
    var k :| 0 <= k < |results|
             && (forall j :: 0 <= j < k ==> results[j].Success?)
             && results[k] == Failure(Collect(results).error);
    forall j | 0 <= j < k
      ensures WellFormed(segments[j])
    {
      assert results[j] == ParseSegment(segments[j]);
    }
  }

  /** A segment that begins with a space never has a valid name: nothing is trimmed. */
  lemma LeadingSpaceRejected(segment: string)
    requires |segment| > 0 && segment[0] == ' '
    ensures ParseSegment(segment) == Failure(BadHeaderName)
  {
  }

  /**
   * A header string with a space after any comma, the form that the
   * documentation of `parse_headers` shows, is always rejected.
   */
  lemma SpaceAfterCommaRejected(s: string, i: nat)
    requires i + 1 < |s| && s[i] == ',' && s[i + 1] == ' '
    ensures ParseHeaders(s).Failure?
  {
    PieceAfterSeparator(s, ',', i);
    var segments := Split(s, ',');
    var j :| 1 <= j < |segments| && segments[j] == Before(s[i + 1..], ',');
    assert s[i + 1..][0] == ' ';
    assert |segments[j]| > 0 && segments[j][0] == ' ';
    LeadingSpaceRejected(segments[j]);
    ParseHeadersSucceeds(s);
  }

  // ---------------------------------------------------------------------------
  // Writing pairs back as a header string: the inverse of parse_headers
  // ---------------------------------------------------------------------------

  /** A pair that a header string can express: its value has no comma and no colon. */
  predicate Expressible(pair: HeaderPair)
  {
    IsToken(pair.name) && IsLowercase(pair.name) && IsFieldValue(pair.value) && ',' !in pair.value && ':' !in pair.value
  }

  /** `name:value` segments joined by commas. */
  function Format(pairs: seq<HeaderPair>): string
  {
    Join(seq(|pairs|, i requires 0 <= i < |pairs| => pairs[i].name + ":" + pairs[i].value), ',')
  }

  /** One `name:value` segment reads back as the pair it was written from. */
  lemma ParseSegmentEntry(pair: HeaderPair)
    requires Expressible(pair)
    ensures ',' !in pair.name + ":" + pair.value
    ensures ParseSegment(pair.name + ":" + pair.value) == Success(pair)
  {
    var segment := pair.name + ":" + pair.value;
    TokenExcludesSeparators(pair.name);
    SegmentText(pair.name, pair.value, "");
    assert segment + "" == segment;
    assert WellFormed(segment);
  }

  /** The segments of a written list are its `name:value` entries, each reading back as its pair. */
  lemma FormatSegments(pairs: seq<HeaderPair>)
    requires |pairs| >= 1
    requires forall i :: 0 <= i < |pairs| ==> Expressible(pairs[i])
    ensures |Split(Format(pairs), ',')| == |pairs|
    ensures forall i :: 0 <= i < |pairs| ==> ParseSegment(Split(Format(pairs), ',')[i]) == Success(pairs[i])
  {
    var entries := seq(|pairs|, i requires 0 <= i < |pairs| => pairs[i].name + ":" + pairs[i].value);
    forall i | 0 <= i < |pairs|
      ensures ',' !in entries[i] && ParseSegment(entries[i]) == Success(pairs[i])
    {
      ParseSegmentEntry(pairs[i]);
    }
    SplitJoin(entries, ',');
  }

  /**
   * Round trip: a non-empty list of expressible pairs, written as a header
   * string, parses back to the same list. The empty list cannot be written:
   * the empty string is one empty segment, which is rejected.
   */
  lemma ParseFormat(pairs: seq<HeaderPair>)
    requires |pairs| >= 1
    requires forall i :: 0 <= i < |pairs| ==> Expressible(pairs[i])
    ensures ParseHeaders(Format(pairs)) == Success(pairs)
  {
    FormatSegments(pairs);
    var results := ParseEach(Split(Format(pairs), ','));
    CollectSuccesses(results, pairs);
  }

  /** The name and value texts of a segment `name:value` followed by nothing or by `:...`. */
  lemma SegmentText(name: string, value: string, rest: string)
    requires ':' !in name && ':' !in value && (rest == [] || rest[0] == ':')
    ensures ':' in name + ":" + value + rest
    ensures NameText(name + ":" + value + rest) == name
    ensures ValueText(name + ":" + value + rest) == value
  {
    assert name + ":" + value + rest == name + [':'] + (value + rest);
    BeforeAfterOf(name, value + rest, ':');
    if rest != [] {
      assert value + rest == value + [':'] + rest[1..];
      BeforeAfterOf(value, rest[1..], ':');
    } else {
      assert value + rest == value;
    }
  }

  /**
   * Everything from a second colon on is dropped, whatever it holds: a
   * single segment `name:value:rest` gives the one pair (name, value), so
   * `Referer: http://x` gives the value ` http`.
   */
  lemma ExtraColonDropped(name: string, value: string, rest: string)
    requires IsToken(name) && IsFieldValue(value) && ':' !in value
    requires ',' !in name + ":" + value + ":" + rest
    ensures ParseHeaders(name + ":" + value + ":" + rest) == Success([HeaderPair(Lowercase(name), value)])
  {
    var s := name + ":" + value + ":" + rest;
    TokenExcludesSeparators(name);
    assert s == name + ":" + value + (":" + rest);
    SegmentText(name, value, ":" + rest);
    assert Split(s, ',') == [s];
    CollectSuccesses(ParseEach([s]), [HeaderPair(Lowercase(name), value)]);
  }

  /** The empty string, the default of `-H`, is rejected rather than giving no headers. */
  lemma EmptyInputRejected()
    ensures ParseHeaders("") == Failure(BadHeaderName)
  {
  }

  /** A valid name with no colon fails with `NoHeader`. */
  lemma NoColonRejected()
    ensures ParseHeaders("A1") == Failure(NoHeader)
  {
  }

  // ---------------------------------------------------------------------------
  // construct_header_map
  // ---------------------------------------------------------------------------

  /** The names that occur in a list of pairs. */
  function Names(pairs: seq<HeaderPair>): set<Name>
    decreases |pairs|
  {
    if |pairs| == 0 then {} else Names(pairs[..|pairs| - 1]) + {pairs[|pairs| - 1].name}
  }

  /** The value of the last pair in the list whose name is `k`. */
  function LastValue(pairs: seq<HeaderPair>, k: Name): Value
    requires k in Names(pairs)
    decreases |pairs|
  {
    var n := |pairs| - 1;
    if pairs[n].name == k then pairs[n].value else LastValue(pairs[..n], k)
  }

  /** No later pair in the list has the same name as the pair at `i`. */
  predicate IsLast(pairs: seq<HeaderPair>, i: nat)
    requires i < |pairs|
  {
    forall j :: i < j < |pairs| ==> pairs[j].name != pairs[i].name
  }

  /** A name is in `Names` exactly when some pair carries it. */
  lemma {:induction false} NamesOccur(pairs: seq<HeaderPair>, k: Name)
    ensures k in Names(pairs) <==> exists i :: 0 <= i < |pairs| && pairs[i].name == k
    decreases |pairs|
  {
    if |pairs| > 0 {
      var n := |pairs| - 1;
      var init := pairs[..n];
      NamesOccur(init, k);
      if k in Names(init) {
        var i :| 0 <= i < |init| && init[i].name == k;
        assert pairs[i].name == k;
      }
      if exists i :: 0 <= i < |pairs| && pairs[i].name == k {
        var i :| 0 <= i < |pairs| && pairs[i].name == k;
        if i < n { assert init[i].name == k; }
      }
    }
  }

  /**
   * `LastValue` is the value of the pair at the last index that carries the
   * name: the pair there has the name and no later pair has it.
   */
  lemma {:induction false} LastValueIsLast(pairs: seq<HeaderPair>, i: nat)
    requires i < |pairs| && IsLast(pairs, i)
    ensures pairs[i].name in Names(pairs)
    ensures LastValue(pairs, pairs[i].name) == pairs[i].value
    decreases |pairs|
  {
    var n := |pairs| - 1;
    var init := pairs[..n];
    if i < n {
      assert init[i] == pairs[i];
      assert IsLast(init, i) by {
        forall j | i < j < |init| ensures init[j].name != init[i].name {
          assert init[j] == pairs[j];
        }
      }
      LastValueIsLast(init, i);
    }
  }

  /**
   * `m` holds exactly the names of `pairs`, each bound to the value of the
   * last pair with that name.
   */
  predicate LastWins(m: HeaderMap, pairs: seq<HeaderPair>)
  {
    && m.Keys == Names(pairs)
    && forall k :: k in m ==> m[k] == LastValue(pairs, k)
  }

  /**
   * The map `construct_header_map` returns: the map of all pairs but the last,
   * with the last one inserted (replacing any entry of the same name).
   */
  function HeaderMapOf(pairs: seq<HeaderPair>): HeaderMap
    decreases |pairs|
  {
    if |pairs| == 0 then map[]
    else
      var last := pairs[|pairs| - 1];
      HeaderMapOf(pairs[..|pairs| - 1])[last.name := last.value]
  }

  /** The map of a list obeys last-write-wins and has at most one entry per pair. */
  lemma {:induction false} HeaderMapOfLastWins(pairs: seq<HeaderPair>)
    ensures LastWins(HeaderMapOf(pairs), pairs)
    ensures |HeaderMapOf(pairs)| <= |pairs|
    decreases |pairs|
  {
    if |pairs| > 0 {
      HeaderMapOfLastWins(pairs[..|pairs| - 1]);
    }
  }

  /**
   * Only the order among pairs of the same name matters: swapping two
   * neighbouring pairs with different names gives the same map.
   */
  lemma {:induction false} SwapDistinctNames(pairs: seq<HeaderPair>, i: nat)
    requires i + 1 < |pairs| && pairs[i].name != pairs[i + 1].name
    ensures HeaderMapOf(pairs[..i] + [pairs[i + 1], pairs[i]] + pairs[i + 2..]) == HeaderMapOf(pairs)
    decreases |pairs|
  {
    var swapped := pairs[..i] + [pairs[i + 1], pairs[i]] + pairs[i + 2..];
    var n := |pairs| - 1;
    if i + 1 == n {
      var m := HeaderMapOf(pairs[..i]);
      var x, y := pairs[i], pairs[i + 1];
      assert swapped[..n] == pairs[..i] + [y] && swapped[..n][..i] == pairs[..i];
      assert pairs[..n] == pairs[..i] + [x] && pairs[..n][..i] == pairs[..i];
      assert m[y.name := y.value][x.name := x.value] == m[x.name := x.value][y.name := y.value];
    } else {
      var init := pairs[..n];
      SwapDistinctNames(init, i);
      assert swapped[..n] == init[..i] + [init[i + 1], init[i]] + init[i + 2..];
      assert swapped[n] == pairs[n];
    }
  }

  /**
   * `construct_header_map`: start from an empty map and insert every pair in
   * order, a later pair replacing an earlier one of the same name. The map
   * holds exactly the names of the list, each bound to the value of the last
   * pair with that name, so it has no more entries than the list has pairs.
   */
  method ConstructHeaderMap(headers: seq<HeaderPair>) returns (m: HeaderMap)
    ensures m.Keys == Names(headers)
    ensures forall k :: k in m ==> m[k] == LastValue(headers, k)
    ensures forall i :: 0 <= i < |headers| && IsLast(headers, i) ==>
              headers[i].name in m && m[headers[i].name] == headers[i].value
    ensures |m| <= |headers|
    ensures m == HeaderMapOf(headers)
  {
    m := map[];
    for i := 0 to |headers|
      invariant m == HeaderMapOf(headers[..i])
    {
      assert headers[..i + 1][..i] == headers[..i];
      m := m[headers[i].name := headers[i].value];
    }
    assert headers[..|headers|] == headers;
    HeaderMapOfLastWins(headers);
    forall i | 0 <= i < |headers| && IsLast(headers, i)
      ensures headers[i].name in m && m[headers[i].name] == headers[i].value
    {
      LastValueIsLast(headers, i);
    }
  }

  // ---------------------------------------------------------------------------
  // The header stage of main: construct_header_map(parse_headers(opt.headers))
  // ---------------------------------------------------------------------------

  /** The map key a well-formed segment yields: its name text, lower-cased. */
  function SegmentName(segment: string): Name
  {
    Lowercase(NameText(segment))
  }

  /** No later segment yields the same map key as segment `i`. */
  predicate IsLastSegment(segments: seq<string>, i: nat)
    requires i < |segments|
  {
    forall j :: i < j < |segments| ==> SegmentName(segments[j]) != SegmentName(segments[i])
  }

  /**
   * `m` holds exactly the lower-cased names of the segments, each bound to
   * the value text of the last segment with that name.
   */
  predicate ServesSegments(m: HeaderMap, segments: seq<string>)
  {
    && (forall k :: k in m ==> exists i :: 0 <= i < |segments| && SegmentName(segments[i]) == k)
    && (forall i :: 0 <= i < |segments| ==> SegmentName(segments[i]) in m)
    && (forall i :: 0 <= i < |segments| && IsLastSegment(segments, i) ==>
          && SegmentName(segments[i]) in m
          && ':' in segments[i]
          && m[SegmentName(segments[i])] == ValueText(segments[i]))
  }

  /** Pairs read off segments, one per segment. */
  predicate ReadOff(pairs: seq<HeaderPair>, segments: seq<string>)
  {
    && |pairs| == |segments|
    && forall i :: 0 <= i < |segments| ==>
         ':' in segments[i] && pairs[i] == HeaderPair(SegmentName(segments[i]), ValueText(segments[i]))
  }

  /** Every key of the map of pairs read off segments is the name of some segment. */
  lemma KeysFromSegments(pairs: seq<HeaderPair>, segments: seq<string>, k: Name)
    requires ReadOff(pairs, segments) && k in HeaderMapOf(pairs)
    ensures exists i :: 0 <= i < |segments| && SegmentName(segments[i]) == k
  {
    HeaderMapOfLastWins(pairs);
    NamesOccur(pairs, k);
    var i :| 0 <= i < |pairs| && pairs[i].name == k;
    assert SegmentName(segments[i]) == k;
  }

  /** The name of every segment is a key of the map of pairs read off them. */
  lemma SegmentsToKeys(pairs: seq<HeaderPair>, segments: seq<string>, i: nat)
    requires ReadOff(pairs, segments) && i < |segments|
    ensures SegmentName(segments[i]) in HeaderMapOf(pairs)
  {
    HeaderMapOfLastWins(pairs);
    NamesOccur(pairs, pairs[i].name);
  }

  /** The last segment of a name decides that name's value. */
  lemma LastSegmentValue(pairs: seq<HeaderPair>, segments: seq<string>, i: nat)
    requires ReadOff(pairs, segments) && i < |segments| && IsLastSegment(segments, i)
    ensures SegmentName(segments[i]) in HeaderMapOf(pairs)
    ensures HeaderMapOf(pairs)[SegmentName(segments[i])] == ValueText(segments[i])
  {
    assert IsLast(pairs, i);
    LastValueIsLast(pairs, i);
    HeaderMapOfLastWins(pairs);
  }

  /** The map of pairs read off segments serves those segments. */
  lemma ServesFromPairs(pairs: seq<HeaderPair>, segments: seq<string>)
    requires ReadOff(pairs, segments)
    ensures ServesSegments(HeaderMapOf(pairs), segments)
  {
    forall k | k in HeaderMapOf(pairs)
      ensures exists i :: 0 <= i < |segments| && SegmentName(segments[i]) == k
    {
      KeysFromSegments(pairs, segments, k);
    }
    forall i | 0 <= i < |segments|
      ensures SegmentName(segments[i]) in HeaderMapOf(pairs)
    {
      SegmentsToKeys(pairs, segments, i);
    }
    forall i | 0 <= i < |segments| && IsLastSegment(segments, i)
      ensures HeaderMapOf(pairs)[SegmentName(segments[i])] == ValueText(segments[i])
    {
      LastSegmentValue(pairs, segments, i);
    }
  }

  /** After a successful parse, the built map is read off the segments directly. */
  lemma HeaderMapOfSegments(spec: string)
    requires ParseHeaders(spec).Success?
    ensures ServesSegments(HeaderMapOf(ParseHeaders(spec).value), Split(spec, ','))
  {
    var pairs := ParseHeaders(spec).value;
    var segments := Split(spec, ',');
    assert |pairs| == |segments|;
    forall i | 0 <= i < |segments|
      ensures ':' in segments[i] && pairs[i] == HeaderPair(SegmentName(segments[i]), ValueText(segments[i]))
    {
      ParseHeadersPairs(spec, i);
    }
    ServesFromPairs(pairs, segments);
  }

  /**
   * The headers attached to the request, or the reason the run aborts: the
   * parse fails exactly when some segment is ill formed, and otherwise the
   * map holds the lower-cased names of the segments, each bound to the value
   * text of the last segment with that name.
   */
  method RequestHeaders(spec: string) returns (r: Result<HeaderMap>)
    ensures r.Success? <==> forall i :: 0 <= i < |Split(spec, ',')| ==> WellFormed(Split(spec, ',')[i])
    ensures r.Failure? ==> ParseHeaders(spec) == Failure(r.error)
    ensures r.Success? ==> ParseHeaders(spec).Success? && r.value == HeaderMapOf(ParseHeaders(spec).value)
    ensures r.Success? ==> ServesSegments(r.value, Split(spec, ','))
  {
    ParseHeadersSucceeds(spec);
    var parsed := ParseHeaders(spec);
    if parsed.Failure? {
      return Failure(parsed.error);
    }
    var m := ConstructHeaderMap(parsed.value);
    HeaderMapOfSegments(spec);
    return Success(m);
  }
}
