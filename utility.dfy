/**
 * The string and query-string helpers of `Utility` (src/common/Utility.js):
 * sanitising strings and string arrays, and writing and reading URL query strings by
 * which the wizard carries data from page to page.
 */
module Utility {
  import opened Wrappers
  import opened JsStrings
  import opened JsValues
  import opened UriComponent

  // ---------------------------------------------------------------------------
  // Sanitising

  /**
   * `sanitizeString(text)`: `None` (the source's `false`) for an absent, empty or
   * white-space-only text, otherwise the trimmed text, which is never empty.
   */
  function SanitizeString(text: Option<string>): (r: Option<string>)
    ensures r.None? <==> text.None? || AllWhiteSpace(text.value)
    ensures r.Some? ==> r.value == Trim(text.value) && r.value != [] && IsTrimmed(r.value)
  {
    match text
    case None => None
    case Some(t) =>
      if t == [] then None
      else
        TrimEmptyIff(t);
        var u := Trim(t);
        if |u| == 0 then None else Some(u)
  }

  /** Sanitising an already sanitised string changes nothing. */
  lemma SanitizeStringIdempotent(text: Option<string>)
    requires SanitizeString(text).Some?
    ensures SanitizeString(SanitizeString(text)) == SanitizeString(text)
  {
    TrimIdempotent(text.value);
  }

  /** The strings of an array, as entries that are present. */
  function Present(xs: seq<string>): (r: seq<Option<string>>)
    ensures |r| == |xs| && forall k | 0 <= k < |xs| :: r[k] == Some(xs[k])
  {
    seq(|xs|, k requires 0 <= k < |xs| => Some(xs[k]))
  }

  /**
   * What `sanitizeStringArray` returns: the sanitised form of every entry that
   * survives sanitising, in the original order.
   */
  function Sanitized(a: seq<Option<string>>): (r: seq<string>)
    ensures |r| <= |a|
    ensures forall k | 0 <= k < |r| :: r[k] != [] && IsTrimmed(r[k])
  {
    if a == [] then []
    else
      var init := Sanitized(a[..|a| - 1]);
      match SanitizeString(a[|a| - 1])
      case None => init
      case Some(t) => init + [t]
  }

  /** `sanitizeStringArray(array)`, which pushes each surviving entry in turn. */
  method SanitizeStringArray(entries: seq<Option<string>>) returns (sanitized: seq<string>)
    ensures sanitized == Sanitized(entries)
  {
    sanitized := [];
    for i := 0 to |entries|
      invariant sanitized == Sanitized(entries[..i])
    {
      assert entries[..i + 1][..i] == entries[..i];
      var sanitizedText := SanitizeString(entries[i]);
      if sanitizedText.None? { continue; }
      sanitized := sanitized + [sanitizedText.value];
    }
    assert entries[..|entries|] == entries;
  }

  /** Sanitising works entry by entry: the result for a concatenation is the concatenation. */
  lemma {:induction false} SanitizedConcat(a: seq<Option<string>>, b: seq<Option<string>>)
    ensures Sanitized(a + b) == Sanitized(a) + Sanitized(b)
    decreases |b|
  {
    if b == [] {
      assert a + b == a;
    } else {
      var b' := b[..|b| - 1];
      assert (a + b)[..|a + b| - 1] == a + b';
      assert (a + b)[|a + b| - 1] == b[|b| - 1];
      SanitizedConcat(a, b');
    }
  }

  /** One entry survives exactly when it sanitises to a string, and then as that string. */
  lemma SanitizedSingle(x: Option<string>)
    ensures Sanitized([x]) == match SanitizeString(x) case None => [] case Some(t) => [t]
  {
    assert [x][..0] == [];
  }

  /** Strings that are already sanitised all survive, unchanged. */
  lemma {:induction false} SanitizedOfClean(xs: seq<string>)
    requires forall k | 0 <= k < |xs| :: xs[k] != [] && IsTrimmed(xs[k])
    ensures Sanitized(Present(xs)) == xs
    decreases |xs|
  {
    if xs != [] {
      var init := xs[..|xs| - 1];
      assert Present(xs)[..|xs| - 1] == Present(init);
      SanitizedOfClean(init);
      var t := xs[|xs| - 1];
      TrimOfTrimmed(t);
      TrimEmptyIff(t);
      assert SanitizeString(Some(t)) == Some(t);
    }
  }

  /** `sanitizeStringArray` is idempotent. */
  lemma SanitizedIdempotent(a: seq<Option<string>>)
    ensures Sanitized(Present(Sanitized(a))) == Sanitized(a)
  {
    SanitizedOfClean(Sanitized(a));
  }

  // ---------------------------------------------------------------------------
  // Writing query strings

  /** One `key=value` parameter; the value is stringified and encoded, the key is not. */
  function Parameter(key: string, v: Value): string {
    key + "=" + Encode(ToString(v))
  }

  function Parameters(d: Entries<Value>): (r: seq<string>)
    ensures |r| == |d| && forall k | 0 <= k < |d| :: r[k] == Parameter(d[k].0, d[k].1)
  {
    seq(|d|, k requires 0 <= k < |d| => Parameter(d[k].0, d[k].1))
  }

  /**
   * What `prepareQueryString(data)` returns: `""` for absent data, otherwise `?`
   * followed by the parameters of the entries, in entry order, separated by `&`.
   */
  function QueryString(data: Option<Entries<Value>>): string {
    match data
    case None => ""
    case Some(d) => "?" + Join(Parameters(d), '&')
  }

  /** Each piece followed by `&`, all concatenated. */
  function Terminated<T>(parts: seq<seq<T>>, sep: T): seq<T> {
    if parts == [] then [] else Terminated(parts[..|parts| - 1], sep) + parts[|parts| - 1] + [sep]
  }

  /** Dropping the final `&` of the terminated pieces leaves their join. */
  lemma {:induction false} TerminatedIsJoin<T>(parts: seq<seq<T>>, sep: T)
    requires parts != []
    ensures |Terminated(parts, sep)| >= 1
    ensures Terminated(parts, sep) == Join(parts, sep) + [sep]
    decreases |parts|
  {
    var init := parts[..|parts| - 1];
    var last := parts[|parts| - 1];
    assert Terminated(parts, sep) == Terminated(init, sep) + last + [sep];
    if init != [] {
      TerminatedIsJoin(init, sep);
      assert parts == init + [last];
      JoinSnoc(init, last, sep);
      assert Join(parts, sep) == Join(init, sep) + [sep] + last;
    } else {
      assert Terminated(init, sep) == [];
      assert Join(parts, sep) == last;
    }
  }

  /** Joining with one more piece at the end. */
  lemma {:induction false} JoinSnoc<T>(parts: seq<seq<T>>, last: seq<T>, sep: T)
    requires parts != []
    ensures Join(parts + [last], sep) == Join(parts, sep) + [sep] + last
    decreases |parts|
  {
    if |parts| > 1 {
      assert (parts + [last])[1..] == parts[1..] + [last];
      JoinSnoc(parts[1..], last, sep);
    } else {
      assert (parts + [last])[1..] == [last];
    }
  }

  /**
   * `prepareQueryString(data)`: appends `key=value&` for each entry, then drops the
   * final `&` when there is one, and prefixes `?`.
   */
  method PrepareQueryString(data: Option<Entries<Value>>) returns (r: string)
    ensures r == QueryString(data)
  {
    if data.None? { return ""; }
    var entries := data.value;
    var queryString := "";
    for i := 0 to |entries|
      invariant queryString == Terminated(Parameters(entries)[..i], '&')
    {
      assert Parameters(entries)[..i + 1][..i] == Parameters(entries)[..i];
      queryString := queryString + Parameter(entries[i].0, entries[i].1) + "&";
    }
    assert Parameters(entries)[..|entries|] == Parameters(entries);
    if |queryString| > 0 {
      TerminatedIsJoin(Parameters(entries), '&');
      queryString := queryString[..|queryString| - 1];
    }
    r := "?" + queryString;
  }

  /**
   * The query string of some entries is `?` and the parameters, the last of which ends
   * in its `=` or in an encoded character: no `&` is left at the end.
   */
  lemma QueryStringShape(d: Entries<Value>)
    requires d != []
    ensures var q := QueryString(Some(d));
      |q| >= 2 && q[0] == '?' && q[|q| - 1] != '&'
  {
    var ps := Parameters(d);
    var n := |ps| - 1;
    var last := ps[n];
    var v := Encode(ToString(d[n].1));
    assert last == d[n].0 + "=" + v;
    JoinEndsWithLast(ps, '&');
    var j := Join(ps, '&');
    assert |j| >= 1 && j[|j| - 1] == last[|last| - 1];
    if v != [] {
      EncodeAvoidsDelimiters(ToString(d[n].1));
      assert last[|last| - 1] == v[|v| - 1];
    }
    assert QueryString(Some(d)) == "?" + j;
  }

  /** A join ends with the last piece. */
  lemma JoinEndsWithLast<T>(parts: seq<seq<T>>, sep: T)
    requires parts != [] && parts[|parts| - 1] != []
    ensures var j := Join(parts, sep); var last := parts[|parts| - 1];
      |j| >= |last| && j[|j| - 1] == last[|last| - 1]
  {
    var n := |parts| - 1;
    if n > 0 {
      assert parts == parts[..n] + [parts[n]];
      JoinSnoc(parts[..n], parts[n], sep);
    }
  }

  /** `appendQueryString(url, data)`: the url followed by the query string of `data`. */
  function AppendQueryString(url: string, data: Option<Entries<Value>>): string {
    url + QueryString(data)
  }

  // ---------------------------------------------------------------------------
  // Reading query strings

  /**
   * One `key=value` segment: the key is the text before the first `=`, the value the
   * rest (decoded when asked); `None` for a segment without `=`.
   */
  function ParsedSegment(segment: string, decode: bool): Option<Result<(string, string), UriError>> {
    var i := IndexOf(segment, '=');
    if i == -1 then None
    else
      var key := segment[..i];
      var value := segment[i + 1..];
      if !decode then Some(Ok((key, value)))
      else
        match Decode(value)
        case Ok(v) => Some(Ok((key, v)))
        case Err(e) => Some(Err(e))
  }

  /** The parameters after one more segment: its parameter written over the ones before. */
  function AddSegment(params: Entries<string>, segment: string, decode: bool): Result<Entries<string>, UriError> {
    match ParsedSegment(segment, decode)
    case None => Ok(params)
    case Some(Err(e)) => Err(e)
    case Some(Ok(kv)) => Ok(Put(params, kv.0, kv.1))
  }

  /** The parameters of the segments, in order, each written over the ones before. */
  function ParsedSegments(segments: seq<string>, decode: bool): Result<Entries<string>, UriError> {
    if segments == [] then Ok([])
    else
      match ParsedSegments(segments[..|segments| - 1], decode)
      case Err(e) => Err(e)
      case Ok(params) => AddSegment(params, segments[|segments| - 1], decode)
  }

  /** A segment without `=` is skipped: the parameters stay as they were. */
  lemma SegmentWithoutEquals(params: Entries<string>, segment: string, decode: bool)
    requires '=' !in segment
    ensures AddSegment(params, segment, decode) == Ok(params)
  {
  }

  /** The value is everything after the first `=`, further `=` included; the key is never decoded. */
  lemma SegmentSplitsAtFirstEquals(key: string, value: string, decode: bool)
    requires '=' !in key
    ensures ParsedSegment(key + "=" + value, decode) ==
      if !decode then Some(Ok((key, value)))
      else match Decode(value) case Ok(v) => Some(Ok((key, v))) case Err(e) => Some(Err(e))
  {
    IndexOfSeparated(key, '=', value);
  }

  /** A decoding error in some segment is the error of all of them: parsing stops there. */
  lemma {:induction false} ParsedSegmentsError(segments: seq<string>, i: nat, decode: bool)
    requires i <= |segments| && ParsedSegments(segments[..i], decode).Err?
    ensures ParsedSegments(segments, decode) == ParsedSegments(segments[..i], decode)
    decreases |segments|
  {
    if i < |segments| {
      var init := segments[..|segments| - 1];
      assert init[..i] == segments[..i];
      ParsedSegmentsError(init, i, decode);
    } else {
      assert segments[..i] == segments;
    }
  }

  /**
   * What `parseQueryString(url, decode)` returns: no parameters for an empty url or
   * one without `?`, otherwise the parameters of the `&`-separated segments after the
   * first `?`; `Err` when decoding throws.
   */
  function QueryParameters(url: string, decode: bool): Result<Entries<string>, UriError> {
    if url == [] then Ok([])
    else
      var q := IndexOf(url, '?');
      if q == -1 then Ok([]) else ParsedSegments(Split(url[q + 1..], '&'), decode)
  }

  /** One segment of `parseQueryString`: skipped without `=`, else its key and (decoded) value. */
  method ReadSegment(segment: string, decode: bool) returns (r: Option<Result<(string, string), UriError>>)
    ensures r == ParsedSegment(segment, decode)
  {
    var indexOfEqualSign := IndexOf(segment, '=');
    if indexOfEqualSign == -1 { return None; }
    var key := segment[..indexOfEqualSign];
    var value := segment[indexOfEqualSign + 1..];
    if decode {
      var decoded := Decode(value);
      if decoded.Err? { return Some(Err(decoded.error)); }
      value := decoded.value;
    }
    r := Some(Ok((key, value)));
  }

  /** An empty url, or one without `?`, carries no parameters. */
  lemma NoQueryNoParameters(url: string, decode: bool)
    requires '?' !in url
    ensures QueryParameters(url, decode) == Ok([])
  {
  }

  /** `parseQueryString(url, decode)`, which fills the parameter object segment by segment. */
  method ParseQueryString(url: string, decode: bool) returns (r: Result<Entries<string>, UriError>)
    ensures r == QueryParameters(url, decode)
  {
    if url == [] { return Ok([]); }
    var indexOfQuestionMark := IndexOf(url, '?');
    if indexOfQuestionMark == -1 { return Ok([]); }
    var segments := Split(url[indexOfQuestionMark + 1..], '&');
    var queryParameters: Entries<string> := [];
    for i := 0 to |segments|
      invariant ParsedSegments(segments[..i], decode) == Ok(queryParameters)
    {
      assert segments[..i + 1][..i] == segments[..i];
      assert ParsedSegments(segments[..i + 1], decode) == AddSegment(queryParameters, segments[i], decode);
      var parameter := ReadSegment(segments[i], decode);
      match parameter {
        case None =>
        case Some(Err(e)) =>
          ParsedSegmentsError(segments, i + 1, decode);
          return Err(e);
        case Some(Ok(kv)) =>
          queryParameters := Put(queryParameters, kv.0, kv.1);
      }
    }
    assert segments[..|segments|] == segments;
    r := Ok(queryParameters);
  }

  // ---------------------------------------------------------------------------
  // The round trip

  /** The entries with every value stringified, as the query string carries them. */
  function Stringified(d: Entries<Value>): (r: Entries<string>)
    ensures |r| == |d| && forall k | 0 <= k < |d| :: r[k] == (d[k].0, ToString(d[k].1))
  {
    seq(|d|, k requires 0 <= k < |d| => (d[k].0, ToString(d[k].1)))
  }

  /** Keys the query string can carry: they are written unencoded. */
  predicate PlainKeys(d: Entries<Value>) {
    forall k | 0 <= k < |d| :: '&' !in d[k].0 && '=' !in d[k].0
  }

  /** Writing a plain key keeps every key plain. */
  lemma PutPlain(d: Entries<Value>, key: string, v: Value)
    requires PlainKeys(d) && '&' !in key && '=' !in key
    ensures PlainKeys(Put(d, key, v))
  {
    var p := Put(d, key, v);
    KeysPut(d, key, v);
    forall k | 0 <= k < |p| ensures '&' !in p[k].0 && '=' !in p[k].0 {
      assert Keys(p)[k] == p[k].0;
      if k < |d| { assert Keys(d)[k] == d[k].0; }
    }
  }

  /** A parameter written by `Parameter` reads back as its key and stringified value. */
  lemma ParameterRoundTrip(key: string, v: Value)
    requires '=' !in key
    ensures ParsedSegment(Parameter(key, v), true) == Some(Ok((key, ToString(v))))
  {
    IndexOfSeparated(key, '=', Encode(ToString(v)));
    DecodeEncode(ToString(v));
  }

  /** Parsing the parameters of key-unique entries rebuilds the entries, stringified. */
  lemma {:induction false} ParsedParameters(d: Entries<Value>)
    requires UniqueKeys(d) && PlainKeys(d)
    ensures ParsedSegments(Parameters(d), true) == Ok(Stringified(d))
    decreases |d|
  {
    if d != [] {
      var n := |d| - 1;
      var init := d[..n];
      var last := d[n];
      var ps := Parameters(d);
      ParametersPrefix(d, n);
      assert UniqueKeys(init) && PlainKeys(init) by {
        assert forall k | 0 <= k < n :: init[k] == d[k];
      }
      ParsedParameters(init);
      assert ParsedSegments(ps, true) == AddSegment(Stringified(init), ps[n], true);
      assert '=' !in last.0;
      ParameterRoundTrip(last.0, last.1);
      assert ps[n] == Parameter(last.0, last.1);
      assert AddSegment(Stringified(init), ps[n], true) == Ok(Put(Stringified(init), last.0, ToString(last.1)));
      StringifiedSnoc(d);
    }
  }

  /** The parameters of a prefix are the prefix of the parameters. */
  lemma ParametersPrefix(d: Entries<Value>, n: nat)
    requires n <= |d|
    ensures Parameters(d)[..n] == Parameters(d[..n])
  {
  }

  /**
   * Stringifying a key-unique list: its last entry is a fresh key written after the
   * stringified rest.
   */
  lemma StringifiedSnoc(d: Entries<Value>)
    requires d != [] && UniqueKeys(d)
    ensures var n := |d| - 1;
      Put(Stringified(d[..n]), d[n].0, ToString(d[n].1)) == Stringified(d)
  {
    var n := |d| - 1;
    var init := Stringified(d[..n]);
    assert d[n].0 !in Keys(init) by {
      forall k | 0 <= k < n ensures Keys(init)[k] != d[n].0 {
        assert init[k].0 == d[k].0;
      }
    }
    PutFresh(init, d[n].0, ToString(d[n].1));
    assert init + [(d[n].0, ToString(d[n].1))] == Stringified(d);
  }

  /** The parameters never contain the separator `&`. */
  lemma ParametersAvoidSeparator(d: Entries<Value>)
    requires PlainKeys(d)
    ensures forall k | 0 <= k < |Parameters(d)| :: '&' !in Parameters(d)[k]
  {
    forall k | 0 <= k < |d| ensures '&' !in Parameters(d)[k] {
      EncodeAvoidsDelimiters(ToString(d[k].1));
    }
  }

  /**
   * `parseQueryString(url + prepareQueryString(d))` gives back `d` with its values
   * stringified, for any url without `?` and any entries whose keys contain neither
   * `&` nor `=`.
   */
  lemma QueryStringRoundTrip(url: string, d: Entries<Value>)
    requires '?' !in url
    requires UniqueKeys(d) && PlainKeys(d)
    ensures QueryParameters(AppendQueryString(url, Some(d)), true) == Ok(Stringified(d))
  {
    var body := Join(Parameters(d), '&');
    assert AppendQueryString(url, Some(d)) == url + "?" + body;
    QueryAfterMark(url, body, true);
    if d == [] {
      assert body == "";
      NoSegments(true);
    } else {
      ParametersAvoidSeparator(d);
      SplitJoin(Parameters(d), '&');
      ParsedParameters(d);
    }
  }

  /** The text after `?` is split into `&`-separated segments, for a url part without `?`. */
  lemma QueryAfterMark(url: string, body: string, decode: bool)
    requires '?' !in url
    ensures QueryParameters(url + "?" + body, decode) == ParsedSegments(Split(body, '&'), decode)
  {
    IndexOfSeparated(url, '?', body);
  }

  /** An empty query carries no parameters. */
  lemma NoSegments(decode: bool)
    ensures ParsedSegments(Split("", '&'), decode) == Ok([])
  {
    assert Split("", '&') == [""];
    assert IndexOf("", '=') == -1;
    assert ParsedSegments([""], decode) == AddSegment([], "", decode);
  }

  /** The query string of no entries is `?` alone, and it carries no parameters. */
  lemma EmptyQueryString()
    ensures QueryString(Some([])) == "?"
    ensures QueryParameters("?", true) == Ok([])
  {
    assert Join(Parameters([]), '&') == "";
    QueryAfterMark("", "", true);
    assert "" + "?" + "" == "?";
    NoSegments(true);
  }

  /** The key of a segment: the text before its first `=`, or `None` when it has no `=`. */
  function SegmentKey(segment: string): Option<string> {
    var i := IndexOf(segment, '=');
    if i == -1 then None else Some(segment[..i])
  }

  /**
   * Whatever the decoding, the parameter of the last segment with a given key is the
   * one kept: the parameters hold that segment's (decoded) value under the key.
   */
  lemma {:induction false} LaterParameterWins(segments: seq<string>, decode: bool, key: string, j: nat)
    requires ParsedSegments(segments, decode).Ok?
    requires j < |segments| && SegmentKey(segments[j]) == Some(key)
    requires forall j' | j < j' < |segments| :: SegmentKey(segments[j']) != Some(key)
    ensures ParsedSegment(segments[j], decode).Some? && ParsedSegment(segments[j], decode).value.Ok?
    ensures Lookup(ParsedSegments(segments, decode).value, key)
         == Some(ParsedSegment(segments[j], decode).value.value.1)
    decreases |segments|
  {
    var n := |segments| - 1;
    var init := segments[..n];
    var params := ParsedSegments(init, decode).value;
    assert ParsedSegments(segments, decode) == AddSegment(params, segments[n], decode);
    if j == n {
      var kv := ParsedSegment(segments[n], decode).value.value;
      LookupPut(params, kv.0, kv.1, key);
    } else {
      assert forall j' | j < j' < |init| :: init[j'] == segments[j'];
      LaterParameterWins(init, decode, key, j);
      assert init[j] == segments[j];
      match ParsedSegment(segments[n], decode)
      case None =>
      case Some(r) => LookupPut(params, r.value.0, r.value.1, key);
    }
  }

  /** A key that no segment carries is not among the parameters, whatever the decoding. */
  lemma {:induction false} MissingParameter(segments: seq<string>, decode: bool, key: string)
    requires ParsedSegments(segments, decode).Ok?
    requires forall j | 0 <= j < |segments| :: SegmentKey(segments[j]) != Some(key)
    ensures Lookup(ParsedSegments(segments, decode).value, key) == None
    decreases |segments|
  {
    if segments != [] {
      var n := |segments| - 1;
      var init := segments[..n];
      assert forall j | 0 <= j < |init| :: init[j] == segments[j];
      MissingParameter(init, decode, key);
      var params := ParsedSegments(init, decode).value;
      assert ParsedSegments(segments, decode) == AddSegment(params, segments[n], decode);
      match ParsedSegment(segments[n], decode)
      case None =>
      case Some(r) => LookupPut(params, r.value.0, r.value.1, key);
    }
  }

  /** An example: in `?key=a&key=b` the later `b` is kept. */
  lemma DuplicateKeyInUrl(a: string, b: string, key: string)
    requires '=' !in key && '&' !in key && '&' !in a && '&' !in b
    ensures QueryParameters("?" + key + "=" + a + "&" + key + "=" + b, false)
         == Ok([(key, b)])
  {
    var s1 := key + "=" + a;
    var s2 := key + "=" + b;
    var url := "?" + key + "=" + a + "&" + key + "=" + b;
    assert url == "" + "?" + (s1 + "&" + s2);
    QueryAfterMark("", s1 + "&" + s2, false);
    assert '&' !in s1 && '&' !in s2;
    SplitTwo(s1, '&', s2);
    SameKeyTwice(key, a, b);
  }

  lemma SameKeyTwice(key: string, a: string, b: string)
    requires '=' !in key
    ensures ParsedSegments([key + "=" + a, key + "=" + b], false) == Ok([(key, b)])
  {
    var s1 := key + "=" + a;
    var s2 := key + "=" + b;
    var segments := [s1, s2];
    KeyedSegment(key, a);
    KeyedSegment(key, b);
    var first: seq<string> := [s1];
    assert first[..0] == [];
    var none: Entries<string> := [];
    assert Put(none, key, a) == [(key, a)];
    assert ParsedSegments(first, false) == AddSegment(none, s1, false);
    assert Put([(key, a)], key, b) == [(key, b)];
    assert segments[..1] == first;
    assert ParsedSegments(segments, false) == AddSegment([(key, a)], s2, false);
  }

  /** The segment `key=v` of a key without `=` reads as that key and `v`. */
  lemma KeyedSegment(key: string, v: string)
    requires '=' !in key
    ensures ParsedSegment(key + "=" + v, false) == Some(Ok((key, v)))
  {
    IndexOfSeparated(key, '=', v);
  }
}
