/**
 * http_parse_request_line: "METHOD URI HTTP/x.y" split the way strtok(line, " ")
 * splits it, the URI cut at its first '?', and each part copied into a
 * fixed-size field of the request record with silent truncation.
 */
module RequestLine {
  import opened Bytes

  /** char method[8], path[128], query[128]: room for 7, 127 and 127 bytes plus the NUL. */
  const METHOD_CAP: nat := 7
  const PATH_CAP: nat := 127
  const QUERY_CAP: nat := 127

  const HTTP_SLASH: bytes := "HTTP/"

  datatype Line = Line(methodName: bytes, path: bytes, query: bytes, major: int, minor: int)

  predicate NoSpace(s: bytes) {
    forall i :: 0 <= i < |s| ==> s[i] != SP
  }

  /** Length of the run of bytes other than ' ' at the start of s. */
  function TokenLength(s: bytes): (k: nat)
    ensures k <= |s| && NoSpace(s[..k])
    ensures k < |s| ==> s[k] == SP
  {
    if s == [] || s[0] == SP then 0 else 1 + TokenLength(s[1..])
  }

  /** The tokens successive strtok(_, " ") calls return: the maximal runs of bytes other than ' '. */
  function Tokens(s: bytes): (ts: seq<bytes>)
    ensures forall i :: 0 <= i < |ts| ==> |ts[i]| > 0 && NoSpace(ts[i])
    decreases |s|
  {
    if s == [] then []
    else if s[0] == SP then Tokens(s[1..])
    else
      var k := TokenLength(s);
      [s[..k]] + Tokens(s[k..])
  }

  /** Tokens written out with one space between each. */
  function JoinSpaced(ts: seq<bytes>): bytes {
    if ts == [] then []
    else if |ts| == 1 then ts[0]
    else ts[0] + " " + JoinSpaced(ts[1..])
  }

  /** Splitting on spaces undoes joining with spaces. */
  lemma {:induction false} TokensOfJoin(ts: seq<bytes>)
    requires forall i :: 0 <= i < |ts| ==> |ts[i]| > 0 && NoSpace(ts[i])
    ensures Tokens(JoinSpaced(ts)) == ts
  {
    if ts == [] {
    } else if |ts| == 1 {
      TokensOfToken(ts[0], []);
      assert ts[0] + [] == ts[0];
    } else {
      var j := JoinSpaced(ts[1..]);
      assert JoinSpaced(ts) == ts[0] + (" " + j);
      TokensOfToken(ts[0], " " + j);
      assert (" " + j)[1..] == j;
      TokensOfJoin(ts[1..]);
    }
  }

  /** A token followed by nothing or by a space is the first token. */
  lemma TokensOfToken(t: bytes, rest: bytes)
    requires |t| > 0 && NoSpace(t)
    requires rest == [] || rest[0] == SP
    ensures Tokens(t + rest) == [t] + Tokens(rest)
  {
    var s := t + rest;
    TokenLengthOf(t, rest);
    assert s[0] == t[0];
    assert s[..|t|] == t;
    assert s[|t|..] == rest;
  }

  lemma {:induction false} TokenLengthOf(t: bytes, rest: bytes)
    requires NoSpace(t)
    requires rest == [] || rest[0] == SP
    ensures TokenLength(t + rest) == |t|
  {
    if t == [] {
      assert t + rest == rest;
    } else {
      assert (t + rest)[1..] == t[1..] + rest;
      TokenLengthOf(t[1..], rest);
    }
  }

  /**
   * One %d conversion of sscanf: isspace bytes skipped, an optional sign, at
   * least one digit. Gives the value and the number of bytes consumed.
   */
  function ScanInt(s: bytes): (r: Option<(int, nat)>)
    ensures r.Some? ==> 0 < r.value.1 <= |s|
  {
    var a := SpaceRun(s);
    var t := s[a..];
    var signed := |t| > 0 && (t[0] == '-' || t[0] == '+');
    var u := if signed then t[1..] else t;
    var k := DigitRun(u);
    if k == 0 then None
    else
      var v: int := DigitsValue(u[..k]);
      Some((if signed && t[0] == '-' then -v else v, a + (if signed then 1 else 0) + k))
  }

  /** sscanf(vers, "HTTP/%d.%d", &major, &minor) == 2 */
  function ParseVersion(v: bytes): (r: Option<(int, int)>)
    ensures r.Some? ==> |v| > 5 && v[..5] == HTTP_SLASH
  {
    if |v| < 5 || v[..5] != HTTP_SLASH then None else ScanNumbers(v[5..])
  }

  /** The "%d.%d" part of the version format. */
  function ScanNumbers(s: bytes): (r: Option<(int, int)>)
    ensures r.Some? ==> |s| > 0
  {
    match ScanInt(s)
    case None => None
    case Some((major, n)) =>
      match ScanMinor(s[n..])
      case None => None
      case Some(minor) => Some((major, minor))
  }

  /** The ".%d" part of the version format. */
  function ScanMinor(s: bytes): (r: Option<int>) {
    if s == [] || s[0] != '.' then None
    else match ScanInt(s[1..])
      case None => None
      case Some((minor, _)) => Some(minor)
  }

  /** The URI split at its first '?': the path before it and the query after it (empty if there is none). */
  function SplitUri(uri: bytes): (r: (bytes, bytes))
    ensures '?' !in r.0
    ensures r.0 == uri || uri == r.0 + "?" + r.1
  {
    match FindByte(uri, '?')
    case None => (uri, [])
    case Some(q) =>
      assert uri == uri[..q] + "?" + uri[q + 1..];
      (uri[..q], uri[q + 1..])
  }

  /**
   * http_parse_request_line: fails (None) unless strtok finds three tokens
   * and the third reads as HTTP/<int>.<int>; further tokens are ignored.
   */
  function ParseRequestLine(line: bytes): (r: Option<Line>)
    ensures r.Some? <==> |Tokens(line)| >= 3 && ParseVersion(Tokens(line)[2]).Some?
    ensures r.Some? ==> |r.value.methodName| <= METHOD_CAP && |r.value.path| <= PATH_CAP && |r.value.query| <= QUERY_CAP
    ensures r.Some? ==> 0 < |r.value.methodName| && r.value.methodName <= Tokens(line)[0] && NoSpace(r.value.methodName)
    ensures r.Some? ==> '?' !in r.value.path && r.value.path <= SplitUri(Tokens(line)[1]).0
    ensures r.Some? ==> r.value.query <= SplitUri(Tokens(line)[1]).1
    ensures r.Some? ==>
      && r.value.methodName == Trunc(Tokens(line)[0], METHOD_CAP)
      && r.value.path == Trunc(SplitUri(Tokens(line)[1]).0, PATH_CAP)
      && r.value.query == Trunc(SplitUri(Tokens(line)[1]).1, QUERY_CAP)
      && (r.value.major, r.value.minor) == ParseVersion(Tokens(line)[2]).value
  {
    var ts := Tokens(line);
    if |ts| < 3 then None
    else
      var (path, query) := SplitUri(ts[1]);
      match ParseVersion(ts[2])
      case None => None
      case Some((major, minor)) =>
        Some(Line(Trunc(ts[0], METHOD_CAP), Trunc(path, PATH_CAP), Trunc(query, QUERY_CAP), major, minor))
  }

  /** The URI a client writes for a path and a query string. */
  function Uri(path: bytes, query: bytes): bytes {
    if query == [] then path else path + "?" + query
  }

  /** The request line a client writes. */
  function FormatRequestLine(m: bytes, path: bytes, query: bytes, major: nat, minor: nat): bytes {
    JoinSpaced([m, Uri(path, query), VersionText(major, minor)])
  }

  lemma ScanDecimal(n: nat, rest: bytes)
    requires rest == [] || !IsDigit(rest[0])
    ensures ScanInt(Decimal(n) + rest) == Some((n, |Decimal(n)|))
  {
    var d := Decimal(n);
    var s := d + rest;
    assert s[0] == d[0] && IsDigit(s[0]);
    assert SpaceRun(s) == 0;
    assert s[0..] == s;
    DigitRunOf(d, rest);
    assert s[..|d|] == d;
    DecimalValue(n);
  }

  function VersionText(major: nat, minor: nat): bytes {
    HTTP_SLASH + Decimal(major) + "." + Decimal(minor)
  }

  lemma Regroup(a: bytes, b: bytes, c: bytes, d: bytes)
    ensures a + b + c + d == a + (b + (c + d))
  {
  }

  lemma ScanMinorOf(minor: nat)
    ensures ScanMinor("." + Decimal(minor)) == Some(minor)
  {
    var s := "." + Decimal(minor);
    assert s[1..] == Decimal(minor) + [];
    ScanDecimal(minor, []);
  }

  lemma ScanNumbersOf(major: nat, minor: nat)
    ensures ScanNumbers(Decimal(major) + ("." + Decimal(minor))) == Some((major, minor))
  {
    var d1, tail := Decimal(major), "." + Decimal(minor);
    ScanDecimal(major, tail);
    assert (d1 + tail)[|d1|..] == tail;
    ScanMinorOf(minor);
  }

  /** What a client writes as the version, the parser reads back. */
  lemma ParseVersionOf(major: nat, minor: nat)
    ensures ParseVersion(VersionText(major, minor)) == Some((major, minor))
  {
    var d1, tail := Decimal(major), "." + Decimal(minor);
    var v := HTTP_SLASH + (d1 + tail);
    Regroup(HTTP_SLASH, d1, ".", Decimal(minor));
    assert v[..5] == HTTP_SLASH && v[5..] == d1 + tail;
    ScanNumbersOf(major, minor);
  }

  lemma NoSpaceVersion(major: nat, minor: nat)
    ensures NoSpace(VersionText(major, minor))
  {
    var v := VersionText(major, minor);
    var d1, d2 := Decimal(major), Decimal(minor);
    assert v == HTTP_SLASH + d1 + "." + d2;
    forall i | 0 <= i < |v|
      ensures v[i] != SP
    {
      if i < 5 {
        assert v[i] == HTTP_SLASH[i];
      } else if i < 5 + |d1| {
        assert v[i] == d1[i - 5];
      } else if i > 5 + |d1| {
        assert v[i] == d2[i - 6 - |d1|];
      }
    }
  }

  /** Splitting the URI a client writes gives back its path and query. */
  lemma SplitUriOf(path: bytes, query: bytes)
    requires '?' !in path
    ensures SplitUri(Uri(path, query)) == (path, query)
  {
    if query != [] {
      var uri := Uri(path, query);
      assert uri[|path|] == '?';
      forall j | 0 <= j < |path|
        ensures uri[j] != '?'
      {
        assert uri[j] == path[j];
      }
      assert FindByte(uri, '?') == Some(|path|);
      assert uri[..|path|] == path && uri[|path| + 1..] == query;
    } else {
      assert FindByte(path, '?') == None;
    }
  }

  lemma NoSpaceUri(path: bytes, query: bytes)
    requires NoSpace(path) && NoSpace(query)
    ensures NoSpace(Uri(path, query))
  {
    var uri := Uri(path, query);
    if query != [] {
      forall i | 0 <= i < |uri|
        ensures uri[i] != SP
      {
        if i < |path| {
          assert uri[i] == path[i];
        } else if i > |path| {
          assert uri[i] == query[i - |path| - 1];
        }
      }
    }
  }

  /**
   * Round trip: a request line whose method, path and query fit their fields
   * and contain no space (and a path with no '?') parses back into exactly
   * those parts and version numbers.
   */
  lemma ParseFormattedLine(m: bytes, path: bytes, query: bytes, major: nat, minor: nat)
    requires 0 < |m| <= METHOD_CAP && NoSpace(m)
    requires 0 < |path| <= PATH_CAP && NoSpace(path) && '?' !in path
    requires |query| <= QUERY_CAP && NoSpace(query)
    ensures ParseRequestLine(FormatRequestLine(m, path, query, major, minor))
         == Some(Line(m, path, query, major, minor))
  {
    var uri := Uri(path, query);
    var ver := VersionText(major, minor);
    NoSpaceVersion(major, minor);
    NoSpaceUri(path, query);
    TokensOfJoin([m, uri, ver]);
    ParseVersionOf(major, minor);
    SplitUriOf(path, query);
  }
}
