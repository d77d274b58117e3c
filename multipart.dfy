/**
 * http_ui_get_file: the part of a multipart/form-data body (RFC 7578) whose
 * Content-Disposition names a given field, as a view into the body.
 *
 * The source finds each delimiter and header end with strstr, which stops
 * at the first NUL byte. Find has two readings: CString, the search as
 * written, and Bounded, the search over the whole body view (memmem) that
 * an upload of binary data needs. Everything else is the same in both.
 */
module Multipart {
  import opened Bytes
  import Params
  import Server

  const MULTIPART_FORM_DATA: bytes := "multipart/form-data"
  const BOUNDARY_EQ: bytes := "boundary="
  /** char boundary[64] */
  const BOUNDARY_CAP: nat := 63
  /** char cd_line[256] */
  const CD_CAP: nat := 255
  /** char found_name[64] */
  const NAME_CAP: nat := 63
  /** char filename[64] of http_ui_file_part_t */
  const FILENAME_CAP: nat := 63
  const CONTENT_DISPOSITION: bytes := "Content-Disposition:"
  const NAME_EQ: bytes := "name=\""
  const FILENAME_EQ: bytes := "filename=\""
  const QUOTE: byte := '"'
  const DASHES: bytes := "--"

  /** How a search over the body ends: at the first NUL (strstr) or at the end of the view. */
  datatype Scan = CString | Bounded

  /**
   * http_ui_file_part_t: the data as an offset and a length into the body,
   * and the file name. The content_type field is always left empty.
   */
  datatype FilePart = FilePart(dataStart: nat, length: nat, filename: bytes)

  /** strstr(body + p, pat), or memmem over body[p..] for the bounded reading. */
  function Find(scan: Scan, body: bytes, p: nat, pat: bytes): (r: Option<nat>)
    requires p <= |body|
    ensures r.Some? ==> p <= r.value && OccursAt(body, pat, r.value)
    ensures scan == Bounded ==> r == IndexFrom(body, pat, p)
  {
    match scan
    case Bounded => IndexFrom(body, pat, p)
    case CString =>
      match IndexOf(CStr(body[p..]), pat)
      case None => None
      case Some(k) =>
        OccursInPrefix(body, p, CStr(body[p..]), pat, k);
        Some(p + k)
  }

  lemma OccursInPrefix(body: bytes, p: nat, c: bytes, pat: bytes, k: nat)
    requires p <= |body| && c <= body[p..] && OccursAt(c, pat, k)
    ensures OccursAt(body, pat, p + k)
  {
    assert body[p + k..p + k + |pat|] == c[k..k + |pat|];
  }

  // ---------------------------------------------------------------------
  // The boundary parameter
  // ---------------------------------------------------------------------

  /** Where the boundary copy loop stops: NUL, ';' or white space. */
  predicate Stops(c: byte) {
    c == NUL || c == ';' || IsSpace(c)
  }

  /** The bytes the copy loop takes from s: up to a stop byte, and at most n of them. */
  function Token(s: bytes, n: nat): (r: bytes)
    ensures r <= s && |r| <= n
    ensures forall i :: 0 <= i < |r| ==> !Stops(r[i])
    ensures |r| < n && |r| < |s| ==> Stops(s[|r|])
  {
    if n == 0 || s == [] || Stops(s[0]) then [] else [s[0]] + Token(s[1..], n - 1)
  }

  /** The boundary named by a Content-Type: the token after the first "boundary=", if it is not empty. */
  function BoundaryOf(ct: bytes): (r: Option<bytes>)
    ensures r.Some? ==> 0 < |r.value| <= BOUNDARY_CAP && forall i :: 0 <= i < |r.value| ==> !Stops(r.value[i])
  {
    var c := CStr(ct);
    match IndexOf(c, BOUNDARY_EQ)
    case None => None
    case Some(k) =>
      var t := Token(c[k + |BOUNDARY_EQ|..], BOUNDARY_CAP);
      if t == [] then None else Some(t)
  }

  // ---------------------------------------------------------------------
  // One part's header line
  // ---------------------------------------------------------------------

  /** cd_line: the first header line of the part, cut to 255 bytes, as a C string. */
  function CdLine(body: bytes, b: nat, ce: nat): bytes
    requires b <= ce <= |body|
  {
    CStr(Trunc(body[b..ce], CD_CAP))
  }

  /** The value after the first "name=\"" up to the next quote, cut to 63 bytes. It may be the tail of filename=". */
  function NameIn(cd: bytes): (r: Option<bytes>)
    ensures r.Some? ==> |r.value| <= NAME_CAP
  {
    match IndexOf(cd, NAME_EQ)
    case None => None
    case Some(k) =>
      var rest := cd[k + |NAME_EQ|..];
      match FindByte(rest, QUOTE)
      case None => None
      case Some(e) => Some(Trunc(rest[..e], NAME_CAP))
  }

  /** The value after the first "filename=\"" up to the next quote (empty without one), cut to 63 bytes. */
  function FilenameIn(cd: bytes): (r: bytes)
    ensures |r| <= FILENAME_CAP
    ensures NoNul(cd) ==> NoNul(r)
  {
    match IndexOf(cd, FILENAME_EQ)
    case None => []
    case Some(k) =>
      var rest := cd[k + |FILENAME_EQ|..];
      var n := match FindByte(rest, QUOTE) case None => 0 case Some(e) => e;
      Trunc(rest[..n], FILENAME_CAP)
  }

  /** The part is the one asked for: its line is a Content-Disposition and its name is the field. */
  predicate Wanted(cd: bytes, field: bytes) {
    HasPrefixNoCase(cd, CONTENT_DISPOSITION) && NameIn(cd) == Some(CStr(field))
  }

  // ---------------------------------------------------------------------
  // The data
  // ---------------------------------------------------------------------

  /** The trim loop: back over trailing CR and LF bytes, never before start. */
  function TrimmedEnd(body: bytes, start: nat, end: nat): (e: nat)
    requires start <= end <= |body|
    ensures start <= e <= end
    ensures e > start ==> body[e - 1] != CR && body[e - 1] != LF
    ensures forall i :: e <= i < end ==> body[i] == CR || body[i] == LF
    decreases end
  {
    if end > start && (body[end - 1] == CR || body[end - 1] == LF) then TrimmedEnd(body, start, end - 1) else end
  }

  /** Where the data of a part ends: at the next delimiter, or at the end of the body. */
  function DataEnd(scan: Scan, body: bytes, marker: bytes, ds: nat): (e: nat)
    requires ds <= |body|
    ensures ds <= e <= |body|
  {
    match Find(scan, body, ds, marker)
    case None => |body|
    case Some(n) => n
  }

  /** What a part found by the loop satisfies. */
  predicate GoodPart(scan: Scan, body: bytes, marker: bytes, fp: FilePart) {
    && 4 <= fp.dataStart && fp.dataStart + fp.length <= |body|
    && OccursAt(body, CRLFCRLF, fp.dataStart - 4)
    && |fp.filename| <= FILENAME_CAP && NoNul(fp.filename)
    && (fp.length > 0 ==> body[fp.dataStart + fp.length - 1] != CR && body[fp.dataStart + fp.length - 1] != LF)
    && (scan == Bounded ==> forall j :: fp.dataStart <= j < fp.dataStart + fp.length ==> !OccursAt(body, marker, j))
    && fp.dataStart + fp.length == TrimmedEnd(body, fp.dataStart, DataEnd(scan, body, marker, fp.dataStart))
  }

  // ---------------------------------------------------------------------
  // The part loop
  // ---------------------------------------------------------------------

  /** One pass of the loop from p: it returns, or goes on at the byte after a header block. */
  datatype Step = Done(result: Option<FilePart>) | Next(at: nat)

  /** Where a part starts: the delimiter at or after p, the optional CR LF after it, and the header block's first CR LF and its blank line. */
  datatype Located = Located(b: nat, ce: nat, he: nat)

  function Locate(scan: Scan, body: bytes, marker: bytes, p: nat): (r: Option<Located>)
    requires p <= |body| && |marker| > 0
    ensures r.Some? ==> p < r.value.b <= r.value.ce <= r.value.he && OccursAt(body, CRLFCRLF, r.value.he)
    ensures r.Some? ==> OccursAt(body, CRLF, r.value.ce)
  {
    match Find(scan, body, p, marker)
    case None => None
    case Some(m) =>
      var b0 := m + |marker|;
      if b0 + 2 > |body| then None
      else
        var b := if body[b0] == CR && body[b0 + 1] == LF then b0 + 2 else b0;
        match Find(scan, body, b, CRLFCRLF)
        case None => None
        case Some(he) =>
          match Find(scan, body, b, CRLF)
          case None => None
          case Some(ce) => if ce > he then None else Some(Located(b, ce, he))
  }

  /** The part taken once its header names the field: the data after the blank line, trimmed, up to the next delimiter. */
  function Taken(scan: Scan, body: bytes, marker: bytes, cd: bytes, he: nat): (fp: FilePart)
    requires OccursAt(body, CRLFCRLF, he) && NoNul(cd)
    ensures GoodPart(scan, body, marker, fp)
  {
    var ds := he + 4;
    var de := DataEnd(scan, body, marker, ds);
    FilePart(ds, TrimmedEnd(body, ds, de) - ds, FilenameIn(cd))
  }

  /** fp is the part of the header block at loc: its header line names the field, its data follows the block, its file name is the line's. */
  predicate Picks(body: bytes, field: bytes, loc: Located, fp: FilePart) {
    && loc.b <= loc.ce <= |body|
    && Wanted(CdLine(body, loc.b, loc.ce), field)
    && fp.dataStart == loc.he + 4
    && fp.filename == FilenameIn(CdLine(body, loc.b, loc.ce))
  }

  /** fp is the part of a header block that some pass locates. */
  ghost predicate NamedBy(scan: Scan, body: bytes, marker: bytes, field: bytes, fp: FilePart) {
    |marker| > 0 &&
    exists p: nat :: p < |body| && Locate(scan, body, marker, p).Some? && Picks(body, field, Locate(scan, body, marker, p).value, fp)
  }

  /**
   * A pass from p: no part located ends the loop with nothing; a part whose
   * header line does not name the field is skipped past its header block;
   * otherwise the loop ends with that part.
   */
  function PartStep(scan: Scan, body: bytes, marker: bytes, field: bytes, p: nat): (s: Step)
    requires p < |body| && |marker| > 0
    ensures s.Next? ==> p < s.at <= |body|
    ensures Locate(scan, body, marker, p).None? ==> s == Done(None)
    ensures s.Next? <==> Locate(scan, body, marker, p).Some? && !Wanted(CdLine(body, Locate(scan, body, marker, p).value.b, Locate(scan, body, marker, p).value.ce), field)
    ensures s.Next? ==> s.at == Locate(scan, body, marker, p).value.he + 4
    ensures s.Done? && s.result.Some? ==> GoodPart(scan, body, marker, s.result.value)
    ensures s.Done? && s.result.Some? ==> Locate(scan, body, marker, p).Some? && Picks(body, field, Locate(scan, body, marker, p).value, s.result.value)
  {
    match Locate(scan, body, marker, p)
    case None => Done(None)
    case Some(loc) =>
      var cd := CdLine(body, loc.b, loc.ce);
      if !Wanted(cd, field) then Next(loc.he + 4)
      else
        Done(Some(Taken(scan, body, marker, cd, loc.he)))
  }

  /** The loop from p to the end of the body. */
  function PartsFrom(scan: Scan, body: bytes, marker: bytes, field: bytes, p: nat): (r: Option<FilePart>)
    requires p <= |body| && |marker| > 0
    ensures r.Some? ==> GoodPart(scan, body, marker, r.value)
    ensures r.Some? ==> NamedBy(scan, body, marker, field, r.value)
    decreases |body| - p
  {
    if p == |body| then None
    else match PartStep(scan, body, marker, field, p)
      case Done(r) => r
      case Next(q) => PartsFrom(scan, body, marker, field, q)
  }

  /** The result of http_ui_get_file for a Content-Type (if any), a body and a field name; None is -1. */
  function FileOf(scan: Scan, ct: Option<bytes>, body: bytes, field: bytes): (r: Option<FilePart>)
    ensures r.Some? ==> ct.Some? && HasPrefixNoCase(ct.value, MULTIPART_FORM_DATA) && BoundaryOf(ct.value).Some?
    ensures r.Some? ==> GoodPart(scan, body, DASHES + BoundaryOf(ct.value).value, r.value)
    ensures r.Some? ==> NamedBy(scan, body, DASHES + BoundaryOf(ct.value).value, field, r.value)
  {
    if ct.None? || !HasPrefixNoCase(ct.value, MULTIPART_FORM_DATA) then None
    else match BoundaryOf(ct.value)
      case None => None
      case Some(bnd) => PartsFrom(scan, body, DASHES + bnd, field, 0)
  }

  // ---------------------------------------------------------------------
  // The function as the source runs it
  // ---------------------------------------------------------------------

  /** http_ui_get_file on a request whose headers and body are views of buf. */
  method GetFile(scan: Scan, req: Server.Request, buf: bytes, field: bytes) returns (r: Option<FilePart>)
    requires Params.InBuffer(req, buf)
    ensures r == FileOf(scan, Params.RequestType(req, buf), Params.Body(req, buf), field)
  {
    var ct := Params.RequestType(req, buf);
    if ct.None? || !HasPrefixNoCase(ct.value, MULTIPART_FORM_DATA) {
      return None;
    }
    var c := CStr(ct.value);
    var at := IndexOf(c, BOUNDARY_EQ);
    if at.None? {
      return None;
    }
    var bnd := CopyBoundary(c, at.value + |BOUNDARY_EQ|);
    if bnd == [] {
      return None;
    }
    var marker := DASHES + bnd;
    var body := Params.Body(req, buf);
    var p := 0;
    while p < |body|
      invariant p <= |body|
      invariant PartsFrom(scan, body, marker, field, p) == PartsFrom(scan, body, marker, field, 0)
      decreases |body| - p
    {
      var s := ScanPart(scan, body, marker, field, p);
      match s
      case Done(res) =>
        return res;
      case Next(q) =>
        p := q;
    }
    return None;
  }

  /** The boundary copy loop. */
  method CopyBoundary(c: bytes, from: nat) returns (t: bytes)
    requires from <= |c|
    ensures t == Token(c[from..], BOUNDARY_CAP)
  {
    ghost var token := Token(c[from..], BOUNDARY_CAP);
    var i := from;
    while i < |c| && !Stops(c[i]) && i - from < BOUNDARY_CAP
      invariant from <= i <= |c| && i - from <= |token|
      decreases |c| - i
    {
      assert c[from..][i - from] == c[i];
      i := i + 1;
    }
    assert i < |c| ==> c[from..][i - from] == c[i];
    t := c[from..i];
    assert t == c[from..][..i - from];
  }

  /** One pass of the part loop, with the trim loop. */
  method ScanPart(scan: Scan, body: bytes, marker: bytes, field: bytes, p: nat) returns (s: Step)
    requires p < |body| && |marker| > 0
    ensures s == PartStep(scan, body, marker, field, p)
  {
    var loc := Locate(scan, body, marker, p);
    if loc.None? {
      return Done(None);
    }
    var cd := CdLine(body, loc.value.b, loc.value.ce);
    if !Wanted(cd, field) {
      return Next(loc.value.he + 4);
    }
    var part := TakePart(scan, body, marker, cd, loc.value.he);
    return Done(Some(part));
  }

  /** The data of the part asked for: from the blank line to the next delimiter, trimmed. */
  method TakePart(scan: Scan, body: bytes, marker: bytes, cd: bytes, he: nat) returns (fp: FilePart)
    requires OccursAt(body, CRLFCRLF, he) && NoNul(cd)
    ensures fp == Taken(scan, body, marker, cd, he)
  {
    var ds := he + 4;
    var de := DataEnd(scan, body, marker, ds);
    var e := TrimLoop(body, ds, de);
    fp := FilePart(ds, e - ds, FilenameIn(cd));
  }

  /** while (data_end > data_start && (data_end[-1] == '\r' || data_end[-1] == '\n')) data_end--; */
  method TrimLoop(body: bytes, start: nat, end: nat) returns (e: nat)
    requires start <= end <= |body|
    ensures e == TrimmedEnd(body, start, end)
  {
    e := end;
    while e > start && (body[e - 1] == CR || body[e - 1] == LF)
      invariant start <= e <= end
      invariant TrimmedEnd(body, start, e) == TrimmedEnd(body, start, end)
    {
      e := e - 1;
    }
  }
}

module MultipartProofs {
  import opened Bytes
  import opened Multipart

  /** One part as a client writes it, then the next delimiter and whatever follows. */
  function OnePart(marker: bytes, header: bytes, data: bytes, rest: bytes): bytes {
    marker + CRLF + header + CRLFCRLF + data + CRLF + marker + rest
  }

  /** A header line that survives cd_line whole: no NUL, CR or LF, and at most 255 bytes. */
  predicate LineSafe(h: bytes) {
    NUL !in h && CR !in h && LF !in h && |h| <= CD_CAP
  }

  /** The delimiter of a boundary holds no NUL, CR or LF. */
  lemma MarkerSafe(bnd: bytes)
    requires forall i :: 0 <= i < |bnd| ==> !Stops(bnd[i])
    ensures NUL !in DASHES + bnd && CR !in DASHES + bnd && LF !in DASHES + bnd
  {
    assert NUL !in DASHES && CR !in DASHES && LF !in DASHES;
  }

  /** The first occurrence from p is the one with none before it. */
  lemma IndexFromIs(s: bytes, pat: bytes, p: nat, m: nat)
    requires p <= m && OccursAt(s, pat, m)
    requires forall j :: p <= j < m ==> !OccursAt(s, pat, j)
    ensures IndexFrom(s, pat, p) == Some(m)
  {
    var r := IndexFrom(s, pat, p);
    assert r.Some?;
    assert !(r.value < m);
  }

  /** m is the first occurrence of pat in s at or after p. */
  predicate NextAt(s: bytes, pat: bytes, p: nat, m: nat) {
    p <= m && OccursAt(s, pat, m) && forall j :: p <= j < m ==> !OccursAt(s, pat, j)
  }

  /** A line break cannot start inside a header line that holds no CR. */
  lemma NoBreakIn(body: bytes, b: nat, header: bytes, pat: bytes)
    requires b + |header| <= |body| && body[b..b + |header|] == header && CR !in header
    requires |pat| > 0 && pat[0] == CR
    ensures forall j :: b <= j < b + |header| ==> !OccursAt(body, pat, j)
  {
    forall j | b <= j < b + |header|
      ensures !OccursAt(body, pat, j)
    {
      assert body[j] == header[j - b] by {
        assert body[b..b + |header|][j - b] == body[j];
      }
      if j + |pat| <= |body| {
        assert body[j..j + |pat|][0] == body[j];
      }
    }
  }

  /** At m the body holds a delimiter, a CR LF, a header line and the blank line. */
  predicate Head(body: bytes, marker: bytes, header: bytes, m: nat) {
    var b := m + |marker| + 2;
    && b + |header| + 4 <= |body|
    && body[m..m + |marker|] == marker && body[m + |marker|..b] == CRLF
    && body[b..b + |header|] == header && body[b + |header|..b + |header| + 4] == CRLFCRLF
  }

  /** The data at ds is followed by a CR LF and a delimiter. */
  predicate Tail(body: bytes, marker: bytes, ds: nat, data: bytes) {
    var e := ds + |data|;
    && e + 2 + |marker| <= |body|
    && body[ds..e] == data && body[e..e + 2] == CRLF && body[e + 2..e + 2 + |marker|] == marker
  }

  lemma Layout(marker: bytes, header: bytes, data: bytes, rest: bytes)
    ensures var body := OnePart(marker, header, data, rest);
      Head(body, marker, header, 0) && Tail(body, marker, |marker| + 2 + |header| + 4, data)
  {
  }

  /** The bytes of the head at m: the delimiter, the CR LF after it, and the header line free of breaks up to the blank line. */
  lemma HeadBytes(body: bytes, marker: bytes, header: bytes, m: nat, he: nat)
    requires |marker| > 0 && LineSafe(header) && Head(body, marker, header, m) && he == m + |marker| + 2 + |header|
    ensures OccursAt(body, marker, m)
    ensures body[m + |marker|] == CR && body[m + |marker| + 1] == LF
    ensures NextAt(body, CRLFCRLF, m + |marker| + 2, he) && NextAt(body, CRLF, m + |marker| + 2, he)
  {
    var b := m + |marker| + 2;
    assert body[m + |marker|..b][0] == body[m + |marker|];
    assert body[m + |marker|..b][1] == body[m + |marker| + 1];
    assert body[he..he + 2] == body[he..he + 4][..2];
    NoBreakIn(body, b, header, CRLFCRLF);
    NoBreakIn(body, b, header, CRLF);
  }

  /**
   * A pass from p whose next delimiter is the head at m finds that
   * delimiter, and the header line and block end right after the header.
   */
  lemma LocateHead(body: bytes, marker: bytes, header: bytes, p: nat, m: nat, he: nat)
    requires |marker| > 0 && LineSafe(header) && Head(body, marker, header, m) && he == m + |marker| + 2 + |header|
    requires NextAt(body, marker, p, m)
    ensures Locate(Bounded, body, marker, p) == Some(Located(m + |marker| + 2, he, he))
  {
    HeadBytes(body, marker, header, m, he);
    FindIs(body, marker, p, m);
    FindIs(body, CRLFCRLF, m + |marker| + 2, he);
    FindIs(body, CRLF, m + |marker| + 2, he);
    LocateIs(body, marker, p, m, he);
  }

  /** The bounded search from p finds the first occurrence at or after p. */
  lemma FindIs(body: bytes, pat: bytes, p: nat, m: nat)
    requires NextAt(body, pat, p, m)
    ensures p <= |body| && Find(Bounded, body, p, pat) == Some(m)
  {
    IndexFromIs(body, pat, p, m);
  }

  /** The pass from p in terms of its three searches: the delimiter at m, a CR LF after it, and the header line and block ending at he. */
  lemma LocateIs(body: bytes, marker: bytes, p: nat, m: nat, he: nat)
    requires p <= |body| && |marker| > 0
    requires Find(Bounded, body, p, marker) == Some(m)
    requires m + |marker| + 2 <= |body| && body[m + |marker|] == CR && body[m + |marker| + 1] == LF
    requires Find(Bounded, body, m + |marker| + 2, CRLFCRLF) == Some(he) && Find(Bounded, body, m + |marker| + 2, CRLF) == Some(he)
    ensures Locate(Bounded, body, marker, p) == Some(Located(m + |marker| + 2, he, he))
  {
  }

  /** The delimiter does not start inside data free of it. */
  lemma NotInData(body: bytes, marker: bytes, ds: nat, data: bytes, j: nat)
    requires ds + |data| <= |body| && body[ds..ds + |data|] == data && IndexOf(data, marker).None?
    requires ds <= j && j + |marker| <= ds + |data|
    ensures !OccursAt(body, marker, j)
  {
    var w, v := body[j..j + |marker|], data[j - ds..j - ds + |marker|];
    forall i | 0 <= i < |w|
      ensures w[i] == v[i]
    {
      assert body[ds..ds + |data|][j - ds + i] == body[j + i];
    }
    assert w == v;
    assert !OccursAt(data, marker, j - ds);
  }

  /** The delimiter, free of CR and LF, does not run over the CR LF at e. */
  lemma NotAcrossBreak(body: bytes, marker: bytes, e: nat, j: nat)
    requires e + 2 <= |body| && body[e..e + 2] == CRLF && |marker| > 0 && CR !in marker && LF !in marker
    requires j <= e + 1 && e < j + |marker|
    ensures !OccursAt(body, marker, j)
  {
    var k := if j <= e then e else e + 1;
    assert body[k] == CR || body[k] == LF by {
      assert body[e..e + 2][k - e] == body[k];
    }
    if j + |marker| <= |body| {
      assert body[j..j + |marker|][k - j] == body[k];
      assert marker[k - j] in marker;
    }
  }

  /** The next delimiter after data free of it is the one behind the data's CR LF. */
  lemma NextDelimiter(body: bytes, marker: bytes, ds: nat, data: bytes)
    requires |marker| > 0 && CR !in marker && LF !in marker
    requires IndexOf(data, marker).None? && Tail(body, marker, ds, data)
    ensures NextAt(body, marker, ds, ds + |data| + 2)
  {
    var e := ds + |data|;
    forall j | ds <= j < e + 2
      ensures !OccursAt(body, marker, j)
    {
      if j + |marker| <= e {
        NotInData(body, marker, ds, data, j);
      } else {
        NotAcrossBreak(body, marker, e, j);
      }
    }
    assert OccursAt(body, marker, e + 2);
  }

  /** Trimming from the delimiter takes back exactly the CR LF written after the data. */
  lemma TrimToData(body: bytes, marker: bytes, ds: nat, data: bytes)
    requires Tail(body, marker, ds, data)
    requires data == [] || (data[|data| - 1] != CR && data[|data| - 1] != LF)
    ensures TrimmedEnd(body, ds, ds + |data| + 2) == ds + |data|
  {
    var e := ds + |data|;
    assert body[e + 1] == LF && body[e] == CR by {
      assert body[e..e + 2][0] == body[e] && body[e..e + 2][1] == body[e + 1];
    }
    if data != [] {
      assert body[e - 1] == data[|data| - 1] by {
        assert body[ds..e][|data| - 1] == body[e - 1];
      }
    }
  }

  /** The part taken after a header block ending at he, when the next delimiter is n bytes and a CR LF after the blank line. */
  lemma TakenIs(body: bytes, marker: bytes, cd: bytes, he: nat, n: nat)
    requires OccursAt(body, CRLFCRLF, he) && NoNul(cd)
    requires TrimmedEnd(body, he + 4, DataEnd(Bounded, body, marker, he + 4)) == he + 4 + n
    ensures Taken(Bounded, body, marker, cd, he) == FilePart(he + 4, n, FilenameIn(cd))
  {
  }

  /** A pass that locates a part whose header names the field ends with that part. */
  lemma StepTakes(scan: Scan, body: bytes, marker: bytes, field: bytes, p: nat, loc: Located)
    requires p < |body| && |marker| > 0
    requires Locate(scan, body, marker, p) == Some(loc)
    requires Wanted(CdLine(body, loc.b, loc.ce), field)
    ensures PartStep(scan, body, marker, field, p) == Done(Some(Taken(scan, body, marker, CdLine(body, loc.b, loc.ce), loc.he)))
  {
  }

  /** A pass that ends the loop gives the loop's answer. */
  lemma LoopDone(scan: Scan, body: bytes, marker: bytes, field: bytes, p: nat, r: Option<FilePart>)
    requires p < |body| && |marker| > 0
    requires PartStep(scan, body, marker, field, p) == Done(r)
    ensures PartsFrom(scan, body, marker, field, p) == r
  {
  }

  /** The pass from p locates the head loc, whose header line reads cd and whose data, trimmed, is n bytes long. */
  predicate PartIs(body: bytes, marker: bytes, p: nat, loc: Located, cd: bytes, n: nat) {
    && p < |body| && |marker| > 0
    && Locate(Bounded, body, marker, p) == Some(loc)
    && CdLine(body, loc.b, loc.ce) == cd
    && TrimmedEnd(body, loc.he + 4, DataEnd(Bounded, body, marker, loc.he + 4)) == loc.he + 4 + n
  }

  /** The part taken on a pass from p, when the next delimiter lies n bytes and a CR LF after the header block. */
  lemma FirstTaken(body: bytes, marker: bytes, p: nat, loc: Located, cd: bytes, n: nat)
    requires PartIs(body, marker, p, loc, cd, n)
    ensures OccursAt(body, CRLFCRLF, loc.he) && NoNul(cd)
    ensures Taken(Bounded, body, marker, cd, loc.he) == FilePart(loc.he + 4, n, FilenameIn(cd))
  {
    TakenIs(body, marker, cd, loc.he, n);
  }

  /** The loop from p ends with the part its pass from p takes. */
  lemma FirstPartTaken(body: bytes, marker: bytes, field: bytes, p: nat, loc: Located, cd: bytes, n: nat)
    requires PartIs(body, marker, p, loc, cd, n) && Wanted(cd, field)
    ensures PartsFrom(Bounded, body, marker, field, p) == Some(FilePart(loc.he + 4, n, FilenameIn(cd)))
  {
    StepTakes(Bounded, body, marker, field, p, loc);
    FirstTaken(body, marker, p, loc, cd, n);
    LoopDone(Bounded, body, marker, field, p, Some(FilePart(loc.he + 4, n, FilenameIn(cd))));
  }

  /** cd_line reads back a safe header line whole. */
  lemma HeaderLine(body: bytes, marker: bytes, header: bytes, m: nat, he: nat)
    requires LineSafe(header) && Head(body, marker, header, m) && he == m + |marker| + 2 + |header|
    ensures CdLine(body, m + |marker| + 2, he) == header
  {
    assert body[m + |marker| + 2..he] == header;
    CStrOfNoNul(header);
  }

  /** A pass from p over the head at m finds its header block and reads its header line back. */
  lemma OnePartHead(body: bytes, marker: bytes, header: bytes, p: nat, m: nat, he: nat)
    requires |marker| > 0 && LineSafe(header) && Head(body, marker, header, m) && he == m + |marker| + 2 + |header|
    requires NextAt(body, marker, p, m)
    ensures Locate(Bounded, body, marker, p) == Some(Located(m + |marker| + 2, he, he))
    ensures CdLine(body, m + |marker| + 2, he) == header
  {
    HeaderLine(body, marker, header, m, he);
    LocateHead(body, marker, header, p, m, he);
  }

  /** The data of one part runs to the CR LF before the next delimiter. */
  lemma OnePartData(body: bytes, marker: bytes, data: bytes, he: nat)
    requires |marker| > 0 && CR !in marker && LF !in marker
    requires Tail(body, marker, he + 4, data) && IndexOf(data, marker).None?
    requires data == [] || (data[|data| - 1] != CR && data[|data| - 1] != LF)
    ensures he + 4 <= |body| && TrimmedEnd(body, he + 4, DataEnd(Bounded, body, marker, he + 4)) == he + 4 + |data|
  {
    NextDelimiter(body, marker, he + 4, data);
    IndexFromIs(body, marker, he + 4, he + 4 + |data| + 2);
    TrimToData(body, marker, he + 4, data);
  }

  /** The part loop over a body that starts with one part naming the field, followed by a delimiter. */
  lemma OnePartFound(body: bytes, marker: bytes, header: bytes, data: bytes, field: bytes, he: nat)
    requires |marker| > 0 && CR !in marker && LF !in marker
    requires LineSafe(header) && Wanted(header, field) && he == |marker| + 2 + |header|
    requires Head(body, marker, header, 0) && Tail(body, marker, he + 4, data)
    requires IndexOf(data, marker).None?
    requires data == [] || (data[|data| - 1] != CR && data[|data| - 1] != LF)
    ensures PartsFrom(Bounded, body, marker, field, 0) == Some(FilePart(he + 4, |data|, FilenameIn(header)))
  {
    FirstHead(body, marker, header, he);
    OnePartData(body, marker, data, he);
    FirstPartTaken(body, marker, field, 0, Located(|marker| + 2, he, he), header, |data|);
  }

  /** The first pass over a body that starts with a head finds that head. */
  lemma FirstHead(body: bytes, marker: bytes, header: bytes, he: nat)
    requires |marker| > 0 && LineSafe(header) && Head(body, marker, header, 0) && he == |marker| + 2 + |header|
    ensures Locate(Bounded, body, marker, 0) == Some(Located(|marker| + 2, he, he))
    ensures CdLine(body, |marker| + 2, he) == header
  {
    HeadBytes(body, marker, header, 0, he);
    OnePartHead(body, marker, header, 0, 0, he);
  }

  /** The loop skips a part whose header line does not name the field and goes on past its header block. */
  lemma SkipsUnwanted(scan: Scan, body: bytes, marker: bytes, field: bytes, p: nat, loc: Located)
    requires p < |body| && |marker| > 0
    requires Locate(scan, body, marker, p) == Some(loc)
    requires !Wanted(CdLine(body, loc.b, loc.ce), field)
    ensures PartStep(scan, body, marker, field, p) == Next(loc.he + 4)
  {
  }

  /** A pass that goes on hands the loop on to where it goes on. */
  lemma LoopNext(scan: Scan, body: bytes, marker: bytes, field: bytes, p: nat, q: nat)
    requires p < |body| && |marker| > 0
    requires PartStep(scan, body, marker, field, p) == Next(q)
    ensures q <= |body|
    ensures PartsFrom(scan, body, marker, field, p) == PartsFrom(scan, body, marker, field, q)
  {
  }

  /** The first of two parts does not name the field: the first pass goes on past its header block, where the next delimiter is the one after its data. */
  lemma FirstSkipped(body: bytes, marker: bytes, h1: bytes, d1: bytes, field: bytes, he1: nat)
    requires |marker| > 0 && CR !in marker && LF !in marker
    requires LineSafe(h1) && !Wanted(h1, field) && he1 == |marker| + 2 + |h1|
    requires Head(body, marker, h1, 0) && Tail(body, marker, he1 + 4, d1) && IndexOf(d1, marker).None?
    ensures 0 < |body| && PartStep(Bounded, body, marker, field, 0) == Next(he1 + 4)
    ensures NextAt(body, marker, he1 + 4, he1 + 4 + |d1| + 2)
  {
    FirstHead(body, marker, h1, he1);
    SkipsUnwanted(Bounded, body, marker, field, 0, Located(|marker| + 2, he1, he1));
    NextDelimiter(body, marker, he1 + 4, d1);
  }

  /** A pass from p whose next delimiter starts a part naming the field ends with that part's data. */
  lemma NextPartFound(body: bytes, marker: bytes, header: bytes, data: bytes, field: bytes, p: nat, m: nat, he: nat)
    requires |marker| > 0 && CR !in marker && LF !in marker
    requires LineSafe(header) && Wanted(header, field) && he == m + |marker| + 2 + |header|
    requires NextAt(body, marker, p, m)
    requires Head(body, marker, header, m) && Tail(body, marker, he + 4, data)
    requires IndexOf(data, marker).None?
    requires data == [] || (data[|data| - 1] != CR && data[|data| - 1] != LF)
    ensures p < |body| && PartsFrom(Bounded, body, marker, field, p) == Some(FilePart(he + 4, |data|, FilenameIn(header)))
  {
    PartAt(body, marker, header, data, p, m, he);
    FirstPartTaken(body, marker, field, p, Located(m + |marker| + 2, he, he), header, |data|);
  }

  /** What a pass from p finds in a part at m whose data is followed by a CR LF and the next delimiter. */
  lemma PartAt(body: bytes, marker: bytes, header: bytes, data: bytes, p: nat, m: nat, he: nat)
    requires |marker| > 0 && CR !in marker && LF !in marker
    requires LineSafe(header) && he == m + |marker| + 2 + |header|
    requires NextAt(body, marker, p, m)
    requires Head(body, marker, header, m) && Tail(body, marker, he + 4, data)
    requires IndexOf(data, marker).None?
    requires data == [] || (data[|data| - 1] != CR && data[|data| - 1] != LF)
    ensures PartIs(body, marker, p, Located(m + |marker| + 2, he, he), header, |data|)
  {
    OnePartHead(body, marker, header, p, m, he);
    OnePartData(body, marker, data, he);
  }

  /**
   * The loop over a part that does not name the field, then one that does:
   * the first is skipped and the second's data comes back, with its file name.
   */
  lemma TwoPartsFound(body: bytes, marker: bytes, h1: bytes, d1: bytes, h2: bytes, d2: bytes, field: bytes, he1: nat, m2: nat, he2: nat)
    requires |marker| > 0 && CR !in marker && LF !in marker
    requires LineSafe(h1) && !Wanted(h1, field) && he1 == |marker| + 2 + |h1|
    requires Head(body, marker, h1, 0) && Tail(body, marker, he1 + 4, d1) && IndexOf(d1, marker).None?
    requires m2 == he1 + 4 + |d1| + 2
    requires LineSafe(h2) && Wanted(h2, field) && he2 == m2 + |marker| + 2 + |h2|
    requires Head(body, marker, h2, m2) && Tail(body, marker, he2 + 4, d2) && IndexOf(d2, marker).None?
    requires d2 == [] || (d2[|d2| - 1] != CR && d2[|d2| - 1] != LF)
    ensures 0 < |body| && PartsFrom(Bounded, body, marker, field, 0) == Some(FilePart(he2 + 4, |d2|, FilenameIn(h2)))
  {
    FirstSkipped(body, marker, h1, d1, field, he1);
    var q := he1 + 4;
    NextPartFound(body, marker, h2, d2, field, q, m2, he2);
    LoopNext(Bounded, body, marker, field, 0, q);
  }

  lemma FileOfBoundary(ct: bytes, bnd: bytes, body: bytes, field: bytes)
    requires HasPrefixNoCase(ct, MULTIPART_FORM_DATA) && BoundaryOf(ct) == Some(bnd) && |body| > 0
    ensures FileOf(Bounded, Some(ct), body, field) == PartsFrom(Bounded, body, DASHES + bnd, field, 0)
  {
  }

  /**
   * A client's upload comes back: for a multipart/form-data request whose
   * body holds one part with a Content-Disposition line naming the field,
   * then a blank line, the data, a CR LF and the next delimiter, the part
   * found is exactly the data, with the header's file name.
   */
  lemma OnePartRoundTrip(ct: bytes, bnd: bytes, header: bytes, data: bytes, field: bytes, body: bytes)
    requires HasPrefixNoCase(ct, MULTIPART_FORM_DATA) && BoundaryOf(ct) == Some(bnd)
    requires LineSafe(header) && Wanted(header, field)
    requires Head(body, DASHES + bnd, header, 0) && Tail(body, DASHES + bnd, |DASHES + bnd| + 2 + |header| + 4, data)
    requires IndexOf(data, DASHES + bnd).None?
    requires data == [] || (data[|data| - 1] != CR && data[|data| - 1] != LF)
    ensures var ds := |DASHES + bnd| + 2 + |header| + 4;
      && FileOf(Bounded, Some(ct), body, field) == Some(FilePart(ds, |data|, FilenameIn(header)))
      && body[ds..ds + |data|] == data
  {
    MarkerSafe(bnd);
    OnePartFound(body, DASHES + bnd, header, data, field, |DASHES + bnd| + 2 + |header|);
    FileOfBoundary(ct, bnd, body, field);
  }

  /**
   * An upload written as a part that does not name the field, then the part
   * that does: the second part's data comes back, with its file name.
   */
  lemma TwoPartRoundTrip(ct: bytes, bnd: bytes, h1: bytes, d1: bytes, h2: bytes, d2: bytes, field: bytes, body: bytes, he1: nat, m2: nat, he2: nat)
    requires HasPrefixNoCase(ct, MULTIPART_FORM_DATA) && BoundaryOf(ct) == Some(bnd)
    requires LineSafe(h1) && !Wanted(h1, field) && LineSafe(h2) && Wanted(h2, field)
    requires he1 == |DASHES + bnd| + 2 + |h1| && m2 == he1 + 4 + |d1| + 2 && he2 == m2 + |DASHES + bnd| + 2 + |h2|
    requires Head(body, DASHES + bnd, h1, 0) && Tail(body, DASHES + bnd, he1 + 4, d1)
    requires Head(body, DASHES + bnd, h2, m2) && Tail(body, DASHES + bnd, he2 + 4, d2)
    requires IndexOf(d1, DASHES + bnd).None? && IndexOf(d2, DASHES + bnd).None?
    requires d2 == [] || (d2[|d2| - 1] != CR && d2[|d2| - 1] != LF)
    ensures FileOf(Bounded, Some(ct), body, field) == Some(FilePart(he2 + 4, |d2|, FilenameIn(h2)))
    ensures body[he2 + 4..he2 + 4 + |d2|] == d2
  {
    MarkerSafe(bnd);
    TwoPartsFound(body, DASHES + bnd, h1, d1, h2, d2, field, he1, m2, he2);
    FileOfBoundary(ct, bnd, body, field);
  }

  // ---------------------------------------------------------------------
  // The search as written: a NUL in the data hides the next delimiter
  // ---------------------------------------------------------------------

  /** strstr sees body from p up to the NUL at q. */
  lemma CStrAt(body: bytes, p: nat, q: nat)
    requires p <= q < |body| && body[q] == NUL && NoNul(body[p..q])
    ensures CStr(body[p..]) == body[p..q]
  {
    assert body[p..] == body[p..q] + [NUL] + body[q + 1..];
    CStrStopsAtNul(body[p..q], body[q + 1..]);
  }

  /** strstr from p finds the first occurrence if it ends before the first NUL. */
  lemma FindBeforeNul(body: bytes, pat: bytes, p: nat, q: nat, m: nat)
    requires p <= q < |body| && body[q] == NUL && NoNul(body[p..q])
    requires NextAt(body, pat, p, m) && m + |pat| <= q
    ensures Find(CString, body, p, pat) == Some(m)
  {
    CStrAt(body, p, q);
    FirstBefore(body, pat, p, q, m);
  }

  /** The first occurrence from p, ending before q, is the first in body[p..q]. */
  lemma FirstBefore(body: bytes, pat: bytes, p: nat, q: nat, m: nat)
    requires p <= q <= |body|
    requires NextAt(body, pat, p, m) && m + |pat| <= q
    ensures IndexOf(body[p..q], pat) == Some(m - p)
  {
    var c := body[p..q];
    Window(body, p, q, m - p, |pat|);
    forall j | 0 <= j < m - p
      ensures !OccursAt(c, pat, j)
    {
      assert !OccursAt(body, pat, p + j);
      if j + |pat| <= |c| {
        Window(body, p, q, j, |pat|);
      }
    }
    IndexOfIsFirst(c, pat, m - p);
  }

  /** A window of body[p..q] is the window of body shifted by p. */
  lemma Window(body: bytes, p: nat, q: nat, i: nat, n: nat)
    requires p + i + n <= q <= |body|
    ensures body[p..q][i..i + n] == body[p + i..p + i + n]
  {
    var w, v := body[p..q][i..i + n], body[p + i..p + i + n];
    forall k | 0 <= k < n
      ensures w[k] == v[k]
    {
    }
    assert w == v;
  }

  /** The head of one part holds no NUL. */
  lemma HeadNoNul(body: bytes, marker: bytes, header: bytes, he: nat)
    requires NUL !in marker && LineSafe(header) && Head(body, marker, header, 0) && he == |marker| + 2 + |header|
    ensures NoNul(body[..he + 4])
  {
    var b := |marker| + 2;
    var pre := body[..he + 4];
    forall i | 0 <= i < |pre|
      ensures pre[i] != NUL
    {
      if i < |marker| {
        assert body[0..|marker|][i] == body[i];
      } else if i < b {
        assert body[|marker|..b][i - |marker|] == body[i];
      } else if i < he {
        assert body[b..he][i - b] == body[i];
      } else {
        assert body[he..he + 4][i - he] == body[i];
      }
    }
  }

  /** Before the data, strstr finds what the bounded search finds: the head lies before the first NUL. */
  lemma LocateHeadAsWritten(body: bytes, marker: bytes, header: bytes, he: nat)
    requires |marker| > 0 && NUL !in marker && LineSafe(header) && Head(body, marker, header, 0) && he == |marker| + 2 + |header|
    requires he + 4 < |body| && body[he + 4] == NUL
    ensures Locate(CString, body, marker, 0) == Some(Located(|marker| + 2, he, he))
  {
    HeadBytes(body, marker, header, 0, he);
    HeadNoNul(body, marker, header, he);
    var q := he + 4;
    assert body[0..q] == body[..q];
    FindBeforeNul(body, marker, 0, q, 0);
    assert body[|marker| + 2..q] == body[..q][|marker| + 2..];
    FindBeforeNul(body, CRLFCRLF, |marker| + 2, q, he);
    FindBeforeNul(body, CRLF, |marker| + 2, q, he);
  }

  /** With a NUL first in the data, strstr finds no next delimiter: the data runs to the end of the body. */
  lemma DataEndAsWritten(body: bytes, marker: bytes, ds: nat)
    requires ds < |body| && body[ds] == NUL && |marker| > 0
    ensures DataEnd(CString, body, marker, ds) == |body|
  {
    CStrAt(body, ds, ds);
    assert CStr(body[ds..]) == [];
    assert !OccursAt([], marker, 0);
  }

  /** As written, the loop takes the part of the first header block, when the data after it begins with a NUL. */
  lemma NulPartFound(body: bytes, marker: bytes, header: bytes, field: bytes, he: nat)
    requires |marker| > 0 && NUL !in marker && LineSafe(header) && Wanted(header, field)
    requires Head(body, marker, header, 0) && he == |marker| + 2 + |header|
    requires he + 4 < |body| && body[he + 4] == NUL
    requires OccursAt(body, CRLFCRLF, he) && NoNul(header)
    ensures PartsFrom(CString, body, marker, field, 0) == Some(Taken(CString, body, marker, header, he))
  {
    LocateHeadAsWritten(body, marker, header, he);
    HeaderLine(body, marker, header, 0, he);
    StepTakes(CString, body, marker, field, 0, Located(|marker| + 2, he, he));
    LoopDone(CString, body, marker, field, 0, Some(Taken(CString, body, marker, header, he)));
  }

  /** The part taken as written runs from the blank line to the end of the body. */
  lemma TakenAsWritten(body: bytes, marker: bytes, header: bytes, he: nat, ds: nat)
    requires OccursAt(body, CRLFCRLF, he) && NoNul(header) && |marker| > 0
    requires ds == he + 4 && ds < |body| && body[ds] == NUL
    requires body[|body| - 1] != CR && body[|body| - 1] != LF
    ensures Taken(CString, body, marker, header, he) == FilePart(ds, |body| - ds, FilenameIn(header))
  {
    DataEndAsWritten(body, marker, ds);
  }

  /** As written, the loop over one part whose data begins with a NUL runs the part to the end of the body. */
  lemma NulPart(body: bytes, marker: bytes, header: bytes, field: bytes, he: nat, ds: nat)
    requires |marker| > 0 && NUL !in marker && LineSafe(header) && Wanted(header, field)
    requires Head(body, marker, header, 0) && he == |marker| + 2 + |header| && ds == he + 4
    requires ds < |body| && body[ds] == NUL
    requires body[|body| - 1] != CR && body[|body| - 1] != LF
    ensures PartsFrom(CString, body, marker, field, 0) == Some(FilePart(ds, |body| - ds, FilenameIn(header)))
  {
    HeadMarks(body, marker, header, he);
    TakenAsWritten(body, marker, header, he, ds);
    NulPartFound(body, marker, header, field, he);
  }

  /** The header block ends in the blank line, and the header line holds no NUL. */
  lemma HeadMarks(body: bytes, marker: bytes, header: bytes, he: nat)
    requires LineSafe(header) && Head(body, marker, header, 0) && he == |marker| + 2 + |header|
    ensures OccursAt(body, CRLFCRLF, he) && NoNul(header)
  {
  }

  /** The first byte of the data sits at ds. */
  lemma DataFirst(body: bytes, marker: bytes, ds: nat, data: bytes)
    requires Tail(body, marker, ds, data) && data != []
    ensures ds < |body| && body[ds] == data[0]
    ensures ds + |data| + 2 + |marker| <= |body|
  {
    assert body[ds..ds + |data|][0] == body[ds];
  }

  /**
   * As written, the upload of data that begins with a NUL byte comes back
   * with the CR LF, the next delimiter and everything after it: strstr stops
   * at the NUL and never sees the delimiter. The bounded search returns the
   * data alone (OnePartRoundTrip).
   */
  lemma NulDataKeepsDelimiter(ct: bytes, bnd: bytes, header: bytes, data: bytes, field: bytes, body: bytes, ds: nat)
    requires HasPrefixNoCase(ct, MULTIPART_FORM_DATA) && BoundaryOf(ct) == Some(bnd)
    requires LineSafe(header) && Wanted(header, field)
    requires ds == |DASHES + bnd| + 2 + |header| + 4
    requires Head(body, DASHES + bnd, header, 0) && Tail(body, DASHES + bnd, ds, data)
    requires data != [] && data[0] == NUL
    requires body[|body| - 1] != CR && body[|body| - 1] != LF
    ensures FileOf(CString, Some(ct), body, field) == Some(FilePart(ds, |body| - ds, FilenameIn(header)))
    ensures |body| - ds >= |data| + 2 + |DASHES + bnd|
  {
    MarkerSafe(bnd);
    DataFirst(body, DASHES + bnd, ds, data);
    NulPart(body, DASHES + bnd, header, field, ds - 4, ds);
    FileOfCString(ct, bnd, body, field);
  }

  lemma FileOfCString(ct: bytes, bnd: bytes, body: bytes, field: bytes)
    requires HasPrefixNoCase(ct, MULTIPART_FORM_DATA) && BoundaryOf(ct) == Some(bnd) && |body| > 0
    ensures FileOf(CString, Some(ct), body, field) == PartsFrom(CString, body, DASHES + bnd, field, 0)
  {
  }
}
