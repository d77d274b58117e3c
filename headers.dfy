/**
 * The header block of an HTTP/1.1 message (section 2.1 of RFC 9112): the
 * search for the CR LF CR LF that ends it, and the line-by-line field scan
 * that http_parse_content_length and http_ui_get_content_type share. Field
 * names match ignoring ASCII case (section 5.1 of RFC 9110).
 *
 * Every scan works on a buffer `buf` with a view [start, end) into it. The
 * line search is strstr, so it reads the C string that starts at the current
 * position and may look past `end`; what it finds there is part of the model.
 */
module Headers {
  import opened Bytes

  const CONTENT_LENGTH: bytes := "Content-Length:"
  const CONTENT_TYPE: bytes := "Content-Type:"

  // ---------------------------------------------------------------------
  // End of the header block
  // ---------------------------------------------------------------------

  /** The index just past the first CR LF CR LF of s, or -1 when s has none. */
  function TerminatorEnd(s: bytes): (r: int)
    ensures r == -1 <==> forall j :: 0 <= j ==> !OccursAt(s, CRLFCRLF, j)
    ensures r != -1 ==> 4 <= r <= |s| && s[r - 4..r] == CRLFCRLF
    ensures r != -1 ==> forall j :: 0 <= j < r - 4 ==> !OccursAt(s, CRLFCRLF, j)
  {
    match IndexOf(s, CRLFCRLF)
    case None => -1
    case Some(i) => i + 4
  }

  /**
   * http_find_headers_end: compares four bytes at every i <= len - 4. The
   * result depends on buf[..len] alone, so no byte at or past len is read.
   */
  method FindHeadersEnd(buf: array<byte>, len: nat) returns (r: int)
    requires len <= buf.Length
    ensures r == TerminatorEnd(buf[..len])
  {
    if len < 4 {
      assert forall j :: 0 <= j ==> !OccursAt(buf[..len], CRLFCRLF, j);
      return -1;
    }
    ghost var s := buf[..len];
    var i := 0;
    while i <= len - 4
      invariant i <= len - 3
      invariant forall j :: 0 <= j < i ==> !OccursAt(s, CRLFCRLF, j)
    {
      if buf[i] == CR && buf[i + 1] == LF && buf[i + 2] == CR && buf[i + 3] == LF {
        OccursAtQuad(s, i);
        IndexOfIsFirst(s, CRLFCRLF, i);
        return i + 4;
      }
      OccursAtQuad(s, i);
      i := i + 1;
    }
    return -1;
  }

  lemma OccursAtQuad(s: bytes, i: nat)
    requires i + 4 <= |s|
    ensures OccursAt(s, CRLFCRLF, i) <==> s[i] == CR && s[i + 1] == LF && s[i + 2] == CR && s[i + 3] == LF
  {
    var w := s[i..i + 4];
    assert w[0] == s[i] && w[1] == s[i + 1] && w[2] == s[i + 2] && w[3] == s[i + 3];
  }

  lemma OccursAtPair(s: bytes, i: nat)
    requires i + 2 <= |s|
    ensures OccursAt(s, CRLF, i) <==> s[i] == CR && s[i + 1] == LF
  {
    var w := s[i..i + 2];
    assert w[0] == s[i] && w[1] == s[i + 1];
  }

  // ---------------------------------------------------------------------
  // Header blocks as a client writes them
  // ---------------------------------------------------------------------

  /** A header line: no CR, no LF, no NUL. */
  predicate PlainLine(l: bytes) {
    forall i :: 0 <= i < |l| ==> l[i] != CR && l[i] != LF && l[i] != NUL
  }

  predicate PlainLines(ls: seq<bytes>) {
    ls == [] || (PlainLine(ls[0]) && PlainLines(ls[1..]))
  }

  /** Each line followed by CR LF. */
  function Lines(ls: seq<bytes>): bytes {
    if ls == [] then [] else ls[0] + CRLF + Lines(ls[1..])
  }

  lemma NoNulLines(ls: seq<bytes>)
    requires PlainLines(ls)
    ensures NoNul(Lines(ls))
  {
    if ls != [] {
      NoNulLines(ls[1..]);
      var a, b := ls[0] + CRLF, Lines(ls[1..]);
      assert Lines(ls) == a + b;
      forall i | 0 <= i < |a + b|
        ensures (a + b)[i] != NUL
      {
        if i >= |a| {
          assert (a + b)[i] == b[i - |a|];
        } else if i < |ls[0]| {
          assert (a + b)[i] == ls[0][i];
        }
      }
    }
  }

  /** No CR LF CR LF starts inside a plain line or its own CR LF when a non-CR byte follows. */
  lemma NoTerminatorWithin(l: bytes, t: bytes)
    requires PlainLine(l)
    requires |t| > 0 && t[0] != CR
    ensures forall j :: 0 <= j < |l| + 2 ==> !OccursAt(l + CRLF + t, CRLFCRLF, j)
  {
    var s := l + CRLF + t;
    forall j | 0 <= j < |l| + 2
      ensures !OccursAt(s, CRLFCRLF, j)
    {
      if j + 4 <= |s| {
        OccursAtQuad(s, j);
        if j < |l| {
          assert s[j] == l[j];
        } else if j == |l| {
          assert s[j + 2] == t[0];
        } else {
          assert s[j] == LF;
        }
      }
    }
  }

  /**
   * A message head of non-empty plain lines, then the empty line, then
   * anything: the terminator search stops exactly at the end of the head.
   */
  lemma {:induction false} TerminatorOfHead(ls: seq<bytes>, rest: bytes)
    requires |ls| > 0 && PlainLines(ls)
    requires forall i :: 0 <= i < |ls| ==> |ls[i]| > 0
    ensures TerminatorEnd(Lines(ls) + (CRLF + rest)) == |Lines(ls)| + 2
  {
    var l := ls[0];
    var a := l + CRLF;
    var b := Lines(ls[1..]);
    var t := CRLF + rest;
    assert Lines(ls) == a + b;
    assert Lines(ls) + t == a + (b + t);
    if |ls| == 1 {
      assert b == [] && b + t == t;
      var s := a + t;
      assert OccursAt(s, CRLFCRLF, |l|) by {
        OccursAtQuad(s, |l|);
      }
      forall j | 0 <= j < |l|
        ensures !OccursAt(s, CRLFCRLF, j)
      {
        OccursAtQuad(s, j);
        assert s[j] == l[j];
      }
      IndexOfIsFirst(s, CRLFCRLF, |l|);
    } else {
      TerminatorOfHead(ls[1..], rest);
      assert b == ls[1] + CRLF + Lines(ls[2..]);
      assert (b + t)[0] == ls[1][0];
      NoTerminatorWithin(l, b + t);
      IndexOfAfter(a, b + t, CRLFCRLF);
    }
  }

  // ---------------------------------------------------------------------
  // The field scan
  // ---------------------------------------------------------------------

  /**
   * strstr(buf + p, "\r\n"): the first CR LF of the C string at p (which ends
   * at the first NUL, or at the end of buf), as an index into buf.
   */
  function LineEnd(buf: bytes, p: nat): (r: Option<nat>)
    requires p <= |buf|
    ensures r.Some? ==> p <= r.value && r.value + 2 <= |buf| && buf[r.value] == CR && buf[r.value + 1] == LF
    decreases |buf| - p
  {
    if p == |buf| || buf[p] == NUL then None
    else if buf[p] == CR && p + 1 < |buf| && buf[p + 1] == LF then Some(p)
    else LineEnd(buf, p + 1)
  }

  /**
   * Where the scan of a header view [p, end) stops: the line end strstr finds,
   * or `end` when it finds none. With `clamp` (the Content-Length scan) a line
   * end found past `end` is also pulled back to `end`.
   */
  function ScanEnd(buf: bytes, p: nat, end: nat, clamp: bool): (le: nat)
    requires p < end <= |buf|
    ensures p <= le <= |buf|
    ensures clamp ==> le <= end
  {
    match LineEnd(buf, p)
    case None => end
    case Some(e) => if clamp && e > end then end else e
  }

  /**
   * The line the scan loop stops at: the first line of the view, in order,
   * that is at least as long as `name` and begins with it ignoring case. A
   * result is the line's start and end. None when the view runs out first.
   */
  function FindField(buf: bytes, p: nat, end: nat, name: bytes, clamp: bool): (r: Option<(nat, nat)>)
    requires p <= |buf| && end <= |buf|
    ensures r.Some? ==> p <= r.value.0 < end && r.value.0 + |name| <= r.value.1 <= |buf|
    ensures r.Some? && clamp ==> r.value.1 <= end
    decreases |buf| - p
  {
    if p >= end then None
    else
      var le := ScanEnd(buf, p, end, clamp);
      if le - p >= |name| && HasPrefixNoCaseAt(buf, p, name) then Some((p, le))
      else if le >= end then None
      else FindField(buf, le + 2, end, name, clamp)
  }

  /** Index of the first line that begins with name, ignoring case. */
  function FirstMatch(ls: seq<bytes>, name: bytes): (r: Option<nat>)
    ensures r.Some? ==> r.value < |ls| && HasPrefixNoCase(ls[r.value], name)
  {
    if ls == [] then None
    else if HasPrefixNoCase(ls[0], name) then Some(0)
    else match FirstMatch(ls[1..], name)
      case None => None
      case Some(k) => Some(k + 1)
  }

  lemma PrefixNoCaseOfConcat(a: bytes, b: bytes, c: bytes)
    ensures HasPrefixNoCase(a + b + c, a)
  {
    assert forall k :: 0 <= k < |a| ==> (a + b + c)[k] == a[k];
  }

  /** The first line that begins with name is line i exactly when no earlier line does and line i does. */
  lemma {:induction false} FirstMatchAt(ls: seq<bytes>, name: bytes, i: nat)
    requires i < |ls| && HasPrefixNoCase(ls[i], name)
    requires forall j :: 0 <= j < i ==> !HasPrefixNoCase(ls[j], name)
    ensures FirstMatch(ls, name) == Some(i)
  {
    if i > 0 {
      assert !HasPrefixNoCase(ls[0], name);
      forall j | 0 <= j < i - 1
        ensures !HasPrefixNoCase(ls[1..][j], name)
      {
        assert ls[1..][j] == ls[j + 1];
      }
      FirstMatchAt(ls[1..], name, i - 1);
    }
  }

  lemma CStrOfPrefix(a: bytes, b: bytes)
    requires NoNul(a)
    ensures CStr(a + b) == a + CStr(b)
  {
    if a != [] {
      assert (a + b)[1..] == a[1..] + b;
      CStrOfPrefix(a[1..], b);
    } else {
      assert a + b == b;
    }
  }

  /** buf holds the line l followed by CR LF at index p. */
  predicate LineAt(buf: bytes, p: nat, l: bytes) {
    p + |l| + 2 <= |buf| && buf[p + |l|] == CR && buf[p + |l| + 1] == LF
    && forall k :: 0 <= k < |l| ==> buf[p + k] == l[k]
  }

  /** A plain line followed by CR LF: strstr from any of its bytes stops at that CR LF. */
  lemma {:induction false} LineEndOf(buf: bytes, p: nat, l: bytes, j: nat)
    requires PlainLine(l) && LineAt(buf, p, l) && j <= |l|
    ensures LineEnd(buf, p + j) == Some(p + |l|)
    decreases |l| - j
  {
    if j < |l| {
      assert buf[p + j] == l[j];
      LineEndOf(buf, p, l, j + 1);
    }
  }

  /** The scan result r is the line l, found in buf and ended by CR LF inside the view. */
  predicate FieldIsLine(buf: bytes, r: Option<(nat, nat)>, end: nat, l: bytes) {
    r.Some? && r.value.1 == r.value.0 + |l| && r.value.1 + 2 <= end && LineAt(buf, r.value.0, l)
  }

  lemma PrefixOfLine(buf: bytes, p: nat, l: bytes, name: bytes)
    requires LineAt(buf, p, l)
    ensures (|l| >= |name| && HasPrefixNoCaseAt(buf, p, name)) <==> HasPrefixNoCase(l, name)
  {
  }

  /** One step of the scan over a plain line followed by CR LF. */
  lemma FindFieldStep(buf: bytes, p: nat, end: nat, name: bytes, clamp: bool, l: bytes)
    requires PlainLine(l) && LineAt(buf, p, l)
    requires p + |l| + 2 <= end <= |buf|
    ensures HasPrefixNoCase(l, name) ==> FindField(buf, p, end, name, clamp) == Some((p, p + |l|))
    ensures !HasPrefixNoCase(l, name) ==>
      FindField(buf, p, end, name, clamp) == FindField(buf, p + |l| + 2, end, name, clamp)
  {
    LineEndOf(buf, p, l, 0);
    assert ScanEnd(buf, p, end, clamp) == p + |l|;
    PrefixOfLine(buf, p, l, name);
  }

  /** buf holds the lines ls, each followed by CR LF, from index p on. */
  predicate LinesAt(buf: bytes, p: nat, ls: seq<bytes>)
    decreases |ls|
  {
    ls == [] || (LineAt(buf, p, ls[0]) && LinesAt(buf, p + |ls[0]| + 2, ls[1..]))
  }

  lemma {:induction false} LinesAtOf(buf: bytes, p: nat, ls: seq<bytes>)
    requires p + |Lines(ls)| <= |buf| && buf[p..p + |Lines(ls)|] == Lines(ls)
    ensures LinesAt(buf, p, ls)
    decreases |ls|
  {
    if ls != [] {
      var l, m := ls[0], |Lines(ls)|;
      var w := buf[p..p + m];
      assert w == l + CRLF + Lines(ls[1..]);
      forall k | 0 <= k < |l|
        ensures buf[p + k] == l[k]
      {
        assert buf[p + k] == w[k];
      }
      assert buf[p + |l|] == w[|l|] && buf[p + |l| + 1] == w[|l| + 1];
      assert buf[p + |l| + 2..p + m] == w[|l| + 2..];
      LinesAtOf(buf, p + |l| + 2, ls[1..]);
    }
  }

  /**
   * The scan over a view that starts with plain lines, none of which begins
   * with name: it passes over all of them and goes on after them.
   */
  lemma {:induction false} FindFieldSkipsLines(buf: bytes, p: nat, e: nat, end: nat, name: bytes, clamp: bool, ls: seq<bytes>)
    requires PlainLines(ls) && LinesAt(buf, p, ls)
    requires e == p + |Lines(ls)| && e <= end <= |buf|
    requires FirstMatch(ls, name).None?
    ensures FindField(buf, p, end, name, clamp) == FindField(buf, e, end, name, clamp)
    decreases |ls|
  {
    if ls != [] {
      var l := ls[0];
      var q := p + |l| + 2;
      assert |Lines(ls)| == |l| + 2 + |Lines(ls[1..])|;
      FindFieldSkipsLines(buf, q, e, end, name, clamp, ls[1..]);
      FindFieldStep(buf, p, end, name, clamp, l);
    }
  }

  /**
   * The scan over a view that starts with plain lines: it stops at the first
   * of them whose text begins with name, and reports exactly that line.
   */
  lemma {:induction false} FindFieldFindsLine(buf: bytes, p: nat, end: nat, name: bytes, clamp: bool, ls: seq<bytes>, i: nat)
    requires PlainLines(ls) && LinesAt(buf, p, ls)
    requires p + |Lines(ls)| <= end <= |buf|
    requires FirstMatch(ls, name) == Some(i)
    ensures FieldIsLine(buf, FindField(buf, p, end, name, clamp), end, ls[i])
    decreases |ls|
  {
    var l := ls[0];
    assert |Lines(ls)| == |l| + 2 + |Lines(ls[1..])|;
    FindFieldStep(buf, p, end, name, clamp, l);
    if i == 0 {
      assert HasPrefixNoCase(l, name);
    } else {
      assert !HasPrefixNoCase(l, name) && FirstMatch(ls[1..], name) == Some(i - 1);
      assert ls[1..][i - 1] == ls[i];
      FindFieldFindsLine(buf, p + |l| + 2, end, name, clamp, ls[1..], i - 1);
    }
  }

  // ---------------------------------------------------------------------
  // Content-Length
  // ---------------------------------------------------------------------

  /**
   * The value http_parse_content_length returns for the view [start, end):
   * atoi of the text after the first "Content-Length:" line's name and its
   * blanks, converted to uint32_t; 0 when no line carries the field.
   */
  function ContentLengthOf(buf: bytes, start: nat, end: nat): (n: nat)
    requires start <= end <= |buf|
    ensures n < U32_LIMIT
  {
    match FindField(buf, start, end, CONTENT_LENGTH, true)
    case None => 0
    case Some((p, _)) => FieldNumber(buf, p + |CONTENT_LENGTH|)
  }

  /** atoi of what follows the blanks at v, converted to uint32_t. */
  function FieldNumber(buf: bytes, v: nat): (n: nat)
    requires v <= |buf|
    ensures n < U32_LIMIT
    decreases |buf| - v
  {
    if v < |buf| && IsBlank(buf[v]) then FieldNumber(buf, v + 1) else ToU32(Atoi(buf[v..]))
  }

  /**
   * The line loop http_parse_content_length and http_ui_get_content_type
   * share: strstr for the line end, the case-insensitive name compare, then
   * on past the CR LF.
   */
  method ScanField(buf: bytes, start: nat, end: nat, name: bytes, clamp: bool) returns (r: Option<(nat, nat)>)
    requires start <= end <= |buf|
    ensures r == FindField(buf, start, end, name, clamp)
  {
    var p := start;
    while p < end
      invariant start <= p <= |buf|
      invariant FindField(buf, p, end, name, clamp) == FindField(buf, start, end, name, clamp)
      decreases |buf| - p
    {
      var le := ScanEnd(buf, p, end, clamp);
      if le - p >= |name| && HasPrefixNoCaseAt(buf, p, name) {
        return Some((p, le));
      }
      if le >= end {
        return None;
      }
      p := le + 2;
    }
    return None;
  }

  /** http_parse_content_length */
  method ParseContentLength(buf: bytes, start: nat, end: nat) returns (n: nat)
    requires start <= end <= |buf|
    ensures n == ContentLengthOf(buf, start, end)
  {
    var f := ScanField(buf, start, end, CONTENT_LENGTH, true);
    if f.None? {
      return 0;
    }
    var v := SkipBlanks(buf, f.value.0 + |CONTENT_LENGTH|);
    return ToU32(Atoi(buf[v..]));
  }

  /** The blank skip of http_parse_content_length, which is not held to the view. */
  method SkipBlanks(buf: bytes, v0: nat) returns (v: nat)
    requires v0 <= |buf|
    ensures v0 <= v <= |buf| && FieldNumber(buf, v0) == ToU32(Atoi(buf[v..]))
    ensures forall i :: v0 <= i < v ==> IsBlank(buf[i])
    ensures v < |buf| ==> !IsBlank(buf[v])
  {
    v := v0;
    while v < |buf| && (buf[v] == SP || buf[v] == HT)
      invariant v0 <= v <= |buf|
      invariant forall i :: v0 <= i < v ==> IsBlank(buf[i])
      invariant FieldNumber(buf, v0) == FieldNumber(buf, v)
    {
      v := v + 1;
    }
  }

  /** A line l = a + b + c stored at q: where b and c sit in buf. */
  lemma LineParts(buf: bytes, q: nat, a: bytes, b: bytes, c: bytes)
    requires LineAt(buf, q, a + b + c)
    ensures forall k :: 0 <= k < |b| ==> buf[q + |a| + k] == b[k]
    ensures buf[q + |a| + |b|..q + |a| + |b| + |c|] == c
    ensures buf[q + |a| + |b| + |c|] == CR
  {
    var l := a + b + c;
    forall k | 0 <= k < |b|
      ensures buf[q + |a| + k] == b[k]
    {
      assert l[|a| + k] == b[k];
    }
    forall k | 0 <= k < |c|
      ensures buf[q + |a| + |b| + k] == c[k]
    {
      assert l[|a| + |b| + k] == c[k];
    }
  }

  /** A line written as a name, blanks and digits: the number after the name is the digits' value. */
  lemma NumberLine(buf: bytes, r: Option<(nat, nat)>, end: nat, name: bytes, blanks: bytes, d: bytes)
    requires FieldIsLine(buf, r, end, name + blanks + d)
    requires forall k :: 0 <= k < |blanks| ==> IsBlank(blanks[k])
    requires |d| > 0 && AllDigits(d) && DigitsValue(d) <= INT_MAX
    ensures FieldNumber(buf, r.value.0 + |name|) == DigitsValue(d)
  {
    var q := r.value.0;
    LineParts(buf, q, name, blanks, d);
    var v := q + |name|;
    forall j | v <= j < v + |blanks|
      ensures IsBlank(buf[j])
    {
      assert buf[v + (j - v)] == blanks[j - v];
    }
    SkipToDigits(buf, v, |blanks|, v + |blanks| + |d|, d);
  }

  /** From v, past nb blanks, the digits d up to the CR at e: the number is d's value. */
  lemma {:induction false} SkipToDigits(buf: bytes, v: nat, nb: nat, e: nat, d: bytes)
    requires v + nb <= e < |buf| && buf[e] == CR
    requires forall j :: v <= j < v + nb ==> IsBlank(buf[j])
    requires buf[v + nb..e] == d
    requires |d| > 0 && AllDigits(d) && DigitsValue(d) <= INT_MAX
    ensures FieldNumber(buf, v) == DigitsValue(d)
    decreases nb
  {
    if nb == 0 {
      assert buf[v] == d[0];
      assert buf[v..] == d + buf[e..];
      AtoiOfDigits(buf[v..], d, buf[e..]);
    } else {
      SkipToDigits(buf, v + 1, nb - 1, e, d);
    }
  }

  /** In a head made of lines, the scan for name stops at the first line that begins with it. */
  lemma FieldLine(buf: bytes, start: nat, end: nat, name: bytes, clamp: bool, ls: seq<bytes>, i: nat)
    requires PlainLines(ls)
    requires start + |Lines(ls)| <= end <= |buf|
    requires buf[start..start + |Lines(ls)|] == Lines(ls)
    requires i < |ls| && HasPrefixNoCase(ls[i], name)
    requires forall j :: 0 <= j < i ==> !HasPrefixNoCase(ls[j], name)
    ensures FieldIsLine(buf, FindField(buf, start, end, name, clamp), end, ls[i])
  {
    FirstMatchAt(ls, name, i);
    LinesAtOf(buf, start, ls);
    FindFieldFindsLine(buf, start, end, name, clamp, ls, i);
  }

  /**
   * A header line "Content-Length:", blanks and a decimal number that is the
   * first line of the block carrying the field: the scan reads that number.
   */
  lemma ContentLengthOfLines(buf: bytes, start: nat, end: nat, ls: seq<bytes>, i: nat, blanks: bytes, n: nat)
    requires PlainLines(ls)
    requires start + |Lines(ls)| <= end <= |buf|
    requires buf[start..start + |Lines(ls)|] == Lines(ls)
    requires i < |ls| && ls[i] == CONTENT_LENGTH + blanks + Decimal(n)
    requires forall j :: 0 <= j < i ==> !HasPrefixNoCase(ls[j], CONTENT_LENGTH)
    requires forall j :: 0 <= j < |blanks| ==> IsBlank(blanks[j])
    requires n <= INT_MAX
    ensures ContentLengthOf(buf, start, end) == n
  {
    PrefixNoCaseOfConcat(CONTENT_LENGTH, blanks, Decimal(n));
    FieldLine(buf, start, end, CONTENT_LENGTH, true, ls, i);
    DecimalValue(n);
    NumberLine(buf, FindField(buf, start, end, CONTENT_LENGTH, true), end, CONTENT_LENGTH, blanks, Decimal(n));
  }

  // ---------------------------------------------------------------------
  // Content-Type
  // ---------------------------------------------------------------------

  /**
   * What http_ui_get_content_type copies out for a buffer of cap bytes: the
   * rest of the first "Content-Type:" line after its blanks, cut to cap - 1
   * bytes. None when cap is 0 or no line carries the field.
   */
  function ContentTypeOf(buf: bytes, start: nat, end: nat, cap: nat): (r: Option<bytes>)
    requires start <= end <= |buf|
    ensures r.Some? ==> cap > 0 && |r.value| < cap
  {
    if cap == 0 then None
    else match FindField(buf, start, end, CONTENT_TYPE, false)
      case None => None
      case Some((p, le)) => Some(Trunc(FieldText(buf, p + |CONTENT_TYPE|, le), cap - 1))
  }

  /** The text of [v, le) after its leading blanks. */
  function FieldText(buf: bytes, v: nat, le: nat): (t: bytes)
    requires v <= le <= |buf|
    ensures |t| <= le - v
    ensures t == [] || !IsBlank(t[0])
    decreases le - v
  {
    if v < le && IsBlank(buf[v]) then FieldText(buf, v + 1, le) else buf[v..le]
  }

  /** http_ui_get_content_type, the copied text given back as the value. */
  method GetContentType(buf: bytes, start: nat, end: nat, cap: nat) returns (r: Option<bytes>)
    requires start <= end <= |buf|
    ensures r == ContentTypeOf(buf, start, end, cap)
  {
    if cap == 0 {
      return None;
    }
    var f := ScanField(buf, start, end, CONTENT_TYPE, false);
    if f.None? {
      return None;
    }
    var t := CopyFieldText(buf, f.value.0 + |CONTENT_TYPE|, f.value.1, cap);
    return Some(t);
  }

  /** The copy out of the matched line: blanks skipped, then at most cap - 1 bytes. */
  method CopyFieldText(buf: bytes, v0: nat, le: nat, cap: nat) returns (t: bytes)
    requires v0 <= le <= |buf| && cap > 0
    ensures t == Trunc(FieldText(buf, v0, le), cap - 1)
  {
    var v := SkipBlanksUpTo(buf, v0, le);
    var len := le - v;
    if len >= cap {
      len := cap - 1;
    }
    assert buf[v..v + len] == Trunc(buf[v..le], cap - 1);
    return buf[v..v + len];
  }

  /** The blank skip of http_ui_get_content_type, held to the line. */
  method SkipBlanksUpTo(buf: bytes, v0: nat, lim: nat) returns (v: nat)
    requires v0 <= lim <= |buf|
    ensures v0 <= v <= lim && FieldText(buf, v0, lim) == buf[v..lim]
    ensures forall i :: v0 <= i < v ==> IsBlank(buf[i])
  {
    v := v0;
    while v < lim && (buf[v] == SP || buf[v] == HT)
      invariant v0 <= v <= lim
      invariant forall i :: v0 <= i < v ==> IsBlank(buf[i])
      invariant FieldText(buf, v0, lim) == FieldText(buf, v, lim)
    {
      v := v + 1;
    }
  }

  /** A line written as a name, blanks and a value that does not begin with a blank: the text after the name is the value. */
  lemma TextLine(buf: bytes, r: Option<(nat, nat)>, end: nat, name: bytes, blanks: bytes, value: bytes)
    requires FieldIsLine(buf, r, end, name + blanks + value)
    requires forall k :: 0 <= k < |blanks| ==> IsBlank(blanks[k])
    requires value == [] || !IsBlank(value[0])
    ensures FieldText(buf, r.value.0 + |name|, r.value.1) == value
  {
    var q := r.value.0;
    LineParts(buf, q, name, blanks, value);
    var v := q + |name|;
    forall j | v <= j < v + |blanks|
      ensures IsBlank(buf[j])
    {
      assert buf[v + (j - v)] == blanks[j - v];
    }
    SkipToValue(buf, v, |blanks|, v + |blanks| + |value|, value);
  }

  /** From v, past nb blanks, the value up to e: the field text is that value. */
  lemma {:induction false} SkipToValue(buf: bytes, v: nat, nb: nat, e: nat, value: bytes)
    requires v + nb <= e <= |buf|
    requires forall j :: v <= j < v + nb ==> IsBlank(buf[j])
    requires buf[v + nb..e] == value
    requires value == [] || !IsBlank(value[0])
    ensures FieldText(buf, v, e) == value
    decreases nb
  {
    if nb == 0 {
      if v < e {
        assert buf[v] == value[0];
      }
    } else {
      SkipToValue(buf, v + 1, nb - 1, e, value);
    }
  }

  /**
   * The first "Content-Type:" line of a block, written as the name, blanks
   * and a value that does not begin with a blank: the value comes back, cut
   * to cap - 1 bytes.
   */
  lemma ContentTypeOfLines(buf: bytes, start: nat, end: nat, ls: seq<bytes>, i: nat, blanks: bytes, value: bytes, cap: nat)
    requires PlainLines(ls)
    requires start + |Lines(ls)| <= end <= |buf|
    requires buf[start..start + |Lines(ls)|] == Lines(ls)
    requires i < |ls| && ls[i] == CONTENT_TYPE + blanks + value
    requires forall j :: 0 <= j < i ==> !HasPrefixNoCase(ls[j], CONTENT_TYPE)
    requires forall j :: 0 <= j < |blanks| ==> IsBlank(blanks[j])
    requires value == [] || !IsBlank(value[0])
    requires cap > 0
    ensures ContentTypeOf(buf, start, end, cap) == Some(Trunc(value, cap - 1))
  {
    PrefixNoCaseOfConcat(CONTENT_TYPE, blanks, value);
    FieldLine(buf, start, end, CONTENT_TYPE, false, ls, i);
    var r := FindField(buf, start, end, CONTENT_TYPE, false);
    TextLine(buf, r, end, CONTENT_TYPE, blanks, value);
    ContentTypeOfText(buf, start, end, cap, value);
  }

  lemma ContentTypeOfText(buf: bytes, start: nat, end: nat, cap: nat, value: bytes)
    requires start <= end <= |buf| && cap > 0
    requires FindField(buf, start, end, CONTENT_TYPE, false).Some?
    requires FieldText(buf, FindField(buf, start, end, CONTENT_TYPE, false).value.0 + |CONTENT_TYPE|,
                       FindField(buf, start, end, CONTENT_TYPE, false).value.1) == value
    ensures ContentTypeOf(buf, start, end, cap) == Some(Trunc(value, cap - 1))
  {
  }

  /** Without any line carrying the field, both scans report its absence. */
  lemma NoFieldInHead(buf: bytes, start: nat, ls: seq<bytes>, cap: nat)
    requires PlainLines(ls)
    requires start + |Lines(ls)| + 2 <= |buf|
    requires buf[start..start + |Lines(ls)| + 2] == Lines(ls) + CRLF
    requires FirstMatch(ls, CONTENT_LENGTH).None? && FirstMatch(ls, CONTENT_TYPE).None?
    ensures ContentLengthOf(buf, start, start + |Lines(ls)| + 2) == 0
    ensures ContentTypeOf(buf, start, start + |Lines(ls)| + 2, cap).None?
  {
    HeadWithoutField(buf, start, ls, CONTENT_LENGTH, true);
    HeadWithoutField(buf, start, ls, CONTENT_TYPE, false);
  }

  /** Bytes that hold text then CR LF hold the text, and the CR and LF right after it. */
  lemma SplitTerminated(buf: bytes, start: nat, text: bytes)
    requires start + |text| + 2 <= |buf|
    requires buf[start..start + |text| + 2] == text + CRLF
    ensures buf[start..start + |text|] == text
    ensures buf[start + |text|] == CR && buf[start + |text| + 1] == LF
  {
    var w := buf[start..start + |text| + 2];
    assert buf[start..start + |text|] == w[..|text|];
    assert buf[start + |text|] == w[|text|];
    assert buf[start + |text| + 1] == w[|text| + 1];
  }

  /** A head of plain lines, none of which begins with name, then the empty line: the scan finds nothing. */
  lemma HeadWithoutField(buf: bytes, start: nat, ls: seq<bytes>, name: bytes, clamp: bool)
    requires PlainLines(ls) && |name| > 0
    requires start + |Lines(ls)| + 2 <= |buf|
    requires buf[start..start + |Lines(ls)| + 2] == Lines(ls) + CRLF
    requires FirstMatch(ls, name).None?
    ensures FindField(buf, start, start + |Lines(ls)| + 2, name, clamp).None?
  {
    var m := start + |Lines(ls)|;
    var end := m + 2;
    SplitTerminated(buf, start, Lines(ls));
    LinesAtOf(buf, start, ls);
    FindFieldSkipsLines(buf, start, m, end, name, clamp, ls);
    LineEndOf(buf, m, [], 0);
    assert ScanEnd(buf, m, end, clamp) == m;
  }
}
