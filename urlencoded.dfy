/**
 * The form-data helpers of http_ui.c: http_ui_url_decode ('+' to space and
 * %XX to the byte 0xXX, anything else copied) and
 * http_ui_find_param_in_kv (the value of the first "key=value" segment of
 * an '&'-separated C string, decoded). The encoder is the
 * application/x-www-form-urlencoded serializer of the WHATWG URL Standard
 * (section 5.2), the partner the decoder is proved against.
 */
module UrlEncoded {
  import opened Bytes

  /** param_value[128] and decoded[128]: room for 127 bytes and the NUL. */
  const PARAM_CAP: nat := 127

  const PLUS: byte := '+'
  const PERCENT: byte := '%'
  const AMP: byte := '&'
  const EQ: byte := '='

  /** strtol of the two hex digits, cast to char. */
  function HexByte(hi: byte, lo: byte): byte
    requires IsHex(hi) && IsHex(lo)
  {
    (HexVal(hi) * 16 + HexVal(lo)) as char
  }

  /** A '%' at i followed by two hex digits (a NUL or the end is not a hex digit). */
  predicate EscapeAt(s: bytes, i: nat) {
    i + 2 < |s| && s[i] == PERCENT && IsHex(s[i + 1]) && IsHex(s[i + 2])
  }

  /** The decoding of the C string s: one output byte for each '+', each %XX and each other byte. */
  function Decode(s: bytes): (r: bytes)
    ensures |r| <= |s|
    decreases |s|
  {
    if s == [] then []
    else if s[0] == PLUS then [SP] + Decode(s[1..])
    else if EscapeAt(s, 0) then [HexByte(s[1], s[2])] + Decode(s[3..])
    else [s[0]] + Decode(s[1..])
  }

  /** The first step of the decoding from i, and the rest of the decoding after it. */
  lemma DecodeFrom(s: bytes, i: nat)
    requires i < |s|
    ensures s[i] == PLUS ==> Decode(s[i..]) == [SP] + Decode(s[i + 1..])
    ensures s[i] != PLUS && EscapeAt(s, i) ==> Decode(s[i..]) == [HexByte(s[i + 1], s[i + 2])] + Decode(s[i + 3..])
    ensures s[i] != PLUS && !EscapeAt(s, i) ==> Decode(s[i..]) == [s[i]] + Decode(s[i + 1..])
  {
    var t := s[i..];
    assert t[1..] == s[i + 1..];
    if EscapeAt(s, i) {
      assert t[3..] == s[i + 3..];
      assert EscapeAt(t, 0);
    } else {
      assert !EscapeAt(t, 0);
    }
  }

  /**
   * http_ui_url_decode(src, dest, dest.Length): decodes the C string src into
   * dest, stopping when dest holds dest.Length - 1 bytes, and NUL-terminates.
   */
  method UrlDecode(src: bytes, dest: array<byte>) returns (n: nat)
    requires NoNul(src) && dest.Length > 0
    modifies dest
    ensures n < dest.Length && dest[..n] == Trunc(Decode(src), dest.Length - 1) && dest[n] == NUL
  {
    var si, di := 0, 0;
    while si < |src| && di + 1 < dest.Length
      invariant si <= |src| && di < dest.Length
      invariant dest[..di] + Decode(src[si..]) == Decode(src)
      decreases |src| - si
    {
      var b, w := DecodeStep(src, si);
      ghost var done := dest[..di];
      Shift(done, b, Decode(src[si + w..]));
      dest[di] := b;
      assert dest[..di + 1] == done + [b];
      di, si := di + 1, si + w;
    }
    if si == |src| {
      assert src[si..] == [];
    }
    DecodedPrefix(dest[..di], Decode(src[si..]), Decode(src), dest.Length - 1);
    dest[di] := NUL;
    n := di;
  }

  /** One step of the decoder at si: the byte it writes and how many source bytes it consumes. */
  method DecodeStep(src: bytes, si: nat) returns (b: byte, w: nat)
    requires si < |src|
    ensures 1 <= w <= 3 && si + w <= |src|
    ensures Decode(src[si..]) == [b] + Decode(src[si + w..])
  {
    DecodeFrom(src, si);
    if src[si] == PLUS {
      b, w := SP, 1;
    } else if src[si] == PERCENT && si + 2 < |src| && IsHex(src[si + 1]) && IsHex(src[si + 2]) {
      b, w := HexByte(src[si + 1], src[si + 2]), 3;
    } else {
      b, w := src[si], 1;
    }
  }

  lemma Shift(a: bytes, b: byte, c: bytes)
    ensures a + ([b] + c) == (a + [b]) + c
  {
  }

  /** What the loop wrote is the truncated decoding: it stopped at the end of the input or with the buffer full. */
  lemma DecodedPrefix(done: bytes, rest: bytes, all: bytes, cap: nat)
    requires done + rest == all && |done| <= cap && (rest == [] || |done| == cap)
    ensures done == Trunc(all, cap)
  {
    if rest != [] {
      assert all[..cap] == done;
    }
  }

  // ---------------------------------------------------------------------
  // The encoder, and the round trip
  // ---------------------------------------------------------------------

  /** The bytes the form serializer leaves as they are. */
  predicate Unreserved(b: byte) {
    'a' <= b <= 'z' || 'A' <= b <= 'Z' || '0' <= b <= '9' || b == '*' || b == '-' || b == '.' || b == '_'
  }

  function HexDigit(k: nat): (c: byte)
    requires k < 16
    ensures IsHex(c) && HexVal(c) == k
  {
    if k < 10 then (48 + k) as char else (55 + k) as char
  }

  function EncodeByte(b: byte): bytes {
    if Unreserved(b) then [b]
    else if b == SP then [PLUS]
    else [PERCENT, HexDigit(b as int / 16), HexDigit(b as int % 16)]
  }

  /** application/x-www-form-urlencoded serialization of a byte string. */
  function Encode(v: bytes): bytes {
    if v == [] then [] else EncodeByte(v[0]) + Encode(v[1..])
  }

  /** No separator and no NUL: the text can sit inside a key=value segment of a C string. */
  predicate SegmentSafe(s: bytes) {
    forall i :: 0 <= i < |s| ==> s[i] != AMP && s[i] != EQ && s[i] != NUL
  }

  lemma DecodeEncodedByte(b: byte, rest: bytes)
    ensures Decode(EncodeByte(b) + rest) == [b] + Decode(rest)
  {
    var s := EncodeByte(b) + rest;
    if Unreserved(b) {
      assert s[0] == b && !EscapeAt(s, 0) && s[1..] == rest;
    } else if b == SP {
      assert s[0] == PLUS && s[1..] == rest;
    } else {
      var hi, lo := HexDigit(b as int / 16), HexDigit(b as int % 16);
      assert s[0] == PERCENT && s[1] == hi && s[2] == lo && EscapeAt(s, 0);
      assert s[3..] == rest;
      assert HexByte(hi, lo) == b;
    }
  }

  /** Decoding undoes encoding, for every byte string. */
  lemma {:induction false} DecodeEncode(v: bytes)
    ensures Decode(Encode(v)) == v
  {
    if v != [] {
      DecodeEncodedByte(v[0], Encode(v[1..]));
      DecodeEncode(v[1..]);
    }
  }

  /** Encoding never produces '&', '=' or NUL, and never shortens. */
  lemma {:induction false} EncodeSafe(v: bytes)
    ensures SegmentSafe(Encode(v)) && |v| <= |Encode(v)|
  {
    if v != [] {
      EncodeSafe(v[1..]);
      var e, r := EncodeByte(v[0]), Encode(v[1..]);
      assert SegmentSafe(e);
      forall i | 0 <= i < |e + r|
        ensures (e + r)[i] != AMP && (e + r)[i] != EQ && (e + r)[i] != NUL
      {
        if i >= |e| {
          assert (e + r)[i] == r[i - |e|];
        }
      }
    }
  }

  // ---------------------------------------------------------------------
  // key=value lookup
  // ---------------------------------------------------------------------

  /**
   * What the lookup returns for a raw value: at most 127 bytes of it are
   * copied, decoded into 128 bytes, and copied back as a C string.
   */
  function ParamValue(raw: bytes): bytes {
    CStr(Trunc(Decode(Trunc(raw, PARAM_CAP)), PARAM_CAP))
  }

  /** What the segment at p decides: the raw value of the key, the end of the walk, or the offset after its '&'. */
  datatype Verdict = Found(raw: bytes) | Absent | After(next: nat)

  /**
   * One segment of the walk of http_ui_find_param_in_kv at offset p of the
   * C string d: strchr for '=' and '&' from p; a segment with no '=' before
   * its '&' is skipped; the text before '=' is compared with the key; the
   * walk goes on after the '&', or ends when there is none.
   */
  function SegmentStep(d: bytes, key: bytes, p: nat): (v: Verdict)
    requires p < |d|
    ensures v.After? ==> p < v.next <= |d|
  {
    var rest := d[p..];
    var eq, amp := FindByte(rest, EQ), FindByte(rest, AMP);
    if eq.Some? && (amp.None? || eq.value < amp.value) && rest[..eq.value] == key then
      Found(rest[eq.value + 1..if amp.Some? then amp.value else |rest|])
    else if amp.None? then Absent
    else After(p + amp.value + 1)
  }

  /** The walk from offset p: segment after segment, up to the first that decides; the raw value found. */
  function Walk(d: bytes, key: bytes, p: nat): Option<bytes>
    requires p <= |d|
    decreases |d| - p
  {
    if p == |d| then None
    else match SegmentStep(d, key, p)
      case Found(v) => Some(v)
      case Absent => None
      case After(n) => Walk(d, key, n)
  }

  /** http_ui_find_param_in_kv(d, key): the decoded value, and nothing for an empty key. */
  function FindParam(d: bytes, key: bytes): Option<bytes> {
    if key == [] then None
    else match Walk(d, key, 0)
      case None => None
      case Some(raw) => Some(ParamValue(raw))
  }

  /** http_ui_find_param_in_kv, with its result in the static param_value buffer. */
  method FindParamInKv(data: bytes, key: bytes) returns (r: Option<bytes>)
    requires NoNul(data) && NoNul(key)
    ensures r == FindParam(data, key)
  {
    if key == [] {
      return None;
    }
    var p := 0;
    while p < |data|
      invariant p <= |data| && Walk(data, key, p) == Walk(data, key, 0)
      decreases |data| - p
    {
      var v := Segment(data, key, p);
      match v
      case Found(raw) =>
        var value := CopyValue(raw);
        return Some(value);
      case Absent => return None;
      case After(n) => p := n;
    }
    return None;
  }

  /** One segment of the loop of http_ui_find_param_in_kv. */
  method Segment(data: bytes, key: bytes, p: nat) returns (v: Verdict)
    requires NoNul(data) && p < |data|
    ensures v == SegmentStep(data, key, p)
  {
    var rest := data[p..];
    var eq := FindByte(rest, EQ);
    var amp := FindByte(rest, AMP);
    if eq.None? || (amp.Some? && eq.value > amp.value) {
      return if amp.None? then Absent else After(p + amp.value + 1);
    }
    if rest[..eq.value] == key {
      var valEnd := if amp.Some? then amp.value else |rest|;
      return Found(rest[eq.value + 1..valEnd]);
    }
    return if amp.None? then Absent else After(p + amp.value + 1);
  }

  /** The copy into param_value, the decode into decoded[128] and the copy back. */
  method CopyValue(raw: bytes) returns (v: bytes)
    requires NoNul(raw)
    ensures v == ParamValue(raw)
  {
    var len := |raw|;
    if len >= PARAM_CAP + 1 {
      len := PARAM_CAP;
    }
    assert raw[..len] == Trunc(raw, PARAM_CAP);
    var decoded := new byte[PARAM_CAP + 1];
    var n := UrlDecode(raw[..len], decoded);
    v := CStr(decoded[..n]);
  }

  // ---------------------------------------------------------------------
  // The lookup against a reference definition
  // ---------------------------------------------------------------------

  /** The '&'-separated segments of s. */
  function Segments(s: bytes): (segs: seq<bytes>)
    ensures |segs| > 0
    decreases |s|
  {
    match FindByte(s, AMP)
    case None => [s]
    case Some(a) => [s[..a]] + Segments(s[a + 1..])
  }

  /** The raw value of a segment that has an '=' and exactly key before its first '='. */
  function SegValue(seg: bytes, key: bytes): Option<bytes> {
    var e := FindByte(seg, EQ);
    if e.Some? && seg[..e.value] == key then Some(seg[e.value + 1..]) else None
  }

  /** The value of the first segment that has the key. */
  function Pick(segs: seq<bytes>, key: bytes): Option<bytes> {
    if segs == [] then None
    else if SegValue(segs[0], key).Some? then SegValue(segs[0], key)
    else Pick(segs[1..], key)
  }

  /** strchr for c in a prefix of s finds what strchr in s finds, if that lies inside the prefix. */
  lemma FindByteInPrefix(s: bytes, n: nat, c: byte)
    requires n <= |s|
    ensures FindByte(s[..n], c) == (if FindByte(s, c).Some? && FindByte(s, c).value < n then FindByte(s, c) else None)
  {
    var r := FindByte(s[..n], c);
    if r.Some? {
      assert s[r.value] == c;
    }
    if FindByte(s, c).Some? && FindByte(s, c).value < n {
      assert s[..n][FindByte(s, c).value] == c;
    }
  }

  /** The decision at p in terms of the segment that starts there. */
  lemma StepSegment(d: bytes, key: bytes, p: nat)
    requires p < |d|
    ensures var rest := d[p..]; var amp := FindByte(rest, AMP);
      var seg := if amp.Some? then rest[..amp.value] else rest;
      SegmentStep(d, key, p) ==
        if SegValue(seg, key).Some? then Found(SegValue(seg, key).value)
        else if amp.None? then Absent
        else After(p + amp.value + 1)
  {
    var rest := d[p..];
    var eq, amp := FindByte(rest, EQ), FindByte(rest, AMP);
    if amp.Some? {
      var seg := rest[..amp.value];
      FindByteInPrefix(rest, amp.value, EQ);
      if eq.Some? && eq.value < amp.value {
        assert seg[..eq.value] == rest[..eq.value];
        assert seg[eq.value + 1..] == rest[eq.value + 1..amp.value];
      }
    } else if eq.Some? {
      assert rest[eq.value + 1..|rest|] == rest[eq.value + 1..];
    }
  }

  /** The segments from p: the one before the first '&', then those after it. */
  lemma SegmentsFrom(d: bytes, p: nat)
    requires p < |d|
    ensures var amp := FindByte(d[p..], AMP);
      && (amp.None? ==> Segments(d[p..]) == [d[p..]])
      && (amp.Some? ==> p + amp.value + 1 <= |d| && Segments(d[p..]) == [d[p..][..amp.value]] + Segments(d[p + amp.value + 1..]))
  {
    var rest := d[p..];
    match FindByte(rest, AMP)
    case None =>
    case Some(a) =>
      assert rest[a + 1..] == d[p + a + 1..];
  }

  /** One step of the walk, in terms of the segment at p and the offset n after its '&'. */
  lemma WalkFrom(d: bytes, key: bytes, p: nat, seg: bytes, n: nat)
    requires p < |d|
    requires var amp := FindByte(d[p..], AMP);
      && seg == (if amp.Some? then d[p..][..amp.value] else d[p..])
      && n == (if amp.Some? then p + amp.value + 1 else |d|)
    ensures n <= |d|
    ensures Walk(d, key, p) ==
      if SegValue(seg, key).Some? then SegValue(seg, key)
      else if n == |d| && FindByte(d[p..], AMP).None? then None
      else Walk(d, key, n)
  {
    StepSegment(d, key, p);
  }

  /** The same step of the segment-wise definition. */
  lemma PickFrom(d: bytes, key: bytes, p: nat, seg: bytes, n: nat)
    requires p < |d|
    requires var amp := FindByte(d[p..], AMP);
      && seg == (if amp.Some? then d[p..][..amp.value] else d[p..])
      && n == (if amp.Some? then p + amp.value + 1 else |d|)
    ensures n <= |d|
    ensures Pick(Segments(d[p..]), key) ==
      if SegValue(seg, key).Some? then SegValue(seg, key)
      else if n == |d| && FindByte(d[p..], AMP).None? then None
      else Pick(Segments(d[n..]), key)
  {
    SegmentsFrom(d, p);
    var amp := FindByte(d[p..], AMP);
    PickCons(seg, if amp.Some? then Segments(d[n..]) else [], key);
  }

  /** The walk of the engine over the C string picks what the segment-wise definition picks. */
  lemma {:induction false} WalkIsPick(d: bytes, key: bytes, p: nat)
    requires p <= |d|
    ensures Walk(d, key, p) == Pick(Segments(d[p..]), key)
    decreases |d| - p
  {
    if p == |d| {
      assert d[p..] == [];
      PickCons([], [], key);
    } else {
      var amp := FindByte(d[p..], AMP);
      var seg := if amp.Some? then d[p..][..amp.value] else d[p..];
      var n := if amp.Some? then p + amp.value + 1 else |d|;
      WalkFrom(d, key, p, seg, n);
      PickFrom(d, key, p, seg, n);
      if n < |d| || amp.Some? {
        WalkIsPick(d, key, n);
      }
    }
  }

  lemma PickCons(seg: bytes, segs: seq<bytes>, key: bytes)
    ensures Pick([seg] + segs, key) == if SegValue(seg, key).Some? || segs == [] then SegValue(seg, key) else Pick(segs, key)
  {
    assert ([seg] + segs)[1..] == segs;
  }

  /** Segments joined with '&'. */
  function JoinAmp(segs: seq<bytes>): bytes
    requires |segs| > 0
  {
    if |segs| == 1 then segs[0] else segs[0] + [AMP] + JoinAmp(segs[1..])
  }

  /** Splitting at '&' undoes joining with '&'. */
  lemma {:induction false} SegmentsOfJoin(segs: seq<bytes>)
    requires |segs| > 0
    requires forall i :: 0 <= i < |segs| ==> AMP !in segs[i]
    ensures Segments(JoinAmp(segs)) == segs
  {
    var s := JoinAmp(segs);
    if |segs| == 1 {
      assert FindByte(s, AMP).None?;
    } else {
      var tail := JoinAmp(segs[1..]);
      var h := segs[0];
      assert s == h + [AMP] + tail;
      assert s[|h|] == AMP;
      forall j | 0 <= j < |h|
        ensures s[j] != AMP
      {
        assert s[j] == h[j];
      }
      assert FindByte(s, AMP) == Some(|h|);
      assert s[..|h|] == h && s[|h| + 1..] == tail;
      SegmentsOfJoin(segs[1..]);
    }
  }

  /** The segment a form writes for one field. */
  function Field(key: bytes, value: bytes): bytes {
    key + [EQ] + Encode(value)
  }

  /** A form body: the fields, in order, joined with '&'. */
  function FormBody(fields: seq<(bytes, bytes)>): bytes
    requires |fields| > 0
  {
    JoinAmp(seq(|fields|, i requires 0 <= i < |fields| => Field(fields[i].0, fields[i].1)))
  }

  /** Keys of this shape survive the walk: non-empty, and free of '&', '=' and NUL. */
  predicate GoodKey(k: bytes) {
    |k| > 0 && SegmentSafe(k)
  }

  /** A field's value comes back if its encoding fits param_value. */
  predicate Fits(v: bytes) {
    NoNul(v) && |Encode(v)| <= PARAM_CAP
  }

  /** The index of the first field named key. */
  function FirstKey(fields: seq<(bytes, bytes)>, key: bytes): (r: Option<nat>)
    ensures r.Some? ==> r.value < |fields| && fields[r.value].0 == key
    ensures r.Some? ==> forall j :: 0 <= j < r.value ==> fields[j].0 != key
    ensures r.None? ==> forall j :: 0 <= j < |fields| ==> fields[j].0 != key
  {
    if fields == [] then None
    else if fields[0].0 == key then Some(0)
    else match FirstKey(fields[1..], key)
      case None => None
      case Some(k) => Some(k + 1)
  }

  /** One encoded field: its key is the text before its first '=', and its raw value is the encoded value. */
  lemma PickField(k: bytes, v: bytes, key: bytes)
    requires GoodKey(k) && Fits(v)
    ensures var seg := Field(k, v);
      FindByte(seg, EQ) == Some(|k|) && seg[..|k|] == k && seg[|k| + 1..] == Encode(v)
  {
    var seg := Field(k, v);
    assert seg[|k|] == EQ;
    forall j | 0 <= j < |k|
      ensures seg[j] != EQ
    {
      assert seg[j] == k[j];
    }
    assert seg[..|k|] == k;
    assert seg[|k| + 1..] == Encode(v);
  }

  /** A value whose encoding fits param_value comes back whole from the copy and the decode. */
  lemma ParamValueOfEncode(v: bytes)
    requires Fits(v)
    ensures ParamValue(Encode(v)) == v
  {
    EncodeSafe(v);
    DecodeEncode(v);
    CStrOfNoNul(v);
  }

  lemma {:induction false} PickFields(fields: seq<(bytes, bytes)>, key: bytes)
    requires forall i :: 0 <= i < |fields| ==> GoodKey(fields[i].0) && Fits(fields[i].1)
    ensures Pick(seq(|fields|, i requires 0 <= i < |fields| => Field(fields[i].0, fields[i].1)), key)
         == (match FirstKey(fields, key) case None => None case Some(i) => Some(Encode(fields[i].1)))
  {
    var segs := seq(|fields|, i requires 0 <= i < |fields| => Field(fields[i].0, fields[i].1));
    if fields != [] {
      PickField(fields[0].0, fields[0].1, key);
      assert segs[0] == Field(fields[0].0, fields[0].1);
      assert segs[1..] == seq(|fields[1..]|, i requires 0 <= i < |fields[1..]| => Field(fields[1..][i].0, fields[1..][i].1));
      PickFields(fields[1..], key);
    }
  }

  /**
   * Round trip: looking a key up in a form body written by the serializer
   * gives the value of the first field with that key, and nothing when no
   * field has it.
   */
  lemma FindParamOfForm(fields: seq<(bytes, bytes)>, key: bytes)
    requires |fields| > 0 && GoodKey(key)
    requires forall i :: 0 <= i < |fields| ==> GoodKey(fields[i].0) && Fits(fields[i].1)
    ensures FindParam(FormBody(fields), key)
         == (match FirstKey(fields, key) case None => None case Some(i) => Some(fields[i].1))
  {
    var segs := seq(|fields|, i requires 0 <= i < |fields| => Field(fields[i].0, fields[i].1));
    forall i | 0 <= i < |segs|
      ensures AMP !in segs[i]
    {
      var k, v := fields[i].0, fields[i].1;
      EncodeSafe(v);
      var seg := Field(k, v);
      forall j | 0 <= j < |seg|
        ensures seg[j] != AMP
      {
        if j < |k| {
          assert seg[j] == k[j];
        } else if j > |k| {
          assert seg[j] == Encode(v)[j - |k| - 1];
        }
      }
    }
    SegmentsOfJoin(segs);
    var d := FormBody(fields);
    assert d[0..] == d;
    WalkIsPick(d, key, 0);
    PickFields(fields, key);
    match FirstKey(fields, key)
    case None =>
    case Some(i) => ParamValueOfEncode(fields[i].1);
  }
}
