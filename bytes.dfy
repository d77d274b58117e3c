/**
 * Octets, C strings and the handful of libc primitives (strstr, strchr,
 * strncasecmp, atoi, strncpy-style truncation, %d/%lu formatting) that the
 * HTTP engine is written with.
 */
module Bytes {

  datatype Option<+T> = None | Some(value: T)

  /** One octet. A char below 256, so that protocol text can be written as literals. */
  type byte = c: char | c as int < 256
  type bytes = seq<byte>

  const NUL: byte := 0 as char
  const CR: byte := '\r'
  const LF: byte := '\n'
  const SP: byte := ' '
  const HT: byte := '\t'
  const CRLF: bytes := "\r\n"
  const CRLFCRLF: bytes := "\r\n\r\n"

  const INT_MIN: int := -0x8000_0000
  const INT_MAX: int := 0x7fff_ffff
  const U32_LIMIT: int := 0x1_0000_0000

  predicate NoNul(s: bytes) {
    forall i :: 0 <= i < |s| ==> s[i] != NUL
  }

  /** The C string stored at the start of s: everything before the first NUL, or all of s if it has none. */
  function CStr(s: bytes): (r: bytes)
    ensures r <= s && NoNul(r)
    ensures |r| < |s| ==> s[|r|] == NUL
  {
    if s == [] || s[0] == NUL then [] else [s[0]] + CStr(s[1..])
  }

  lemma {:induction false} CStrOfNoNul(s: bytes)
    requires NoNul(s)
    ensures CStr(s) == s
  {
    if s != [] {
      CStrOfNoNul(s[1..]);
    }
  }

  /** A C string followed by a NUL (and anything after it) reads back as that string. */
  lemma {:induction false} CStrStopsAtNul(s: bytes, rest: bytes)
    requires NoNul(s)
    ensures CStr(s + [NUL] + rest) == s
  {
    if s == [] {
      assert (s + [NUL] + rest)[0] == NUL;
    } else {
      assert (s + [NUL] + rest)[1..] == s[1..] + [NUL] + rest;
      CStrStopsAtNul(s[1..], rest);
    }
  }

  /** strncpy into a buffer of n + 1 bytes followed by a terminating NUL: exactly the first n bytes survive. */
  function Trunc(s: bytes, n: nat): (r: bytes)
    ensures |r| <= n && r <= s
    ensures |s| <= n ==> r == s
    ensures |s| > n ==> |r| == n
  {
    if |s| <= n then s else s[..n]
  }

  function Zeros(n: nat): (r: bytes)
    ensures |r| == n && forall i :: 0 <= i < n ==> r[i] == NUL
  {
    seq(n, _ => NUL)
  }

  // ---------------------------------------------------------------------
  // Character classes of the C locale
  // ---------------------------------------------------------------------

  /** isspace */
  predicate IsSpace(c: byte) {
    c == SP || c == HT || c == LF || c == CR || c == 11 as char || c == 12 as char
  }

  predicate IsBlank(c: byte) { c == SP || c == HT }

  predicate IsDigit(c: byte) { '0' <= c <= '9' }

  /** isxdigit */
  predicate IsHex(c: byte) { '0' <= c <= '9' || 'a' <= c <= 'f' || 'A' <= c <= 'F' }

  function HexVal(c: byte): (v: nat)
    requires IsHex(c)
    ensures v < 16
  {
    if '0' <= c <= '9' then c as int - '0' as int
    else if 'a' <= c <= 'f' then c as int - 'a' as int + 10
    else c as int - 'A' as int + 10
  }

  /** tolower */
  function Lower(c: byte): (r: byte)
    ensures r == NUL <==> c == NUL
  {
    if 'A' <= c <= 'Z' then (c as int + 32) as char else c
  }

  /**
   * strncasecmp(s, pat, |pat|) == 0 for a NUL-free pattern: s begins with pat,
   * ignoring ASCII case. A NUL in s before |pat| bytes never equals a byte of pat.
   */
  predicate HasPrefixNoCase(s: bytes, pat: bytes) {
    |pat| <= |s| && forall i :: 0 <= i < |pat| ==> Lower(s[i]) == Lower(pat[i])
  }

  /** strncasecmp(s + i, pat, |pat|) == 0, without building the slice s[i..]. */
  predicate HasPrefixNoCaseAt(s: bytes, i: nat, pat: bytes) {
    i + |pat| <= |s| && forall k :: 0 <= k < |pat| ==> Lower(s[i + k]) == Lower(pat[k])
  }

  // ---------------------------------------------------------------------
  // Searching
  // ---------------------------------------------------------------------

  predicate OccursAt(s: bytes, pat: bytes, i: nat) {
    i + |pat| <= |s| && s[i..i + |pat|] == pat
  }

  /** First occurrence of pat in s at or after i. */
  function IndexFrom(s: bytes, pat: bytes, i: nat): (r: Option<nat>)
    requires i <= |s|
    ensures r.Some? ==> i <= r.value && OccursAt(s, pat, r.value)
    ensures r.Some? ==> forall j :: i <= j < r.value ==> !OccursAt(s, pat, j)
    ensures r.None? ==> forall j :: i <= j ==> !OccursAt(s, pat, j)
    decreases |s| - i
  {
    if i + |pat| > |s| then None
    else if s[i..i + |pat|] == pat then Some(i)
    else IndexFrom(s, pat, i + 1)
  }

  /** memmem over exactly s; strstr is IndexOf on the C string CStr(s). */
  function IndexOf(s: bytes, pat: bytes): (r: Option<nat>)
    ensures r.Some? ==> OccursAt(s, pat, r.value)
    ensures r.Some? ==> forall j :: 0 <= j < r.value ==> !OccursAt(s, pat, j)
    ensures r.None? ==> forall j :: 0 <= j ==> !OccursAt(s, pat, j)
  {
    IndexFrom(s, pat, 0)
  }

  /** An occurrence with none before it is the one IndexOf reports. */
  lemma IndexOfIsFirst(s: bytes, pat: bytes, i: nat)
    requires OccursAt(s, pat, i)
    requires forall j :: 0 <= j < i ==> !OccursAt(s, pat, j)
    ensures IndexOf(s, pat) == Some(i)
  {
    var r := IndexOf(s, pat);
    assert r.Some?;
    assert !(r.value < i);
    assert !(r.value > i);
  }

  /** Searching a text that starts with a prefix free of the pattern finds it in the rest. */
  lemma IndexOfAfter(a: bytes, b: bytes, pat: bytes)
    requires |pat| > 0
    requires forall j :: 0 <= j < |a| ==> !OccursAt(a + b, pat, j)
    ensures IndexOf(a + b, pat) == (match IndexOf(b, pat) case None => None case Some(k) => Some(|a| + k))
  {
    var s := a + b;
    assert forall k :: 0 <= k ==> (OccursAt(b, pat, k) <==> OccursAt(s, pat, |a| + k)) by {
      forall k | 0 <= k
        ensures OccursAt(b, pat, k) <==> OccursAt(s, pat, |a| + k)
      {
        if |a| + k + |pat| <= |s| {
          assert s[|a| + k..|a| + k + |pat|] == b[k..k + |pat|];
        }
      }
    }
    match IndexOf(b, pat)
    case None =>
      forall j | 0 <= j
        ensures !OccursAt(s, pat, j)
      {
        if j >= |a| {
          assert !OccursAt(b, pat, j - |a|);
        }
      }
      assert IndexOf(s, pat).None?;
    case Some(k) =>
      forall j | 0 <= j < |a| + k
        ensures !OccursAt(s, pat, j)
      {
        if j >= |a| {
          assert !OccursAt(b, pat, j - |a|);
        }
      }
      IndexOfIsFirst(s, pat, |a| + k);
  }

  /** strchr over exactly s. */
  function FindByte(s: bytes, c: byte): (r: Option<nat>)
    ensures r.Some? ==> r.value < |s| && s[r.value] == c
    ensures r.Some? ==> forall j :: 0 <= j < r.value ==> s[j] != c
    ensures r.None? ==> forall j :: 0 <= j < |s| ==> s[j] != c
  {
    if s == [] then None
    else if s[0] == c then Some(0)
    else match FindByte(s[1..], c)
      case None => None
      case Some(k) => Some(k + 1)
  }

  // ---------------------------------------------------------------------
  // Decimal numbers: %d / %lu output and atoi input
  // ---------------------------------------------------------------------

  function DigitChar(d: nat): (c: byte)
    requires d < 10
    ensures IsDigit(c)
  {
    (48 + d) as char
  }

  predicate AllDigits(s: bytes) {
    forall i :: 0 <= i < |s| ==> IsDigit(s[i])
  }

  /** The %lu rendering of n. */
  function Decimal(n: nat): (r: bytes)
    ensures |r| > 0 && AllDigits(r)
    decreases n
  {
    if n < 10 then [DigitChar(n)] else Decimal(n / 10) + [DigitChar(n % 10)]
  }

  /** The %d rendering of i. */
  function SignedDecimal(i: int): (r: bytes)
    ensures |r| > 0
  {
    if i < 0 then "-" + Decimal(-i) else Decimal(i)
  }

  function DigitsValue(s: bytes): nat
    requires AllDigits(s)
  {
    if s == [] then 0 else DigitsValue(s[..|s| - 1]) * 10 + (s[|s| - 1] as int - 48)
  }

  lemma {:induction false} DecimalValue(n: nat)
    ensures DigitsValue(Decimal(n)) == n
    decreases n
  {
    if n >= 10 {
      var d := Decimal(n);
      assert d[..|d| - 1] == Decimal(n / 10);
      DecimalValue(n / 10);
    }
  }

  /** Length of the run of decimal digits at the start of s. */
  function DigitRun(s: bytes): (k: nat)
    ensures k <= |s| && AllDigits(s[..k])
    ensures k < |s| ==> !IsDigit(s[k])
  {
    if s == [] || !IsDigit(s[0]) then 0 else 1 + DigitRun(s[1..])
  }

  /** Number of isspace bytes strtol skips at the start of s. */
  function SpaceRun(s: bytes): (k: nat)
    ensures k <= |s|
    ensures k < |s| ==> !IsSpace(s[k])
    ensures forall i :: 0 <= i < k ==> IsSpace(s[i])
  {
    if s == [] || !IsSpace(s[0]) then 0 else 1 + SpaceRun(s[1..])
  }

  /**
   * The value strtol(s, NULL, 10) denotes before any range check: leading
   * isspace bytes, an optional sign, then the longest run of digits (none
   * gives 0).
   */
  function StrtolValue(s: bytes): int {
    if s != [] && IsSpace(s[0]) then StrtolValue(s[1..])
    else
      var neg := |s| > 0 && s[0] == '-';
      var u := if |s| > 0 && (s[0] == '-' || s[0] == '+') then s[1..] else s;
      var v: int := DigitsValue(u[..DigitRun(u)]);
      if neg then -v else v
  }

  /**
   * atoi on a 32-bit target whose C library implements it as (int)strtol,
   * with strtol saturating at the limits of a 32-bit long.
   */
  function Atoi(s: bytes): (r: int)
    ensures INT_MIN <= r <= INT_MAX
    ensures INT_MIN <= StrtolValue(s) <= INT_MAX ==> r == StrtolValue(s)
  {
    var v := StrtolValue(s);
    if v < INT_MIN then INT_MIN else if v > INT_MAX then INT_MAX else v
  }

  /** The conversion (uint32_t)x of a 32-bit C int: negative values wrap by 2^32. */
  function ToU32(x: int): (r: nat)
    requires INT_MIN <= x <= INT_MAX
    ensures r < U32_LIMIT && (r == x || r == x + U32_LIMIT)
  {
    if x < 0 then x + U32_LIMIT else x
  }

  /** atoi reads back a run of digits that some non-digit ends. */
  lemma AtoiOfDigits(s: bytes, d: bytes, rest: bytes)
    requires s == d + rest
    requires |d| > 0 && AllDigits(d) && DigitsValue(d) <= INT_MAX
    requires rest == [] || !IsDigit(rest[0])
    ensures Atoi(s) == DigitsValue(d)
  {
    assert !IsSpace(s[0]) && s[0] != '-' && s[0] != '+' by {
      assert s[0] == d[0];
    }
    DigitRunOf(d, rest);
    assert s[..DigitRun(s)] == d;
  }

  /** What %lu writes, atoi reads back. */
  lemma AtoiOfDecimal(n: nat, rest: bytes)
    requires n <= INT_MAX
    requires rest == [] || !IsDigit(rest[0])
    ensures Atoi(Decimal(n) + rest) == n
  {
    DecimalValue(n);
    AtoiOfDigits(Decimal(n) + rest, Decimal(n), rest);
  }

  lemma {:induction false} DigitRunOf(d: bytes, rest: bytes)
    requires AllDigits(d)
    requires rest == [] || !IsDigit(rest[0])
    ensures DigitRun(d + rest) == |d|
  {
    if d != [] {
      assert (d + rest)[1..] == d[1..] + rest;
      DigitRunOf(d[1..], rest);
    } else {
      assert d + rest == rest;
    }
  }
}
