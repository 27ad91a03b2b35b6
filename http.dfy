/**
 * The C string handling behind the opening handshake of src/uwsc.c: strstr,
 * strtok, strchr, atoi, strcasecmp and "%d" on byte sequences, the verdict
 * __uwsc_notify_read and parse_header reach on a server response (section
 * 4.1 of RFC 6455), and the request text uwsc_handshake writes.
 *
 * A C string is a byte sequence without NUL; the `t` of strtok is the
 * string the tokens are cut from and `pos` the saved position strtok
 * resumes at. The NUL bytes strtok writes over delimiters lie before the
 * saved position, so they never change a later call and are not modelled.
 */
module Http {
  import opened Wrappers
  import opened Bytes

  const NUL: bv8 := 0
  const LF: bv8 := 10
  const CR: bv8 := 13
  const SPACE: bv8 := 32
  const PLUS: bv8 := 43
  const MINUS: bv8 := 45
  const COLON: bv8 := 58

  const CRLF: seq<bv8> := [CR, LF]
  const BLANK_LINE: seq<bv8> := [CR, LF, CR, LF]
  const SP: seq<bv8> := [SPACE]
  /** The bytes isspace accepts: space, \t, \n, \v, \f and \r. */
  const WHITESPACE: seq<bv8> := [32, 9, 10, 11, 12, 13]

  /** The bytes of a string literal, one per character. */
  function Ascii(s: string): (r: seq<bv8>)
    ensures |r| == |s|
  {
    seq(|s|, i requires 0 <= i < |s| => (s[i] as int % 256) as bv8)
  }

  /** The C string a char pointer designates: the bytes before the first NUL. */
  function CStr(s: seq<bv8>): (r: seq<bv8>)
    ensures r <= s && NUL !in r
  {
    s[..StrLen(s)]
  }

  // ---------------------------------------------------------------------
  // strstr
  // ---------------------------------------------------------------------

  predicate OccursAt(s: seq<bv8>, pat: seq<bv8>, i: nat) {
    i + |pat| <= |s| && s[i..i + |pat|] == pat
  }

  /** strstr from position `from`: the first occurrence of `pat` at or after it. */
  function FindFrom(s: seq<bv8>, pat: seq<bv8>, from: nat): (r: Option<nat>)
    requires from <= |s|
    ensures r.Some? ==> from <= r.value && OccursAt(s, pat, r.value)
    ensures r.Some? ==> forall j :: from <= j < r.value ==> !OccursAt(s, pat, j)
    ensures r.None? ==> forall j :: from <= j <= |s| ==> !OccursAt(s, pat, j)
    decreases |s| - from
  {
    if OccursAt(s, pat, from) then Some(from)
    else if from == |s| then None
    else FindFrom(s, pat, from + 1)
  }

  /** strstr: the first occurrence of `pat` in `s`. */
  function Find(s: seq<bv8>, pat: seq<bv8>): (r: Option<nat>)
    ensures r.Some? ==> OccursAt(s, pat, r.value) && forall j :: 0 <= j < r.value ==> !OccursAt(s, pat, j)
    ensures r.None? ==> forall j :: 0 <= j <= |s| ==> !OccursAt(s, pat, j)
  {
    FindFrom(s, pat, 0)
  }

  /** An occurrence with none before it is the one strstr finds. */
  lemma FindIsFirst(s: seq<bv8>, pat: seq<bv8>, i: nat)
    requires OccursAt(s, pat, i) && forall j :: 0 <= j < i ==> !OccursAt(s, pat, j)
    ensures Find(s, pat) == Some(i)
  {
    var r := Find(s, pat);
    assert r.Some?;
    assert r.value <= i;
  }

  /** An occurrence found in `s` is still the first one once more bytes follow `s`. */
  lemma FindIsPrefixStable(s: seq<bv8>, pat: seq<bv8>, more: seq<bv8>)
    requires Find(s, pat).Some?
    ensures Find(s + more, pat) == Find(s, pat)
  {
    var i := Find(s, pat).value;
    var u := s + more;
    assert u[i..i + |pat|] == s[i..i + |pat|];
    assert OccursAt(u, pat, i);
    forall j | 0 <= j < i
      ensures !OccursAt(u, pat, j)
    {
      assert j + |pat| <= |s|;
      assert u[j..j + |pat|] == s[j..j + |pat|];
      assert !OccursAt(s, pat, j);
    }
    FindIsFirst(u, pat, i);
  }

  // ---------------------------------------------------------------------
  // strtok and strchr
  // ---------------------------------------------------------------------

  /** strspn: the first position at or after `pos` holding no delimiter. */
  function SkipDelims(t: seq<bv8>, pos: nat, delims: seq<bv8>): (p: nat)
    requires pos <= |t|
    ensures pos <= p <= |t|
    ensures forall k :: pos <= k < p ==> t[k] in delims
    ensures p < |t| ==> t[p] !in delims
    decreases |t| - pos
  {
    if pos == |t| || t[pos] !in delims then pos else SkipDelims(t, pos + 1, delims)
  }

  /** strpbrk: the first delimiter at or after `pos`, or the end of the string. */
  function TokenEnd(t: seq<bv8>, pos: nat, delims: seq<bv8>): (e: nat)
    requires pos <= |t|
    ensures pos <= e <= |t|
    ensures forall k :: pos <= k < e ==> t[k] !in delims
    ensures e < |t| ==> t[e] in delims
    decreases |t| - pos
  {
    if pos == |t| || t[pos] in delims then pos else TokenEnd(t, pos + 1, delims)
  }

  /**
   * strtok resuming at `pos`: skip delimiters; at the end there is no
   * token; otherwise the token runs to the next delimiter, which is
   * overwritten, and the next call resumes after it (or at the end).
   */
  function StrTok(t: seq<bv8>, pos: nat, delims: seq<bv8>): (r: (Option<seq<bv8>>, nat))
    requires pos <= |t|
    ensures pos <= r.1 <= |t|
    ensures r.0.None? ==> r.1 == |t| && forall k :: pos <= k < |t| ==> t[k] in delims
    ensures r.0.Some? ==> pos < r.1 && |r.0.value| > 0 && forall k :: 0 <= k < |r.0.value| ==> r.0.value[k] !in delims
  {
    var start := SkipDelims(t, pos, delims);
    if start == |t| then (None, |t|)
    else
      var end := TokenEnd(t, start, delims);
      (Some(t[start..end]), if end == |t| then |t| else end + 1)
  }

  /**
   * A token preceded by `skip` delimiters and ended by a delimiter or by
   * the end of the string is the one strtok returns.
   */
  lemma StrTokFinds(t: seq<bv8>, pos: nat, delims: seq<bv8>, skip: nat, tok: seq<bv8>)
    requires pos + skip + |tok| <= |t|
    requires forall k :: pos <= k < pos + skip ==> t[k] in delims
    requires |tok| > 0 && t[pos + skip..pos + skip + |tok|] == tok
    requires forall k :: 0 <= k < |tok| ==> tok[k] !in delims
    requires pos + skip + |tok| < |t| ==> t[pos + skip + |tok|] in delims
    ensures StrTok(t, pos, delims)
         == (Some(tok), if pos + skip + |tok| < |t| then pos + skip + |tok| + 1 else |t|)
  {
    var b := pos + skip;
    var e := b + |tok|;
    assert forall k :: b <= k < e ==> t[k] == tok[k - b];
    assert t[b] !in delims;
    var start := SkipDelims(t, pos, delims);
    assert start == b;
    var end := TokenEnd(t, b, delims);
    assert end == e;
  }

  /** strchr: the first position of `b` in `s`. */
  function IndexOf(s: seq<bv8>, b: bv8, from: nat): (r: Option<nat>)
    requires from <= |s|
    ensures r.Some? ==> from <= r.value < |s| && s[r.value] == b
    ensures r.Some? ==> forall k :: from <= k < r.value ==> s[k] != b
    ensures r.None? ==> forall k :: from <= k < |s| ==> s[k] != b
    decreases |s| - from
  {
    if from == |s| then None
    else if s[from] == b then Some(from)
    else IndexOf(s, b, from + 1)
  }

  // ---------------------------------------------------------------------
  // atoi, "%d" and strcasecmp
  // ---------------------------------------------------------------------

  predicate IsDigit(b: bv8) {
    48 <= b <= 57
  }

  /** The end of the run of decimal digits starting at `from`. */
  function DigitsEnd(s: seq<bv8>, from: nat): (e: nat)
    requires from <= |s|
    ensures from <= e <= |s|
    ensures forall k :: from <= k < e ==> IsDigit(s[k])
    ensures e < |s| ==> !IsDigit(s[e])
    decreases |s| - from
  {
    if from == |s| || !IsDigit(s[from]) then from else DigitsEnd(s, from + 1)
  }

  /** The value of a string of decimal digits, most significant first. */
  function DigitsValue(ds: seq<bv8>): nat
    requires forall k :: 0 <= k < |ds| ==> IsDigit(ds[k])
  {
    if ds == [] then 0 else DigitsValue(ds[..|ds| - 1]) * 10 + (ds[|ds| - 1] - 48) as nat
  }

  /** The range of a C long on an LP64 host. */
  const LONG_MIN: int := -0x8000_0000_0000_0000
  const LONG_MAX: int := 0x7FFF_FFFF_FFFF_FFFF

  /** A value a 32-bit C int holds. */
  predicate IsInt32(n: int) {
    -0x8000_0000 <= n < 0x8000_0000
  }

  /** The (int) conversion of a long: the int congruent to it modulo 2^32, as gcc converts. */
  function IntCast(v: int): (r: int)
    ensures IsInt32(r) && (v - r) % 0x1_0000_0000 == 0
    ensures IsInt32(v) ==> r == v
  {
    var m := v % 0x1_0000_0000;
    if m >= 0x8000_0000 then m - 0x1_0000_0000 else m
  }

  /**
   * strtol in base 10: leading white space, an optional sign, then as many
   * digits as follow, no digits reading as 0; a value outside the range of
   * long is clamped to LONG_MIN or LONG_MAX.
   */
  function StrTol(s: seq<bv8>): (v: int)
    ensures LONG_MIN <= v <= LONG_MAX
  {
    var p := SkipDelims(s, 0, WHITESPACE);
    var signed := p < |s| && (s[p] == PLUS || s[p] == MINUS);
    var q := if signed then p + 1 else p;
    var v: int := DigitsValue(s[q..DigitsEnd(s, q)]);
    if signed && s[p] == MINUS then (if -v < LONG_MIN then LONG_MIN else -v)
    else if v > LONG_MAX then LONG_MAX else v
  }

  /** atoi: glibc's `(int) strtol(s, NULL, 10)`. */
  function Atoi(s: seq<bv8>): (n: int)
    ensures IsInt32(n)
  {
    IntCast(StrTol(s))
  }

  lemma DigitByte(d: nat)
    requires d < 10
    ensures IsDigit((48 + d) as bv8) && (((48 + d) as bv8) - 48) as nat == d
  {
    var b := ByteOf(48 + d);
    ByteRoundTrip(b);
    var e := ByteOf(d);
    ByteRoundTrip(e);
    assert b == e + 48;
  }

  /** The digit byte of d < 10. */
  function Digit(d: nat): (b: bv8)
    requires d < 10
    ensures IsDigit(b) && (b - 48) as nat == d
  {
    DigitByte(d);
    (48 + d) as bv8
  }

  /** The digits "%u" prints for a natural number, most significant first. */
  function NatDigits(n: nat): (ds: seq<bv8>)
    ensures |ds| > 0 && forall k :: 0 <= k < |ds| ==> IsDigit(ds[k])
  {
    if n < 10 then [Digit(n)] else NatDigits(n / 10) + [Digit(n % 10)]
  }

  /** The digits of n read back as n. */
  lemma {:induction false} NatDigitsValue(n: nat)
    ensures DigitsValue(NatDigits(n)) == n
  {
    if n >= 10 {
      var ds := NatDigits(n);
      var high := NatDigits(n / 10);
      assert ds[..|ds| - 1] == high;
      NatDigitsValue(n / 10);
      assert DigitsValue(ds) == (n / 10) * 10 + n % 10;
    }
  }

  /** What "%d" prints for an int. */
  function Decimal(n: int): (ds: seq<bv8>)
    ensures |ds| > 0 && NUL !in ds && CR !in ds && LF !in ds
  {
    if n < 0 then [MINUS] + NatDigits(-n) else NatDigits(n)
  }

  /**
   * atoi reads back every int that "%d" printed; a larger number within
   * the range of long reads back as its (int) conversion, modulo 2^32.
   */
  lemma AtoiDecimal(n: int)
    requires LONG_MIN <= n <= LONG_MAX
    ensures Atoi(Decimal(n)) == IntCast(n)
    ensures IsInt32(n) ==> Atoi(Decimal(n)) == n
  {
    StrTolDecimal(n);
  }

  /** strtol reads back every long that "%d" printed. */
  lemma StrTolDecimal(n: int)
    requires LONG_MIN <= n <= LONG_MAX
    ensures StrTol(Decimal(n)) == n
  {
    var s := Decimal(n);
    var m: nat := if n < 0 then -n else n;
    var q := if n < 0 then 1 else 0;
    assert s[0] !in WHITESPACE;
    assert SkipDelims(s, 0, WHITESPACE) == 0;
    assert s[q..] == NatDigits(m);
    assert DigitsEnd(s, q) == |s|;
    assert s[q..DigitsEnd(s, q)] == NatDigits(m);
    NatDigitsValue(m);
  }

  /** tolower in the C locale. */
  function Lower(b: bv8): bv8 {
    if 65 <= b <= 90 then b + 32 else b
  }

  /** strcasecmp(a, b) == 0 on two C strings. */
  predicate CaseEq(a: seq<bv8>, b: seq<bv8>) {
    |a| == |b| && forall k :: 0 <= k < |a| ==> Lower(a[k]) == Lower(b[k])
  }

  // ---------------------------------------------------------------------
  // parse_header
  // ---------------------------------------------------------------------

  /** Which of the three required response headers parse_header has seen. */
  datatype HeaderFlags = HeaderFlags(upgrade: bool, connection: bool, accept: bool) {
    predicate Complete() {
      upgrade && connection && accept
    }
  }

  const NO_FLAGS := HeaderFlags(false, false, false)

  /**
   * A header line cut at its first colon, the value without its leading
   * spaces; None for a line without a colon.
   */
  function SplitHeader(line: seq<bv8>): Option<(seq<bv8>, seq<bv8>)> {
    match IndexOf(line, COLON, 0)
    case None => None
    case Some(c) => Some((line[..c], line[SkipDelims(line, c + 1, SP)..]))
  }

  /** One header as parse_header judges it. */
  function Observe(f: HeaderFlags, name: seq<bv8>, value: seq<bv8>): HeaderFlags {
    HeaderFlags(
      f.upgrade || (CaseEq(name, Ascii("Upgrade")) && CaseEq(value, Ascii("websocket"))),
      f.connection || (CaseEq(name, Ascii("Connection")) && CaseEq(value, Ascii("upgrade"))),
      f.accept || CaseEq(name, Ascii("Sec-WebSocket-Accept")))
  }

  /**
   * The flags parse_header ends with when strtok resumes at `pos`: lines cut
   * at CR and LF, up to the end or to the first line without a colon.
   */
  function ScanHeaders(t: seq<bv8>, pos: nat, f: HeaderFlags): HeaderFlags
    requires pos <= |t|
    decreases |t| - pos
  {
    var line := StrTok(t, pos, CRLF);
    if line.0.None? then f
    else
      var field := SplitHeader(line.0.value);
      if field.None? then f else ScanHeaders(t, line.1, Observe(f, field.value.0, field.value.1))
  }

  predicate HeadersOk(t: seq<bv8>, pos: nat)
    requires pos <= |t|
  {
    ScanHeaders(t, pos, NO_FLAGS).Complete()
  }

  /** The `while (*value == ' ') value++;` of parse_header. */
  method SkipSpaces(line: seq<bv8>, from: nat) returns (v: nat)
    requires from <= |line|
    ensures v == SkipDelims(line, from, SP)
  {
    v := from;
    while v < |line| && line[v] == SPACE
      invariant from <= v <= |line|
      invariant SkipDelims(line, v, SP) == SkipDelims(line, from, SP)
      decreases |line| - v
    {
      v := v + 1;
    }
  }

  /** The `strchr` and `*v++ = 0` of parse_header: a line cut at its first colon, the value's leading spaces skipped. */
  method CutHeader(line: seq<bv8>) returns (field: Option<(seq<bv8>, seq<bv8>)>)
    ensures field == SplitHeader(line)
  {
    var colon := IndexOf(line, COLON, 0);
    if colon.None? {
      return None;
    }
    var v := SkipSpaces(line, colon.value + 1);
    return Some((line[..colon.value], line[v..]));
  }

  /** The three strcasecmp tests of parse_header on one header, each setting its flag. */
  method ObserveHeader(name: seq<bv8>, value: seq<bv8>, upgrade: bool, connection: bool, accept: bool)
    returns (upgrade': bool, connection': bool, accept': bool)
    ensures HeaderFlags(upgrade', connection', accept') == Observe(HeaderFlags(upgrade, connection, accept), name, value)
  {
    upgrade', connection', accept' := upgrade, connection, accept;
    if CaseEq(name, Ascii("Upgrade")) && CaseEq(value, Ascii("websocket")) {
      upgrade' := true;
    }
    if CaseEq(name, Ascii("Connection")) && CaseEq(value, Ascii("upgrade")) {
      connection' := true;
    }
    if CaseEq(name, Ascii("Sec-WebSocket-Accept")) {
      accept' := true;
    }
  }

  /**
   * parse_header: strtok resumes at `pos` and takes line after line; each
   * line is cut at its first colon, the spaces after it skipped, and the
   * three flags set on the headers that carry them. The result is 0 when
   * all three were seen and -1 otherwise.
   */
  method ParseHeader(t: seq<bv8>, pos: nat) returns (r: int)
    requires pos <= |t|
    ensures r == 0 <==> HeadersOk(t, pos)
    ensures r == 0 || r == -1
  {
    var hasUpgrade, hasConnection, hasAccept := false, false, false;
    var p := pos;
    while true
      invariant p <= |t|
      invariant ScanHeaders(t, p, HeaderFlags(hasUpgrade, hasConnection, hasAccept)) == ScanHeaders(t, pos, NO_FLAGS)
      decreases |t| - p
    {
      var k := StrTok(t, p, CRLF);
      if k.0.None? {
        break;
      }
      var field := CutHeader(k.0.value);
      if field.None? {
        break;
      }
      hasUpgrade, hasConnection, hasAccept := ObserveHeader(field.value.0, field.value.1, hasUpgrade, hasConnection, hasAccept);
      p := k.1;
    }
    if !hasUpgrade || !hasConnection || !hasAccept {
      return -1;
    }
    return 0;
  }

  // ---------------------------------------------------------------------
  // The handshake branch of __uwsc_notify_read
  // ---------------------------------------------------------------------

  /** What the handshake branch concludes from the unread bytes. */
  datatype Verdict =
    | NoTerminator
    | Invalid
    | Accepted(consumed: nat)

  const HTTP11: seq<bv8> := Ascii("HTTP/1.1")

  /**
   * The status line, as the three strtok calls cut it from the head `t`,
   * must read "HTTP/1.1", a status atoi reads as 101 and a reason phrase;
   * then the headers must pass parse_header. On acceptance `consumed`
   * bytes are taken.
   */
  function HeadVerdict(t: seq<bv8>, consumed: nat): (v: Verdict)
    ensures v == Invalid || v == Accepted(consumed)
  {
    var version := StrTok(t, 0, SP);
    var status := StrTok(t, version.1, SP);
    var summary := StrTok(t, status.1, CRLF);
    if version.0 != Some(HTTP11) then Invalid
    else if status.0.None? || Atoi(status.0.value) != 101 then Invalid
    else if summary.0.None? then Invalid
    else if !HeadersOk(t, summary.1) then Invalid
    else Accepted(consumed)
  }

  /**
   * The handshake branch on the C string at hand: without a blank line it
   * waits; otherwise the head is cut after the CRLF that starts the blank
   * line, and an accepted response is consumed through the blank line.
   */
  function ResponseVerdict(unread: seq<bv8>): Verdict {
    var s := CStr(unread);
    match Find(s, BLANK_LINE)
    case None => NoTerminator
    case Some(i) => HeadVerdict(s[..i + 2], i + 4)
  }

  /**
   * An accepted response is consumed exactly through its first blank line,
   * which lies before any NUL byte; without a blank line before the first
   * NUL the branch waits for more bytes.
   */
  lemma AcceptedThroughFirstBlankLine(unread: seq<bv8>)
    ensures ResponseVerdict(unread).NoTerminator? <==> Find(CStr(unread), BLANK_LINE).None?
    ensures var v := ResponseVerdict(unread); v.Accepted? ==>
      && 4 <= v.consumed <= |unread| && NUL !in unread[..v.consumed]
      && unread[v.consumed - 4..v.consumed] == BLANK_LINE
      && forall j :: 0 <= j < v.consumed - 4 ==> !OccursAt(unread, BLANK_LINE, j)
  {
    var s := CStr(unread);
    var f := Find(s, BLANK_LINE);
    if f.Some? {
      var i := f.value;
      assert s[i..i + 4] == BLANK_LINE;
      assert unread[i..i + 4] == s[i..i + 4];
      assert unread[..i + 4] == s[..i + 4];
      forall j | 0 <= j < i
        ensures !OccursAt(unread, BLANK_LINE, j)
      {
        assert unread[j..j + 4] == s[j..j + 4];
        assert !OccursAt(s, BLANK_LINE, j);
      }
    }
  }

  /** A verdict reached on the bytes at hand stands whatever arrives after them. */
  lemma VerdictIsPrefixStable(unread: seq<bv8>, more: seq<bv8>)
    requires !ResponseVerdict(unread).NoTerminator?
    ensures ResponseVerdict(unread + more) == ResponseVerdict(unread)
  {
    var u := unread + more;
    var s := CStr(unread);
    var n := StrLen(unread);
    if n < |unread| {
      assert u[n] == 0;
      assert u[..n] == s;
      StrLenOfPrefix(u, n);
      assert CStr(u) == s;
    } else {
      assert s == unread;
      StrLenOfExtension(unread, more);
      assert CStr(u) == s + CStr(more);
      FindIsPrefixStable(s, BLANK_LINE, CStr(more));
      var i := Find(s, BLANK_LINE).value;
      assert CStr(u)[..i + 2] == s[..i + 2];
    }
  }

  lemma StrLenOfPrefix(u: seq<bv8>, n: nat)
    requires n < |u| && u[n] == 0 && 0 !in u[..n]
    ensures StrLen(u) == n
  {
    var m := StrLen(u);
    assert forall k :: 0 <= k < n ==> u[..n][k] == u[k];
    assert forall k :: 0 <= k < m ==> u[..m][k] == u[k];
  }

  lemma StrLenOfExtension(s: seq<bv8>, more: seq<bv8>)
    requires 0 !in s
    ensures CStr(s + more) == s + CStr(more)
  {
    var u := s + more;
    var m := StrLen(more);
    forall k | 0 <= k < |s| + m
      ensures u[k] != 0
    {
      if k < |s| {
        assert u[k] == s[k] && s[k] in s;
      } else {
        assert u[k] == more[..m][k - |s|];
      }
    }
    assert u[..|s| + m] == s + more[..m];
    if m < |more| {
      assert u[|s| + m] == 0;
      StrLenOfPrefix(u, |s| + m);
    } else {
      assert forall k :: 0 <= k < StrLen(u) ==> u[..StrLen(u)][k] == u[k];
    }
  }

  // ---------------------------------------------------------------------
  // A well-formed response, built line by line
  // ---------------------------------------------------------------------

  /** A line of an HTTP head: not empty, without CR, LF or NUL. */
  predicate PlainLine(l: seq<bv8>) {
    |l| > 0 && forall k :: 0 <= k < |l| ==> l[k] != CR && l[k] != LF && l[k] != NUL
  }

  /** Lines, each ended by CRLF. */
  function Lines(ls: seq<seq<bv8>>): seq<bv8> {
    if ls == [] then [] else ls[0] + CRLF + Lines(ls[1..])
  }

  /** Lines end with the CRLF of the last line. */
  lemma {:induction false} LinesEndWithCRLF(ls: seq<seq<bv8>>)
    requires |ls| > 0
    ensures |Lines(ls)| >= 2 && Lines(ls)[|Lines(ls)| - 2..] == CRLF
    decreases |ls|
  {
    if |ls| > 1 {
      LinesEndWithCRLF(ls[1..]);
    }
  }

  function StatusLine(version: seq<bv8>, status: seq<bv8>, reason: seq<bv8>): seq<bv8> {
    version + SP + status + SP + reason
  }

  /** The flags a sequence of header lines yields, read up to the first line without a colon. */
  function HeaderFlagsOf(lines: seq<seq<bv8>>, f: HeaderFlags): HeaderFlags {
    if lines == [] then f
    else
      var field := SplitHeader(lines[0]);
      if field.None? then f else HeaderFlagsOf(lines[1..], Observe(f, field.value.0, field.value.1))
  }

  /** The number of leading lines that carry a colon: parse_header reads no further. */
  function ColonRun(lines: seq<seq<bv8>>): (n: nat)
    ensures n <= |lines|
    ensures forall j :: 0 <= j < n ==> SplitHeader(lines[j]).Some?
    ensures n < |lines| ==> SplitHeader(lines[n]).None?
  {
    if lines == [] || SplitHeader(lines[0]).None? then 0
    else
      var n := 1 + ColonRun(lines[1..]);
      assert forall j :: 1 <= j < n ==> lines[j] == lines[1..][j - 1];
      n
  }

  /** "Upgrade: websocket", either side in any case. */
  predicate UpgradeLine(line: seq<bv8>) {
    var field := SplitHeader(line);
    field.Some? && CaseEq(field.value.0, Ascii("Upgrade")) && CaseEq(field.value.1, Ascii("websocket"))
  }

  /** "Connection: upgrade", either side in any case. */
  predicate ConnectionLine(line: seq<bv8>) {
    var field := SplitHeader(line);
    field.Some? && CaseEq(field.value.0, Ascii("Connection")) && CaseEq(field.value.1, Ascii("upgrade"))
  }

  /** A "Sec-WebSocket-Accept" header, name in any case, any value. */
  predicate AcceptLine(line: seq<bv8>) {
    var field := SplitHeader(line);
    field.Some? && CaseEq(field.value.0, Ascii("Sec-WebSocket-Accept"))
  }

  /** Some line among the first `n` satisfies `P`. */
  predicate SomeLine(lines: seq<seq<bv8>>, n: nat, P: seq<bv8> -> bool)
    requires n <= |lines|
  {
    exists i :: 0 <= i < n && P(lines[i])
  }

  /** A line among the first n + 1 is the first line or one among the next n. */
  lemma SomeLineCons(lines: seq<seq<bv8>>, n: nat, P: seq<bv8> -> bool)
    requires lines != [] && n + 1 <= |lines|
    ensures SomeLine(lines, n + 1, P) <==> P(lines[0]) || SomeLine(lines[1..], n, P)
  {
    if SomeLine(lines, n + 1, P) {
      var i :| 0 <= i < n + 1 && P(lines[i]);
      if i > 0 {
        assert lines[1..][i - 1] == lines[i];
      }
    }
    if SomeLine(lines[1..], n, P) {
      var i :| 0 <= i < n && P(lines[1..][i]);
      assert lines[i + 1] == lines[1..][i];
    }
  }

  /**
   * Each flag parse_header ends with is set exactly when it was set at the
   * start or a line before the first line without a colon carries that
   * header.
   */
  lemma {:induction false} HeaderFlagsFound(lines: seq<seq<bv8>>, f: HeaderFlags)
    ensures var g := HeaderFlagsOf(lines, f); var n := ColonRun(lines);
      && (g.upgrade <==> f.upgrade || SomeLine(lines, n, UpgradeLine))
      && (g.connection <==> f.connection || SomeLine(lines, n, ConnectionLine))
      && (g.accept <==> f.accept || SomeLine(lines, n, AcceptLine))
    decreases |lines|
  {
    if lines != [] && SplitHeader(lines[0]).Some? {
      var field := SplitHeader(lines[0]);
      HeaderFlagsFound(lines[1..], Observe(f, field.value.0, field.value.1));
      var n := ColonRun(lines[1..]);
      SomeLineCons(lines, n, UpgradeLine);
      SomeLineCons(lines, n, ConnectionLine);
      SomeLineCons(lines, n, AcceptLine);
    }
  }

  /**
   * The handshake's headers are complete exactly when, before the first
   * line without a colon, one line says "Upgrade: websocket", one says
   * "Connection: upgrade" and one is named "Sec-WebSocket-Accept".
   */
  lemma HandshakeHeadersPresent(lines: seq<seq<bv8>>)
    ensures var n := ColonRun(lines);
      HeaderFlagsOf(lines, NO_FLAGS).Complete() <==>
        SomeLine(lines, n, UpgradeLine) && SomeLine(lines, n, ConnectionLine) && SomeLine(lines, n, AcceptLine)
  {
    HeaderFlagsFound(lines, NO_FLAGS);
  }

  /** A position whose first or third byte is not CR starts no blank line. */
  lemma NotBlankAt(s: seq<bv8>, j: nat)
    requires j + 4 <= |s| ==> s[j] != CR || s[j + 2] != CR
    ensures !OccursAt(s, BLANK_LINE, j)
  {
    assert j + 4 <= |s| ==> s[j..j + 4][0] == s[j] && s[j..j + 4][2] == s[j + 2];
  }

  /** Plain lines ended by CRLF and followed by CRLF hold no blank line before the last line's end. */
  lemma {:induction false} NoBlankLineBefore(ls: seq<seq<bv8>>, tail: seq<bv8>)
    requires |ls| > 0 && forall k :: 0 <= k < |ls| ==> PlainLine(ls[k])
    ensures forall j :: 0 <= j < |Lines(ls)| - 2 ==> !OccursAt(Lines(ls) + tail, BLANK_LINE, j)
    decreases |ls|
  {
    var l := ls[0];
    var rest := Lines(ls[1..]);
    var s := Lines(ls) + tail;
    assert s == l + CRLF + (rest + tail);
    if |ls| > 1 {
      NoBlankLineBefore(ls[1..], tail);
    }
    forall j | 0 <= j < |Lines(ls)| - 2
      ensures !OccursAt(s, BLANK_LINE, j)
    {
      if j < |l| {
        assert s[j] == l[j];
        NotBlankAt(s, j);
      } else if j == |l| {
        assert |ls| > 1;
        assert ls[1..][0] == ls[1];
        assert s[j + 2] == ls[1][0];
        NotBlankAt(s, j);
      } else if j == |l| + 1 {
        assert s[j] == LF;
        NotBlankAt(s, j);
      } else {
        var j' := j - |l| - 2;
        assert j + 4 <= |s| ==> s[j..j + 4] == (rest + tail)[j'..j' + 4];
        assert !OccursAt(rest + tail, BLANK_LINE, j');
      }
    }
  }

  /** The first blank line after plain lines is the one that closes them. */
  lemma FirstBlankLine(ls: seq<seq<bv8>>, tail: seq<bv8>)
    requires |ls| > 0 && forall k :: 0 <= k < |ls| ==> PlainLine(ls[k])
    requires |tail| >= 2 && tail[..2] == CRLF
    ensures Find(Lines(ls) + tail, BLANK_LINE) == Some(|Lines(ls)| - 2)
  {
    var s := Lines(ls) + tail;
    LinesEndWithCRLF(ls);
    var i := |Lines(ls)| - 2;
    assert s[i..i + 4] == Lines(ls)[i..] + tail[..2];
    NoBlankLineBefore(ls, tail);
    FindIsFirst(s, BLANK_LINE, i);
  }

  /** Lines are free of NUL when each line is plain. */
  lemma {:induction false} LinesHaveNoNul(ls: seq<seq<bv8>>)
    requires forall k :: 0 <= k < |ls| ==> PlainLine(ls[k])
    ensures NUL !in Lines(ls)
    decreases |ls|
  {
    if ls != [] {
      LinesHaveNoNul(ls[1..]);
      var l := ls[0];
      var r := Lines(ls[1..]);
      var s := Lines(ls);
      assert s == l + CRLF + r;
      forall k | 0 <= k < |s|
        ensures s[k] != NUL
      {
        if k < |l| {
          assert s[k] == l[k];
        } else if k >= |l| + 2 {
          assert s[k] == r[k - |l| - 2] && r[k - |l| - 2] in r;
        }
      }
    }
  }

  lemma LinesCons(ls: seq<seq<bv8>>)
    requires ls != []
    ensures [LF] + Lines(ls) == [LF] + ls[0] + CRLF + Lines(ls[1..])
  {
  }

  lemma LinesOfFirst(l: seq<bv8>, ls: seq<seq<bv8>>)
    ensures Lines([l] + ls) == l + CRLF + Lines(ls)
  {
    assert ([l] + ls)[1..] == ls;
  }

  lemma PlainLinesCons(l: seq<bv8>, ls: seq<seq<bv8>>)
    requires PlainLine(l) && forall k :: 0 <= k < |ls| ==> PlainLine(ls[k])
    ensures forall k :: 0 <= k < |[l] + ls| ==> PlainLine(([l] + ls)[k])
  {
  }

  /** Lines with one more line at the end. */
  lemma {:induction false} LinesSnoc(ls: seq<seq<bv8>>, l: seq<bv8>)
    ensures Lines(ls + [l]) == Lines(ls) + l + CRLF
    decreases |ls|
  {
    if ls == [] {
      assert ls + [l] == [l];
      assert [l][1..] == [];
    } else {
      assert (ls + [l])[1..] == ls[1..] + [l];
      LinesSnoc(ls[1..], l);
    }
  }

  /** strtok with CR and LF as delimiters, resuming at the LF of a CRLF, returns the next plain line. */
  lemma NextLine(t: seq<bv8>, pos: nat, l: seq<bv8>, rest: seq<bv8>)
    requires pos < |t| && t[pos..] == [LF] + l + CRLF + rest
    requires PlainLine(l)
    ensures pos + 2 + |l| < |t| && t[pos + 2 + |l|..] == [LF] + rest
    ensures StrTok(t, pos, CRLF) == (Some(l), pos + 2 + |l|)
  {
    var u := t[pos..];
    assert t[pos] == u[0] == LF;
    assert t[pos + 1..pos + 1 + |l|] == u[1..1 + |l|] == l;
    assert t[pos + 1 + |l|] == u[1 + |l|] == CR;
    assert t[pos + 2 + |l|..] == u[2 + |l|..];
    assert forall k :: 0 <= k < |l| ==> l[k] !in CRLF;
    StrTokFinds(t, pos, CRLF, 1, l);
  }

  /** One round of parse_header's loop: the line strtok returns, if it has a colon, is observed. */
  lemma ScanHeadersStep(t: seq<bv8>, pos: nat, f: HeaderFlags, l: seq<bv8>, next: nat)
    requires pos <= |t| && StrTok(t, pos, CRLF) == (Some(l), next)
    ensures var field := SplitHeader(l);
      ScanHeaders(t, pos, f) == if field.None? then f else ScanHeaders(t, next, Observe(f, field.value.0, field.value.1))
  {
  }

  /** The line-by-line reading of header lines, one line at a time. */
  lemma HeaderFlagsOfStep(headers: seq<seq<bv8>>, f: HeaderFlags)
    requires headers != []
    ensures var field := SplitHeader(headers[0]);
      HeaderFlagsOf(headers, f) == if field.None? then f else HeaderFlagsOf(headers[1..], Observe(f, field.value.0, field.value.1))
  {
  }

  /** parse_header over plain header lines, each ended by CRLF, is the line-by-line reading. */
  lemma {:induction false} ScanHeaderLines(t: seq<bv8>, pos: nat, headers: seq<seq<bv8>>, f: HeaderFlags)
    requires pos < |t| && t[pos..] == [LF] + Lines(headers)
    requires forall k :: 0 <= k < |headers| ==> PlainLine(headers[k])
    ensures ScanHeaders(t, pos, f) == HeaderFlagsOf(headers, f)
    decreases |headers|
  {
    if headers == [] {
      assert t[pos] == t[pos..][0] == LF;
      assert pos + 1 == |t|;
      assert SkipDelims(t, pos, CRLF) == |t|;
    } else {
      var l := headers[0];
      var rest := headers[1..];
      LinesCons(headers);
      NextLine(t, pos, l, Lines(rest));
      var next := pos + 2 + |l|;
      ScanHeadersStep(t, pos, f, l, next);
      HeaderFlagsOfStep(headers, f);
      var field := SplitHeader(l);
      if field.Some? {
        var f' := Observe(f, field.value.0, field.value.1);
        assert forall k :: 0 <= k < |rest| ==> PlainLine(rest[k]) by {
          forall k | 0 <= k < |rest| ensures PlainLine(rest[k]) {
            assert rest[k] == headers[k + 1];
          }
        }
        ScanHeaderLines(t, next, rest, f');
      }
    }
  }

  /** A status line of plain, space-free version and status and a plain reason is plain. */
  lemma StatusLinePlain(version: seq<bv8>, status: seq<bv8>, reason: seq<bv8>)
    requires PlainLine(version) && PlainLine(status) && PlainLine(reason)
    ensures PlainLine(StatusLine(version, status, reason))
  {
    var line := StatusLine(version, status, reason);
    forall k | 0 <= k < |line|
      ensures line[k] != CR && line[k] != LF && line[k] != NUL
    {
      if k < |version| {
        assert line[k] == version[k];
      } else if k == |version| {
      } else if k < |version| + 1 + |status| {
        assert line[k] == status[k - |version| - 1];
      } else if k == |version| + 1 + |status| {
      } else {
        assert line[k] == reason[k - |version| - 2 - |status|];
      }
    }
  }

  /** The head and blank line of a response made of plain lines is what the handshake branch judges. */
  lemma ResponseHead(ls: seq<seq<bv8>>, head: seq<bv8>, body: seq<bv8>)
    requires |ls| > 0 && forall k :: 0 <= k < |ls| ==> PlainLine(ls[k])
    requires head == Lines(ls)
    ensures ResponseVerdict(head + CRLF + body) == HeadVerdict(head, |head| + 2)
  {
    LinesHaveNoNul(ls);
    HeadBeforeNul(head, body);
    FirstBlankLine(ls, CRLF + CStr(body));
    var s := CStr(head + CRLF + body);
    assert s[..|head|] == head;
  }

  /** The C string of a NUL-free head, a CRLF and a body runs through the head and the CRLF. */
  lemma HeadBeforeNul(head: seq<bv8>, body: seq<bv8>)
    requires NUL !in head
    ensures CStr(head + CRLF + body) == head + (CRLF + CStr(body))
  {
    assert NUL !in head + CRLF;
    StrLenOfExtension(head + CRLF, body);
  }

  /**
   * The verdict a response of status line fields `version` and `status`
   * and header lines `headers` deserves: accepted exactly when the version
   * is "HTTP/1.1", atoi reads the status as 101 and the headers carry the
   * three required fields.
   */
  function Expected(version: seq<bv8>, status: seq<bv8>, headers: seq<seq<bv8>>, consumed: nat): Verdict {
    if version == HTTP11 && Atoi(status) == 101 && HeaderFlagsOf(headers, NO_FLAGS).Complete()
    then Accepted(consumed)
    else Invalid
  }

  /** A token followed by a delimiter, where strtok resumes, is the token strtok returns. */
  lemma TokenThenDelimiter(t: seq<bv8>, start: nat, delims: seq<bv8>, tok: seq<bv8>, d: bv8, rest: seq<bv8>, next: nat)
    requires start <= |t| && t[start..] == tok + [d] + rest
    requires |tok| > 0 && d in delims && forall k :: 0 <= k < |tok| ==> tok[k] !in delims
    requires next == start + |tok| + 1
    ensures StrTok(t, start, delims) == (Some(tok), next)
    ensures next <= |t| && t[next..] == rest
  {
    var u := t[start..];
    assert t[start..start + |tok|] == u[..|tok|] == tok;
    assert t[start + |tok|] == u[|tok|] == d;
    assert t[start + |tok| + 1..] == u[|tok| + 1..];
    StrTokFinds(t, start, delims, 0, tok);
  }

  /** The head as the status line's fields, their separators and the header lines. */
  lemma StatusLineSplit(version: seq<bv8>, status: seq<bv8>, reason: seq<bv8>, h: seq<bv8>)
    ensures StatusLine(version, status, reason) + CRLF + h
         == version + [SPACE] + (status + [SPACE] + (reason + [CR] + ([LF] + h)))
  {
  }

  /** The handshake verdict once the three strtok calls are known and plain header lines follow. */
  lemma HeadVerdictOfTokens(t: seq<bv8>, consumed: nat, version: seq<bv8>, status: seq<bv8>, reason: seq<bv8>,
                            headers: seq<seq<bv8>>, n1: nat, n2: nat, n3: nat)
    requires n1 <= |t| && n2 <= |t|
    requires StrTok(t, 0, SP) == (Some(version), n1)
    requires StrTok(t, n1, SP) == (Some(status), n2)
    requires StrTok(t, n2, CRLF) == (Some(reason), n3)
    requires n3 < |t| && t[n3..] == [LF] + Lines(headers)
    requires forall k :: 0 <= k < |headers| ==> PlainLine(headers[k])
    ensures HeadVerdict(t, consumed) == Expected(version, status, headers, consumed)
  {
    ScanHeaderLines(t, n3, headers, NO_FLAGS);
  }

  /** The three strtok calls cut a status line of space-free version and status and a plain reason. */
  lemma StatusTokens(t: seq<bv8>, version: seq<bv8>, status: seq<bv8>, reason: seq<bv8>, h: seq<bv8>,
                     n1: nat, n2: nat, n3: nat)
    requires t == version + [SPACE] + (status + [SPACE] + (reason + [CR] + ([LF] + h)))
    requires PlainLine(version) && SPACE !in version
    requires PlainLine(status) && SPACE !in status
    requires PlainLine(reason)
    requires n1 == |version| + 1 && n2 == n1 + |status| + 1 && n3 == n2 + |reason| + 1
    ensures n1 <= |t| && n2 <= |t|
    ensures StrTok(t, 0, SP) == (Some(version), n1)
    ensures StrTok(t, n1, SP) == (Some(status), n2)
    ensures StrTok(t, n2, CRLF) == (Some(reason), n3)
    ensures n3 < |t| && t[n3..] == [LF] + h
  {
    var r2 := reason + [CR] + ([LF] + h);
    var r1 := status + [SPACE] + r2;
    assert t[0..] == version + [SPACE] + r1;
    assert forall k :: 0 <= k < |version| ==> version[k] !in SP;
    TokenThenDelimiter(t, 0, SP, version, SPACE, r1, n1);
    assert forall k :: 0 <= k < |status| ==> status[k] !in SP;
    TokenThenDelimiter(t, n1, SP, status, SPACE, r2, n2);
    assert forall k :: 0 <= k < |reason| ==> reason[k] !in CRLF;
    TokenThenDelimiter(t, n2, CRLF, reason, CR, [LF] + h, n3);
  }

  /** The three strtok calls and parse_header read a plain status line and plain header lines field by field. */
  lemma StatusAndHeaders(version: seq<bv8>, status: seq<bv8>, reason: seq<bv8>,
                         headers: seq<seq<bv8>>, consumed: nat)
    requires PlainLine(version) && SPACE !in version
    requires PlainLine(status) && SPACE !in status
    requires PlainLine(reason)
    requires forall k :: 0 <= k < |headers| ==> PlainLine(headers[k])
    ensures HeadVerdict(StatusLine(version, status, reason) + CRLF + Lines(headers), consumed)
      == Expected(version, status, headers, consumed)
  {
    var h := Lines(headers);
    StatusLineSplit(version, status, reason, h);
    var t := StatusLine(version, status, reason) + CRLF + h;
    var n1 := |version| + 1;
    var n2 := n1 + |status| + 1;
    var n3 := n2 + |reason| + 1;
    StatusTokens(t, version, status, reason, h, n1, n2, n3);
    HeadVerdictOfTokens(t, consumed, version, status, reason, headers, n1, n2, n3);
  }

  /**
   * The response a conforming server sends, a status line, header lines
   * and a blank line, is accepted exactly when the version is "HTTP/1.1",
   * atoi reads the status as 101 and the headers carry the three required
   * fields; it is then consumed through the blank line, and whatever
   * follows is left unread.
   */
  lemma WellFormedResponseVerdict(version: seq<bv8>, status: seq<bv8>, reason: seq<bv8>,
                                  headers: seq<seq<bv8>>, head: seq<bv8>, body: seq<bv8>)
    requires PlainLine(version) && SPACE !in version
    requires PlainLine(status) && SPACE !in status
    requires PlainLine(reason)
    requires forall k :: 0 <= k < |headers| ==> PlainLine(headers[k])
    requires head == Lines([StatusLine(version, status, reason)] + headers)
    ensures ResponseVerdict(head + CRLF + body) == Expected(version, status, headers, |head| + 2)
  {
    StatusResponseHead(version, status, reason, headers, head, body);
    HeadOfStatusAndHeaders(version, status, reason, headers, |head| + 2);
  }

  /**
   * A status whose number is 101 modulo 2^32, such as 4294967397, passes
   * the test for 101, because atoi's (int) conversion drops the high bits.
   */
  lemma WrappedStatusAccepted(n: int, headers: seq<seq<bv8>>, consumed: nat)
    requires LONG_MIN <= n <= LONG_MAX && n % 0x1_0000_0000 == 101
    requires HeaderFlagsOf(headers, NO_FLAGS).Complete()
    ensures Expected(HTTP11, Decimal(n), headers, consumed) == Accepted(consumed)
  {
    AtoiDecimal(n);
  }

  /** ResponseHead for a status line and header lines. */
  lemma StatusResponseHead(version: seq<bv8>, status: seq<bv8>, reason: seq<bv8>,
                           headers: seq<seq<bv8>>, head: seq<bv8>, body: seq<bv8>)
    requires PlainLine(version) && PlainLine(status) && PlainLine(reason)
    requires forall k :: 0 <= k < |headers| ==> PlainLine(headers[k])
    requires head == Lines([StatusLine(version, status, reason)] + headers)
    ensures ResponseVerdict(head + CRLF + body) == HeadVerdict(head, |head| + 2)
  {
    PlainResponseLines(version, status, reason, headers);
    ResponseHead([StatusLine(version, status, reason)] + headers, head, body);
  }

  lemma PlainResponseLines(version: seq<bv8>, status: seq<bv8>, reason: seq<bv8>, headers: seq<seq<bv8>>)
    requires PlainLine(version) && PlainLine(status) && PlainLine(reason)
    requires forall k :: 0 <= k < |headers| ==> PlainLine(headers[k])
    ensures var ls := [StatusLine(version, status, reason)] + headers;
      |ls| > 0 && forall k :: 0 <= k < |ls| ==> PlainLine(ls[k])
  {
    StatusLinePlain(version, status, reason);
    PlainLinesCons(StatusLine(version, status, reason), headers);
  }

  /** HeadVerdict on the status line and header lines, joined as Lines joins them. */
  lemma HeadOfStatusAndHeaders(version: seq<bv8>, status: seq<bv8>, reason: seq<bv8>,
                               headers: seq<seq<bv8>>, consumed: nat)
    requires PlainLine(version) && SPACE !in version
    requires PlainLine(status) && SPACE !in status
    requires PlainLine(reason)
    requires forall k :: 0 <= k < |headers| ==> PlainLine(headers[k])
    ensures HeadVerdict(Lines([StatusLine(version, status, reason)] + headers), consumed)
      == Expected(version, status, headers, consumed)
  {
    LinesOfFirst(StatusLine(version, status, reason), headers);
    StatusAndHeaders(version, status, reason, headers, consumed);
  }

  // ---------------------------------------------------------------------
  // uwsc_handshake
  // ---------------------------------------------------------------------

  /** The port suffix of the Host line: nothing for port 80, ":%d" otherwise. */
  function PortSuffix(port: int): seq<bv8> {
    if port == 80 then [] else [COLON] + Decimal(port)
  }

  /** The request text uwsc_handshake writes, printf by printf. */
  function HandshakeRequest(host: seq<bv8>, port: int, path: seq<bv8>, key: seq<bv8>): seq<bv8> {
    Ascii("GET ") + CStr(path) + Ascii(" HTTP/1.1") + CRLF
    + Ascii("Upgrade: websocket") + CRLF
    + Ascii("Connection: Upgrade") + CRLF
    + (Ascii("Sec-WebSocket-Key: ") + CStr(key)) + CRLF
    + Ascii("Sec-WebSocket-Version: 13") + CRLF
    + (Ascii("Host: ") + CStr(host) + PortSuffix(port)) + CRLF
    + CRLF
  }

  /** The lines of the request, without their CRLF. */
  function RequestLines(host: seq<bv8>, port: int, path: seq<bv8>, key: seq<bv8>): seq<seq<bv8>> {
    [ Ascii("GET ") + CStr(path) + Ascii(" HTTP/1.1"),
      Ascii("Upgrade: websocket"),
      Ascii("Connection: Upgrade"),
      Ascii("Sec-WebSocket-Key: ") + CStr(key),
      Ascii("Sec-WebSocket-Version: 13"),
      Ascii("Host: ") + CStr(host) + PortSuffix(port) ]
  }

  predicate PlainText(s: string) {
    forall c :: c in s ==> 0 < c as int < 256 && c != '\r' && c != '\n'
  }

  /** Bytes free of CR, LF and NUL. */
  predicate NoBreak(s: seq<bv8>) {
    forall k :: 0 <= k < |s| ==> s[k] != CR && s[k] != LF && s[k] != NUL
  }

  lemma AsciiPlain(s: string)
    requires PlainText(s)
    ensures NoBreak(Ascii(s))
  {
    forall k | 0 <= k < |s|
      ensures Ascii(s)[k] != CR && Ascii(s)[k] != LF && Ascii(s)[k] != NUL
    {
      assert s[k] in s;
    }
  }

  lemma NoBreakJoin(a: seq<bv8>, b: seq<bv8>)
    requires NoBreak(a) && NoBreak(b)
    ensures NoBreak(a + b)
  {
    forall k | 0 <= k < |a + b|
      ensures (a + b)[k] != CR && (a + b)[k] != LF && (a + b)[k] != NUL
    {
      if k >= |a| {
        assert (a + b)[k] == b[k - |a|];
      }
    }
  }

  lemma CStrNoBreak(s: seq<bv8>)
    requires CR !in s && LF !in s
    ensures NoBreak(CStr(s))
  {
    forall k | 0 <= k < |CStr(s)|
      ensures CStr(s)[k] != CR && CStr(s)[k] != LF && CStr(s)[k] != NUL
    {
      assert CStr(s)[k] == s[k] && s[k] in s && CStr(s)[k] in CStr(s);
    }
  }

  lemma PortSuffixNoBreak(port: int)
    ensures NoBreak(PortSuffix(port))
  {
    var d := Decimal(port);
    forall k | 0 <= k < |d|
      ensures d[k] != CR && d[k] != LF && d[k] != NUL
    {
      assert d[k] in d;
    }
    NoBreakJoin([COLON], d);
  }

  lemma ConstantLinesPlain()
    ensures PlainLine(Ascii("Upgrade: websocket"))
    ensures PlainLine(Ascii("Connection: Upgrade"))
    ensures PlainLine(Ascii("Sec-WebSocket-Version: 13"))
  {
    AsciiPlain("Upgrade: websocket");
    AsciiPlain("Connection: Upgrade");
    AsciiPlain("Sec-WebSocket-Version: 13");
  }

  lemma RequestLinePlain(path: seq<bv8>)
    requires CR !in path && LF !in path
    ensures PlainLine(Ascii("GET ") + CStr(path) + Ascii(" HTTP/1.1"))
  {
    AsciiPlain("GET ");
    AsciiPlain(" HTTP/1.1");
    CStrNoBreak(path);
    NoBreakJoin(Ascii("GET "), CStr(path));
    NoBreakJoin(Ascii("GET ") + CStr(path), Ascii(" HTTP/1.1"));
  }

  lemma KeyLinePlain(key: seq<bv8>)
    requires CR !in key && LF !in key
    ensures PlainLine(Ascii("Sec-WebSocket-Key: ") + CStr(key))
  {
    AsciiPlain("Sec-WebSocket-Key: ");
    CStrNoBreak(key);
    NoBreakJoin(Ascii("Sec-WebSocket-Key: "), CStr(key));
  }

  lemma HostLinePlain(host: seq<bv8>, port: int)
    requires CR !in host && LF !in host
    ensures PlainLine(Ascii("Host: ") + CStr(host) + PortSuffix(port))
  {
    AsciiPlain("Host: ");
    CStrNoBreak(host);
    PortSuffixNoBreak(port);
    NoBreakJoin(Ascii("Host: "), CStr(host));
    NoBreakJoin(Ascii("Host: ") + CStr(host), PortSuffix(port));
  }

  /** Every line of the request is plain when host, path and key hold no line break. */
  lemma RequestLinesPlain(host: seq<bv8>, port: int, path: seq<bv8>, key: seq<bv8>)
    requires CR !in host && LF !in host && CR !in path && LF !in path && CR !in key && LF !in key
    ensures var ls := RequestLines(host, port, path, key);
      forall k :: 0 <= k < |ls| ==> PlainLine(ls[k])
  {
    ConstantLinesPlain();
    RequestLinePlain(path);
    KeyLinePlain(key);
    HostLinePlain(host, port);
  }

  /** The request is its six lines, each ended by CRLF, then CRLF. */
  lemma RequestIsLines(host: seq<bv8>, port: int, path: seq<bv8>, key: seq<bv8>)
    ensures HandshakeRequest(host, port, path, key) == Lines(RequestLines(host, port, path, key)) + CRLF
  {
    var ls := RequestLines(host, port, path, key);
    SixLines(ls[0], ls[1], ls[2], ls[3], ls[4], ls[5]);
    assert ls == [ls[0], ls[1], ls[2], ls[3], ls[4], ls[5]];
  }

  lemma SixLines(a: seq<bv8>, b: seq<bv8>, c: seq<bv8>, d: seq<bv8>, e: seq<bv8>, f: seq<bv8>)
    ensures Lines([a, b, c, d, e, f]) == a + CRLF + b + CRLF + c + CRLF + d + CRLF + e + CRLF + f + CRLF
  {
    assert Lines([a]) == a + CRLF by {
      LinesSnoc([], a);
      assert [] + [a] == [a];
    }
    assert Lines([a, b]) == a + CRLF + b + CRLF by {
      LinesSnoc([a], b);
      assert [a] + [b] == [a, b];
    }
    assert Lines([a, b, c]) == a + CRLF + b + CRLF + c + CRLF by {
      LinesSnoc([a, b], c);
      assert [a, b] + [c] == [a, b, c];
    }
    assert Lines([a, b, c, d]) == a + CRLF + b + CRLF + c + CRLF + d + CRLF by {
      LinesSnoc([a, b, c], d);
      assert [a, b, c] + [d] == [a, b, c, d];
    }
    assert Lines([a, b, c, d, e]) == a + CRLF + b + CRLF + c + CRLF + d + CRLF + e + CRLF by {
      LinesSnoc([a, b, c, d], e);
      assert [a, b, c, d] + [e] == [a, b, c, d, e];
    }
    LinesSnoc([a, b, c, d, e], f);
    assert [a, b, c, d, e] + [f] == [a, b, c, d, e, f];
  }

  /**
   * The request is six lines and a blank line, and its first blank line is
   * its end, as long as host, path and key hold no line break; the Host
   * line names the port exactly when it is not 80, in digits atoi reads
   * back.
   */
  lemma HandshakeRequestShape(host: seq<bv8>, port: int, path: seq<bv8>, key: seq<bv8>)
    requires IsInt32(port)
    requires CR !in host && LF !in host && CR !in path && LF !in path && CR !in key && LF !in key
    ensures var req := HandshakeRequest(host, port, path, key);
      && req == Lines(RequestLines(host, port, path, key)) + CRLF
      && Find(req, BLANK_LINE) == Some(|req| - 4)
    ensures port == 80 <==> PortSuffix(port) == []
    ensures port != 80 ==> PortSuffix(port)[0] == COLON && Atoi(PortSuffix(port)[1..]) == port
  {
    RequestIsLines(host, port, path, key);
    RequestLinesPlain(host, port, path, key);
    FirstBlankLine(RequestLines(host, port, path, key), CRLF);
    if port != 80 {
      assert PortSuffix(port)[1..] == Decimal(port);
      AtoiDecimal(port);
    }
  }
}
