/**
 * The `Range` header scan of `Request::parse`: where the matcher finds
 * `\r\nRange: bytes=`, which number it reads after it, and the inputs on which
 * it rejects the request, panics, or misses the header.
 */
module RangeProperties {
  import opened Wrappers
  import opened Numeric
  import Utf8
  import opened Request
  import RequestProperties

  const CR: Byte := 0x0D

  predicate NoCarriageReturn(s: seq<Byte>) {
    forall k :: 0 <= k < |s| ==> s[k] != CR
  }

  /** The bytes just before `p` are the header prefix. */
  predicate PrefixEndsAt(rest: seq<Byte>, p: nat) {
    |RANGE_PREFIX| <= p <= |rest| && rest[p - |RANGE_PREFIX|..p] == RANGE_PREFIX
  }

  /** One more matching byte extends a partial match by one. */
  lemma ExtendMatch<T>(s: seq<T>, pattern: seq<T>, j: nat, k: nat)
    requires k <= j < |s| && k < |pattern|
    requires s[j - k..j] == pattern[..k] && s[j] == pattern[k]
    ensures s[j - k..j + 1] == pattern[..k + 1]
  {
    assert s[j - k..j + 1] == s[j - k..j] + [s[j]];
    assert pattern[..k + 1] == pattern[..k] + [pattern[k]];
  }

  /** Whatever the matcher reports lies just past a complete copy of the header prefix. */
  lemma {:induction false} MatchFromSound(rest: seq<Byte>, j: nat, k: nat)
    requires j <= |rest| && k < |RANGE_PREFIX| && k <= j
    requires rest[j - k..j] == RANGE_PREFIX[..k]
    ensures MatchFrom(rest, j, k).Some? ==> PrefixEndsAt(rest, MatchFrom(rest, j, k).value)
    decreases |rest| - j
  {
    var pattern := RANGE_PREFIX;
    if j < |rest| {
      if rest[j] != pattern[k] {
        assert rest[j + 1..j + 1] == pattern[..0];
        MatchFromSound(rest, j + 1, 0);
      } else {
        ExtendMatch(rest, pattern, j, k);
        if k + 1 < |pattern| {
          MatchFromSound(rest, j + 1, k + 1);
        } else {
          assert pattern[..k + 1] == pattern;
        }
      }
    }
  }

  /** Bytes other than `\r` never start a match: the matcher passes over them. */
  lemma {:induction false} MatchFromSkips(rest: seq<Byte>, j: nat, s: nat)
    requires j <= s <= |rest|
    requires forall l :: j <= l < s ==> rest[l] != CR
    ensures MatchFrom(rest, j, 0) == MatchFrom(rest, s, 0)
    decreases s - j
  {
    if j < s {
      MatchFromSkips(rest, j + 1, s);
    }
  }

  /** From a copy of the header prefix at `s`, having matched `k` of its bytes, the matcher ends just past it. */
  lemma {:induction false} MatchFromCompletes(rest: seq<Byte>, s: nat, k: nat)
    requires s + |RANGE_PREFIX| <= |rest| && rest[s..s + |RANGE_PREFIX|] == RANGE_PREFIX
    requires k < |RANGE_PREFIX|
    ensures MatchFrom(rest, s + k, k) == Some(s + |RANGE_PREFIX|)
    decreases |RANGE_PREFIX| - k
  {
    assert rest[s + k] == rest[s..s + |RANGE_PREFIX|][k];
    if k + 1 < |RANGE_PREFIX| {
      MatchFromCompletes(rest, s, k + 1);
    }
  }

  const LF: Byte := 0x0A

  /** The header name and the start of its value, `Range: bytes=`, which follow the line break. */
  const RANGE_NAME: seq<Byte> := RANGE_PREFIX[2..]

  /**
   * A header line the matcher passes over: it holds no `\r`, and it parts
   * from `Range: bytes=` at a byte before either of the two ends.
   */
  predicate OtherHeader(line: seq<Byte>) {
    NoCarriageReturn(line) && !(line <= RANGE_NAME) && !(RANGE_NAME <= line)
  }

  /** Header lines none of which the matcher can mistake for the `Range` header. */
  predicate OtherHeaders(lines: seq<seq<Byte>>) {
    forall m :: 0 <= m < |lines| ==> OtherHeader(lines[m])
  }

  /** Header lines, each after the `\r\n` that ends the line before it. */
  function HeaderLines(lines: seq<seq<Byte>>): (text: seq<Byte>)
    ensures lines == [] ==> text == []
  {
    if lines == [] then [] else [CR, LF] + lines[0] + HeaderLines(lines[1..])
  }

  /**
   * The bytes between the URL and a `Range` header: the rest of the request
   * line, which holds no `\r`, then header lines none of which is a `Range`
   * header or a proper prefix of one.
   */
  predicate HeadersBefore(pre: seq<Byte>, first: seq<Byte>, lines: seq<seq<Byte>>) {
    pre == first + HeaderLines(lines) && NoCarriageReturn(first) && OtherHeaders(lines)
  }

  /** Two sequences neither of which is a prefix of the other differ first at some index inside both. */
  lemma {:induction false} FirstDifference(a: seq<Byte>, b: seq<Byte>) returns (i: nat)
    requires !(a <= b) && !(b <= a)
    ensures i < |a| && i < |b| && a[i] != b[i] && a[..i] == b[..i]
    decreases |a|
  {
    if a[0] != b[0] {
      i := 0;
    } else {
      assert a == [a[0]] + a[1..] && b == [b[0]] + b[1..];
      var i' := FirstDifference(a[1..], b[1..]);
      i := i' + 1;
      assert a[..i] == [a[0]] + a[1..][..i'];
      assert b[..i] == [b[0]] + b[1..][..i'];
    }
  }

  /** Bytes that continue a partial match carry it forward. */
  lemma {:induction false} MatchFromAdvances(rest: seq<Byte>, s: nat, k: nat, m: nat)
    requires s + m <= |rest| && k + m < |RANGE_PREFIX|
    requires rest[s..s + m] == RANGE_PREFIX[k..k + m]
    ensures MatchFrom(rest, s, k) == MatchFrom(rest, s + m, k + m)
    decreases m
  {
    if m > 0 {
      assert rest[s] == rest[s..s + m][0] == RANGE_PREFIX[k..k + m][0];
      assert rest[s + 1..s + m] == rest[s..s + m][1..];
      assert RANGE_PREFIX[k + 1..k + m] == RANGE_PREFIX[k..k + m][1..];
      MatchFromAdvances(rest, s + 1, k + 1, m - 1);
    }
  }

  /** A slice that equals `a + b` splits into a slice equal to `a` and one equal to `b`. */
  lemma SplitSlice<T>(s: seq<T>, j: nat, a: seq<T>, b: seq<T>)
    requires j + |a| + |b| <= |s| && s[j..j + |a| + |b|] == a + b
    ensures s[j..j + |a|] == a && s[j + |a|..j + |a| + |b|] == b
  {
    assert s[j..j + |a|] == s[j..j + |a| + |b|][..|a|];
    assert s[j + |a|..j + |a| + |b|] == s[j..j + |a| + |b|][|a|..];
  }

  /** The bytes at `j` are `\r\n` and then `line`. */
  predicate LineAt(rest: seq<Byte>, j: nat, line: seq<Byte>) {
    j + 2 + |line| <= |rest| && rest[j..j + 2] == [CR, LF] && rest[j + 2..j + 2 + |line|] == line
  }

  /** The first `2 + i` bytes of the header prefix are `\r\n` and the first `i` bytes of `Range: bytes=`. */
  lemma PrefixStart(i: nat)
    requires i < |RANGE_NAME|
    ensures RANGE_PREFIX[0..2 + i] == [CR, LF] + RANGE_NAME[..i] && RANGE_PREFIX[2 + i] == RANGE_NAME[i]
  {
    assert RANGE_PREFIX[0..2 + i] == RANGE_PREFIX[..2] + RANGE_PREFIX[2..2 + i];
  }

  /**
   * After `\r\n` and the first `i` bytes of `Range: bytes=`, a byte that
   * differs from the next one drops the match, and the matcher restarts
   * after that byte.
   */
  lemma MatchFromBreaksAt(rest: seq<Byte>, j: nat, i: nat)
    requires i < |RANGE_NAME| && j + 2 + i < |rest|
    requires rest[j..j + 2 + i] == [CR, LF] + RANGE_NAME[..i] && rest[j + 2 + i] != RANGE_NAME[i]
    ensures MatchFrom(rest, j, 0) == MatchFrom(rest, j + 3 + i, 0)
  {
    PrefixStart(i);
    MatchFromAdvances(rest, j, 0, 2 + i);
  }

  /** The matcher follows a line until its first byte that differs from `Range: bytes=`, and drops the match there. */
  lemma MatchFromBreaksInLine(rest: seq<Byte>, j: nat, line: seq<Byte>, i: nat)
    requires LineAt(rest, j, line)
    requires i < |line| && i < |RANGE_NAME| && line[i] != RANGE_NAME[i] && line[..i] == RANGE_NAME[..i]
    ensures MatchFrom(rest, j, 0) == MatchFrom(rest, j + 3 + i, 0)
  {
    var text := rest[j + 2..j + 2 + |line|];
    assert rest[j + 2..j + 2 + i] == text[..i];
    assert rest[j..j + 2 + i] == rest[j..j + 2] + rest[j + 2..j + 2 + i];
    assert rest[j + 2 + i] == text[i];
    MatchFromBreaksAt(rest, j, i);
  }

  /** Past byte `i` of a line with no `\r`, the matcher runs to the end of the line. */
  lemma MatchFromSkipsLine(rest: seq<Byte>, j: nat, line: seq<Byte>, i: nat)
    requires LineAt(rest, j, line) && i < |line| && NoCarriageReturn(line)
    ensures MatchFrom(rest, j + 3 + i, 0) == MatchFrom(rest, j + 2 + |line|, 0)
  {
    forall l | j + 3 + i <= l < j + 2 + |line|
      ensures rest[l] != CR
    {
      assert rest[l] == rest[j + 2..j + 2 + |line|][l - j - 2];
    }
    MatchFromSkips(rest, j + 3 + i, j + 2 + |line|);
  }

  /** The matcher, starting afresh at the `\r\n` before a line it passes over, starts afresh after that line. */
  lemma MatchFromPassesLine(rest: seq<Byte>, j: nat, line: seq<Byte>)
    requires LineAt(rest, j, line) && OtherHeader(line)
    ensures MatchFrom(rest, j, 0) == MatchFrom(rest, j + 2 + |line|, 0)
  {
    var i := FirstDifference(line, RANGE_NAME);
    MatchFromBreaksInLine(rest, j, line, i);
    MatchFromSkipsLine(rest, j, line, i);
  }

  /** Where the first line and the later lines sit in a run of header lines. */
  lemma LinesAtSplit(rest: seq<Byte>, j: nat, lines: seq<seq<Byte>>)
    requires lines != [] && j + |HeaderLines(lines)| <= |rest|
    requires rest[j..j + |HeaderLines(lines)|] == HeaderLines(lines)
    ensures LineAt(rest, j, lines[0])
    ensures var e := j + 2 + |lines[0]|; var later := HeaderLines(lines[1..]);
      e + |later| == j + |HeaderLines(lines)| && rest[e..e + |later|] == later
  {
    SplitSlice(rest, j, [CR, LF] + lines[0], HeaderLines(lines[1..]));
    SplitSlice(rest, j, [CR, LF], lines[0]);
  }

  lemma OtherHeadersTail(lines: seq<seq<Byte>>)
    requires lines != [] && OtherHeaders(lines)
    ensures OtherHeader(lines[0]) && OtherHeaders(lines[1..])
  {
    assert forall m :: 0 <= m < |lines| - 1 ==> lines[1..][m] == lines[m + 1];
  }

  /** The matcher passes over a run of header lines none of which it can mistake for the header. */
  lemma {:induction false} MatchFromPassesLines(rest: seq<Byte>, j: nat, lines: seq<seq<Byte>>)
    requires j + |HeaderLines(lines)| <= |rest| && rest[j..j + |HeaderLines(lines)|] == HeaderLines(lines)
    requires OtherHeaders(lines)
    ensures MatchFrom(rest, j, 0) == MatchFrom(rest, j + |HeaderLines(lines)|, 0)
    decreases |lines|
  {
    if lines != [] {
      LinesAtSplit(rest, j, lines);
      OtherHeadersTail(lines);
      MatchFromPassesLine(rest, j, lines[0]);
      MatchFromPassesLines(rest, j + 2 + |lines[0]|, lines[1..]);
    }
  }

  /**
   * A header prefix after the rest of the request line and any header lines
   * that are not `Range` headers is found, and the match ends right after it.
   */
  lemma MatchFromFinds(pre: seq<Byte>, first: seq<Byte>, lines: seq<seq<Byte>>, tail: seq<Byte>)
    requires HeadersBefore(pre, first, lines)
    ensures MatchFrom(pre + RANGE_PREFIX + tail, 0, 0) == Some(|pre| + |RANGE_PREFIX|)
  {
    var rest := pre + RANGE_PREFIX + tail;
    assert forall l :: 0 <= l < |first| ==> rest[l] == first[l];
    MatchFromSkips(rest, 0, |first|);
    assert rest[|first|..|pre|] == HeaderLines(lines);
    MatchFromPassesLines(rest, |first|, lines);
    assert rest[|pre|..|pre| + |RANGE_PREFIX|] == RANGE_PREFIX;
    MatchFromCompletes(rest, |pre|, 0);
  }

  /** The end of a request line after its URL: ` HTTP/1.1`. */
  const REQUEST_LINE_END: seq<Byte> := [0x20, 0x48, 0x54, 0x54, 0x50, 0x2F, 0x31, 0x2E, 0x31]

  /** A `Host: x` header line. */
  const HOST_LINE: seq<Byte> := [0x48, 0x6F, 0x73, 0x74, 0x3A, 0x20, 0x78]

  /** Some copy of `\r\nRange: bytes=` occurs in the bytes. */
  predicate HasRangePrefix(rest: seq<Byte>) {
    exists p: nat :: p <= |rest| && PrefixEndsAt(rest, p)
  }

  /** Bytes that hold no copy of the header prefix give no match. */
  lemma MatchFromAbsent(rest: seq<Byte>)
    requires !HasRangePrefix(rest)
    ensures MatchFrom(rest, 0, 0) == None
  {
    MatchFromSound(rest, 0, 0);
  }

  /** The digit run starting at `p` ends at the first non-digit `q`. */
  lemma {:induction false} DigitRunEndIs(rest: seq<Byte>, p: nat, q: nat)
    requires p <= q < |rest| && !IsDigit(rest[q])
    requires forall k :: p <= k < q ==> IsDigit(rest[k])
    ensures DigitRunEnd(rest, p) == q
    decreases q - p
  {
    if p < q {
      DigitRunEndIs(rest, p + 1, q);
    }
  }

  /** The bytes of a number as `to_string` writes it: ASCII digits, which decode back to the numeral. */
  lemma DecimalBytes(n: nat)
    ensures |Utf8.Encode(Decimal(n))| == |Decimal(n)| > 0
    ensures forall k :: 0 <= k < |Utf8.Encode(Decimal(n))| ==> IsDigit(Utf8.Encode(Decimal(n))[k])
    ensures Utf8.Decode(Utf8.Encode(Decimal(n))) == Some(Decimal(n))
  {
    var d := Decimal(n);
    assert forall k :: 0 <= k < |d| ==> '0' <= d[k] <= '9' by {
      forall k | 0 <= k < |d| ensures '0' <= d[k] <= '9' {
        assert DigitValue(d[k], 10).Some?;
      }
    }
    Utf8.EncodeAscii(d);
    Utf8.DecodeEncode(d);
  }

  /**
   * The outcome once the digit run after the header prefix is known: its
   * number becomes the range start when it decodes and fits in a usize, and
   * the request is kept unchanged otherwise.
   */
  function DigitsOutcome(digits: seq<Byte>, r: RequestValue): ParseOutcome {
    match Utf8.Decode(digits)
    case None => Accepted(r)
    case Some(number) =>
      match ParseUnsigned(number, 10, USIZE_MAX)
      case None => Accepted(r)
      case Some(n) => Accepted(r.(rangeStart := n))
  }

  /** Bytes that are all ASCII digits. */
  predicate DigitBytes(s: seq<Byte>) {
    forall k :: 0 <= k < |s| ==> IsDigit(s[k])
  }

  /** What the range scan does once the digit run `[p, q)` after the header prefix is known. */
  lemma ScanRangeDigits(rest: seq<Byte>, r: RequestValue, p: nat, q: nat)
    requires MatchFrom(rest, 0, 0) == Some(p)
    requires p < q < |rest| && !IsDigit(rest[q]) && DigitBytes(rest[p..q])
    ensures ScanRange(rest, r) == DigitsOutcome(rest[p..q], r)
  {
    forall k | p <= k < q
      ensures IsDigit(rest[k])
    {
      assert rest[k] == rest[p..q][k - p];
    }
    DigitRunEndIs(rest, p, q);
  }

  lemma Associate<T>(a: seq<T>, b: seq<T>, c: seq<T>)
    ensures a + b + c == a + (b + c)
  {
  }

  /** Where the digits and the bytes after them sit once something precedes them. */
  lemma DigitRunAt(head: seq<Byte>, digits: seq<Byte>, after: seq<Byte>)
    requires after != []
    ensures var rest := head + (digits + after);
      |head| + |digits| < |rest| && rest[|head| + |digits|] == after[0] &&
      rest[|head|..|head| + |digits|] == digits
  {
    var rest := head + (digits + after);
    assert rest[|head|..|head| + |digits|] == (digits + after)[..|digits|] == digits;
    assert rest[|head| + |digits|] == (digits + after)[|digits|];
  }

  /** A digit run after the header prefix, ended by a non-digit, is decoded and parsed as the range start. */
  lemma RangeDigits(pre: seq<Byte>, first: seq<Byte>, lines: seq<seq<Byte>>, digits: seq<Byte>, after: seq<Byte>, r: RequestValue)
    requires HeadersBefore(pre, first, lines) && digits != [] && DigitBytes(digits)
    requires after != [] && !IsDigit(after[0])
    ensures ScanRange(pre + RANGE_PREFIX + digits + after, r) == DigitsOutcome(digits, r)
  {
    var head := pre + RANGE_PREFIX;
    MatchFromFinds(pre, first, lines, digits + after);
    DigitRunAt(head, digits, after);
    Associate(head, digits, after);
    ScanRangeDigits(head + (digits + after), r, |head|, |head| + |digits|);
  }

  /**
   * A `Range: bytes=` header after the request line and other headers sets
   * the range start to the decimal number written after it, when that number
   * fits in a usize and a non-digit follows it; a number that does not fit
   * leaves the range start unchanged.
   */
  lemma RangeNumber(pre: seq<Byte>, first: seq<Byte>, lines: seq<seq<Byte>>, n: nat, after: seq<Byte>, r: RequestValue)
    requires HeadersBefore(pre, first, lines) && after != [] && !IsDigit(after[0])
    ensures ScanRange(pre + RANGE_PREFIX + Utf8.Encode(Decimal(n)) + after, r) ==
      Accepted(if n <= USIZE_MAX then r.(rangeStart := n) else r)
  {
    DecimalBytes(n);
    RangeDigits(pre, first, lines, Utf8.Encode(Decimal(n)), after, r);
    DecimalValue(n);
    ParseDigitsOnly(Decimal(n), USIZE_MAX);
  }

  /** `HTTP/1.1`, then a `Host` header, then `Range: bytes=5-`: the range start becomes 5. */
  lemma RangeAfterHostHeader(r: RequestValue)
    ensures ScanRange(REQUEST_LINE_END + [CR, LF] + HOST_LINE + RANGE_PREFIX + Utf8.Encode(Decimal(5)) + [0x2D, CR, LF], r)
         == Accepted(r.(rangeStart := 5))
  {
    var lines := [HOST_LINE];
    assert HOST_LINE[0] != RANGE_NAME[0];
    assert HeaderLines(lines) == [CR, LF] + HOST_LINE;
    assert REQUEST_LINE_END + [CR, LF] + HOST_LINE == REQUEST_LINE_END + HeaderLines(lines);
    RangeNumber(REQUEST_LINE_END + HeaderLines(lines), REQUEST_LINE_END, lines, 5, [0x2D, CR, LF], r);
  }

  /** A non-digit right after `bytes=` fails the whole request. */
  lemma RangeNotANumber(pre: seq<Byte>, first: seq<Byte>, lines: seq<seq<Byte>>, after: seq<Byte>, r: RequestValue)
    requires HeadersBefore(pre, first, lines) && after != [] && !IsDigit(after[0])
    ensures ScanRange(pre + RANGE_PREFIX + after, r) == Rejected
  {
    MatchFromFinds(pre, first, lines, after);
    assert (pre + RANGE_PREFIX + after)[|pre| + |RANGE_PREFIX|] == after[0];
  }

  /** Nothing after `bytes=`: the range start is left unchanged. */
  lemma RangeEmpty(pre: seq<Byte>, first: seq<Byte>, lines: seq<seq<Byte>>, r: RequestValue)
    requires HeadersBefore(pre, first, lines)
    ensures ScanRange(pre + RANGE_PREFIX, r) == Accepted(r)
  {
    assert pre + RANGE_PREFIX == pre + RANGE_PREFIX + [];
    MatchFromFinds(pre, first, lines, []);
  }

  /** Digits that run to the end of the buffer make the scan slice backwards, which panics. */
  lemma RangeDigitsToEnd(pre: seq<Byte>, first: seq<Byte>, lines: seq<seq<Byte>>, digits: seq<Byte>, r: RequestValue)
    requires HeadersBefore(pre, first, lines) && digits != []
    requires forall k :: 0 <= k < |digits| ==> IsDigit(digits[k])
    ensures ScanRange(pre + RANGE_PREFIX + digits, r) == Panicked
  {
    var rest := pre + RANGE_PREFIX + digits;
    var p := |pre| + |RANGE_PREFIX|;
    MatchFromFinds(pre, first, lines, digits);
    assert forall k :: p <= k < |rest| ==> rest[k] == digits[k - p];
    assert DigitRunEnd(rest, p) == |rest|;
  }

  /** Without a copy of `\r\nRange: bytes=` in the bytes after the URL there is no header to find. */
  lemma RangeAbsent(rest: seq<Byte>, r: RequestValue)
    requires !HasRangePrefix(rest)
    ensures ScanRange(rest, r) == Accepted(r)
  {
    MatchFromAbsent(rest);
  }

  /**
   * The matcher does not re-test a byte that breaks a partial match, so a
   * header line that follows a stray `\r` is not found.
   */
  lemma RangeMissedAfterStrayCR(tail: seq<Byte>, r: RequestValue)
    requires NoCarriageReturn(tail)
    ensures ScanRange([CR] + RANGE_PREFIX + tail, r) == Accepted(r)
  {
    var rest := [CR] + RANGE_PREFIX + tail;
    assert rest[0] == RANGE_PREFIX[0] && rest[1] == CR != RANGE_PREFIX[1];
    assert MatchFrom(rest, 0, 0) == MatchFrom(rest, 1, 1) == MatchFrom(rest, 2, 0);
    assert forall l :: 2 <= l < |rest| ==> rest[l] != CR;
    MatchFromSkips(rest, 2, |rest|);
  }

  /**
   * A header line that is a proper prefix of `Range: bytes=`, the empty line
   * included, hides the `Range` header that follows it: the `\r` that ends
   * it breaks the partial match and is not tested again.
   */
  lemma RangeMissedAfterShortLine(line: seq<Byte>, tail: seq<Byte>, r: RequestValue)
    requires line < RANGE_NAME && NoCarriageReturn(tail)
    ensures ScanRange([CR, LF] + line + RANGE_PREFIX + tail, r) == Accepted(r)
  {
    var after := RANGE_PREFIX + tail;
    var rest := [CR, LF] + line + after;
    var m := 2 + |line|;
    assert rest == [CR, LF] + line + RANGE_PREFIX + tail;
    CarriageReturnOnlyFirst(tail);
    assert rest[0..m] == [CR, LF] + line && rest[m] == after[0];
    MatchFromBreaksAt(rest, 0, |line|);
    forall l | m + 1 <= l < |rest|
      ensures rest[l] != CR
    {
      assert rest[l] == after[1..][l - m - 1];
    }
    MatchFromSkips(rest, m + 1, |rest|);
  }

  /** The header prefix holds its only `\r` at its start. */
  lemma CarriageReturnOnlyFirst(tail: seq<Byte>)
    requires NoCarriageReturn(tail)
    ensures (RANGE_PREFIX + tail)[0] == CR && NoCarriageReturn((RANGE_PREFIX + tail)[1..])
  {
    assert (RANGE_PREFIX + tail)[1..] == RANGE_PREFIX[1..] + tail;
  }

  lemma PrependFive<T>(a: seq<T>, b: seq<T>, c: seq<T>, d: seq<T>, e: seq<T>)
    ensures a + (b + c + d + e) == a + b + c + d + e
  {
  }

  /** The space that ends the URL joins the rest of the request line. */
  lemma HeadersAfterSpace(headers: seq<Byte>, first: seq<Byte>, lines: seq<seq<Byte>>)
    requires HeadersBefore(headers, first, lines)
    ensures HeadersBefore([SPACE] + headers, [SPACE] + first, lines)
  {
    assert forall k :: 1 <= k < |first| + 1 ==> ([SPACE] + first)[k] == first[k - 1];
    assert [SPACE] + (first + HeaderLines(lines)) == [SPACE] + first + HeaderLines(lines);
  }

  /**
   * A whole request for a `.mp4` target with a `Range: bytes=N-` header
   * after the request line and any other headers: it parses to the written
   * path and query pairs with range start N, or 0 when N does not fit in a
   * usize.
   */
  lemma ParseVideoRequest(path: string, query: seq<QueryParam>, headers: seq<Byte>, first: seq<Byte>,
                          lines: seq<seq<Byte>>, n: nat, after: seq<Byte>)
    requires EndsWith(path, ".mp4") && HeadersBefore(headers, first, lines)
    requires after != [] && !IsDigit(after[0])
    ensures ParseSpec(GET + RequestProperties.TargetText(path, query) + [SPACE] +
                      (headers + RANGE_PREFIX + Utf8.Encode(Decimal(n)) + after))
         == Accepted(RequestValue(path, query, if n <= USIZE_MAX then n else 0))
  {
    var rest := headers + RANGE_PREFIX + Utf8.Encode(Decimal(n)) + after;
    RequestProperties.ParseTarget(path, query, rest);
    PrependFive([SPACE], headers, RANGE_PREFIX, Utf8.Encode(Decimal(n)), after);
    HeadersAfterSpace(headers, first, lines);
    RangeNumber([SPACE] + headers, [SPACE] + first, lines, n, after, RequestValue(path, query, 0));
  }
}
