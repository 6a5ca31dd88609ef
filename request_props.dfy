/**
 * What `Request::parse` does, stated over whole buffers: how a percent escape
 * is read, that every path and query written with escapes comes back
 * unchanged, where the `Range` header scan finds its number, and the edge
 * cases of the scanner (repeated `=`, undecodable parts, a missed header).
 */
module RequestProperties {
  import opened Wrappers
  import opened Numeric
  import Utf8
  import opened Request

  /** The upper-case hexadecimal digit for `d`. */
  function HexDigitByte(d: nat): (b: Byte)
    requires d < 16
    ensures IsHexDigit(b) && HexValue(b) == d
  {
    if d < 10 then 0x30 + d else 0x37 + d
  }

  /** The escape the encoder writes for a byte reads back as that byte. */
  lemma PercentOfHexDigits(b: Byte)
    ensures PercentValue([HexDigitByte(b / 16), HexDigitByte(b % 16)]) == Some(b)
  {
  }

  /** How a client writes one byte into a URL: as itself when the scanner copies it, else as `%XX`. */
  function EscapeByte(b: Byte): (e: seq<Byte>)
    ensures |e| == 1 || |e| == 3
  {
    if IsUrlByte(b) then [b] else [PERCENT, HexDigitByte(b / 16), HexDigitByte(b % 16)]
  }

  function Escape(bs: seq<Byte>): seq<Byte> {
    if bs == [] then [] else EscapeByte(bs[0]) + Escape(bs[1..])
  }

  /** What the URL scan does once the final part is flushed at the space: stop, or go on to the headers. */
  function UrlEnd(r: RequestValue, at: nat): UrlOutcome {
    if EndsWith(r.path, ".mp4") then UrlHeaders(r, at) else UrlDone(r)
  }

  // One lemma per arm of the URL scanner, so that the proofs below never
  // unfold the scanner themselves.

  lemma StepLiteral(buf: seq<Byte>, i: nat, kind: UrlPartKind, part: seq<Byte>, r: RequestValue)
    requires i < |buf| && IsUrlByte(buf[i])
    ensures ScanUrl(buf, i, kind, part, r) == ScanUrl(buf, i + 1, kind, part + [buf[i]], r)
  {
  }

  lemma StepPercent(buf: seq<Byte>, i: nat, kind: UrlPartKind, part: seq<Byte>, r: RequestValue, v: Byte)
    requires i + 3 <= |buf| && buf[i] == PERCENT && PercentValue(buf[i + 1..i + 3]) == Some(v)
    ensures ScanUrl(buf, i, kind, part, r) == ScanUrl(buf, i + 3, kind, part + [v], r)
  {
  }

  lemma StepQueryDelimiter(buf: seq<Byte>, i: nat, kind: UrlPartKind, part: seq<Byte>, r: RequestValue, next: RequestValue)
    requires i < |buf| && (buf[i] == QUESTION || buf[i] == AMPERSAND)
    requires next == WithPart(r, kind, part)
    ensures ScanUrl(buf, i, kind, part, r) == ScanUrl(buf, i + 1, Key, [], next)
  {
  }

  lemma StepValueDelimiter(buf: seq<Byte>, i: nat, kind: UrlPartKind, part: seq<Byte>, r: RequestValue, next: RequestValue)
    requires i < |buf| && buf[i] == EQUALS && kind != Path
    requires next == WithPart(r, kind, part)
    ensures ScanUrl(buf, i, kind, part, r) == ScanUrl(buf, i + 1, Value, [], next)
  {
  }

  lemma StepIllegal(buf: seq<Byte>, i: nat, kind: UrlPartKind, part: seq<Byte>, r: RequestValue)
    requires i < |buf| && Classify(buf[i]) == Illegal
    ensures ScanUrl(buf, i, kind, part, r) == UrlRejected
  {
  }

  lemma StepBadEscape(buf: seq<Byte>, i: nat, kind: UrlPartKind, part: seq<Byte>, r: RequestValue)
    requires i < |buf| && buf[i] == PERCENT
    requires i + 3 <= |buf| ==> PercentValue(buf[i + 1..i + 3]).None?
    ensures ScanUrl(buf, i, kind, part, r) == UrlRejected
  {
  }

  lemma StepEnd(buf: seq<Byte>, kind: UrlPartKind, part: seq<Byte>, r: RequestValue)
    ensures ScanUrl(buf, |buf|, kind, part, r) == UrlHeaders(r, |buf|)
  {
  }

  lemma StepSpace(buf: seq<Byte>, i: nat, kind: UrlPartKind, part: seq<Byte>, r: RequestValue, next: RequestValue)
    requires i < |buf| && buf[i] == SPACE
    requires next == WithPart(r, kind, part)
    ensures ScanUrl(buf, i, kind, part, r) == UrlEnd(next, i)
  {
  }

  lemma Regroup3<T>(a: seq<T>, b: seq<T>, c: seq<T>)
    ensures a + b + c == a + (b + c)
  {
  }

  lemma Regroup4<T>(a: seq<T>, b: seq<T>, c: seq<T>, d: seq<T>)
    ensures a + b + c + d == a + (b + c + d)
  {
  }

  lemma Regroup5<T>(a: seq<T>, b: seq<T>, c: seq<T>, d: seq<T>, e: seq<T>)
    ensures a + b + c + d + e == a + (b + (c + (d + e)))
  {
  }

  lemma Regroup7<T>(a: seq<T>, b: seq<T>, c: seq<T>, d: seq<T>, e: seq<T>, f: seq<T>, g: seq<T>)
    ensures a + b + c + d + e + f + g == a + (b + (c + (d + (e + f + g))))
  {
  }

  lemma AppendHead<T>(part: seq<T>, bs: seq<T>)
    requires bs != []
    ensures part + [bs[0]] + bs[1..] == part + bs
  {
    assert [bs[0]] + bs[1..] == bs;
  }

  /** When the bytes from `i` on are `x` then `y`, the bytes from `i + |x|` on are `y`. */
  lemma SkipPrefix<T>(buf: seq<T>, i: nat, x: seq<T>, y: seq<T>)
    requires i <= |buf| && buf[i..] == x + y
    ensures i + |x| <= |buf| && buf[i + |x|..] == y
    ensures |x| > 0 ==> buf[i] == x[0]
  {
    assert buf[i + |x|..] == buf[i..][|x|..];
    if |x| > 0 {
      assert buf[i] == buf[i..][0];
    }
  }

  /** The scanner reads one escaped byte back into the current part. */
  lemma ScanEscapedByte(buf: seq<Byte>, i: nat, kind: UrlPartKind, part: seq<Byte>, r: RequestValue,
                        b: Byte, tail: seq<Byte>)
    requires i <= |buf| && buf[i..] == EscapeByte(b) + tail
    ensures i + |EscapeByte(b)| <= |buf|
    ensures ScanUrl(buf, i, kind, part, r) == ScanUrl(buf, i + |EscapeByte(b)|, kind, part + [b], r)
  {
    var e := EscapeByte(b);
    SkipPrefix(buf, i, e, tail);
    if IsUrlByte(b) {
      StepLiteral(buf, i, kind, part, r);
    } else {
      assert buf[i + 1..i + 3] == buf[i..][1..3] == [HexDigitByte(b / 16), HexDigitByte(b % 16)];
      PercentOfHexDigits(b);
      StepPercent(buf, i, kind, part, r, b);
    }
  }

  /**
   * The scanner reads an escaped run of bytes back into the current part,
   * whatever the part: it arrives at `j`, past the escapes, holding `grown`.
   */
  lemma {:induction false} ScanEscaped(buf: seq<Byte>, i: nat, kind: UrlPartKind, part: seq<Byte>, r: RequestValue,
                                       bs: seq<Byte>, tail: seq<Byte>, j: nat, grown: seq<Byte>)
    requires i <= |buf| && buf[i..] == Escape(bs) + tail
    requires j == i + |Escape(bs)| && grown == part + bs
    ensures j <= |buf|
    ensures ScanUrl(buf, i, kind, part, r) == ScanUrl(buf, j, kind, grown, r)
    decreases |bs|
  {
    if bs == [] {
      assert grown == part;
    } else {
      var e := EscapeByte(bs[0]);
      var more := Escape(bs[1..]);
      assert Escape(bs) + tail == e + (more + tail);
      ScanEscapedByte(buf, i, kind, part, r, bs[0], more + tail);
      SkipPrefix(buf, i, e, more + tail);
      AppendHead(part, bs);
      ScanEscaped(buf, i + |e|, kind, part + [bs[0]], r, bs[1..], tail, j, grown);
    }
  }

  /** One query pair as a client writes it: escaped key, `=`, escaped value. */
  function PairText(q: QueryParam): seq<Byte> {
    Escape(Utf8.Encode(q.key)) + [EQUALS] + Escape(Utf8.Encode(q.value))
  }

  /** Query pairs joined by `&`. */
  function PairsText(qs: seq<QueryParam>): seq<Byte>
    requires qs != []
  {
    if |qs| == 1 then PairText(qs[0]) else PairText(qs[0]) + [AMPERSAND] + PairsText(qs[1..])
  }

  /** The request target of a GET request: escaped path, then `?` and the pairs when there are any. */
  function TargetText(path: string, query: seq<QueryParam>): seq<Byte> {
    Escape(Utf8.Encode(path)) + (if query == [] then [] else [QUESTION] + PairsText(query))
  }

  /** The first pair of the written pairs, and what follows it. */
  lemma PairsTextHead(qs: seq<QueryParam>, tail: seq<Byte>)
    requires qs != []
    ensures PairsText(qs) + [SPACE] + tail ==
      Escape(Utf8.Encode(qs[0].key)) + ([EQUALS] + (Escape(Utf8.Encode(qs[0].value)) +
        (if |qs| == 1 then [SPACE] + tail else [AMPERSAND] + (PairsText(qs[1..]) + [SPACE] + tail))))
  {
    var ek, ev := Escape(Utf8.Encode(qs[0].key)), Escape(Utf8.Encode(qs[0].value));
    if |qs| == 1 {
      Regroup5(ek, [EQUALS], ev, [SPACE], tail);
    } else {
      Regroup7(ek, [EQUALS], ev, [AMPERSAND], PairsText(qs[1..]), [SPACE], tail);
    }
  }

  /** Flushing a written key appends a pair with that key and an empty value. */
  lemma FlushKey(path: string, done: seq<QueryParam>, key: string)
    ensures WithPart(RequestValue(path, done, 0), Key, Utf8.Encode(key))
         == RequestValue(path, done + [QueryParam(key, "")], 0)
  {
    Utf8.DecodeEncode(key);
  }

  /** Flushing a written value replaces the value of the last pair, whatever it held. */
  lemma FlushValue(path: string, done: seq<QueryParam>, key: string, previous: string, value: string)
    ensures WithPart(RequestValue(path, done + [QueryParam(key, previous)], 0), Value, Utf8.Encode(value))
         == RequestValue(path, done + [QueryParam(key, value)], 0)
  {
    Utf8.DecodeEncode(value);
    var q := done + [QueryParam(key, previous)];
    assert q[..|q| - 1] == done;
  }

  /** The scanner reads a written key and the `=` after it, flushing the key. */
  lemma ScanKey(buf: seq<Byte>, i: nat, path: string, done: seq<QueryParam>, key: string, after: seq<Byte>, j: nat)
    requires i <= |buf| && buf[i..] == Escape(Utf8.Encode(key)) + ([EQUALS] + after)
    requires j == i + |Escape(Utf8.Encode(key))| + 1
    ensures j <= |buf| && buf[j..] == after
    ensures ScanUrl(buf, i, Key, [], RequestValue(path, done, 0))
         == ScanUrl(buf, j, Value, [], RequestValue(path, done + [QueryParam(key, "")], 0))
  {
    var k := Utf8.Encode(key);
    var r0 := RequestValue(path, done, 0);
    ScanEscaped(buf, i, Key, [], r0, k, [EQUALS] + after, j - 1, k);
    SkipPrefix(buf, i, Escape(k), [EQUALS] + after);
    SkipPrefix(buf, j - 1, [EQUALS], after);
    FlushKey(path, done, key);
    StepValueDelimiter(buf, j - 1, Key, k, r0, RequestValue(path, done + [QueryParam(key, "")], 0));
  }

  /** The scanner reads one written pair up to the byte after its value, with the key flushed. */
  lemma ScanPair(buf: seq<Byte>, i: nat, path: string, done: seq<QueryParam>, q: QueryParam, more: seq<Byte>, m: nat)
    requires i <= |buf| && buf[i..] == Escape(Utf8.Encode(q.key)) + ([EQUALS] + (Escape(Utf8.Encode(q.value)) + more))
    requires m == i + |PairText(q)|
    ensures m <= |buf| && buf[m..] == more
    ensures ScanUrl(buf, i, Key, [], RequestValue(path, done, 0))
         == ScanUrl(buf, m, Value, Utf8.Encode(q.value), RequestValue(path, done + [QueryParam(q.key, "")], 0))
  {
    var v := Utf8.Encode(q.value);
    var j := i + |Escape(Utf8.Encode(q.key))| + 1;
    assert m == j + |Escape(v)|;
    ScanKey(buf, i, path, done, q.key, Escape(v) + more, j);
    ScanEscaped(buf, j, Value, [], RequestValue(path, done + [QueryParam(q.key, "")], 0), v, more, m, v);
    SkipPrefix(buf, j, Escape(v), more);
  }

  /** A written pair followed by `&`: the scanner collects the pair and starts the next key. */
  lemma ScanPairAmpersand(buf: seq<Byte>, i: nat, path: string, done: seq<QueryParam>, q: QueryParam,
                          after: seq<Byte>, k: nat)
    requires i <= |buf|
    requires buf[i..] == Escape(Utf8.Encode(q.key)) + ([EQUALS] + (Escape(Utf8.Encode(q.value)) + ([AMPERSAND] + after)))
    requires k == i + |PairText(q)| + 1
    ensures k <= |buf| && buf[k..] == after
    ensures ScanUrl(buf, i, Key, [], RequestValue(path, done, 0)) == ScanUrl(buf, k, Key, [], RequestValue(path, done + [q], 0))
  {
    var m := k - 1;
    ScanPair(buf, i, path, done, q, [AMPERSAND] + after, m);
    SkipPrefix(buf, m, [AMPERSAND], after);
    FlushValue(path, done, q.key, "", q.value);
    StepQueryDelimiter(buf, m, Value, Utf8.Encode(q.value), RequestValue(path, done + [QueryParam(q.key, "")], 0),
                       RequestValue(path, done + [q], 0));
  }

  /** A written pair followed by the space: the scanner collects the pair and ends the URL. */
  lemma ScanPairSpace(buf: seq<Byte>, i: nat, path: string, done: seq<QueryParam>, q: QueryParam,
                      tail: seq<Byte>, m: nat, fin: RequestValue)
    requires i <= |buf|
    requires buf[i..] == Escape(Utf8.Encode(q.key)) + ([EQUALS] + (Escape(Utf8.Encode(q.value)) + ([SPACE] + tail)))
    requires m == i + |PairText(q)| && fin == RequestValue(path, done + [q], 0)
    ensures m < |buf| && buf[m..] == [SPACE] + tail
    ensures ScanUrl(buf, i, Key, [], RequestValue(path, done, 0)) == UrlEnd(fin, m)
  {
    ScanPair(buf, i, path, done, q, [SPACE] + tail, m);
    SkipPrefix(buf, m, [SPACE], tail);
    FlushValue(path, done, q.key, "", q.value);
    StepSpace(buf, m, Value, Utf8.Encode(q.value), RequestValue(path, done + [QueryParam(q.key, "")], 0), fin);
  }

  /** The scanner collects written query pairs, in order, after those already collected. */
  lemma {:induction false} ScanPairs(buf: seq<Byte>, i: nat, path: string, done: seq<QueryParam>,
                                     qs: seq<QueryParam>, tail: seq<Byte>, end: nat, fin: RequestValue)
    requires qs != []
    requires i <= |buf| && buf[i..] == PairsText(qs) + [SPACE] + tail
    requires end == i + |PairsText(qs)| && fin == RequestValue(path, done + qs, 0)
    ensures end < |buf| && buf[end..] == [SPACE] + tail
    ensures ScanUrl(buf, i, Key, [], RequestValue(path, done, 0)) == UrlEnd(fin, end)
    decreases |qs|
  {
    PairsTextHead(qs, tail);
    if |qs| == 1 {
      assert qs == [qs[0]];
      ScanPairSpace(buf, i, path, done, qs[0], tail, end, fin);
    } else {
      var k := i + |PairText(qs[0])| + 1;
      ScanPairAmpersand(buf, i, path, done, qs[0], PairsText(qs[1..]) + [SPACE] + tail, k);
      AppendHead(done, qs);
      ScanPairs(buf, k, path, done + [qs[0]], qs[1..], tail, end, fin);
    }
  }

  /** The escaped path of a written target, and what follows it. */
  lemma TargetTextHead(path: string, query: seq<QueryParam>, rest: seq<Byte>)
    ensures TargetText(path, query) + [SPACE] + rest ==
      Escape(Utf8.Encode(path)) +
        (if query == [] then [SPACE] + rest else [QUESTION] + (PairsText(query) + [SPACE] + rest))
  {
    var ep := Escape(Utf8.Encode(path));
    if query == [] {
      assert TargetText(path, query) == ep;
    } else {
      Regroup5(ep, [QUESTION], PairsText(query), [SPACE], rest);
    }
  }

  /** Flushing the written path sets the path of a blank request. */
  lemma FlushPath(path: string)
    ensures WithPart(Blank, Path, Utf8.Encode(path)) == RequestValue(path, [], 0)
  {
    Utf8.DecodeEncode(path);
  }

  /** A written path followed by the space: the scanner sets the path and ends the URL. */
  lemma ScanPathSpace(buf: seq<Byte>, path: string, rest: seq<Byte>, end: nat, fin: RequestValue)
    requires |GET| <= |buf| && buf[|GET|..] == Escape(Utf8.Encode(path)) + ([SPACE] + rest)
    requires end == |GET| + |Escape(Utf8.Encode(path))| && fin == RequestValue(path, [], 0)
    ensures end < |buf| && buf[end..] == [SPACE] + rest
    ensures ScanUrl(buf, |GET|, Path, [], Blank) == UrlEnd(fin, end)
  {
    var p := Utf8.Encode(path);
    ScanEscaped(buf, |GET|, Path, [], Blank, p, [SPACE] + rest, end, p);
    SkipPrefix(buf, |GET|, Escape(p), [SPACE] + rest);
    SkipPrefix(buf, end, [SPACE], rest);
    FlushPath(path);
    StepSpace(buf, end, Path, p, Blank, fin);
  }

  /** A written path followed by `?`: the scanner sets the path and starts the first key. */
  lemma ScanPathQuestion(buf: seq<Byte>, path: string, after: seq<Byte>, k: nat)
    requires |GET| <= |buf| && buf[|GET|..] == Escape(Utf8.Encode(path)) + ([QUESTION] + after)
    requires k == |GET| + |Escape(Utf8.Encode(path))| + 1
    ensures k <= |buf| && buf[k..] == after
    ensures ScanUrl(buf, |GET|, Path, [], Blank) == ScanUrl(buf, k, Key, [], RequestValue(path, [], 0))
  {
    var p := Utf8.Encode(path);
    ScanEscaped(buf, |GET|, Path, [], Blank, p, [QUESTION] + after, k - 1, p);
    SkipPrefix(buf, |GET|, Escape(p), [QUESTION] + after);
    SkipPrefix(buf, k - 1, [QUESTION], after);
    FlushPath(path);
    StepQueryDelimiter(buf, k - 1, Path, p, Blank, RequestValue(path, [], 0));
  }

  /** The URL scan of a written target ends at the space, with the path and pairs collected. */
  lemma ScanTarget(buf: seq<Byte>, path: string, query: seq<QueryParam>, rest: seq<Byte>, end: nat, fin: RequestValue)
    requires |GET| <= |buf| && buf[|GET|..] == TargetText(path, query) + [SPACE] + rest
    requires end == |GET| + |TargetText(path, query)| && fin == RequestValue(path, query, 0)
    ensures end < |buf| && buf[end..] == [SPACE] + rest
    ensures ScanUrl(buf, |GET|, Path, [], Blank) == UrlEnd(fin, end)
  {
    var ep := Escape(Utf8.Encode(path));
    TargetTextHead(path, query, rest);
    if query == [] {
      assert |TargetText(path, query)| == |ep|;
      ScanPathSpace(buf, path, rest, end, fin);
    } else {
      var k := |GET| + |ep| + 1;
      assert |TargetText(path, query)| == |ep| + 1 + |PairsText(query)|;
      ScanPathQuestion(buf, path, PairsText(query) + [SPACE] + rest, k);
      assert [] + query == query;
      ScanPairs(buf, k, path, [], query, rest, end, fin);
    }
  }

  /**
   * Round trip of the request target: a GET request whose target is written
   * with escapes parses back to exactly that path and those query pairs with
   * range start 0, or, for a `.mp4` path, hands the space and everything after
   * it to the range scan.
   */
  lemma ParseTarget(path: string, query: seq<QueryParam>, rest: seq<Byte>)
    ensures ParseSpec(GET + TargetText(path, query) + [SPACE] + rest) ==
      if EndsWith(path, ".mp4") then ScanRange([SPACE] + rest, RequestValue(path, query, 0))
      else Accepted(RequestValue(path, query, 0))
  {
    var after := TargetText(path, query) + [SPACE] + rest;
    var buf := GET + TargetText(path, query) + [SPACE] + rest;
    Regroup4(GET, TargetText(path, query), [SPACE], rest);
    SkipPrefix(buf, 0, GET, after);
    assert buf[..|GET|] == GET;
    var end := |GET| + |TargetText(path, query)|;
    var fin := RequestValue(path, query, 0);
    ScanTarget(buf, path, query, rest, end, fin);
    ParseAtUrlEnd(buf, fin, end);
  }

  /** Once the URL scan is known to end at `end` with `fin`, the whole parse follows. */
  lemma ParseAtUrlEnd(buf: seq<Byte>, fin: RequestValue, end: nat)
    requires StartsWith(buf, GET) && end <= |buf|
    requires ScanUrl(buf, |GET|, Path, [], Blank) == UrlEnd(fin, end)
    ensures ParseSpec(buf) == if EndsWith(fin.path, ".mp4") then ScanRange(buf[end..], fin) else Accepted(fin)
  {
  }

  /** The URL scan never touches the range start: whatever request it ends with keeps the one it began with. */
  lemma {:induction false} ScanUrlKeepsRangeStart(buf: seq<Byte>, i: nat, kind: UrlPartKind, part: seq<Byte>, r: RequestValue)
    requires i <= |buf|
    ensures !ScanUrl(buf, i, kind, part, r).UrlRejected? ==> ScanUrl(buf, i, kind, part, r).request.rangeStart == r.rangeStart
    decreases |buf| - i
  {
    if i < |buf| {
      match Classify(buf[i])
      case Space =>
      case Percent =>
        if i + 3 <= |buf| && PercentValue(buf[i + 1..i + 3]).Some? {
          ScanUrlKeepsRangeStart(buf, i + 3, kind, part + [PercentValue(buf[i + 1..i + 3]).value], r);
        }
      case QueryDelimiter =>
        ScanUrlKeepsRangeStart(buf, i + 1, Key, [], WithPart(r, kind, part));
      case ValueDelimiter =>
        if kind == Path {
          ScanUrlKeepsRangeStart(buf, i + 1, kind, part + [buf[i]], r);
        } else {
          ScanUrlKeepsRangeStart(buf, i + 1, Value, [], WithPart(r, kind, part));
        }
      case Literal =>
        ScanUrlKeepsRangeStart(buf, i + 1, kind, part + [buf[i]], r);
      case Illegal =>
    }
  }

  /** `range_start` is a usize: an accepted request's range start always fits in 64 bits. */
  lemma ParsedRangeStartFits(buf: seq<Byte>)
    ensures ParseSpec(buf).Accepted? ==> ParseSpec(buf).request.rangeStart <= USIZE_MAX
  {
    if StartsWith(buf, GET) {
      ScanUrlKeepsRangeStart(buf, |GET|, Path, [], Blank);
    }
  }

  /** A path whose bytes are not UTF-8 is dropped: the request is accepted with an empty path. */
  lemma UndecodablePathDropped(bs: seq<Byte>, rest: seq<Byte>)
    requires Utf8.Decode(bs).None?
    ensures ParseSpec(GET + Escape(bs) + [SPACE] + rest) == Accepted(Blank)
  {
    var buf := GET + Escape(bs) + [SPACE] + rest;
    var end := |GET| + |Escape(bs)|;
    Regroup4(GET, Escape(bs), [SPACE], rest);
    SkipPrefix(buf, 0, GET, Escape(bs) + [SPACE] + rest);
    assert buf[..|GET|] == GET;
    Regroup3(Escape(bs), [SPACE], rest);
    ScanEscaped(buf, |GET|, Path, [], Blank, bs, [SPACE] + rest, end, bs);
    SkipPrefix(buf, |GET|, Escape(bs), [SPACE] + rest);
    SkipPrefix(buf, end, [SPACE], rest);
    StepSpace(buf, end, Path, bs, Blank, Blank);
    ParseAtUrlEnd(buf, Blank, end);
  }

  /** A byte outside the URL alphabet fails the whole request. */
  lemma IllegalByteRejected(bs: seq<Byte>, b: Byte, rest: seq<Byte>)
    requires Classify(b) == Illegal
    ensures ParseSpec(GET + Escape(bs) + [b] + rest) == Rejected
  {
    var buf := GET + Escape(bs) + [b] + rest;
    var at := |GET| + |Escape(bs)|;
    Regroup4(GET, Escape(bs), [b], rest);
    SkipPrefix(buf, 0, GET, Escape(bs) + [b] + rest);
    assert buf[..|GET|] == GET;
    Regroup3(Escape(bs), [b], rest);
    ScanEscaped(buf, |GET|, Path, [], Blank, bs, [b] + rest, at, bs);
    SkipPrefix(buf, |GET|, Escape(bs), [b] + rest);
    SkipPrefix(buf, at, [b], rest);
    StepIllegal(buf, at, Path, bs, Blank);
  }

  /** A `%` not followed by two bytes that read as a byte value fails the whole request. */
  lemma BadEscapeRejected(bs: seq<Byte>, rest: seq<Byte>)
    requires |rest| >= 2 ==> PercentValue(rest[..2]).None?
    ensures ParseSpec(GET + Escape(bs) + [PERCENT] + rest) == Rejected
  {
    var buf := GET + Escape(bs) + [PERCENT] + rest;
    var at := |GET| + |Escape(bs)|;
    Regroup4(GET, Escape(bs), [PERCENT], rest);
    SkipPrefix(buf, 0, GET, Escape(bs) + [PERCENT] + rest);
    assert buf[..|GET|] == GET;
    Regroup3(Escape(bs), [PERCENT], rest);
    ScanEscaped(buf, |GET|, Path, [], Blank, bs, [PERCENT] + rest, at, bs);
    SkipPrefix(buf, |GET|, Escape(bs), [PERCENT] + rest);
    SkipPrefix(buf, at, [PERCENT], rest);
    if at + 3 <= |buf| {
      assert buf[at + 1..at + 3] == buf[at + 1..][..2] == rest[..2];
    }
    StepBadEscape(buf, at, Path, bs, Blank);
  }

  /** A request line cut off before the space never sets the path: it is accepted with an empty path. */
  lemma UnterminatedTarget(bs: seq<Byte>)
    ensures ParseSpec(GET + Escape(bs)) == Accepted(Blank)
  {
    var buf := GET + Escape(bs);
    assert buf == GET + (Escape(bs) + []);
    SkipPrefix(buf, 0, GET, Escape(bs) + []);
    assert buf[..|GET|] == GET;
    ScanEscaped(buf, |GET|, Path, [], Blank, bs, [], |buf|, bs);
    StepEnd(buf, Path, bs, Blank);
    assert buf[|buf|..] == [];
  }

  lemma Nest10<T>(a: seq<T>, b: seq<T>, c: seq<T>, d: seq<T>, e: seq<T>, f: seq<T>, g: seq<T>, h: seq<T>, k: seq<T>, l: seq<T>)
    ensures a + b + c + d + e + f + g + h + k + l == a + (b + (c + (d + (e + (f + (g + (h + (k + l))))))))
  {
  }

  /** A value followed by `=` is flushed into the last pair, and a new value starts. */
  lemma ScanValueEquals(buf: seq<Byte>, j: nat, path: string, done: seq<QueryParam>, key: string,
                        previous: string, value: string, after: seq<Byte>, k: nat)
    requires j <= |buf| && buf[j..] == Escape(Utf8.Encode(value)) + ([EQUALS] + after)
    requires k == j + |Escape(Utf8.Encode(value))| + 1
    ensures k <= |buf| && buf[k..] == after
    ensures ScanUrl(buf, j, Value, [], RequestValue(path, done + [QueryParam(key, previous)], 0))
         == ScanUrl(buf, k, Value, [], RequestValue(path, done + [QueryParam(key, value)], 0))
  {
    var e := Utf8.Encode(value);
    var r := RequestValue(path, done + [QueryParam(key, previous)], 0);
    ScanEscaped(buf, j, Value, [], r, e, [EQUALS] + after, k - 1, e);
    SkipPrefix(buf, j, Escape(e), [EQUALS] + after);
    SkipPrefix(buf, k - 1, [EQUALS], after);
    FlushValue(path, done, key, previous, value);
    StepValueDelimiter(buf, k - 1, Value, e, r, RequestValue(path, done + [QueryParam(key, value)], 0));
  }

  /** A value followed by the space is flushed into the last pair, and the URL ends. */
  lemma ScanValueSpace(buf: seq<Byte>, j: nat, path: string, done: seq<QueryParam>, key: string,
                       previous: string, value: string, rest: seq<Byte>, end: nat, fin: RequestValue)
    requires j <= |buf| && buf[j..] == Escape(Utf8.Encode(value)) + ([SPACE] + rest)
    requires end == j + |Escape(Utf8.Encode(value))| && fin == RequestValue(path, done + [QueryParam(key, value)], 0)
    ensures ScanUrl(buf, j, Value, [], RequestValue(path, done + [QueryParam(key, previous)], 0)) == UrlEnd(fin, end)
  {
    var e := Utf8.Encode(value);
    var r := RequestValue(path, done + [QueryParam(key, previous)], 0);
    ScanEscaped(buf, j, Value, [], r, e, [SPACE] + rest, end, e);
    SkipPrefix(buf, j, Escape(e), [SPACE] + rest);
    SkipPrefix(buf, end, [SPACE], rest);
    FlushValue(path, done, key, previous, value);
    StepSpace(buf, end, Value, e, r, fin);
  }

  /** Two values separated by `=`: the second replaces the first, and the URL ends at the space. */
  lemma ScanTwoValues(buf: seq<Byte>, j: nat, path: string, key: string, first: string, second: string,
                      rest: seq<Byte>, end: nat, fin: RequestValue)
    requires j <= |buf|
    requires buf[j..] == Escape(Utf8.Encode(first)) + ([EQUALS] + (Escape(Utf8.Encode(second)) + ([SPACE] + rest)))
    requires end == j + |Escape(Utf8.Encode(first))| + 1 + |Escape(Utf8.Encode(second))|
    requires fin == RequestValue(path, [QueryParam(key, second)], 0)
    ensures ScanUrl(buf, j, Value, [], RequestValue(path, [QueryParam(key, "")], 0)) == UrlEnd(fin, end)
  {
    var k := j + |Escape(Utf8.Encode(first))| + 1;
    assert [] + [QueryParam(key, "")] == [QueryParam(key, "")];
    assert [] + [QueryParam(key, first)] == [QueryParam(key, first)];
    assert [] + [QueryParam(key, second)] == [QueryParam(key, second)];
    ScanValueEquals(buf, j, path, [], key, "", first, Escape(Utf8.Encode(second)) + ([SPACE] + rest), k);
    ScanValueSpace(buf, k, path, [], key, first, second, rest, end, fin);
  }

  /**
   * Inside a query value a second `=` is a delimiter, not a literal: in
   * `?key=first=second` the pair ends up holding `second`.
   */
  lemma SecondEqualsReplacesValue(path: string, key: string, first: string, second: string, rest: seq<Byte>)
    requires !EndsWith(path, ".mp4")
    ensures ParseSpec(GET + Escape(Utf8.Encode(path)) + [QUESTION] + Escape(Utf8.Encode(key)) + [EQUALS] +
                      Escape(Utf8.Encode(first)) + [EQUALS] + Escape(Utf8.Encode(second)) + [SPACE] + rest)
         == Accepted(RequestValue(path, [QueryParam(key, second)], 0))
  {
    var ep, ek := Escape(Utf8.Encode(path)), Escape(Utf8.Encode(key));
    var e1, e2 := Escape(Utf8.Encode(first)), Escape(Utf8.Encode(second));
    var buf := GET + ep + [QUESTION] + ek + [EQUALS] + e1 + [EQUALS] + e2 + [SPACE] + rest;
    var afterKey := e1 + ([EQUALS] + (e2 + ([SPACE] + rest)));
    var afterPath := ek + ([EQUALS] + afterKey);
    Nest10(GET, ep, [QUESTION], ek, [EQUALS], e1, [EQUALS], e2, [SPACE], rest);
    SkipPrefix(buf, 0, GET, ep + ([QUESTION] + afterPath));
    assert buf[..|GET|] == GET;
    var k := |GET| + |ep| + 1;
    ScanPathQuestion(buf, path, afterPath, k);
    var j := k + |ek| + 1;
    ScanKey(buf, k, path, [], key, afterKey, j);
    assert [] + [QueryParam(key, "")] == [QueryParam(key, "")];
    var end := j + |e1| + 1 + |e2|;
    var fin := RequestValue(path, [QueryParam(key, second)], 0);
    ScanTwoValues(buf, j, path, key, first, second, rest, end, fin);
    ParseAtUrlEnd(buf, fin, end);
  }
}
