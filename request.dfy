/**
 * The HTTP request parser: one read buffer in, a path, query pairs and a
 * `Range` start out. The URL is scanned byte by byte as a three-state machine
 * (Path, Key, Value) with percent-decoding (section 2.1 of RFC 3986); for
 * `.mp4` targets the rest of the buffer is searched for `\r\nRange: bytes=`
 * followed by a decimal first-byte-pos (section 2.1 of RFC 7233).
 */
module Request {
  import opened Wrappers
  import opened Numeric
  import Utf8

  /** `QueryParam`: one `key=value` pair after the question mark. */
  datatype QueryParam = QueryParam(key: string, value: string)

  /** `UrlPartKind`: which part of the URL the scanner is in. */
  datatype UrlPartKind = Path | Key | Value

  /** The contents of a `Request`, as a value. */
  datatype RequestValue = RequestValue(path: string, query: seq<QueryParam>, rangeStart: nat)

  /** What `Request::new` holds: empty path, no query, range start 0. */
  const Blank: RequestValue := RequestValue("", [], 0)

  /** What `Request::parse` can do: return Some, return None, or panic. */
  datatype ParseOutcome = Accepted(request: RequestValue) | Rejected | Panicked

  const SPACE: Byte := 0x20
  const PERCENT: Byte := 0x25
  const AMPERSAND: Byte := 0x26
  const EQUALS: Byte := 0x3D
  const QUESTION: Byte := 0x3F

  /** The method token `GET ` that every accepted request starts with. */
  const GET: seq<Byte> := [0x47, 0x45, 0x54, 0x20]

  /** The header prefix `\r\nRange: bytes=` the range scan looks for. */
  const RANGE_PREFIX: seq<Byte> :=
    [0x0D, 0x0A, 0x52, 0x61, 0x6E, 0x67, 0x65, 0x3A, 0x20, 0x62, 0x79, 0x74, 0x65, 0x73, 0x3D]

  predicate StartsWith<T(==)>(s: seq<T>, prefix: seq<T>) {
    |prefix| <= |s| && s[..|prefix|] == prefix
  }

  predicate EndsWith<T(==)>(s: seq<T>, suffix: seq<T>) {
    |suffix| <= |s| && s[|s| - |suffix|..] == suffix
  }

  predicate IsDigit(b: Byte) { 0x30 <= b <= 0x39 }

  /**
   * Bytes copied into a part unchanged: `!`, `#`-`$`, `'`-`;`, `@`-`[`, `]`, `_`,
   * `a`-`z` and `~`, the gen-delims, sub-delims and unreserved characters of
   * Appendix A of RFC 3986 that the scanner admits.
   */
  predicate IsUrlByte(b: Byte) {
    || b == 0x21
    || 0x23 <= b <= 0x24
    || 0x27 <= b <= 0x3B
    || 0x40 <= b <= 0x5B
    || b == 0x5D
    || b == 0x5F
    || 0x61 <= b <= 0x7A
    || b == 0x7E
  }

  /** The arms of the scanner's `match byte`, in the order the scanner tries them. */
  datatype UrlByte = Space | Percent | QueryDelimiter | ValueDelimiter | Literal | Illegal

  function Classify(b: Byte): (c: UrlByte)
    ensures c == Literal <==> IsUrlByte(b)
  {
    if b == SPACE then Space
    else if b == PERCENT then Percent
    else if b == QUESTION || b == AMPERSAND then QueryDelimiter
    else if b == EQUALS then ValueDelimiter
    else if IsUrlByte(b) then Literal
    else Illegal
  }

  const PLUS: Byte := 0x2B

  /** An ASCII hexadecimal digit, either case. */
  predicate IsHexDigit(b: Byte) {
    b < 0x80 && DigitValue(b as char, 16).Some?
  }

  function HexValue(b: Byte): (v: nat)
    requires IsHexDigit(b)
    ensures v < 16
  {
    DigitValue(b as char, 16).value
  }

  /** What the `%` arm computes: the two bytes after `%` read by `core::str::from_utf8`, then by `u8::from_str_radix(_, 16)`. */
  function FromHexText(hex: seq<Byte>): Option<Byte>
    requires |hex| == 2
  {
    match Utf8.Decode(hex)
    case None => None
    case Some(s) =>
      match ParseUnsigned(s, 16, U8_MAX)
      case None => None
      case Some(n) => Some(n)
  }

  /** The byte a `%` escape stands for, by the digits it is written with. */
  function PercentValue(hex: seq<Byte>): Option<Byte>
    requires |hex| == 2
  {
    if IsHexDigit(hex[0]) && IsHexDigit(hex[1]) then Some(16 * HexValue(hex[0]) + HexValue(hex[1]))
    else if hex[0] == PLUS && IsHexDigit(hex[1]) then Some(HexValue(hex[1]))
    else None
  }

  /**
   * A `%` escape is read as two hexadecimal digits, or a `+` followed by one
   * digit (the sign `u8::from_str_radix` accepts); anything else, including
   * bytes that are not UTF-8, fails.
   */
  lemma PercentValueIsFromHexText(hex: seq<Byte>)
    requires |hex| == 2
    ensures FromHexText(hex) == PercentValue(hex)
  {
    if hex[0] < 0x80 && hex[1] < 0x80 {
      Utf8.DecodeAscii(hex);
      var s := Utf8.Decode(hex).value;
      assert s == [hex[0] as char, hex[1] as char];
      if s[0] == '+' {
        var digit := s[1..];
        assert digit == [s[1]];
        assert digit[..0] == [];
        if IsHexDigit(hex[1]) {
          assert DigitsValue(digit, 16) == HexValue(hex[1]);
        } else {
          assert !AllDigits(digit, 16);
        }
      } else if AllDigits(s, 16) {
        var high := s[..1];
        assert high == [s[0]] && high[..0] == [];
        assert DigitsValue(high, 16) == HexValue(hex[0]);
        assert DigitsValue(s, 16) == 16 * HexValue(hex[0]) + HexValue(hex[1]);
      } else {
        assert !(IsHexDigit(hex[0]) && IsHexDigit(hex[1]));
      }
    } else if hex[0] >= 0x80 {
      match Utf8.Decode(hex)
      case None =>
      case Some(s) =>
        assert s[0] as int >= 0x80;
        assert !AllDigits(s, 16) by { assert DigitValue(s[0], 16).None?; }
    } else {
      assert hex[1..] == [hex[1]];
      assert Utf8.Decode(hex[1..]).None?;
    }
  }

  /**
   * `insert_part` on values: a part that is not UTF-8 is dropped; otherwise a
   * Path part replaces the path, a Key part appends a pair with an empty value,
   * and a Value part overwrites the value of the last pair, if there is one.
   */
  function WithPart(r: RequestValue, kind: UrlPartKind, part: seq<Byte>): RequestValue
  {
    match Utf8.Decode(part)
    case None => r
    case Some(text) =>
      match kind
      case Path => r.(path := text)
      case Key => r.(query := r.query + [QueryParam(text, "")])
      case Value =>
        if r.query == [] then r
        else r.(query := r.query[..|r.query| - 1] + [r.query[|r.query| - 1].(value := text)])
  }

  /**
   * What flushing a part does: an undecodable part changes nothing; a path
   * replaces the path, a key appends a pair with an empty value, and a value
   * replaces the value of the last pair, if there is one.
   */
  lemma WithPartEffect(r: RequestValue, kind: UrlPartKind, part: seq<Byte>)
    ensures Utf8.Decode(part).None? ==> WithPart(r, kind, part) == r
    ensures WithPart(r, kind, part).rangeStart == r.rangeStart
    ensures kind != Path ==> WithPart(r, kind, part).path == r.path
    ensures kind == Path && Utf8.Decode(part).Some? ==> WithPart(r, kind, part) == r.(path := Utf8.Decode(part).value)
    ensures kind == Key && Utf8.Decode(part).Some? ==>
      WithPart(r, kind, part).query == r.query + [QueryParam(Utf8.Decode(part).value, "")]
    ensures kind == Value ==> |WithPart(r, kind, part).query| == |r.query| && (r.query == [] ==> WithPart(r, kind, part) == r)
    ensures kind == Value && r.query != [] && Utf8.Decode(part).Some? ==>
      WithPart(r, kind, part).query == r.query[..|r.query| - 1] + [r.query[|r.query| - 1].(value := Utf8.Decode(part).value)]
  {
  }

  /** Where the URL scan of `parse` ends: rejection, an early return, or on to the range scan at `at`. */
  datatype UrlOutcome = UrlRejected | UrlDone(request: RequestValue) | UrlHeaders(request: RequestValue, at: nat)

  /**
   * The URL scan from byte `i`, with `part` the bytes of the current part so
   * far (already decoded) and `r` the request built from the parts flushed.
   */
  function ScanUrl(buf: seq<Byte>, i: nat, kind: UrlPartKind, part: seq<Byte>, r: RequestValue): (o: UrlOutcome)
    requires i <= |buf|
    ensures o.UrlHeaders? ==> i <= o.at <= |buf|
    decreases |buf| - i
  {
    if i == |buf| then UrlHeaders(r, i)
    else
      match Classify(buf[i])
      case Space =>
        var flushed := WithPart(r, kind, part);
        if EndsWith(flushed.path, ".mp4") then UrlHeaders(flushed, i) else UrlDone(flushed)
      case Percent =>
        if i + 3 > |buf| then UrlRejected
        else (
          match PercentValue(buf[i + 1..i + 3])
          case None => UrlRejected
          case Some(v) => ScanUrl(buf, i + 3, kind, part + [v], r))
      case QueryDelimiter =>
        ScanUrl(buf, i + 1, Key, [], WithPart(r, kind, part))
      case ValueDelimiter =>
        if kind == Path then ScanUrl(buf, i + 1, kind, part + [buf[i]], r)
        else ScanUrl(buf, i + 1, Value, [], WithPart(r, kind, part))
      case Literal =>
        ScanUrl(buf, i + 1, kind, part + [buf[i]], r)
      case Illegal => UrlRejected
  }

  /*
   * One step of the URL loop, for the current part held as `part` followed
   * by the bytes from `start` not yet copied out of the buffer.
   */

  /** A URL character, or `=` inside the path, is kept as it is: it extends the current part. */
  lemma ScanUrlKeep(buf: seq<Byte>, i: nat, kind: UrlPartKind, part: seq<Byte>, start: nat, r: RequestValue)
    requires start <= i < |buf|
    requires Classify(buf[i]) == Literal || (Classify(buf[i]) == ValueDelimiter && kind == Path)
    ensures ScanUrl(buf, i, kind, part + buf[start..i], r) == ScanUrl(buf, i + 1, kind, part + buf[start..i + 1], r)
  {
    assert part + buf[start..i + 1] == part + buf[start..i] + [buf[i]] by {
      assert buf[start..i + 1] == buf[start..i] + [buf[i]];
    }
  }

  /** A `%XY` escape adds the byte it stands for to the current part. */
  lemma ScanUrlPercent(buf: seq<Byte>, i: nat, kind: UrlPartKind, part: seq<Byte>, start: nat, r: RequestValue, v: Byte)
    requires start <= i && i + 3 <= |buf| && Classify(buf[i]) == Percent && PercentValue(buf[i + 1..i + 3]) == Some(v)
    ensures ScanUrl(buf, i, kind, part + buf[start..i], r) ==
      ScanUrl(buf, i + 3, kind, part + buf[start..i] + [v] + buf[i + 3..i + 3], r)
  {
    assert part + buf[start..i] + [v] + buf[i + 3..i + 3] == part + buf[start..i] + [v];
  }

  /** `?` and `&` flush the current part and start a key; `=` outside the path does so and starts a value. */
  lemma ScanUrlFlush(buf: seq<Byte>, i: nat, kind: UrlPartKind, part: seq<Byte>, start: nat, r: RequestValue)
    requires start <= i < |buf|
    requires Classify(buf[i]) == QueryDelimiter || (Classify(buf[i]) == ValueDelimiter && kind != Path)
    ensures ScanUrl(buf, i, kind, part + buf[start..i], r) ==
      ScanUrl(buf, i + 1, if Classify(buf[i]) == QueryDelimiter then Key else Value, [] + buf[i + 1..i + 1],
              WithPart(r, kind, part + buf[start..i]))
  {
    assert [] + buf[i + 1..i + 1] == [];
  }

  /**
   * The header matcher: `k` bytes of RANGE_PREFIX matched before byte `j`.
   * A mismatch resets to zero without testing the same byte again.
   * Gives the index just past the first match it recognises.
   */
  function MatchFrom(rest: seq<Byte>, j: nat, k: nat): (p: Option<nat>)
    requires j <= |rest| && k < |RANGE_PREFIX|
    ensures p.Some? ==> j < p.value <= |rest|
    decreases |rest| - j
  {
    if j == |rest| then None
    else if rest[j] != RANGE_PREFIX[k] then MatchFrom(rest, j + 1, 0)
    else if k == |RANGE_PREFIX| - 1 then Some(j + 1)
    else MatchFrom(rest, j + 1, k + 1)
  }

  /** The end of the run of ASCII digits that starts at `p`. */
  function DigitRunEnd(rest: seq<Byte>, p: nat): (q: nat)
    requires p <= |rest|
    ensures p <= q <= |rest|
    ensures forall k :: p <= k < q ==> IsDigit(rest[k])
    ensures q < |rest| ==> !IsDigit(rest[q])
    decreases |rest| - p
  {
    if p == |rest| || !IsDigit(rest[p]) then p else DigitRunEnd(rest, p + 1)
  }

  /** The range scan over the bytes after the URL. */
  function ScanRange(rest: seq<Byte>, r: RequestValue): ParseOutcome {
    match MatchFrom(rest, 0, 0)
    case None => Accepted(r)
    case Some(p) =>
      if p == |rest| then Accepted(r)
      else if !IsDigit(rest[p]) then Rejected
      else
        var q := DigitRunEnd(rest, p);
        if q == |rest| then Panicked
        else
          match Utf8.Decode(rest[p..q])
          case None => Accepted(r)
          case Some(number) =>
            match ParseUnsigned(number, 10, USIZE_MAX)
            case None => Accepted(r)
            case Some(n) => Accepted(r.(rangeStart := n))
  }

  /** `Request::parse` as a function of the buffer. */
  function ParseSpec(buf: seq<Byte>): ParseOutcome {
    if !StartsWith(buf, GET) then Rejected
    else
      match ScanUrl(buf, |GET|, Path, [], Blank)
      case UrlRejected => Rejected
      case UrlDone(r) => Accepted(r)
      case UrlHeaders(r, i) => ScanRange(buf[i..], r)
  }

  /** `struct Request`, which `parse` fills in place. */
  class Request {
    var path: string
    var query: seq<QueryParam>
    var rangeStart: nat

    function Value(): RequestValue
      reads this
    {
      RequestValue(path, query, rangeStart)
    }

    /** `Request::new`: a blank request. */
    constructor ()
      ensures Value() == Blank
    {
      path := "";
      query := [];
      rangeStart := 0;
    }

    /** `insert_part`: set the path, add a query key, or set the last query value. */
    method InsertPart(kind: UrlPartKind, part: seq<Byte>)
      modifies this
      ensures Value() == WithPart(old(Value()), kind, part)
    {
      match Utf8.Decode(part)
      case None =>
      case Some(text) =>
        match kind
        case Path => path := text;
        case Key => query := query + [QueryParam(text, "")];
        case Value =>
          if query != [] {
            query := query[..|query| - 1] + [query[|query| - 1].(value := text)];
          }
    }
  }

  /** `Request::parse`: the URL loop, then, for `.mp4` paths, the range-header loop. */
  method Parse(request: seq<Byte>) returns (out: ParseOutcome)
    ensures out == ParseSpec(request)
  {
    var result := new Request();

    if !StartsWith(request, GET) {
      return Rejected;
    }
    var url := ReadUrl(request, result);
    match url {
      case UrlRejected => return Rejected;
      case UrlDone(r) => return Accepted(r);
      case UrlHeaders(_, i) => out := ReadRangeStart(request[i..], result);
    }
  }

  /**
   * The URL loop of `Request::parse`, after `GET /`: percent-decode the bytes
   * and flush each part into `result` at `?`, `&`, `=` and the closing space.
   */
  method ReadUrl(request: seq<Byte>, result: Request) returns (outcome: UrlOutcome)
    requires |GET| <= |request|
    modifies result
    ensures outcome == ScanUrl(request, |GET|, Path, [], old(result.Value()))
    ensures outcome.UrlHeaders? ==> result.Value() == outcome.request
  {
    var i := |GET|;

    ghost var goal := ScanUrl(request, |GET|, Path, [], result.Value());
    var partKind := Path;
    var partStart := i;
    var part: seq<Byte> := [];
    assert part + request[partStart..i] == [];
    while i < |request|
      invariant |GET| <= partStart <= i <= |request|
      invariant ScanUrl(request, i, partKind, part + request[partStart..i], result.Value()) == goal
    {
      var b := request[i];
      match Classify(b) {
        case Space =>
          part := part + request[partStart..i];
          result.InsertPart(partKind, part);
          if EndsWith(result.path, ".mp4") {
            return UrlHeaders(result.Value(), i);
          } else {
            return UrlDone(result.Value());
          }
        case Percent =>
          var charEnd := i + 3;
          if charEnd > |request| {
            return UrlRejected;
          }
          var hexNum := FromHexText(request[i + 1..charEnd]);
          PercentValueIsFromHexText(request[i + 1..charEnd]);
          match hexNum {
            case None => return UrlRejected;
            case Some(hexNum) =>
              ScanUrlPercent(request, i, partKind, part, partStart, result.Value(), hexNum);
              part := part + request[partStart..i] + [hexNum];
              i := charEnd;
              partStart := i;
              continue;
          }
        case QueryDelimiter =>
          ScanUrlFlush(request, i, partKind, part, partStart, result.Value());
          part := part + request[partStart..i];
          result.InsertPart(partKind, part);
          part := [];
          partKind := Key;
          partStart := i + 1;
        case ValueDelimiter =>
          if partKind != Path {
            ScanUrlFlush(request, i, partKind, part, partStart, result.Value());
            part := part + request[partStart..i];
            result.InsertPart(partKind, part);
            part := [];
            partKind := Value;
            partStart := i + 1;
          } else {
            ScanUrlKeep(request, i, partKind, part, partStart, result.Value());
          }
        case Literal =>
          ScanUrlKeep(request, i, partKind, part, partStart, result.Value());
        case Illegal =>
          return UrlRejected;
      }
      i := i + 1;
    }
    return UrlHeaders(result.Value(), i);
  }

  /**
   * The range-header loop of `Request::parse` over the bytes after the URL:
   * find `\r\nRange: bytes=`, then take the digits after it as the range start.
   */
  method ReadRangeStart(rest: seq<Byte>, result: Request) returns (out: ParseOutcome)
    modifies result
    ensures out == ScanRange(rest, old(result.Value()))
  {
    var found := false;
    var subsliceI := 0;
    var begin := 0;
    var end := 0;
    ghost var p := 0;
    for sliceI := 0 to |rest|
      invariant end == 0 && subsliceI < |RANGE_PREFIX|
      invariant !found ==> begin == 0 && MatchFrom(rest, sliceI, subsliceI) == MatchFrom(rest, 0, 0)
      invariant found ==> MatchFrom(rest, 0, 0) == Some(p) && p <= sliceI
      invariant found && begin == 0 ==> sliceI == p
      invariant begin > 0 ==> found && begin == p && p < sliceI
      invariant begin > 0 ==> forall k :: p <= k < sliceI ==> IsDigit(rest[k])
    {
      var c := rest[sliceI];
      if !found {
        if c != RANGE_PREFIX[subsliceI] {
          subsliceI := 0;
        } else if subsliceI == |RANGE_PREFIX| - 1 {
          found := true;
          p := sliceI + 1;
        } else {
          subsliceI := subsliceI + 1;
        }
      } else {
        if begin == 0 && IsDigit(c) {
          begin := sliceI;
        } else if IsDigit(c) {
        } else if begin == 0 {
          return Rejected;
        } else {
          end := sliceI;
          break;
        }
      }
    }
    if !found {
      return Accepted(result.Value());
    }
    if begin > end {
      // `request[begin..end]` with begin past end: the slice panics
      return Panicked;
    }
    assert begin > 0 ==> DigitRunEnd(rest, p) == end;
    match Utf8.Decode(rest[begin..end]) {
      case None => return Accepted(result.Value());
      case Some(numberStr) =>
        match ParseUnsigned(numberStr, 10, USIZE_MAX) {
          case None => return Accepted(result.Value());
          case Some(number) => result.rangeStart := number;
        }
    }
    return Accepted(result.Value());
  }
}
