/**
 * The responder: what a connection gets back once its request is read.
 * A request is routed to a built-in asset, a generated page, a file, or a
 * video; a video is sent whole or as one byte range. The file system and
 * the socket are not modelled: what they report (a file opened or not, its
 * size, how many bytes a read gave, whether a write went through) is given
 * to these functions as parameters.
 */
module Http {
  import opened Wrappers
  import opened Numeric
  import opened Status
  import opened HttpText
  import Request

  /** Size of the buffer one request is read into. */
  const REQUEST_SIZE: nat := 4096

  /** Largest part of a video read and sent at once (2 MiB). */
  const VIDEO_BUFFER_SIZE: nat := 0x20_0000

  const CONTENT_TYPE_CSS: string := "text/css"
  const CONTENT_TYPE_HTML: string := "text/html"
  const CONTENT_TYPE_JPG: string := "image/jpeg"
  const CONTENT_TYPE_JS: string := "text/javascript"
  const CONTENT_TYPE_JSON: string := "application/json"
  const CONTENT_TYPE_MP4: string := "video/mp4"
  const CONTENT_TYPE_PNG: string := "image/png"
  const CONTENT_TYPE_SVG: string := "image/svg+xml"
  const CONTENT_TYPE_VTT: string := "text/vtt"
  const CONTENT_TYPE_WEBP: string := "image/webp"
  const CONTENT_TYPE_WOFF2: string := "font/woff2"

  /** The statuses video delivery answers with: those of `Status`, and 416, which `Status` does not declare. */
  datatype DeliveryStatus = Known(status: Status) | RangeNotSatisfiable

  /*
   * `handle_request`
   */

  /** What reading the request from the connection gave: some bytes, or an error. */
  datatype Received = Received(bytes: seq<Byte>) | ReadFailed

  /** What becomes of a connection: closed unanswered, answered with a bare status, a parser panic, or handed on. */
  datatype Handling = Dropped | Answered(status: Status) | ParserPanicked | Deliver(request: Request.RequestValue)

  /** Only a read of fewer than `REQUEST_SIZE` bytes is parsed; an unparsable request is answered 400. */
  function Handle(read: Received): Handling
    requires read.Received? ==> |read.bytes| <= REQUEST_SIZE
  {
    match read
    case ReadFailed => Dropped
    case Received(bytes) =>
      if |bytes| == REQUEST_SIZE then Dropped
      else
        match Request.ParseSpec(bytes)
        case Rejected => Answered(BadRequest)
        case Panicked => ParserPanicked
        case Accepted(r) => Deliver(r)
  }

  /** `handle_request`: read once, then parse, then answer or hand the request on. */
  method HandleRequest(read: Received) returns (h: Handling)
    requires read.Received? ==> |read.bytes| <= REQUEST_SIZE
    ensures h == Handle(read)
    ensures h.Deliver? <==> read.Received? && |read.bytes| < REQUEST_SIZE && Request.ParseSpec(read.bytes).Accepted?
  {
    if read.ReadFailed? || |read.bytes| == REQUEST_SIZE {
      return Dropped;
    }
    var out := Request.Parse(read.bytes);
    match out
    case Rejected => h := Answered(BadRequest);
    case Panicked => h := ParserPanicked;
    case Accepted(r) => h := Deliver(r);
  }

  /** A read that fills the whole buffer is never parsed: the connection is closed without an answer. */
  lemma FullBufferDropped(bytes: seq<Byte>)
    requires |bytes| == REQUEST_SIZE
    ensures Handle(Received(bytes)) == Dropped
  {
  }

  /** A request not starting with `GET ` is answered 400, and so is an empty read. */
  lemma NonGetAnsweredBadRequest(bytes: seq<Byte>)
    requires |bytes| < REQUEST_SIZE && !Request.StartsWith(bytes, Request.GET)
    ensures Handle(Received(bytes)) == Answered(BadRequest)
    ensures Handle(Received([])) == Answered(BadRequest)
  {
  }

  /*
   * Routing in `respond_file`
   */

  /** The eight assets compiled into the program, each served from a fixed path with a fixed content type. */
  function BuiltinType(path: string): Option<string> {
    if path == "/alata.woff2" then Some(CONTENT_TYPE_WOFF2)
    else if path == "/logo.svg" then Some(CONTENT_TYPE_SVG)
    else if path == "/logo_circle.svg" then Some(CONTENT_TYPE_SVG)
    else if path == "/manifest.json" then Some(CONTENT_TYPE_JSON)
    else if path == "/saira_condensed.woff2" then Some(CONTENT_TYPE_WOFF2)
    else if path == "/style.css" then Some(CONTENT_TYPE_CSS)
    else if path == "/video.js" then Some(CONTENT_TYPE_JS)
    else if path == "/videos.js" then Some(CONTENT_TYPE_JS)
    else None
  }

  /** The content type of a file served whole, by its last extension; other extensions are not served. */
  function FileType(ext: string): Option<string> {
    if ext == ".jpg" || ext == ".jpeg" then Some(CONTENT_TYPE_JPG)
    else if ext == ".js" then Some(CONTENT_TYPE_JS)
    else if ext == ".png" then Some(CONTENT_TYPE_PNG)
    else if ext == ".webp" then Some(CONTENT_TYPE_WEBP)
    else if ext == ".vtt" then Some(CONTENT_TYPE_VTT)
    else None
  }

  /** Where a request goes. */
  datatype Route =
    | Asset(contentType: string, asset: string)
    | Listing(fullPath: string, clientPath: string)
    | Player(fullPath: string, videoName: string)
    | StaticFile(contentType: string, fullPath: string)
    | Video(fullPath: string)
    | Refused

  /** The value of the last `watch` parameter, or empty when there is none. */
  function LastWatch(query: seq<Request.QueryParam>): string {
    if query == [] then ""
    else if query[|query| - 1].key == "watch" then query[|query| - 1].value
    else LastWatch(query[..|query| - 1])
  }

  /**
   * The routing of `respond_file`: built-in assets first, then the
   * traversal check, then a folder (a listing, or a player page when a
   * video is asked for), then the file's extension.
   */
  function RouteOf(root: string, path: string, query: seq<Request.QueryParam>): Route {
    match BuiltinType(path)
    case Some(t) => Asset(t, path)
    case None =>
      if HasParentSegment(path) then Refused
      else
        var full := root + path;
        if Request.EndsWith(full, "/") then
          var video := LastWatch(query);
          if video == [] then Listing(full, path) else Player(full, video)
        else
          var ext := LastExtension(full);
          if ext == ".mp4" then Video(full)
          else
            match FileType(ext)
            case Some(t) => StaticFile(t, full)
            case None => Refused
  }

  /** The `for query in &request.query` loop: every `watch` overwrites the name kept so far. */
  method WatchedVideo(query: seq<Request.QueryParam>) returns (videoName: string)
    ensures videoName == LastWatch(query)
  {
    videoName := "";
    for i := 0 to |query|
      invariant videoName == LastWatch(query[..i])
    {
      assert query[..i + 1][..i] == query[..i];
      if query[i].key != "watch" {
        continue;
      }
      videoName := query[i].value;
    }
    assert query[..|query|] == query;
  }

  /** `respond_file` up to the point where the route is known, with the helpers it calls. */
  method Dispatch(root: string, path: string, query: seq<Request.QueryParam>) returns (route: Route)
    ensures route == RouteOf(root, path, query)
  {
    match BuiltinType(path) {
      case Some(t) => return Asset(t, path);
      case None =>
    }
    var traversal := HasParentDir(path);
    if traversal {
      return Refused;
    }
    var full := root + path;
    if Request.EndsWith(full, "/") {
      var video := WatchedVideo(query);
      if video == [] {
        return Listing(full, path);
      }
      return Player(full, video);
    }
    var ext := GetLastExtension(full);
    if ext == ".mp4" {
      return Video(full);
    }
    match FileType(ext) {
      case Some(t) => route := StaticFile(t, full);
      case None => route := Refused;
    }
  }

  /** When several `watch` parameters are given, the last one names the video. */
  lemma {:induction false} LastWatchIsLast(query: seq<Request.QueryParam>, i: nat)
    requires i < |query| && query[i].key == "watch"
    requires forall j :: i < j < |query| ==> query[j].key != "watch"
    ensures LastWatch(query) == query[i].value
  {
    if i < |query| - 1 {
      var init := query[..|query| - 1];
      assert init[i] == query[i];
      assert forall j :: i < j < |init| ==> init[j] == query[j];
      LastWatchIsLast(init, i);
    }
  }

  /** Without a `watch` parameter no video is asked for. */
  lemma {:induction false} LastWatchAbsent(query: seq<Request.QueryParam>)
    requires forall j :: 0 <= j < |query| ==> query[j].key != "watch"
    ensures LastWatch(query) == ""
  {
    if query != [] {
      var init := query[..|query| - 1];
      assert forall j :: 0 <= j < |init| ==> init[j] == query[j];
      LastWatchAbsent(init);
    }
  }

  /** The built-in paths are matched exactly, before any other rule. */
  lemma BuiltinsFirst(root: string, path: string, query: seq<Request.QueryParam>)
    ensures RouteOf(root, path, query).Asset? <==> BuiltinType(path).Some?
    ensures BuiltinType(path).Some? ==> RouteOf(root, path, query) == Asset(BuiltinType(path).value, path)
  {
  }

  /** A path with a `..` segment that is not a built-in asset is refused. */
  lemma TraversalRefused(root: string, path: string, query: seq<Request.QueryParam>)
    requires BuiltinType(path).None?
    requires HasParentSegment(path)
    ensures RouteOf(root, path, query) == Refused
  {
  }

  /** Every route that reaches the file system names the root folder followed by a path with no `..` segment. */
  lemma FileSystemRoutesStayInRoot(root: string, path: string, query: seq<Request.QueryParam>)
    ensures match RouteOf(root, path, query)
      case Listing(full, _) => full == root + path && !HasParentSegment(path)
      case Player(full, _) => full == root + path && !HasParentSegment(path)
      case StaticFile(_, full) => full == root + path && !HasParentSegment(path)
      case Video(full) => full == root + path && !HasParentSegment(path)
      case _ => true
  {
  }

  /** A file is served whole only with one of the five known extensions, and videos are the `.mp4` files. */
  lemma ExtensionsMapped(root: string, path: string, query: seq<Request.QueryParam>)
    requires BuiltinType(path).None? && !HasParentSegment(path) && !Request.EndsWith(root + path, "/")
    ensures var ext := LastExtension(root + path);
      match RouteOf(root, path, query)
      case StaticFile(t, _) =>
        ((ext == ".jpg" || ext == ".jpeg") && t == CONTENT_TYPE_JPG) || (ext == ".js" && t == CONTENT_TYPE_JS)
        || (ext == ".png" && t == CONTENT_TYPE_PNG) || (ext == ".webp" && t == CONTENT_TYPE_WEBP)
        || (ext == ".vtt" && t == CONTENT_TYPE_VTT)
      case Video(_) => ext == ".mp4"
      case Refused => ext != ".mp4" && FileType(ext).None?
      case _ => false
  {
  }

  /**
   * For an ordinary path the router streams a video exactly when the path
   * ends in `.mp4`, which is exactly when the parser reads the `Range`
   * header.
   */
  lemma VideoRouteIffMp4(root: string, path: string, query: seq<Request.QueryParam>)
    requires BuiltinType(path).None? && !HasParentSegment(path) && |path| >= 4
    ensures RouteOf(root, path, query).Video? <==> Request.EndsWith(path, ".mp4")
  {
    var full := root + path;
    assert full[|full| - 4..] == path[|path| - 4..];
    Mp4Extension(full);
    if Request.EndsWith(full, ".mp4") {
      assert full[|full| - 1..] == full[|full| - 4..][3..];
    }
  }

  /** A path has the extension `.mp4` exactly when it ends in `.mp4`. */
  lemma Mp4Extension(full: string)
    ensures LastExtension(full) == ".mp4" <==> Request.EndsWith(full, ".mp4")
  {
    if Request.EndsWith(full, ".mp4") {
      LastExtensionOfSuffix(full, ".mp4");
    }
    if LastExtension(full) == ".mp4" {
      LastExtensionSuffix(full);
    }
  }

  /*
   * Video delivery in `respond_file`
   */

  /** At most `VIDEO_BUFFER_SIZE` bytes at a time: the whole of `n` when it fits, else one full buffer. */
  function BufferSize(n: nat): (b: nat)
    ensures b <= n && b <= VIDEO_BUFFER_SIZE
    ensures b == n || b == VIDEO_BUFFER_SIZE
  {
    if n <= VIDEO_BUFFER_SIZE then n else VIDEO_BUFFER_SIZE
  }

  /** What `seek_relative` reported. */
  datatype SeekResult = Sought | SeekInvalidInput | SeekFailed

  /** How a video request is answered. */
  datatype VideoReply =
    | VideoStatus(status: DeliveryStatus)
    | WholeFile(total: nat, bufferSize: nat)
    | PartialContent(begin: nat, end: nat, total: nat, length: nat)
    | EndUnderflow

  /** The byte count a read into the range buffer can report: no more than the buffer holds. */
  predicate ReadFits(total: nat, begin: nat, read: Option<nat>) {
    read.Some? && begin <= total ==> read.value <= BufferSize(total - begin)
  }

  /**
   * The byte-range branch: seek to `begin` (a 64-bit signed offset, so a
   * larger one is a server error), read one buffer of at most
   * `min(total - begin, 2 MiB)` bytes, and answer 206 for bytes `begin`
   * to `begin + len - 1`. A read of nothing at offset 0 makes that
   * subtraction go below zero.
   */
  function Stream(total: nat, begin: nat, seek: SeekResult, read: Option<nat>): (r: VideoReply)
    requires ReadFits(total, begin, read)
    ensures r.PartialContent? ==> r.begin == begin && r.total == total && r.end + 1 == r.begin + r.length
    ensures 0 < begin <= I64_MAX && total < begin ==> r == VideoStatus(RangeNotSatisfiable)
  {
    if begin > 0 && begin > I64_MAX then VideoStatus(Known(InternalServerError))
    else if begin > 0 && begin > total then VideoStatus(RangeNotSatisfiable)
    else if begin > 0 && seek == SeekInvalidInput then VideoStatus(RangeNotSatisfiable)
    else if begin > 0 && seek == SeekFailed then VideoStatus(Known(InternalServerError))
    else
      match read
      case None => VideoStatus(Known(InternalServerError))
      case Some(n) => if begin + n == 0 then EndUnderflow else PartialContent(begin, begin + n - 1, total, n)
  }

  /** The `.mp4` branch: open the file, take its size, then send it whole or one range of it. */
  function VideoDecision(fileOpened: bool, size: Option<nat>, range: Option<nat>, seek: SeekResult, read: Option<nat>): (r: VideoReply)
    requires size.Some? && range.Some? ==> ReadFits(size.value, range.value, read)
    ensures r.WholeFile? <==> fileOpened && size.Some? && size.value <= USIZE_MAX && range.None?
    ensures r.PartialContent? ==> range == Some(r.begin) && size == Some(r.total)
  {
    if !fileOpened then VideoStatus(Known(NotFound))
    else
      match size
      case None => VideoStatus(Known(InternalServerError))
      case Some(total) =>
        if total > USIZE_MAX then VideoStatus(Known(InternalServerError))
        else
          match range
          case None => WholeFile(total, BufferSize(total))
          case Some(begin) => Stream(total, begin, seek, read)
  }

  /**
   * A range answer covers `length` bytes from `begin`, all inside the
   * file, and no more than one buffer (sections 4.1 and 4.2 of RFC 7233:
   * the last byte position is below the complete length).
   */
  lemma PartialWithinFile(fileOpened: bool, size: Option<nat>, range: Option<nat>, seek: SeekResult, read: Option<nat>)
    requires size.Some? && range.Some? ==> ReadFits(size.value, range.value, read)
    ensures var r := VideoDecision(fileOpened, size, range, seek, read);
      r.PartialContent? ==>
        && r.length <= VIDEO_BUFFER_SIZE && r.begin + r.length <= r.total <= USIZE_MAX
        && r.end + 1 == r.begin + r.length
        && (r.length > 0 ==> r.begin <= r.end < r.total)
        && range == Some(r.begin) && size == Some(r.total)
  {
  }

  /** 416 is answered only for a start past the end of the file, or one the seek rejects. */
  lemma UnsatisfiableOnlyPastEnd(fileOpened: bool, size: Option<nat>, range: Option<nat>, seek: SeekResult, read: Option<nat>)
    requires size.Some? && range.Some? ==> ReadFits(size.value, range.value, read)
    ensures VideoDecision(fileOpened, size, range, seek, read) == VideoStatus(RangeNotSatisfiable) <==>
      && fileOpened && size.Some? && size.value <= USIZE_MAX && range.Some?
      && 0 < range.value <= I64_MAX
      && (range.value > size.value || seek == SeekInvalidInput)
  {
  }

  /** A start beyond the 64-bit signed range is a server error, even though it is also past the end. */
  lemma HugeStartIsServerError(total: nat, begin: nat, seek: SeekResult, read: Option<nat>)
    requires total <= USIZE_MAX && I64_MAX < begin
    requires ReadFits(total, begin, read)
    ensures VideoDecision(true, Some(total), Some(begin), seek, read) == VideoStatus(Known(InternalServerError))
  {
  }

  /**
   * A start equal to the file size is not refused: the read gives
   * nothing and the answer is a 206 whose last position is one before its
   * first.
   */
  lemma StartAtEndGivesEmptyRange(total: nat)
    requires 0 < total <= I64_MAX
    ensures VideoDecision(true, Some(total), Some(total), Sought, Some(0)) == PartialContent(total, total - 1, total, 0)
  {
  }

  /** The subtraction `begin + len - 1` goes below zero exactly for an empty read at offset 0. */
  lemma EndUnderflowIff(total: nat, begin: nat, seek: SeekResult, read: Option<nat>)
    requires total <= USIZE_MAX && ReadFits(total, begin, read)
    ensures VideoDecision(true, Some(total), Some(begin), seek, read) == EndUnderflow <==> begin == 0 && read == Some(0)
  {
  }

  /** Without a range the whole file is sent, through a buffer of `min(total, 2 MiB)` bytes. */
  lemma WholeFileBuffer(total: nat, seek: SeekResult, read: Option<nat>)
    requires total <= USIZE_MAX
    ensures var r := VideoDecision(true, Some(total), None, seek, read);
      r.WholeFile? && r.total == total && r.bufferSize <= VIDEO_BUFFER_SIZE && r.bufferSize <= total
      && (total <= VIDEO_BUFFER_SIZE ==> r.bufferSize == total)
      && (total >= VIDEO_BUFFER_SIZE ==> r.bufferSize == VIDEO_BUFFER_SIZE)
  {
  }

  /*
   * The download loop
   */

  /** One turn of the download loop: what the read reported (a byte count, or an error) and whether the write then went through. */
  datatype Turn = Turn(read: Option<nat>, written: bool)

  /** What the download writes, or tries to write, on the connection. */
  datatype Sent = Headers(text: string) | Chunk(length: nat) | ErrorResponse(status: Status)

  /** The headers written before the first byte of a whole video: status 200 and the whole size. */
  function WholeVideoHead(total: nat): string {
    "HTTP/1.1 200 Ok\r\nContent-Length: " + Decimal(total) + "\r\nContent-Type: video/mp4\r\n\r\n"
  }

  /** Writing zero bytes cannot fail: `write_all` of an empty slice returns at once. */
  predicate EmptyWritesSucceed(turns: seq<Turn>) {
    forall i :: 0 <= i < |turns| && turns[i].read == Some(0) ==> turns[i].written
  }

  /** No turn so far failed: every read gave bytes and every write went through. */
  predicate Running(turns: seq<Turn>) {
    forall i :: 0 <= i < |turns| ==> turns[i].read.Some? && turns[i].written
  }

  /** What one turn writes: the bytes read, or, after a failed read, a 500 response. */
  function Outcome(t: Turn): Sent {
    match t.read
    case None => ErrorResponse(InternalServerError)
    case Some(n) => Chunk(n)
  }

  /** What the loop writes over the given turns: one item per turn, up to and including the first that fails. */
  function Transfer(turns: seq<Turn>): seq<Sent> {
    if turns == [] then []
    else
      var init := turns[..|turns| - 1];
      if Running(init) then Transfer(init) + [Outcome(turns[|turns| - 1])] else Transfer(init)
  }

  /** The whole download: the headers, then, if they went through, the loop. */
  function DownloadLog(total: nat, headersWritten: bool, turns: seq<Turn>): seq<Sent> {
    [Headers(WholeVideoHead(total))] + if headersWritten then Transfer(turns) else []
  }

  /**
   * The download branch: 200 headers with the whole size, then read and
   * write one buffer at a time. Only a failed read or a failed write ends
   * the loop; `running` says the loop is still going after these turns.
   */
  method Download(total: nat, headersWritten: bool, turns: seq<Turn>) returns (sent: seq<Sent>, running: bool)
    requires total <= USIZE_MAX
    requires forall i :: 0 <= i < |turns| && turns[i].read.Some? ==> turns[i].read.value <= BufferSize(total)
    requires EmptyWritesSucceed(turns)
    ensures sent == DownloadLog(total, headersWritten, turns)
    ensures running <==> headersWritten && Running(turns)
  {
    var bufferSize := BufferSize(total);
    sent := [Headers(WholeVideoHead(total))];
    if !headersWritten {
      return sent, false;
    }
    var i := 0;
    while i < |turns|
      invariant i <= |turns|
      invariant Running(turns[..i])
      invariant sent == [Headers(WholeVideoHead(total))] + Transfer(turns[..i])
    {
      assert turns[..i + 1][..i] == turns[..i];
      match turns[i].read {
        case None =>
          sent := sent + [ErrorResponse(InternalServerError)];
          TransferStops(turns, i);
          return sent, false;
        case Some(n) =>
          sent := sent + [Chunk(n)];
      }
      if !turns[i].written {
        TransferStops(turns, i);
        return sent, false;
      }
      i := i + 1;
    }
    assert turns[..|turns|] == turns;
    running := true;
  }

  /** Turns after the first failing one change nothing: the loop has ended. */
  lemma {:induction false} TransferStops(turns: seq<Turn>, i: nat)
    requires i < |turns| && Running(turns[..i]) && !(turns[i].read.Some? && turns[i].written)
    ensures Transfer(turns) == Transfer(turns[..i]) + [Outcome(turns[i])]
    ensures !Running(turns)
    decreases |turns|
  {
    var init := turns[..|turns| - 1];
    if i == |turns| - 1 {
      assert init == turns[..i];
    } else {
      assert init[..i] == turns[..i] && init[i] == turns[i];
      TransferStops(init, i);
      assert !Running(init);
    }
  }

  /** While nothing fails, each turn writes exactly the bytes it read. */
  lemma {:induction false} TransferOfRunning(turns: seq<Turn>)
    requires Running(turns)
    ensures |Transfer(turns)| == |turns|
    ensures forall k :: 0 <= k < |turns| ==> Transfer(turns)[k] == Chunk(turns[k].read.value)
  {
    if turns != [] {
      var init := turns[..|turns| - 1];
      assert Running(init);
      TransferOfRunning(init);
    }
  }

  /** Reads of zero bytes do not end the download: writing zero bytes cannot fail, so the loop keeps turning. */
  lemma EmptyReadsNeverEnd(total: nat, turns: seq<Turn>)
    requires forall i :: 0 <= i < |turns| ==> turns[i].read == Some(0)
    requires EmptyWritesSucceed(turns)
    ensures Running(turns)
    ensures DownloadLog(total, true, turns) == [Headers(WholeVideoHead(total))] + seq(|turns|, _ => Chunk(0))
  {
    TransferOfRunning(turns);
  }

  /** A failed read after the 200 headers puts a 500 response behind them on the same connection. */
  lemma ReadErrorAfterHeaders(total: nat, turns: seq<Turn>, i: nat)
    requires i < |turns| && Running(turns[..i]) && turns[i].read.None?
    ensures var log := DownloadLog(total, true, turns);
      log[0] == Headers(WholeVideoHead(total)) && log[|log| - 1] == ErrorResponse(InternalServerError)
      && |log| == i + 2
  {
    TransferStops(turns, i);
    TransferOfRunning(turns[..i]);
  }

  /*
   * Framing: `respond_status_and_content` and `respond_partial_content`
   */

  /** The headers written before a body: status line, length, type, then the empty line. */
  function ContentHead(status: Status, contentType: string, length: nat): (head: string)
    ensures Request.StartsWith(head, "HTTP/1.1 ") && Request.EndsWith(head, "\r\n\r\n")
  {
    "HTTP/1.1 " + ToStr(status) + "\r\nContent-Length: " + Decimal(length) + "\r\nContent-Type: " + contentType + "\r\n\r\n"
  }

  /** The headers of a 206 answer: the body length, and which bytes of how many it holds. */
  function PartialHead(contentType: string, length: nat, begin: nat, end: nat, total: nat): (head: string)
    ensures Request.StartsWith(head, "HTTP/1.1 206 ") && Request.EndsWith(head, "\r\n\r\n")
  {
    "HTTP/1.1 206 " + "Partial Content\r\nContent-Length: " + Decimal(length)
    + "\r\nContent-Range: bytes " + Decimal(begin) + "-" + Decimal(end) + "/" + Decimal(total)
    + "\r\nContent-Type: " + contentType + "\r\n\r\n"
  }

  /** The `Content-Range` value of a 206 answer: first and last position, and the complete length (section 4.2 of RFC 7233). */
  function RangeField(begin: nat, end: nat, total: nat): string {
    Decimal(begin) + "-" + Decimal(end) + "/" + Decimal(total)
  }

  /** The text before and after the first `c` of `s`, if it holds one. */
  function BreakAt(s: string, c: char): (r: Option<(string, string)>)
    ensures r.Some? ==> s == r.value.0 + [c] + r.value.1 && c !in r.value.0
  {
    if s == [] then None
    else if s[0] == c then Some(([], s[1..]))
    else
      match BreakAt(s[1..], c)
      case None => None
      case Some((x, y)) => Some(([s[0]] + x, y))
  }

  /** How a client reads a `Content-Range` value back into its three numbers. */
  function ParseRangeField(s: string): Option<(nat, nat, nat)> {
    match BreakAt(s, '-')
    case None => None
    case Some((first, rest)) =>
      match BreakAt(rest, '/')
      case None => None
      case Some((last, complete)) =>
        match (ParseUnsigned(first, 10, USIZE_MAX), ParseUnsigned(last, 10, USIZE_MAX), ParseUnsigned(complete, 10, USIZE_MAX))
        case (Some(b), Some(e), Some(t)) => Some((b, e, t))
        case _ => None
  }

  lemma {:induction false} BreakAtFirst(x: string, c: char, y: string)
    requires c !in x
    ensures BreakAt(x + [c] + y, c) == Some((x, y))
  {
    if x != [] {
      assert (x + [c] + y)[1..] == x[1..] + [c] + y;
      BreakAtFirst(x[1..], c, y);
      assert [x[0]] + x[1..] == x;
    }
  }

  lemma DigitsHaveNo(s: string, c: char)
    requires AllDigits(s, 10) && DigitValue(c, 10).None?
    ensures c !in s
  {
    forall i | 0 <= i < |s| ensures s[i] != c {
      assert DigitValue(s[i], 10).Some?;
    }
  }

  /** A client reading the `Content-Range` value gets back the three numbers the server wrote. */
  lemma RangeFieldReadable(begin: nat, end: nat, total: nat)
    requires begin <= USIZE_MAX && end <= USIZE_MAX && total <= USIZE_MAX
    ensures ParseRangeField(RangeField(begin, end, total)) == Some((begin, end, total))
  {
    var b, e, t := Decimal(begin), Decimal(end), Decimal(total);
    DigitsHaveNo(b, '-');
    DigitsHaveNo(e, '/');
    assert RangeField(begin, end, total) == b + ['-'] + (e + "/" + t);
    BreakAtFirst(b, '-', e + "/" + t);
    assert e + "/" + t == e + ['/'] + t;
    BreakAtFirst(e, '/', t);
    DecimalRoundTrip(begin, USIZE_MAX);
    DecimalRoundTrip(end, USIZE_MAX);
    DecimalRoundTrip(total, USIZE_MAX);
  }

  /** The 206 headers carry the range as `bytes ` and the `Content-Range` value. */
  lemma PartialHeadCarriesRange(contentType: string, length: nat, begin: nat, end: nat, total: nat)
    ensures PartialHead(contentType, length, begin, end, total) ==
      "HTTP/1.1 206 " + "Partial Content\r\nContent-Length: " + Decimal(length) + "\r\nContent-Range: bytes "
      + RangeField(begin, end, total) + ("\r\nContent-Type: " + contentType + "\r\n\r\n")
  {
  }

  /** The download's own header text is the general framing for 200 and `video/mp4`. */
  lemma WholeVideoHeadIsContentHead(total: nat)
    ensures WholeVideoHead(total) == ContentHead(Okay, CONTENT_TYPE_MP4, total)
  {
    var p := "HTTP/1.1 200 Ok\r\nContent-Length: " + Decimal(total);
    assert "HTTP/1.1 " + ToStr(Okay) + "\r\nContent-Length: " == "HTTP/1.1 200 Ok\r\nContent-Length: ";
    Regroup(p, "\r\nContent-Type: ", CONTENT_TYPE_MP4, "\r\n\r\n");
  }

  lemma Regroup<T>(p: seq<T>, a: seq<T>, b: seq<T>, c: seq<T>)
    ensures p + a + b + c == p + (a + b + c)
  {
  }

  /** A client reads the status code at a fixed place, and the body length back from `Content-Length`. */
  lemma ContentLengthReadable(status: Status, contentType: string, length: nat)
    requires length <= USIZE_MAX
    ensures var head, at := ContentHead(status, contentType, length), 27 + |ToStr(status)|;
      && head[9..12] == Decimal(Code(status))
      && head[at - 16..at] == "Content-Length: "
      && at + |Decimal(length)| <= |head|
      && ParseUnsigned(head[at..at + |Decimal(length)|], 10, USIZE_MAX) == Some(length)
  {
    var text := ToStr(status);
    var rest := "\r\nContent-Type: " + contentType + "\r\n\r\n";
    assert ContentHead(status, contentType, length) == "HTTP/1.1 " + text + "\r\nContent-Length: " + Decimal(length) + rest;
    FieldsAt(text, Decimal(length), rest);
    ToStrStartsWithCode(status);
    DecimalRoundTrip(length, USIZE_MAX);
  }

  /** Where the status text and the `Content-Length` digits sit in a head. */
  lemma FieldsAt(text: string, digits: string, rest: string)
    requires |text| >= 3
    ensures var head, at := "HTTP/1.1 " + text + "\r\nContent-Length: " + digits + rest, 27 + |text|;
      && head[9..12] == text[..3]
      && head[at - 16..at] == "Content-Length: "
      && head[at..at + |digits|] == digits
  {
    var line, field := "HTTP/1.1 " + text, "\r\nContent-Length: ";
    var a := line + field;
    Middle(a, digits, rest);
    assert (a + digits + rest)[..|a|] == a;
    assert a[|line| + 2..] == field[2..];
    assert line[9..12] == text[..3];
  }

  /** The middle part of a concatenation is found at the length of the first part. */
  lemma Middle<T>(a: seq<T>, m: seq<T>, b: seq<T>)
    ensures (a + m + b)[|a|..|a| + |m|] == m
  {
  }
}
