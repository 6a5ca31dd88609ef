# SeeSlug core, modelled in Dafny

SeeSlug is a small HTTP server that lets a browser browse a folder of videos
and play them. This project models its core in Dafny and proves properties of
that model:

- **request parsing** (`src/request.rs`): a raw request buffer becomes a path,
  the query pairs and a range start. `Request` is a class whose
  `InsertPart` updates it in place, as `insert_part` does. `Parse` is a
  byte-by-byte loop proved equal to the functional scanner `ParseSpec`.
- **status lines** (`src/status.rs`): the four statuses, their texts and their
  bare responses.
- **file names** (`src/name_parts.rs`): a name splits at its first dot.
- **languages** (`src/languages.rs`): a subtitle language abbreviation becomes
  its long name.
- **folder listing** (`src/link_info.rs`): folders and videos are classified,
  posters are attached, and the list is sorted by basename.
- **command line** (`src/arguments.rs`): `--folder`, `--port`, help and
  version become a `Mode`.
- **the responder** (`src/http.rs`):
  - `handle_request`;
  - the routing of `respond_file`;
  - the whole-file download loop and the byte-range answer for videos;
  - the response framing;
  - the string helpers `has_parent_dir`, `get_last_extension`,
    `get_folder_name` and `escape_html`;
  - `list_subtitles`.

Files:

| file | module | models |
|---|---|---|
| `wrappers.dfy` | `Wrappers` | `Option` |
| `numeric.dfy` | `Numeric` | `from_str_radix` for unsigned integers, `to_string`, the integer widths |
| `utf8.dfy` | `Utf8` | `core::str::from_utf8` and UTF-8 encoding |
| `status.dfy` | `Status` | `src/status.rs` |
| `name_parts.dfy` | `NameParts` | `src/name_parts.rs` |
| `languages.dfy` | `Languages` | `src/languages.rs` |
| `request.dfy` | `Request` | `src/request.rs` |
| `request_props.dfy` | `RequestProperties` | round trip and error cases of the URL scanner |
| `request_range.dfy` | `RangeProperties` | the `Range: bytes=` header scan |
| `link_info.dfy` | `LinkInfo` | `src/link_info.rs` |
| `arguments.dfy` | `Arguments` | `src/arguments.rs` |
| `http_text.dfy` | `HttpText` | the string helpers of `src/http.rs` |
| `http.dfy` | `Http` | `handle_request`, `respond_file`, the `respond_*` framing |
| `subtitles.dfy` | `Subtitles` | `list_subtitles` |

The model leaves out the file system, the socket and the process arguments.
Every operation gets what they would report as a parameter:

- a directory listing is a sequence of entries, each an `Option` of its name;
- a read is the byte count it reported, or an error;
- a write is whether it went through;
- the arguments are a sequence of strings.

`usize` is 64 bits wide. `i64` and `u16` limits appear where the source
converts to those types.

## Model

| member | source | states |
|---|---|---|
| Status.Code | src/status.rs:2-8 | The numeric code of each status is a three-digit HTTP code. |
| Status.ToStr | src/status.rs:14-21 | Each status text is longer than four characters, with a space after the code. |
| Status.ToStrStartsWithCode | src/status.rs:14-21 | Each status text starts with the decimal numeral of its code. |
| Status.ToStrInjective | src/status.rs:14-21 | Distinct statuses have distinct texts. |
| Status.ToResponse | src/status.rs:26-34 | Each bare response is `HTTP/1.1 `, the status text and an empty header block. |
| Status.ToResponseInjective | src/status.rs:26-34 | Distinct statuses give distinct responses, and bytes 9-11 of a response are the code. |
| Status.InternalServerErrorPhrase | src/status.rs:17-32 | The 500 status carries the phrase `Not Found`, exactly as 404 does. |
| NameParts.Split | src/name_parts.rs:14-31 | The basename and extension concatenate to the name. The extension is empty or starts at the first dot. A dot-free name is all basename. |
| NameParts.SplitUnique | src/name_parts.rs:14-31 | Only one split satisfies the first-dot property. |
| NameParts.New | src/name_parts.rs:14-31 | The character loop that breaks at the first dot yields `Split(name)`. |
| Languages.AbbreviationToName | src/languages.rs:6-24 | The name is never empty. The empty abbreviation gives the assumed language (English). The name is `Other` exactly for an unknown non-empty abbreviation. |
| Languages.KnownNamesDistinct | src/languages.rs:6-24 | No two known abbreviations share a long name. |
| Languages.NamesHaveNoApostrophe | src/languages.rs:6-24 | No language name holds an apostrophe. |
| Numeric.ParseUnsigned | src/request.rs:162-165 | A parsed value is at most the type's maximum. Empty input, `+` or `-` is an error. |
| Numeric.Decimal | src/http.rs:158-161 | The numeral is non-empty, unsigned, made only of digits, and without a leading zero. |
| Numeric.DecimalValue | src/http.rs:158-161 | A numeral's digits are worth the number it renders. |
| Numeric.DecimalRoundTrip | src/http.rs:271-278 | Parsing a rendered number gives it back when it fits the type. |
| Numeric.ParseDigitsOnly | src/request.rs:158-165 | On a string of digits, parsing gives their value, or an error when the value is above the maximum. |
| Utf8.DecodeEncode | src/request.rs:172-195 | Decoding the UTF-8 encoding of any string gives the string back. |
| Utf8.DecodeAscii | src/request.rs:158-161 | ASCII bytes always decode, one character per byte. |
| Utf8.DecodeFirstOfEncoded | src/request.rs:172-195 | The first character decoded from an encoding is the encoded character, taking its whole encoded length. |
| Request.Classify | src/request.rs:104-117 | A byte is copied literally exactly when it is one of the RFC 3986 URL characters the parser accepts. |
| Request.PercentValueIsFromHexText | src/request.rs:64-85 | A percent escape's value is what `from_utf8` and `from_str_radix(_, 16)` give its two bytes. |
| Request.WithPartEffect | src/request.rs:172-195 | An undecodable part changes nothing. A path replaces the path. A key appends a pair with an empty value. A value replaces the last pair's value, or changes nothing when there are no pairs. |
| Request.Request.constructor | src/request.rs:199-206 | A new request is blank: empty path, no pairs, range start 0. |
| Request.Request.InsertPart | src/request.rs:172-195 | The request's new value is `WithPart` of its old value. |
| Request.MatchFrom | src/request.rs:129-141 | The prefix matcher only reports a position inside the rest of the buffer. |
| Request.DigitRunEnd | src/request.rs:143-153 | The end found is the first non-digit at or after the start. |
| Request.Parse | src/request.rs:34-168 | The parser method computes `ParseSpec`: accepted with a request, rejected, or panicking on a reversed slice. |
| Request.ReadUrl | src/request.rs:44-118 | The URL loop computes `ScanUrl` from the start of the URL, and the request it leaves is the one the scan ends with. |
| Request.ScanUrlKeep | src/request.rs:103-114 | A URL character, or `=` inside the path, extends the current part by itself. |
| Request.ScanUrlPercent | src/request.rs:62-84 | A valid `%XY` escape extends the current part by the byte it encodes and moves three bytes on. |
| Request.ScanUrlFlush | src/request.rs:86-101 | `?` and `&` flush the part and start a key; `=` outside the path flushes it and starts a value. |
| Request.ReadRangeStart | src/request.rs:122-167 | The range loop over the bytes after the URL computes `ScanRange`. |
| RequestProperties.PercentOfHexDigits | src/request.rs:64-85 | Every byte written as `%` and two hex digits decodes back to that byte. |
| RequestProperties.StepLiteral | src/request.rs:104-119 | A URL byte is added to the current part. |
| RequestProperties.StepPercent | src/request.rs:64-79 | A valid escape adds its byte and skips three positions. |
| RequestProperties.StepQueryDelimiter | src/request.rs:86-93 | `?` and `&` flush the part and start a key. |
| RequestProperties.StepValueDelimiter | src/request.rs:94-103 | `=` outside the path flushes the part and starts a value. |
| RequestProperties.StepIllegal | src/request.rs:116-117 | Any other byte rejects the request. |
| RequestProperties.StepBadEscape | src/request.rs:64-85 | A `%` without two hex digits after it rejects the request. |
| RequestProperties.StepSpace | src/request.rs:52-62 | A space flushes the part and ends the URL. |
| RequestProperties.StepEnd | src/request.rs:49-120 | When the buffer runs out, scanning stops with the request built so far. |
| RequestProperties.ScanEscaped | src/request.rs:49-120 | Scanning a percent-escaped byte string adds exactly those bytes to the part. |
| RequestProperties.ScanPairs | src/request.rs:86-103 | A written list of query pairs is read back as exactly those pairs. |
| RequestProperties.ScanTarget | src/request.rs:45-120 | A written path and query are scanned back to that path and query, ending at the space. |
| RequestProperties.ParseTarget | src/request.rs:34-62 | A request written from a path and query parses back to them. A `.mp4` path goes on to the range scan. |
| RequestProperties.ParseAtUrlEnd | src/request.rs:53-62 | After the URL, a `.mp4` path goes to the range scan and any other path is accepted at once. |
| RequestProperties.ScanUrlKeepsRangeStart | src/request.rs:45-120 | Scanning the URL never changes the range start. |
| RequestProperties.ParsedRangeStartFits | src/request.rs:162-165 | An accepted request's range start fits in `usize`. |
| RequestProperties.UndecodablePathDropped | src/request.rs:53-60 | A path that is not UTF-8 is dropped silently and the request is accepted blank. |
| RequestProperties.IllegalByteRejected | src/request.rs:116-117 | A byte outside the URL alphabet after a valid prefix rejects the request. |
| RequestProperties.BadEscapeRejected | src/request.rs:64-85 | A bad or truncated escape after a valid prefix rejects the request. |
| RequestProperties.UnterminatedTarget | src/request.rs:49-157 | A target with no space after it, and no `?` or `&` before the end of the buffer, is accepted with an empty path. The path is only stored when a space, `?` or `&` ends it. |
| RequestProperties.SecondEqualsReplacesValue | src/request.rs:94-103 | In `?key=first=second` the pair ends up with the value `second`. |
| RangeProperties.MatchFromSound | src/request.rs:129-141 | A position found by the matcher ends an occurrence of `\r\nRange: bytes=`. |
| RangeProperties.FirstDifference | src/request.rs:131-133 | Two byte strings neither of which is a prefix of the other first differ at an index inside both. This is where the matcher drops a partial match. |
| RangeProperties.MatchFromAdvances | src/request.rs:131-140 | Bytes that continue the header prefix carry a partial match forward one byte each. |
| RangeProperties.MatchFromBreaksInLine | src/request.rs:129-141 | After `\r\n`, the matcher follows a header line up to its first byte that differs from `Range: bytes=`, and restarts after that byte. |
| RangeProperties.MatchFromSkipsLine | src/request.rs:129-141 | The rest of a header line with no `\r` cannot start a match, so the matcher restarts at the line's end. |
| RangeProperties.MatchFromPassesLine | src/request.rs:129-141 | A header line with no `\r` that is not a `Range` header and is not a proper prefix of one is passed over: the matcher restarts at its end. |
| RangeProperties.MatchFromPassesLines | src/request.rs:129-141 | Any number of such header lines, each with no `\r`, are passed over. |
| RangeProperties.MatchFromFinds | src/request.rs:129-141 | A `Range: bytes=` header is found, and the match ends right after its prefix. This holds when it follows the rest of the request line and any header lines that are not `Range` headers or proper prefixes of one. |
| RangeProperties.MatchFromAbsent | src/request.rs:129-141 | Bytes with no copy of `\r\nRange: bytes=` give no match. |
| RangeProperties.DigitRunEndIs | src/request.rs:143-153 | The digit run ends at the first non-digit. |
| RangeProperties.ScanRangeDigits | src/request.rs:143-165 | After the header, the digits up to the first non-digit become the range start when they parse. Otherwise the request is accepted unchanged. |
| RangeProperties.RangeDigits | src/request.rs:122-165 | After a `Range: bytes=` header, a digit run ended by a non-digit decides the outcome: its number becomes the range start when it decodes and fits. The header may follow the request line and any other headers. |
| RangeProperties.RangeNumber | src/request.rs:122-167 | `bytes=N` followed by a non-digit sets the range start to N, or leaves it unchanged when N is above `usize`. The header may follow any other headers. |
| RangeProperties.RangeAfterHostHeader | src/request.rs:122-167 | After ` HTTP/1.1` and a `Host` header, `Range: bytes=5-` sets the range start to 5. |
| RangeProperties.RangeNotANumber | src/request.rs:144-147 | A non-digit right after `bytes=` rejects the whole request, wherever among the headers the `Range` header stands. |
| RangeProperties.RangeEmpty | src/request.rs:155-165 | Nothing after `bytes=` leaves the range start unchanged, wherever among the headers the `Range` header stands. |
| RangeProperties.RangeDigitsToEnd | src/request.rs:143-158 | Digits running to the end of the buffer panic the parser, wherever among the headers the `Range` header stands. |
| RangeProperties.RangeAbsent | src/request.rs:155-156 | Bytes with no copy of `\r\nRange: bytes=` leave the request accepted and unchanged. |
| RangeProperties.RangeMissedAfterStrayCR | src/request.rs:131-134 | A header right after a stray `\r` is missed. The matcher restarts without rechecking that byte. |
| RangeProperties.RangeMissedAfterShortLine | src/request.rs:131-134 | A header right after an empty line, or after a line that is a proper prefix of `Range: bytes=`, is missed. The `\r` that ends that line breaks the match and is not rechecked. |
| RangeProperties.ParseVideoRequest | src/request.rs:34-168 | A whole `.mp4` request parses to its path, its query and N when it has a `Range: bytes=N-` header after the request line and any other headers. |
| Arguments.Finish | src/arguments.rs:82-93 | Only a completed scan is `Normal`. Its folder is never empty and its port is the last one given. |
| Arguments.Scan | src/arguments.rs:55-80 | A `Normal` result has a folder. An error needs arguments or a pending flag. Without a help argument there is no `Help`. |
| Arguments.NewMode | src/arguments.rs:34-94 | The argument loop computes `ModeOf(args)`. |
| Arguments.PortArgument | src/arguments.rs:71-77 | A rendered port is neither help nor version and parses back as a `u16`. |
| Arguments.ScanFolderPair | src/arguments.rs:59-70 | `--folder F` sets the folder and continues. |
| Arguments.ScanPortPair | src/arguments.rs:63-77 | `--port P` sets the port and continues. |
| Arguments.ScanSettings | src/arguments.rs:55-80 | Any run of settings leaves the last folder and the last port given. |
| Arguments.SettingsRoundTrip | src/arguments.rs:34-94 | Rendered settings give `Normal` with the last folder, or `.` when none is given, and the last port, or 80 when none is given. |
| Arguments.NoArguments | src/arguments.rs:5-7 | With no arguments the mode is folder `.` on port 80. |
| Arguments.HelpOrVersionAnswered | src/arguments.rs:57-58 | Help or version anywhere, even where a flag's value is due, answers at once. |
| Arguments.TrailingFlag | src/arguments.rs:82-84 | A flag with nothing after it is an error naming the flag. |
| Arguments.BadPort | src/arguments.rs:71-75 | A port value that is not a `u16` is an error naming the value. |
| Arguments.UnknownArgument | src/arguments.rs:78 | Any other argument is an error naming it. |
| LinkInfo.CompareNames | src/link_info.rs:118-121 | The basename order is `Equal` exactly for equal names. |
| LinkInfo.CompareNamesFlip | src/link_info.rs:118-121 | Swapping the operands flips the order. |
| LinkInfo.CompareNamesTransitive | src/link_info.rs:118-121 | The order is transitive. |
| LinkInfo.Compare | src/link_info.rs:94-121 | Equality and order depend on the basename only. |
| LinkInfo.CompareIgnoresKindAndPoster | src/link_info.rs:94-121 | The kind and the poster never change a comparison. |
| LinkInfo.Sort | src/link_info.rs:80 | Sorting is a permutation. |
| LinkInfo.InsertSorted | src/link_info.rs:80 | Insertion keeps a list sorted. |
| LinkInfo.SortSorted | src/link_info.rs:80 | The result of the sort is sorted. |
| LinkInfo.SortStable | src/link_info.rs:80 | Entries with equal basenames keep their order. |
| LinkInfo.SortIsTheStableSort | src/link_info.rs:80 | Any sorted arrangement that keeps equal names in order is the model's sort. |
| LinkInfo.ClassifyFolder | src/link_info.rs:44-51 | An entry is a folder exactly when its name has no dot, and it is listed under its whole name. |
| LinkInfo.ClassifyVideo | src/link_info.rs:52-59 | An entry is a video exactly when its extension is `.mp4`, and it is listed under its basename. |
| LinkInfo.ClassifyPoster | src/link_info.rs:60-75 | An entry is a poster exactly when its extension is `.jpg`, `.jpeg`, `.png` or `.webp`, and it is keyed by its basename. |
| LinkInfo.ListedWithoutPoster | src/link_info.rs:43-59 | A listed entry starts without a poster. |
| LinkInfo.DoubleExtensionSkipped | src/link_info.rs:76 | `NAME.LANG.mp4` is neither listed nor a poster. |
| LinkInfo.CollectedMembers | src/link_info.rs:32-78 | The collected links are exactly the listed entries. |
| LinkInfo.LastPosterWins | src/link_info.rs:60-75 | With several posters for one basename, the last one read is kept. |
| LinkInfo.NoPosterRegistered | src/link_info.rs:82-86 | A basename with no poster gets none. |
| LinkInfo.UnreadableFolderIsEmpty | src/link_info.rs:24-27 | An unreadable folder lists nothing. |
| LinkInfo.ListSorted | src/link_info.rs:80 | The listing is sorted by basename. |
| LinkInfo.ListContents | src/link_info.rs:22-90 | The listing is the sorted collected links. Each carries its basename's last poster, or none. |
| LinkInfo.List | src/link_info.rs:22-90 | The listing method computes `ListSpec`. |
| HttpText.StateOfExtend | src/http.rs:301-316 | Each character moves the segment state as the state machine's table says. |
| HttpText.HasParentDir | src/http.rs:288-320 | The state machine finds a parent reference exactly when a `..` segment ends at a separator or at the end. |
| HttpText.StateAtStep | src/http.rs:300-316 | A separator resets the detector; any other character moves it from the start to one dot, then two dots, then to an ordinary segment. |
| HttpText.StateAtParent | src/http.rs:300-316 | The detector is at two dots exactly when the segment read so far is `..`. |
| HttpText.LastExtension | src/http.rs:360-373 | The last extension is never longer than the path. |
| HttpText.LastExtensionSuffix | src/http.rs:360-373 | The last extension is a suffix of the path. |
| HttpText.LastExtensionShape | src/http.rs:360-373 | A non-empty last extension starts with its only dot and holds no slash. |
| HttpText.LastExtensionEmpty | src/http.rs:360-373 | The last extension is empty only when a slash follows every dot. |
| HttpText.LastExtensionFromDot | src/http.rs:364-370 | A dot with no slash after it makes the last extension non-empty. |
| HttpText.LastExtensionStep | src/http.rs:364-370 | A slash clears the extension, a dot starts a new one, and any other character extends it. |
| HttpText.GetLastExtension | src/http.rs:360-373 | The character loop computes `LastExtension`. |
| HttpText.LastExtensionOfSuffix | src/http.rs:360-373 | A suffix that starts with its only dot and holds no slash is the last extension. |
| HttpText.LastExtensionOfSubtitle | src/http.rs:359 | The last extension of `/Movie.en.vtt` is `.vtt`. |
| HttpText.FolderNameHasNoSlash | src/http.rs:536-564 | The folder name never contains a slash. |
| HttpText.GetFolderName | src/http.rs:536-564 | The loop that tracks the last two slashes computes `FolderName`. |
| HttpText.FolderNameBetween | src/http.rs:535-564 | The folder name is the text between the last two slashes. |
| HttpText.FolderNameOfShallowPath | src/http.rs:559-561 | A path with fewer than two slashes has an empty folder name. |
| HttpText.Entity | src/http.rs:330-335 | Each entity is `&...;`. |
| HttpText.EscapedPlain | src/http.rs:336-342 | A string without special characters escapes to itself. |
| HttpText.EscapeHtml | src/http.rs:324-356 | The result's text is `Escaped(slice)`. It is borrowed exactly when the slice has no special characters, and then it is the slice itself. |
| HttpText.EscapedHasNoMarkup | src/http.rs:330-335 | Escaped text has no quote, apostrophe, `<` or `>`. |
| HttpText.EscapedUnchangedIff | src/http.rs:351-355 | Escaping changes a string exactly when it has special characters, and it never shortens it. |
| HttpText.UnescapeEscaped | src/http.rs:323-356 | Unescaping escaped text gives the original back. |
| Http.HandleRequest | src/http.rs:28-48 | The handler computes `Handle`. The request is handed on exactly when the read gave fewer than 4096 bytes that parse. |
| Http.FullBufferDropped | src/http.rs:35-38 | A read that fills the 4096-byte buffer closes the connection unanswered. |
| Http.NonGetAnsweredBadRequest | src/http.rs:44-45 | A request not starting with `GET `, including an empty one, is answered 400. |
| Http.WatchedVideo | src/http.rs:103-109 | The query loop yields `LastWatch(query)`. |
| Http.Dispatch | src/http.rs:68-126 | The routing method computes `RouteOf`. |
| Http.LastWatchIsLast | src/http.rs:103-109 | The video asked for is the value of the last `watch` parameter. |
| Http.LastWatchAbsent | src/http.rs:103-112 | Without a `watch` parameter no video is asked for. |
| Http.BuiltinsFirst | src/http.rs:68-92 | A request is answered with a built-in asset exactly when its path is one of the eight built-in paths. |
| Http.TraversalRefused | src/http.rs:94-96 | A non-built-in path with a `..` segment is refused with 404. |
| Http.FileSystemRoutesStayInRoot | src/http.rs:94-98 | Every file-system route is the root plus a path with no `..` segment. |
| Http.ExtensionsMapped | src/http.rs:120-126 | A file is served with the content type of its last extension, sent as a video when that is `.mp4`, and refused otherwise. |
| Http.VideoRouteIffMp4 | src/http.rs:120-126 | A clean path is delivered as a video exactly when it ends in `.mp4`. |
| Http.Mp4Extension | src/http.rs:120-126 | A path has the extension `.mp4` exactly when it ends in `.mp4`. |
| Http.BufferSize | src/http.rs:149-152 | The buffer is the whole size when that fits in 2 MiB, else 2 MiB. |
| Http.Stream | src/http.rs:181-222 | The range branch. A 206 answer starts at the requested start and its last position is the start plus the length, minus one. A start within `i64` but past the end gets 416. `Http.PartialWithinFile`, `Http.UnsatisfiableOnlyPastEnd`, `Http.HugeStartIsServerError` and `Http.EndUnderflowIff` give the rest. |
| Http.VideoDecision | src/http.rs:126-224 | The `.mp4` branch. The whole file is sent exactly when the file opens, its size is known and fits in `usize`, and no range was asked for. A 206 answer carries the requested start and the file's size. |
| Http.PartialWithinFile | src/http.rs:181-222 | A 206 answer's range starts at the requested start and covers at most 2 MiB inside the file. Its last position is the start plus the length, minus one. |
| Http.UnsatisfiableOnlyPastEnd | src/http.rs:183-200 | The answer is 416 exactly when a positive start within `i64` lies past the end or the seek reports invalid input. |
| Http.HugeStartIsServerError | src/http.rs:184-187 | A start above `i64` is answered 500. |
| Http.StartAtEndGivesEmptyRange | src/http.rs:188-222 | A start equal to the size gives a 206 of no bytes whose last position is one before its first. |
| Http.EndUnderflowIff | src/http.rs:221 | Computing the last position underflows exactly for start 0 and an empty read. |
| Http.WholeFileBuffer | src/http.rs:146-152 | Without a range the whole file is sent through a buffer of the smaller of its size and 2 MiB. |
| Http.Download | src/http.rs:146-178 | The download writes the 200 headers and then one chunk per turn, up to the first failed read or write. It is still running exactly when every turn succeeded. A write of zero bytes always goes through. |
| Http.TransferStops | src/http.rs:166-178 | After the first failed turn nothing more is written. |
| Http.TransferOfRunning | src/http.rs:166-178 | While every turn succeeds, each turn writes exactly the bytes it read. |
| Http.EmptyReadsNeverEnd | src/http.rs:166-178 | Reads of zero bytes never end the loop, which keeps writing empty chunks. Writing zero bytes cannot fail, so nothing the client does stops it. |
| Http.ReadErrorAfterHeaders | src/http.rs:169-171 | A failed read after the 200 headers writes a 500 response after them, and nothing more. |
| Http.WholeVideoHeadIsContentHead | src/http.rs:158-162 | The download's headers are the general framing for 200 with the whole size and `video/mp4`. |
| Http.ContentHead | src/http.rs:252-264 | The framed headers start with `HTTP/1.1 ` and end with the empty line. `Http.ContentLengthReadable` shows the code and the length read back. |
| Http.PartialHead | src/http.rs:268-284 | The 206 headers start with `HTTP/1.1 206 ` and end with the empty line. `Http.PartialHeadCarriesRange` and `Http.RangeFieldReadable` show the range they carry. |
| Http.ContentLengthReadable | src/http.rs:252-264 | In the framed headers, bytes 9-11 are the status code, and the `Content-Length:` value parses back to the length. |
| Http.PartialHeadCarriesRange | src/http.rs:268-284 | The 206 headers carry `bytes ` followed by the `Content-Range` value. |
| Http.RangeFieldReadable | src/http.rs:273-278 | The `Content-Range` value parses back to its start, end and total. |
| Subtitles.ListSubtitles | src/http.rs:568-622 | The loop computes the tags of the video's tracks, in directory order, or nothing for an unreadable folder. |
| Subtitles.SubtitleKept | src/http.rs:591-597 | A file is a subtitle of the video exactly when its basename is the video's and its extension ends in `.vtt`. Its track keeps the file name. |
| Subtitles.ExtensionTrack | src/http.rs:604-614 | The track is the default exactly when the extension starts with `.default.`. A language read from it is the text just before `.vtt`. `Subtitles.ExtensionRebuilt` shows what comes before that text. |
| Subtitles.ExtensionRebuilt | src/http.rs:604-614 | Whenever a language is read, the extension is the marker, the language and `.vtt`. |
| Subtitles.SubtitleOfExtension | src/http.rs:591-616 | A subtitle's track is read from its extension alone. |
| Subtitles.PlainSubtitle | src/http.rs:600 | `NAME.vtt` is not the default and is labelled with the assumed language. |
| Subtitles.DefaultSubtitle | src/http.rs:601 | `NAME.default.vtt` is the default track, with no language. |
| Subtitles.DefaultLanguageSubtitle | src/http.rs:602 | `NAME.default.LANG.vtt` is the default track in `LANG`. |
| Subtitles.LanguageSubtitle | src/http.rs:603 | `NAME.LANG.vtt` is a track in `LANG`. |
| Subtitles.SplitAt | src/name_parts.rs:14-31 | A dot-free basename followed by a dotted extension splits back into exactly those. |
| Subtitles.TrackTag | src/http.rs:618-619 | The tag written for a track is a `<track ` element closed by `'>`. `Subtitles.TagAttributesEscaped` shows that no attribute inside it can be closed early. |
| Subtitles.TagAttributesEscaped | src/http.rs:618-619 | No quoted attribute of the tag can be closed early. The language and the file name are escaped, and the label, written unescaped, is a name from the language table. |

## Left out

Where the code departs from what its comments or RFC 7233 lead one to expect, the model follows the code:

- A read that fills all 4096 bytes of the buffer is dropped. It is not truncated and parsed (`Http.FullBufferDropped`).
- A range starting exactly at the end of the file is answered 206. The body is empty and the last position is one before the first; 416 is only for starts past the end (`Http.StartAtEndGivesEmptyRange`).
- In `?a=b=c` the value becomes `c` (`RequestProperties.SecondEqualsReplacesValue`).
- A URL part that is not valid UTF-8 is dropped silently (`RequestProperties.UndecodablePathDropped`).
- A non-digit right after `bytes=` rejects the whole request with 400 (`RangeProperties.RangeNotANumber`).
- A request target with no space after it, and no `?` or `&` before the end of the buffer, is accepted with an empty path (`RequestProperties.UnterminatedTarget`).
- A `Range` header right after a stray `\r` is not found (`RangeProperties.RangeMissedAfterStrayCR`). Neither is one right after an empty line or after a line that is a proper prefix of `Range: bytes=` (`RangeProperties.RangeMissedAfterShortLine`).
- Digits running to the end of the buffer make the parser slice backwards, which panics (`RangeProperties.RangeDigitsToEnd`).
- The download loop does not stop on a zero-byte read: it goes on writing empty chunks (`Http.EmptyReadsNeverEnd`).
- Status 500 is written as `500 Not Found` (`Status.InternalServerErrorPhrase`).
- `respond_file` matches the range start as an `Option`, but `src/request.rs` declares it a plain `usize` that defaults to 0. The parser is modelled as written, with a `nat` range start. Video delivery is modelled over `Option<nat>`, as `respond_file` reads it. The two meet only at `Http.Handle`'s hand-off.
- `respond_file` answers `RangeNotSatisfiable`, which `src/status.rs` does not declare. Delivery uses its own status type with that extra case. The text of a 416 response is not modelled, because the source gives none.
- A zero-byte read at range start 0 makes `begin + len - 1` go below zero. That panics in a debug build and wraps in a release build. The model reports it as `EndUnderflow`.
- The documented example of `get_folder_name` without a trailing slash (`/Star Wars/Prequels`) gives `Star Wars` as written, not `Prequels` (`HttpText.FolderNameBetween`).

Not modelled:

- The socket, the file system and the process arguments. Their results are parameters, as described above.
- The thread pool, `main`, signal handling and `print`.
- The JavaScript files under `res/`.
- `try_reserve`, `MaybeUninit` and `set_len`. Allocation failure is not modelled: the 500 answer when reserving a buffer fails is missing.
- The contents of the `include_bytes!`/`include_str!` assets. An asset route names its path and content type only.
- The HTML page text of `make_html_videos` and `make_html_video`. Their inputs are modelled: `get_folder_name`, `LinkInfo::list`, `escape_html` and `list_subtitles`.
- `respond_status_and_content` for a file read whole: the file's bytes are not modelled, and neither is the 404 when that read fails. Only the headers are (`Http.ContentHead`).
- String indices: the source slices by byte offsets from `char_indices`. The model indexes characters. The two agree because every delimiter involved (`.`, `/`, `\`, and the characters `escape_html` replaces) is ASCII.
- File names that are not valid Unicode. The source skips them, and they are absent from the model's input.
- Arguments that are not valid Unicode. `std::env::args` panics on one. The model takes the arguments as a `seq<string>`, so that panic is not modelled.
- Rust's `sort`. The model uses a stable insertion sort, and `LinkInfo.SortIsTheStableSort` shows every stable sort gives the same list.
- MatchFromFinds, and the lemmas built on it (RangeDigits, RangeNumber, RangeNotANumber, RangeEmpty, RangeDigitsToEnd, ParseVideoRequest): say nothing about a `Range` header that comes after an empty line, after a line that is a proper prefix of `Range: bytes=`, or after a stray `\r`. The matcher misses the header there; `RangeProperties.RangeMissedAfterShortLine` and `RangeProperties.RangeMissedAfterStrayCR` show it.
- Http.Download: proved over any finite sequence of turns. The source loop only ends on a failed read or write, so a run that never fails is not modelled.
- Subtitles.LanguageSubtitle: requires that `LANG.vtt` does not begin with `default.`, because such a name is read as a default track instead.
