# A verified model of an embedded HTTP/1.1 request engine

This project models, in Dafny, the request engine of a small HTTP/1.1 server for a
microcontroller (`Http/src/http_server.c`) and the request helpers built on it
(`Http/src/http_ui.c`). It also proves properties of the model. The engine serves
one client at a time out of a fixed 1400-byte receive buffer `rxbuf`. A call of
`http_srv_handle_once` does these steps, in order:

1. waits for a connection;
2. receives until the header block ends with CR LF CR LF (section 2.1 of RFC 9112);
3. parses the request line, which is the method, the URI split at its first `?`, and `HTTP/x.y`;
4. reads `Content-Length` ignoring case (section 5.1 of RFC 9110);
5. tops the body up to the declared length;
6. dispatches to the first matching route, or answers 404;
7. closes the connection.

`http_srv_run` supervises this with two counters: one of consecutive link-down checks, one of
consecutive failed requests. The helpers:

- copy out the `Content-Type` field;
- decode `application/x-www-form-urlencoded` text (`+` and `%XX`);
- look a key up in an `&`-separated `key=value` string;
- resolve a parameter from the query, then the form body, then a JSON body;
- find a file part in a `multipart/form-data` body (RFC 7578);
- build an HTML page in a 4096-byte buffer.

The modules follow the program:

| module | file | what it holds |
|---|---|---|
| `Bytes` | bytes.dfy | C strings, libc primitives, `atoi` |
| `Transport` | transport.dfy | the socket, as a scripted peer |
| `RequestLine` | request_line.dfy | the request line parser |
| `Headers` | headers.dfy | the header terminator search and the field scans |
| `Response` | response.dfy | `send_all` and `http_srv_send_response` |
| `Routing` | routing.dfy | the route dispatch |
| `Server` | server.dfy | the receive state machine, the `HttpServer` class over `rxbuf`, `http_srv_handle_once` |
| `Supervisor` | supervisor.dfy | the counters of `http_srv_run` |
| `UrlEncoded` | urlencoded.dfy | the form decoder and the key lookup |
| `Params` | params.dfy | the parameter resolver |
| `Multipart`, `MultipartProofs` | multipart.dfy | the file-part search |
| `Html` | html.dfy | the page buffer |

Code that changes state step by step is imperative Dafny: the receive loops over `rxbuf`, `send_all`, the
decoder filling its destination array, the HTML buffer and the scan loops. Each method is proved against a
specification function. The receive loops are proved against the state machine `Server.Run`, fed with the
receive results in the order the engine sees them. The properties are proved about those functions.
Bytes are `char`s below 256, so protocol text is written as literals. Every search the C code does with
`strstr`, `strchr` or `atoi` reads the C string at the search position: it ends at the first NUL.

Behaviour of the code worth noting:

- **Request line.** Tokens after the third are ignored, so a line with more than three space-separated tokens is accepted.
- **Truncation of a looked-up value.** The raw value is cut to 127 bytes *before* it is decoded.
- **Content-Length and Content-Type scans.**
  - The `Content-Length` scan pulls a line end found past the header view back to the view's end.
  - The `Content-Type` scan does not, so its line search may run past the view.
- **Full header buffer.** The header phase gives up once 1399 bytes are buffered.
- **Skipping a part.** A multipart part that does not match is skipped by resuming the search right after its header block, not at the next delimiter.
- **Restart.** A restart either re-enters the loop with both counters at zero or, when the re-bind fails, resets the device.

## Model

| member | source | states |
|---|---|---|
| Bytes.Atoi | Http/src/http_server.c:102 | atoi as (int)strtol on a 32-bit target: the result is a 32-bit int, and equals the number strtol reads (blanks, sign, digits) whenever that number is in range |
| Bytes.ToU32 | Http/src/http_server.c:102 | the cast to uint32_t is below 2^32 and is the int itself or the int plus 2^32 |
| Bytes.AtoiOfDecimal | Http/src/http_server.c:102 | what `%lu` writes for n <= INT_MAX, followed by a non-digit, atoi reads back as n |
| Bytes.CStr | Http/src/http_ui.c:623 | the C string at the start of a buffer is a NUL-free prefix of it that ends at a NUL or at the end of the buffer |
| Bytes.Trunc | Http/src/http_server.c:54-55 | strncpy into n + 1 bytes with a NUL written last keeps exactly the first n bytes: all of a text that fits, otherwise a prefix of exactly n bytes |
| Bytes.IndexOf | Http/src/http_ui.c:623 | a search reports the first occurrence of the pattern and nothing only when there is none |
| Bytes.FindByte | Http/src/http_ui.c:419-420 | strchr reports the first position holding the byte and nothing only when no position holds it |
| Transport.Deliver | Http/src/http_server.c:133-135 | one receive of at most max bytes: a chunk is non-empty and no longer than max, and no byte of the peer's stream is lost or reordered |
| Transport.Connection.constructor | Http/src/http_server.c:300 | a connection to a peer that will deliver the given receive results and grant the given sends; nothing received, sent or closed yet |
| Transport.Connection.Recv | Http/src/http_server.c:133-135 | net_sock_recv takes the next delivery from the peer's queue and records it; nothing sent or closed changes |
| Transport.Connection.Send | Http/src/http_server.c:231 | net_sock_send puts exactly the accepted prefix of the data on the wire, nothing when the send reports rc <= 0 |
| Transport.Connection.Close | Http/src/http_server.c:354 | net_srv_next_conn closes the connection once and changes nothing else |
| RequestLine.Tokens | Http/src/http_server.c:45-47 | the tokens strtok(_, " ") returns are non-empty and hold no space |
| RequestLine.TokensOfJoin | Http/src/http_server.c:45-47 | splitting at spaces undoes joining non-empty space-free tokens with single spaces |
| RequestLine.SplitUri | Http/src/http_server.c:58-68 | the path holds no '?', and it is either the whole URI or the URI is path + "?" + query |
| RequestLine.SplitUriOf | Http/src/http_server.c:58-68 | a URI written as a '?'-free path and a query splits back into exactly that path and query |
| RequestLine.ParseVersion | Http/src/http_server.c:72 | sscanf "HTTP/%d.%d" succeeds only on a token that starts with "HTTP/" and has more after it |
| RequestLine.ParseVersionOf | Http/src/http_server.c:72 | the version text HTTP/major.minor reads back as (major, minor) |
| RequestLine.ParseRequestLine | Http/src/http_server.c:44-79 | the parse succeeds exactly when there are at least three tokens and the third reads as HTTP/int.int; the method is then the first token cut to 7 bytes, the path and the query are the parts of the URI before and after its first `?` cut to 127 bytes each, and the version is the two numbers of the third token |
| RequestLine.ParseFormattedLine | Http/src/http_server.c:44-79 | round trip: a request line written from a space-free method, path and query that fit their fields parses back into exactly those parts and version numbers |
| Headers.TerminatorEnd | Http/src/http_server.c:29-41 | -1 exactly when there is no CR LF CR LF; otherwise 4 <= r <= len, the four bytes before r are CR LF CR LF, and none occurs earlier |
| Headers.FindHeadersEnd | Http/src/http_server.c:29-41 | the index loop returns TerminatorEnd of buf[..len], so no byte at or past len decides the answer |
| Headers.TerminatorOfHead | Http/src/http_server.c:29-41 | for a head of non-empty plain lines followed by the empty line, the search stops exactly at the end of the head, whatever follows |
| Headers.FindField | Http/src/http_server.c:90-108 | the line the scan stops at starts inside the view and is at least as long as the field name; with clamping, it ends inside the view |
| Headers.LineEnd | Http/src/http_server.c:92 | strstr for CR LF from p finds a CR LF at or after p inside the buffer |
| Headers.FieldText | Http/src/http_ui.c:364-367 | the text after the blanks starts with no blank and is no longer than the line rest |
| Headers.ScanField | Http/src/http_server.c:90-108 | the strstr/strncasecmp line loop computes FindField |
| Headers.FindFieldFindsLine | Http/src/http_server.c:90-108 | over a view made of CR LF-terminated plain lines, the scan reports exactly the first line that begins with the name, ignoring case |
| Headers.FindFieldSkipsLines | Http/src/http_server.c:90-108 | lines that do not begin with the name are passed over and the scan goes on after them |
| Headers.ContentLengthOf | Http/src/http_server.c:83-111 | the Content-Length value is a uint32_t (below 2^32) |
| Headers.ParseContentLength | Http/src/http_server.c:83-111 | http_parse_content_length computes ContentLengthOf |
| Headers.SkipBlanks | Http/src/http_server.c:100-102 | the blank skip stops at the first byte that is not a space or tab, and the number is atoi of the rest converted to uint32_t |
| Headers.ContentLengthOfLines | Http/src/http_server.c:83-111 | when the first line carrying the field is "Content-Length:", blanks and the decimal n <= INT_MAX, the value read is n |
| Headers.NoFieldInHead | Http/src/http_server.c:110 | a head with no Content-Length line gives 0 and a head with no Content-Type line gives no type |
| Headers.ContentTypeOf | Http/src/http_ui.c:350-380 | a copied type is shorter than the buffer; nothing is copied into a buffer of size 0 |
| Headers.GetContentType | Http/src/http_ui.c:350-380 | http_ui_get_content_type computes ContentTypeOf |
| Headers.CopyFieldText | Http/src/http_ui.c:364-370 | the copy is the field text after its blanks, cut to buf_len - 1 bytes |
| Headers.SkipBlanksUpTo | Http/src/http_ui.c:365 | the blank skip stays inside the line and skips only spaces and tabs |
| Headers.ContentTypeOfLines | Http/src/http_ui.c:350-380 | for a first Content-Type line written as the name, blanks and a value, the value comes back cut to buf_len - 1 bytes |
| Headers.HeadWithoutField | Http/src/http_ui.c:358-379 | over a head of plain lines none of which begins with the name, the scan finds nothing |
| Response.Pump | Http/src/http_server.c:227-240 | send_all never counts more than len bytes, and it succeeds exactly when all len bytes were accepted |
| Response.PumpAccepted | Http/src/http_server.c:227-240 | a peer that accepts whatever it is offered receives every byte and send_all succeeds |
| Response.PumpRefused | Http/src/http_server.c:231-236 | a first send reporting rc <= 0 sends nothing and fails |
| Response.SendAll | Http/src/http_server.c:227-240 | the loop puts exactly the accepted prefix on the wire and reports success as Pump does |
| Response.PayloadFor | Http/src/http_server.c:283-289 | the body is sent only when there is one, and then exactly body_len bytes of it |
| Response.Respond | Http/src/http_server.c:256-291 | what goes out is a prefix of head + body, and the call succeeds exactly when the head fits the 256-byte buffer and all of head + body went out |
| Response.SendResponse | Http/src/http_server.c:242-292 | http_srv_send_response with NULL defaults "OK", "text/plain" and "": the wire gains what Respond says and the result is Respond's |
| Response.Transmit | Http/src/http_server.c:277-291 | the head, then the body if any, each with send_all, stopping at the first failure |
| Response.ResponseEndsAtBody | Http/src/http_server.c:258-269 | round trip: in a head written by the engine followed by its body, the header terminator search stops exactly where the body begins |
| Response.ResponseFieldsReadBack | Http/src/http_server.c:258-269 | round trip: the engine's own field scanners read back Content-Length = body_len and the Content-Type that was written |
| Response.NotFoundSent | Http/src/http_server.c:342-351 | the 404 head fits the header buffer, so a peer that accepts everything receives the head and "404 Not Found\r\n" |
| Response.HeadLength | Http/src/http_server.c:258-274 | the fixed text of the head is 67 bytes; the rest is the code, the strings and the length |
| Routing.FirstRoute | Http/src/http_server.c:329-340 | the index of the first entry whose path equals the request path and whose method is absent or equal; None when no entry matches |
| Routing.FindRoute | Http/src/http_server.c:329-340 | the dispatch loop computes FirstRoute |
| Routing.FirstRouteIs | Http/src/http_server.c:329-340 | a matching entry with no match before it is the one dispatched |
| Routing.AppendKeepsMatch | Http/src/http_server.c:329-340 | entries added behind a table do not change a request the table already dispatches |
| Routing.PagesReachable | Http/src/http_pages.c:18-24 | in the device's table every page is reached by its own path and method |
| Routing.FormTargetsPostOnly | Http/src/http_pages.c:18-24 | the two form targets take POST only; any other method gets the 404 |
| Server.Complete | Http/src/http_server.c:170-197 | after a complete header block, the engine never reports NO_REQUEST and never goes back to the header phase |
| Server.Cut | Http/src/http_server.c:177-197 | with the request line cut at its CR LF, the state reached is consistent and is not NO_REQUEST |
| Server.Parsed | Http/src/http_server.c:189-197 | the header view ends where the body view starts, at hdr_end, and the body view runs to rxlen |
| Server.Admit | Http/src/http_server.c:199-207 | the body decision keeps the engine consistent and never reports NO_REQUEST. It refuses a body with the corrected, wrap-free capacity check, not the 32-bit one of line 203 (see "## Left out" and "## Findings") |
| Server.CutRefused | Http/src/http_server.c:179-182 | a request line that does not parse gives HTTP_ERR, with the NUL written over the CR |
| Server.CutAdmitted | Http/src/http_server.c:189-207 | the views and Content-Length set up from rxbuf are those the body decision is made on |
| Server.FirstLineInHead | Http/src/http_server.c:171-177 | strstr for the first CR LF stops no later than the header terminator |
| Server.CapacityChecksAgree | Http/src/http_server.c:203 | the 32-bit and the unbounded capacity checks agree whenever the sum does not wrap |
| Server.WrappedLengthPasses | Http/src/http_server.c:200-206 | in the request `GET / HTTP/1.1` CR LF `Content-Length: -1` CR LF CR LF the header block ends at 38; "-1" reads as 4294967295; the 32-bit sum wraps to 37, so the check as written passes although the body cannot fit |
| Server.FilledBodyFits | Http/src/http_server.c:199-219 | with the intended check, a body being topped up always ends inside rxbuf |
| Server.StepConsistent | Http/src/http_server.c:130-219 | every step from a consistent state reaches a consistent state |
| Server.RunConsistent | Http/src/http_server.c:120-225 | every reachable state keeps the header phase below 1399 bytes and the views inside rxbuf, and a received body is at least as long as Content-Length |
| Server.CompleteTraced | Http/src/http_server.c:170-197 | the state set up when the header block is complete holds the received bytes with the NUL over the CR of the first CR LF, and its request is traced to that block: the request line is the text before the first CR LF, the header view runs from after that CR LF to the end of the block, the body view starts at the end of the block, and Content-Length is read from the header view |
| Server.StepTraced | Http/src/http_server.c:130-219 | every receive step keeps the data equal to the bytes received, with that NUL, and each held request traced to the header block; body bytes only extend the data and the body length |
| Server.RunTraced | Http/src/http_server.c:120-225 | every state reachable by receives holds the bytes received (with the NUL over the request line's CR once the block is complete) and keeps each held request traced to its header block |
| Server.RunGot | Http/src/http_server.c:170-219 | a request the engine reports as received was set up from a complete header block that its data starts with: request line, header view, body view and Content-Length are those of that block |
| Server.RunHoldsPayload | Http/src/http_server.c:128-219 | no byte is lost or changed across the split into header and body: the data of a request being topped up or received is every byte received, with a NUL over the CR that ends the request line; the body view is the received bytes from the end of the block on; and the header block the request was set up from is the first rxlen bytes received |
| Server.ReadingHoldsPayload | Http/src/http_server.c:131-163 | during the header phase the buffer holds exactly the bytes received, at least one per receive |
| Server.NoRequestIffSilent | Http/src/http_server.c:137-147 | NO_REQUEST is reported exactly when the first receive brings nothing |
| Server.HttpServer.constructor | Http/src/http_server.c:361-371 | a cleared context: rxlen 0 and rxbuf all zero |
| Server.HttpServer.RecvRequest | Http/src/http_server.c:120-225 | the receives consumed drive the state machine from a cleared buffer to a finished state, whose outcome is returned and whose bytes rxbuf holds; nothing is sent. The body decision is the corrected capacity check of Server.Admit |
| Server.HttpServer.ReadHead | Http/src/http_server.c:128-168 | the header loop leaves the state machine's state after the results it consumed, in rxbuf and rxlen |
| Server.HttpServer.Append | Http/src/http_server.c:156-157 | a chunk is stored behind the data and NUL-terminated |
| Server.HttpServer.ParseHead | Http/src/http_server.c:170-197 | the steps after the header loop compute Complete |
| Server.HttpServer.ReadFields | Http/src/http_server.c:179-197 | the request line and the views computed from rxbuf are those of Cut |
| Server.HttpServer.FillBody | Http/src/http_server.c:199-219 | the body loop drives the state machine to a finished state |
| Server.HttpServer.TopUp | Http/src/http_server.c:208-217 | one receive of at most what is missing is one step of the state machine |
| Server.HttpServer.HandleOnce | Http/src/http_server.c:295-357 | the connection is closed exactly once on every path; a listen error or timeout gives HTTP_ERR; otherwise the result is Verdict of the request received, and the wire gains the 404 response exactly when no route matches |
| Server.HttpServer.Dispatch | Http/src/http_server.c:313-356 | NO_REQUEST is OK, a receive error is HTTP_ERR, a routed request gives its handler's result, and an unrouted one is answered 404 and is OK |
| Supervisor.Supervise | Http/src/http_server.c:385-427 | the loop over a script of passes computes Trace from fresh counters |
| Supervisor.TickCounters | Http/src/http_server.c:392-421 | a down link serves nobody and counts one more down check; an up link clears the down counter and serves one client; an OK request clears the error counter; a restart happens exactly when a counter reaches its limit and leaves both at zero unless the re-bind fails |
| Supervisor.TraceBounded | Http/src/http_server.c:392-421 | the counters stay below 5 and 3 on every pass |
| Supervisor.TraceLength | Http/src/http_server.c:429-448 | the device is reset exactly when a restart's re-bind fails, and that ends the loop |
| Supervisor.LinkDownRestarts | Http/src/http_server.c:395-405 | with the link down, no pass serves and the restart comes on the pass that makes the count 3, not before |
| Supervisor.ErrorStormRestarts | Http/src/http_server.c:411-421 | with every request failing, each pass serves and the restart comes on the pass that makes the count 5, not before |
| Supervisor.HealthyNeverRestarts | Http/src/http_server.c:411-421 | with the link up and every request OK, no pass restarts |
| UrlEncoded.Decode | Http/src/http_ui.c:385-404 | the decoding is never longer than its input |
| UrlEncoded.DecodeFrom | Http/src/http_ui.c:388-400 | '+' gives a space, '%' and two hex digits give that byte, and any other byte (a bare '%' too) is copied |
| UrlEncoded.UrlDecode | Http/src/http_ui.c:385-404 | dest holds the decoding cut to dest_size - 1 bytes, then a NUL |
| UrlEncoded.DecodeStep | Http/src/http_ui.c:389-400 | one step writes one byte and consumes one to three source bytes |
| UrlEncoded.DecodeEncode | Http/src/http_ui.c:385-404 | round trip: decoding undoes the application/x-www-form-urlencoded serializer of the WHATWG URL Standard, for every byte string |
| UrlEncoded.EncodeSafe | Http/src/http_ui.c:417-427 | the serializer never writes '&', '=' or NUL, so an encoded value never splits a segment |
| UrlEncoded.SegmentsOfJoin | Http/src/http_ui.c:417-451 | splitting at '&' undoes joining '&'-free segments with '&' |
| UrlEncoded.SegmentStep | Http/src/http_ui.c:417-451 | a step of the walk that goes on moves forward inside the string |
| UrlEncoded.FindParamInKv | Http/src/http_ui.c:409-454 | the loop computes FindParam: nothing for an empty key, else the decoded value of the first segment whose text before '=' is the key |
| UrlEncoded.Segment | Http/src/http_ui.c:419-430 | one pass of the loop computes SegmentStep |
| UrlEncoded.CopyValue | Http/src/http_ui.c:432-446 | the copy to param_value, the decode and the copy back compute ParamValue |
| UrlEncoded.WalkIsPick | Http/src/http_ui.c:417-451 | the walk over the C string picks the value of the first '&'-segment that has an '=' with exactly the key before it |
| UrlEncoded.ParamValueOfEncode | Http/src/http_ui.c:434-444 | a value whose encoding fits in 127 bytes comes back whole from the copy, the decode and the copy back |
| UrlEncoded.FindParamOfForm | Http/src/http_ui.c:409-454 | round trip: a key looked up in a form body written by the serializer gives the value of the first field with that key, and nothing when no field has it |
| Params.RequestType | Http/src/http_ui.c:541-542 | the Content-Type copied into ctype[64] is at most 63 bytes |
| Params.JsonField | Http/src/http_ui.c:464-519 | a JSON answer is at most 127 bytes |
| Params.GetParamEx | Http/src/http_ui.c:523-576 | a value comes back exactly when a source is named, and an empty key gives nothing. The query answers exactly when it has the key, with the query's value. The form body answers exactly when the query does not, the Content-Type names a form, the body is non-empty and has the key, with the body's value. The JSON body answers exactly when neither does and the JSON lookup has the key, under a JSON Content-Type. Otherwise no source answers |
| Params.FormIsNotJson | Http/src/http_ui.c:545-567 | no Content-Type starts with both media types |
| Params.FormRequestSkipsJson | Http/src/http_ui.c:545-573 | a form request never answers from JSON |
| Params.FormPostAnswers | Http/src/http_ui.c:544-562 | a serializer-written form body that fits tmp answers with the first field of that key, tagged FORM |
| Params.QueryWins | Http/src/http_ui.c:531-538 | a query that has the key answers, tagged QUERY, whatever the body holds |
| Multipart.Token | Http/src/http_ui.c:604-609 | the copied boundary is a prefix of the text, at most 63 bytes, without stop bytes, and it ends at a stop byte unless the text or the room ran out |
| Multipart.BoundaryOf | Http/src/http_ui.c:599-610 | a boundary is found only when it is non-empty, at most 63 bytes and free of ';', white space and NUL |
| Multipart.CopyBoundary | Http/src/http_ui.c:604-609 | the copy loop computes Token |
| Multipart.Find | Http/src/http_ui.c:623 | a search of the body finds an occurrence at or after the start; the bounded search finds exactly the first one |
| Multipart.NameIn | Http/src/http_ui.c:659-676 | the name found fits found_name[64] |
| Multipart.FilenameIn | Http/src/http_ui.c:683-694 | the filename fits filename[64] and holds no NUL |
| Multipart.TrimmedEnd | Http/src/http_ui.c:712-716 | the trimmed end stays between data start and data end, the last data byte is no CR or LF, and only CR and LF bytes were trimmed |
| Multipart.TrimLoop | Http/src/http_ui.c:712-716 | the trim loop computes TrimmedEnd |
| Multipart.DataEnd | Http/src/http_ui.c:702-710 | the data end lies between the data start and the body end |
| Multipart.Locate | Http/src/http_ui.c:622-645 | a part's header block lies after the search start, its first line ends in CR LF, and the block ends in CR LF CR LF |
| Multipart.Taken | Http/src/http_ui.c:699-719 | the part taken lies inside the body after its CR LF CR LF, its data ends at the trimmed end of what lies before the next delimiter, its last data byte is no CR or LF, and with the bounded search it contains no delimiter |
| Multipart.PartsFrom | Http/src/http_ui.c:619-724 | a part found by the loop satisfies what Taken promises, and some pass of the loop picked it: that pass found a header block whose first line names the field, the data starts right after that block, and the file name is that line's |
| Multipart.PartStep | Http/src/http_ui.c:621-722 | a pass that finds no header block ends with nothing. A pass goes on exactly when it finds a header block whose first line does not name the field, and it then goes on right after that block. A pass that ends with a part took the part after the block it found, whose line names the field, and the part satisfies what Taken promises |
| Multipart.FileOf | Http/src/http_ui.c:585-725 | a part is found only for a multipart/form-data Content-Type with a boundary; it lies inside the body, and a pass of the loop over the delimiter `--` + boundary picked it from a header block whose first line names the field |
| Multipart.GetFile | Http/src/http_ui.c:585-725 | http_ui_get_file computes FileOf |
| Multipart.ScanPart | Http/src/http_ui.c:621-722 | one pass of the part loop, with the trim loop, computes PartStep |
| Multipart.TakePart | Http/src/http_ui.c:699-719 | taking the data of the matching part computes Taken |
| MultipartProofs.LocateHead | Http/src/http_ui.c:622-645 | a pass from p whose next delimiter starts a head (the delimiter, CR LF, a header line, CR LF CR LF) finds exactly that header line and header block, for the first part or any later one |
| MultipartProofs.HeaderLine | Http/src/http_ui.c:647-651 | cd_line reads back a header line of at most 255 bytes free of NUL, CR and LF |
| MultipartProofs.NextDelimiter | Http/src/http_ui.c:702-706 | the next delimiter after data that does not contain it is the one behind the data's CR LF |
| MultipartProofs.TrimToData | Http/src/http_ui.c:712-716 | trimming takes back exactly the CR LF written after data that does not end in CR or LF |
| MultipartProofs.OnePartFound | Http/src/http_ui.c:619-722 | the loop over one such part, with data free of the delimiter, returns exactly the data |
| MultipartProofs.OnePartRoundTrip | Http/src/http_ui.c:585-725 | round trip with the bounded search: an upload written as one part naming the field comes back as exactly its data, with the header's filename |
| MultipartProofs.SkipsUnwanted | Http/src/http_ui.c:653-681 | a pass that finds a header block whose first line does not name the field goes on right after that block |
| MultipartProofs.LoopNext | Http/src/http_ui.c:621-722 | when a pass goes on, the loop's answer is the answer of the loop from where it goes on |
| MultipartProofs.FirstSkipped | Http/src/http_ui.c:621-681 | a first part whose header line does not name the field is skipped to just after its header block, from where the next delimiter is the one that follows its data |
| MultipartProofs.NextPartFound | Http/src/http_ui.c:621-722 | a loop from p whose next delimiter starts a part naming the field returns exactly that part's data with the header's file name |
| MultipartProofs.TwoPartsFound | Http/src/http_ui.c:619-724 | the loop over a part that does not name the field followed by one that does returns exactly the second part's data, with its file name |
| MultipartProofs.TwoPartRoundTrip | Http/src/http_ui.c:585-725 | round trip with the bounded search: an upload written as a part for another field, then the part naming the field, comes back as exactly the second part's data, with its header's file name |
| MultipartProofs.LocateHeadAsWritten | Http/src/http_ui.c:623-643 | with strstr, the searches before a NUL in the data find what the bounded searches find |
| MultipartProofs.DataEndAsWritten | Http/src/http_ui.c:703-706 | with strstr, data that begins with a NUL has no next delimiter, so it runs to the end of the body |
| MultipartProofs.TakenAsWritten | Http/src/http_ui.c:699-719 | as written, the part taken when its data begins with a NUL runs from the blank line to the end of the body |
| MultipartProofs.NulDataKeepsDelimiter | Http/src/http_ui.c:703-719 | as written, an upload whose data begins with a NUL comes back with the CR LF, the next delimiter and everything after it |
| Html.TruncTwice | Http/src/http_ui.c:30-39 | cutting the page at 4095 bytes, appending, and cutting again is cutting the whole text once |
| Html.FullPageKeeps | Http/src/http_ui.c:35-39 | once 4095 bytes are kept, nothing appended shows, not even the closing tags |
| Html.PageStartFits | Http/src/http_ui.c:53-61 | with a title of at most 1500 bytes the start of the page is kept whole |
| Html.TruncKept | Http/src/http_ui.c:30-35 | what vsnprintf leaves behind a kept text is that text, then as much of the new text as fits |
| Html.HtmlPage.Text | Http/src/http_ui.c:19-20 | the text of the buffer is everything appended since the page began, cut to 4095 bytes |
| Html.HtmlPage.constructor | Http/src/http_ui.c:19-21 | the static state: html_len 0, no connection, nothing appended |
| Html.HtmlPage.Add | Http/src/http_ui.c:23-40 | html_add keeps html_len below 4096 and the buffer NUL-terminated, and the text becomes the old text plus the new, cut to 4095 bytes |
| Html.HtmlPage.BeginPage | Http/src/http_ui.c:44-62 | begin_page remembers the connection and the text is the head, the style sheet and the heading, cut to 4095 bytes |
| Html.HtmlPage.EndPage | Http/src/http_ui.c:64-74 | end_page appends the closing tags and sends the page text as a 200 text/html response with Content-Length html_len on the remembered connection, which it neither reads from nor closes |

## Left out

- NULL arguments are not modelled: a NULL `hs`, `req`, `key`, `data`, `body`, `out_part` or `field_name`, a zero socket, or a NULL `headers` view. The exception is `http_ui_end_page` with no page begun, which is modelled.
- Negative results of `snprintf` and `vsnprintf` (encoding errors) are not modelled; formatting is total here.
- The NUL bytes `strtok` writes into the request line are not modelled, because nothing reads the line afterwards.
- The waiting inside `net_srv_listen` is not modelled. Its outcome is a parameter of `Server.HttpServer.HandleOnce`.
- Server.HttpServer.HandleOnce: route handlers are foreign calls. Each reports only its result (`handlerOk`); the responses a handler sends itself are not modelled.
- The static `param_value` buffer, which every lookup overwrites, is not modelled. Lookups return values, so one result cannot alias the next.
- Params.JsonField: `cJSON` is not part of this model. Its answer for a body and a key is a parameter of the lookup, including the `%g` rendering of numbers. The model only cuts that answer to 127 bytes.
- Supervisor.Supervise: these parts of `http_srv_run` and `http_srv_restart` are not modelled:
  - the link check, the request result and the re-bind, which are inputs of each pass;
  - `HAL_Delay`;
  - the nesting of `http_srv_run` inside `http_srv_init` on each restart;
  - `NVIC_SystemReset`, which ends the script.

  The loop runs over a finite script of passes.
- Server.Admit: the engine is modelled with the corrected capacity check `BodyExceedsBuffer`. That check adds `hdr_end` and Content-Length without wrap-around. The check as written at `Http/src/http_server.c:203` is `Server.BodyExceedsBufferAsWritten`. It is only exhibited (`Server.WrappedLengthPasses`) and never run by the engine. So `Server.Run`, `Server.HttpServer.RecvRequest` and `Server.HttpServer.HandleOnce` refuse, as too large, every request where `hdr_end` + `(uint32_t)` Content-Length reaches 2^32. The code accepts such a request and lets its body loop write past `rxbuf`. The model does not follow the code into that overflow.
- Logging (`msg_debug`, `msg_error`) is not modelled.
- The numeric values of `HTTP_OK`, `HTTP_ERR` and the other status codes are not modelled, because `http_lib.h` (included by `Http/inc/http_server.h:78`) is not part of this model. Results are tagged values instead. The model assumes `HTTP_ERR` is negative, so the `rc < 0` tests at `Http/src/http_server.c:278` and `:285` catch a failed `send_all`.
- The route table is a parameter. The device's own table (`Http/src/http_pages.c:18-24`) is `Routing.PAGES`.
- Multipart.GetFile: with `strstr`, a search reads the C string that starts at the search position. The model ends that string at the end of the body view as well as at the first NUL, so bytes of `rxbuf` past the body are not read. That condition only arises when the body fills the buffer exactly.
- Multipart.NameIn: as in the source, `name="` is searched for anywhere in the line, so a `filename="` that comes first supplies the name. This is modelled, not corrected.
- `content_type` of the file part is always empty in the source; the model's `FilePart` leaves it out.
- The page widgets of `Http/src/http_ui.c:76-343` and the page handlers of `Http/src/http_pages.c` are not modelled. Each widget is `html_add` of formatted text, and `Html.HtmlPage.Add` takes that text as given.
- The guard `html_len >= sizeof(html_buffer)` at the top of `html_add` is not modelled. `Html.HtmlPage.Valid` keeps `html_len` below 4096, so the guard never fires.
- RequestLine.ScanInt: `%d` conversions whose value overflows an `int` (undefined behaviour in C) are read as unbounded integers.

## Findings

| source | as written | input that shows it | evidently intended | confidence | as-written member | corrected member |
|---|---|---|---|---|---|---|
| Http/src/http_server.c:203 | `(uint32_t)hdr_end + req->content_length > sizeof(hs->rxbuf)` is computed in 32 bits, and `content_length` is `(uint32_t)atoi(...)` | the request `GET / HTTP/1.1` CR LF `Content-Length: -1` CR LF CR LF: `Content-Length: -1` reads as 4294967295, the header block ends at offset 38, the sum wraps to 37, the check passes, and the body loop may store up to 4294967295 bytes behind offset 38 of the 1400-byte `rxbuf` | refuse any declared body that does not fit behind the header block, computed without wrap-around | high (not executed) | Server.WrappedLengthPasses | Server.FilledBodyFits |
| Http/src/http_ui.c:703 | the next delimiter after a part's data is found with `strstr`, which stops at the first NUL byte | boundary `x`, field `f`, a part whose data is the single byte 0, then CR LF and `--x--`: the delimiter is never seen, and the returned data runs to the end of the body, including the CR LF and the delimiter | the data runs to the next delimiter within the body view, whatever bytes it holds (binary uploads) | high (not executed) | MultipartProofs.NulDataKeepsDelimiter | MultipartProofs.OnePartRoundTrip |
