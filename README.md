# libhttp response decoder, modelled in Dafny

This project models the incremental HTTP/1.x response decoder of libhttp
(`http.c`). The client reads a response one `recv` at a time into the 4096-byte
buffer of `struct http_message`. `http_read` parses what is buffered before it
reads more. `http_parse_message` reads the `HTTP/1.0` or `HTTP/1.1` status line
and the header lines; it recognises `Transfer-Encoding: chunked` and
`Content-Length`. `http_parse_content` and `http_cut_trailing_crlf` cut the body
into fragments: the whole window for a plain body, or the payload of each
chunk for a chunked one, even when a chunk-size line or a chunk is split between
reads. There is one exception in the code as written: a window that holds only
the LF of a chunk's CRLF is delivered as a one-byte fragment (see Findings). The
model uses the corrected cut there. `http_parse_url` splits a URL into host,
query and service.

The model follows the source's own form:

- `wrappers.dfy` (module `Wrappers`): `Option`, the C null pointer.
- `libc.dfy` (module `Libc`): the C library calls the decoder makes, on a
  buffer and a position: `strchr`, `strstr`, `strlen`, `strspn`/`strtok` (as
  `Span`), `strcasecmp` (as `CaseEqAt`), `atoi` and `sscanf("%x")`. They have
  formatting partners, `Decimal` and `Hex`, with read-back lemmas.
- `url.dfy` (module `Url`): `http_parse_url` as a pure split function.
- `decoder.dfy` (module `Decoder`): the reference semantics of
  `http_cut_trailing_crlf`, `http_parse_content` and `http_parse_message`, as
  pure functions of the fields, the buffer and the window `[bod, eod)`. It also
  has framing lemmas and lemmas that show the scans read nothing behind the
  parse position.
- `http.dfy` (module `Http`): `struct http_message` as class `Message`, holding
  its buffer as an `array<char>`. The four decoder functions are methods that
  change it in place: they write NULs into the buffer, set `content`, `length`,
  `chunk` and `in_content`, move the window, drop half of a full buffer, and
  append what `recv` returns. Each parse method is proved to return exactly what
  the matching `Decoder` function computes on the bytes the buffer held when the
  parse began. `http_read` is the `Read` method. The peer is class `Socket`.
- `properties.dfy` (module `Properties`): what the decoder does on whole inputs.
  - How a header line is read.
  - Which bytes of a chunked body become fragments (`PayloadIn`).
  - Where a parse stops before the body.
  - What a run of body reads delivers: a plain body byte for byte, and a
    chunk's payload without its CRLF, however `recv` splits them.
  - The trailing-CRLF finding.
- `examples.dfy` (module `Examples`): worked examples.
  - The chunked body `4\r\nWiki\r\n5\r\npedia\r\n0\r\n\r\n` gives "Wiki", then
    "pedia", then an empty fragment.
  - `HTTP/1.1 200 OK` with `Content-Length: 5` and body `hello`, parsed in one
    window.
  - A response cut off inside a header line.
  - An `FTP/1.1` status line.

A status line other than `HTTP/1.0` or `HTTP/1.1` is not a fatal error in the
code. `http_parse_message` returns NULL, and `http_read` treats that like a
parse that made no progress: it calls `recv` again. `Decoder.Message` returns
`Parse(None, f)`, and `Http.Message.Await` counts it as no progress.

## Model

| member | source | states |
|---|---|---|
| Url.ParseUrl | http.c:31-72 | The result is NULL exactly when the URL is null or its C string is empty. Otherwise host and query are the split of the text after the first "://", and the protocol is taken from the host. |
| Url.ParseUrlOf | http.c:37-71 | For a NUL-free, non-empty URL string, the result is the host and query of the text after the scheme, with the service of that host. |
| Url.CStr | http.c:38-44 | The copy the parser works on is the URL up to its first NUL, and it holds no NUL. |
| Url.Find | http.c:54-65 | `strchr` on a NUL-free string: a position holding the character with none before it, or None when it does not occur. |
| Url.FindFirst | http.c:54-65 | A position holding the character with none before it is what `strchr` returns. |
| Url.AfterScheme | http.c:46-50 | Without "://" the text is unchanged. Otherwise the original is the text before the first "://", then "://", then the result. |
| Url.NoScheme | http.c:46-50 | For a URL without ':', the text after the scheme is the whole URL. |
| Url.SplitPath | http.c:52-63 | The host is the prefix before the first '/' and holds no '/'. With no '/' the query is "". Otherwise the query follows the '/', holds no '#', and ends at the end of the text or at a '#'. |
| Url.Service | http.c:65-69 | "http" when the host has no ':'. Otherwise exactly the text after the host's first ':'. |
| Url.Recombine | http.c:46-63 | Only the scheme and the fragment are lost. The text after the scheme is the host, or the host, '/', the query and a tail that is empty or starts with '#'. |
| Url.RecombinePath | http.c:52-63 | The same, for the split of the text after the scheme. |
| Url.ExampleWithPortAndFragment | http.c:31-72 | "http://a.io:80/x#y" gives host "a.io:80", query "x" and protocol "80". |
| Url.ExampleBareHost | http.c:52-69 | "example.com" gives host "example.com", query "" and protocol "http". |
| Url.ExampleEmpty | http.c:37-41 | A null URL and an empty URL both give NULL. |
| Libc.StrChrAt | http.c:301 | `strchr` from a buffer position returns the first match before the terminator. When there is none, no byte before the terminator matches. |
| Libc.StrChr | http.c:54 | `strchr` on a whole string: the first match, with none before it. |
| Libc.StrStrFrom | http.c:46 | `strstr`: an occurrence of the pattern at or after the start, with none before it. |
| Libc.StrStr | http.c:46 | `strstr` on a whole string. |
| Libc.StrLen | http.c:38 | `strlen`: no NUL before the result, and a NUL at it when inside the string. |
| Libc.Span | http.c:346-350 | The `strspn`/`strtok` scan stops inside the bound, at the first byte outside the class. |
| Libc.SpanAccepts | http.c:346-350 | Every byte the scan passes over is of the class. |
| Libc.SpanStops | http.c:346-350 | The scan stops at the first byte outside the class. |
| Libc.LowerChar | http.c:352-356 | `strcasecmp` folds ASCII upper case to lower case and leaves every other byte alone. |
| Libc.AtoiIn | http.c:314 | `atoi`: a negative result comes only from a '-' after the white space. With no digit after the white space and the sign, the result is 0. |
| Libc.ScanHexAt | http.c:235-236 | `sscanf("%x")` assigns nothing (None) exactly when no hexadecimal digit follows the white space. |
| Libc.CaseEqAtFold | http.c:352-356 | `strcasecmp` finds two strings equal exactly when they are equal once folded to lower case. |
| Libc.AtoiAtDecimal | http.c:314 | `atoi` reads back a decimal number after white space, whatever non-digit follows. |
| Libc.AtoiDecimal | http.c:357 | `atoi` of the decimal digits of n, then a non-digit, is n. |
| Libc.AtoiSkipsSpace | http.c:314 | `atoi` skips leading `isspace` bytes. |
| Libc.ValueOfDecimal | http.c:314 | The digits written by Decimal have the value n. |
| Libc.ValueOfHex | http.c:236 | The digits written by Hex have the value n in base 16. |
| Libc.ScanHexAtSlice | http.c:235-236 | `sscanf("%x")` on a buffer position reads the same number as on the copied string. |
| Libc.ScanHexHex | http.c:236 | `sscanf("%x")` reads back a chunk size written in hexadecimal, whatever non-hex byte follows. |
| Decoder.FoundInWindow | http.c:301 | A LF found from the parse position lies before the window's terminator. |
| Decoder.CutAsWritten | http.c:176-185 | The cut as written. The length never becomes negative and never grows. |
| Decoder.Cut | http.c:176-185 | The corrected cut (see Findings). The length never becomes negative and never grows. |
| Decoder.ChunkData | http.c:244-262 | After a chunk-size line, only content, length and chunk change, and content points after the line. |
| Decoder.ChunkHeader | http.c:228-262 | Reading a chunk-size line changes only content, length and chunk. |
| Decoder.Content | http.c:194-277 | The body parse always returns a position. A plain body stays plain. Only content, length and chunk change. |
| Decoder.ContentSound | http.c:194-277 | The body parse ends inside the window. A parse that consumes nothing changes nothing. chunk stays at least -1 and length non-negative. A fragment lies inside the consumed bytes. |
| Decoder.ChunkHeaderSound | http.c:228-262 | The same framing facts for a chunk-size line. |
| Decoder.MessageSound | http.c:286-362 | The same framing facts for the whole parse. A NULL result leaves the fields unchanged. |
| Decoder.HeadersSound | http.c:319-361 | The same framing facts for the header loop. |
| Decoder.Headers | http.c:319-361 | The header loop returns a position past the line it starts at. |
| Decoder.StatusAtLine | http.c:306-311 | The byte-wise test used by the parser accepts exactly the lines that begin "HTTP/1.0" or "HTTP/1.1". |
| Decoder.BlankAtLine | http.c:326-327 | A header line ends the headers exactly when it is empty or a lone CR. |
| Decoder.Colon | http.c:339-341 | A position of ':' inside the header line. |
| Decoder.ColonFirst | http.c:339-341 | The ':' found is the first of the line, with no terminator before it. When none is found, every ':' of the line lies after a NUL, where `strchr` stops. |
| Decoder.HeaderAt | http.c:339-358 | A header line changes only chunk and header.length, and chunk only to 0. |
| Decoder.HeaderNamed | http.c:343-358 | The same, for a line whose first ':' is known. |
| Decoder.Message | http.c:286-362 | NULL comes only while no status line has been accepted and the body has not begun, and leaves every field as it was. |
| Decoder.MessageStatus | http.c:305-317 | A valid status line sets the code to `atoi` of the text after its first 8 bytes, and parsing goes on after its LF. |
| Decoder.MessageBadStatus | http.c:306-311 | While the code is 0, any other whole line gives NULL with the fields unchanged. |
| Decoder.MessageHeaders | http.c:319-320 | Once the code is set, whole lines go to the header loop. |
| Decoder.HeadersEnd | http.c:326-337 | A blank line sets in_content, is skipped, and the rest of the window goes to the body in the same call. |
| Decoder.HeadersNext | http.c:339-361 | Any other line is read as a header. The loop goes on at the next LF, or stops just past this line when there is none. |
| Decoder.StrChrAtFrame | http.c:320-324 | `strchr` gives the same answer on two buffers that agree from the scan's start on. So the NULs written behind the parse position do not change it. |
| Decoder.StatusAtFrame | http.c:306-314 | The status test reads only the line's own bytes. |
| Decoder.AtoiAtFrame | http.c:314 | `atoi` reads only bytes from its start on. |
| Decoder.ScanHexAtFrame | http.c:235-236 | `sscanf("%x")` reads only the size line. |
| Decoder.HeaderAtFrame | http.c:324-358 | Reading a header line depends only on the line's own bytes. |
| Decoder.HeaderNamedFrame | http.c:343-358 | The same, once the ':' is found. |
| Http.Socket.Recv | http.c:452-459 | `recv` returns at most the free space, in stream order. It returns nothing exactly when the peer closed. The rest of a segment is kept for the next call. |
| Http.Message.constructor | http.h:4-25 | The all-zero struct a caller must pass to the first `http_read`. |
| Http.Message.CutTrailingCrlf | http.c:176-185 | length becomes the corrected cut of the fragment. A NUL is written at the new end exactly when bytes are cut, and the buffer is unchanged otherwise. |
| Http.Message.TakeChunkData | http.c:244-262 | Computes ChunkData. The fragment is the buffer's own bytes, followed by a NUL. |
| Http.Message.ParseChunkHeader | http.c:228-262 | Computes ChunkHeader on the window's bytes at entry. It writes NULs only inside the consumed bytes. |
| Http.Message.ParseContent | http.c:194-277 | Computes Content on the window's bytes at entry. It writes NULs only inside the consumed bytes. A new fragment is delivered intact. |
| Http.Message.RestOfChunk | http.c:206-226 | The same, for the rest of a chunk that ends in the window. |
| Http.Message.WholeWindow | http.c:264-276 | The same, for a window that the body or the current chunk fills. |
| Http.Message.Stamp | http.c:324 | Writes one NUL inside the line being read. |
| Http.Message.TerminateTokens | http.c:343-350 | The NULs at the ':' and after the two tokens fall inside the line. |
| Http.Message.ReadHeaderLine | http.c:339-358 | Updates the fields as HeaderAt says, writing NULs only inside the line. |
| Http.Message.NextHeaderLine | http.c:320-359 | Cuts the line at its LF and reads it as HeaderAt says on the window's bytes at entry. Returns the next LF. |
| Http.Message.ParseMessage | http.c:286-362 | Computes Message on the window's bytes at entry. It writes NULs only inside the consumed bytes. A new fragment is delivered intact. |
| Http.Message.ParseStatus | http.c:305-317 | The same, from a whole status line. |
| Http.Message.AcceptStatus | http.c:313-316 | The same, from a valid status line. |
| Http.Message.ParseHeaders | http.c:319-361 | Computes Headers on the window's bytes at entry. |
| Http.Message.EndOfHeaders | http.c:326-337 | The blank line hands the rest of the window to the body parse. |
| Http.Message.HeaderStep | http.c:320-359 | One turn of the header loop keeps the loop's result and moves it to the next line. |
| Http.Message.MoveToFront | http.c:419-428 | The live bytes move unchanged to the front of the buffer. |
| Http.Message.DropHalf | http.c:436-450 | A full buffer keeps its bytes 2047 to 4093 as the window, and left becomes 2047. |
| Http.Message.Append | http.c:452-462 | The received bytes are appended to the window, followed by a NUL. offset + left stays within 4095. |
| Http.Message.ParseBuffered | http.c:400-417 | Progress means the parse returned a position past offset. Then offset moves there, left shrinks by the advance, the fragment length is added to total, and the bytes left in the window are the unparsed bytes, unchanged. Otherwise the buffer, window and total stay as they were. |
| Http.Message.Advance | http.c:412-414 | After a parse that stopped past the offset: offset moves to where it stopped, the window keeps exactly the unparsed bytes, and the fragment length is added to total. |
| Http.Message.Receive | http.c:419-463 | One refill. The window is what it held plus what `recv` returned. When the buffer was full, it is instead the half that the drop keeps (bytes 2047 to 4093 of the old window) plus what `recv` returned. The window is NUL-terminated unless the peer closed. |
| Http.Message.Pass | http.c:399-464 | One turn of the read loop: a parse that made progress, with the unparsed bytes left in the window, or a refill as Receive states it, or the peer closing. |
| Http.Message.Await | http.c:399-464 | The read loop returns 1 after a parse that made progress, or 0 when the peer closed with the total unchanged. It consumes exactly the bytes it received. After progress the window holds exactly the unparsed bytes. |
| Http.Started | http.c:377-392 | The first call sets chunk and header.length to -1 and nothing else. Later calls leave the fields as they are. |
| Http.Read | http.c:372-467 | A null message gives -1. When total already equals header.length, it returns 0 with nothing received or changed. 0 also means the peer closed. 1 means the parse of the window made progress, as stated by Progressed. The window then holds exactly the unparsed bytes, so a next call goes on from there. |
| Properties.LineIncomplete | http.c:300-303 | Before the body, a window without a whole line is left as it is. |
| Properties.LineWithoutColon | http.c:339-341 | A header line without ':' is ignored. |
| Properties.HeaderLine | http.c:339-358 | For any line of the shape blanks, name, text before the first ':', ':', blanks, value, rest: the blank runs are skipped, and the name and value are cut at their first delimiter or NUL, so the text after each token does not count. Reading then decides as follows. Transfer-Encoding with value chunked, in any case, sets chunk to 0. Otherwise Content-Length, in any case, sets header.length to `atoi` of the value. Any other line changes nothing. |
| Examples.CompactLengthLine | http.c:348-357 | "Content-Length:5", with no blank after the ':', sets header.length to 5. |
| Examples.SpacedChunkedLine | http.c:345-355 | "  Transfer-Encoding :\tChunked" sets chunk to 0: the blanks around the name and after the ':' are skipped, and the case of the value does not matter. |
| Examples.ListedCodingLine | http.c:348-355 | "Transfer-Encoding: gzip, chunked" changes nothing: the value is cut at its first blank, so it reads as "gzip,". |
| Properties.ChunkedLine | http.c:352-355 | "Transfer-Encoding: chunked" sets chunk to 0. |
| Properties.ContentLengthLine | http.c:356-357 | "Content-Length: n" sets header.length to n. |
| Properties.HeadersStop | http.c:319-361 | While the headers go on, the loop stops just past an LF, and no LF is left in the window. |
| Properties.MessageStop | http.c:300-361 | Before the body, a parse stops at the start of the window or just past an LF. No whole line is left unread. |
| Properties.ContentPlain | http.c:264-276 | A body that is not chunked is delivered whole, window by window, and nothing is cut. |
| Properties.ContentStalls | http.c:228-233 | On a non-empty window, the body parse consumes nothing exactly when it waits for the rest of a chunk-size line. |
| Properties.ContentInChunk | http.c:203-276 | Inside a chunk, the parse takes the branch at http.c:206-226 when the chunk ends in the window and the one at http.c:264-276 otherwise, never the size-line branch. It consumes the chunk's bytes that the window holds. The fragment is the payload among them, without any byte of the CRLF. This holds for the corrected cut, including a window that holds only the LF. The code as written breaks it there (see Findings). |
| Properties.ChunkDataPayload | http.c:244-262 | After a size line, the same: the chunk's bytes in the window are consumed, and the payload among them is delivered. |
| Properties.SizeLineIncomplete | http.c:230-233 | A chunk-size line without its LF is left for the next call. |
| Properties.SizeLine | http.c:235-262 | A whole size line of n expects n + 2 bytes. The fragment starts after the line and is the payload the window holds. |
| Properties.SizeLineOfHex | http.c:230-239 | A size line written in hexadecimal with its CRLF is found and read back as the size. |
| Properties.PlainStream | http.c:264-276 | A body that is not chunked, received as any sequence of windows, is delivered byte for byte: the fragments concatenated are the received bytes. |
| Properties.PlainTotal | http.c:264-276 | For a body that is not chunked, the fragment lengths of the calls, which http.c:414 adds to total one call at a time, sum to the number of body bytes received. The body parse leaves header.length as the headers set it. |
| Properties.PayloadInSplit | http.c:206-226 | Splitting a window into two splits its payload the same way, and the second part holds payload only after the first has all of its bytes. |
| Properties.ChunkStep | http.c:264-276 | The first window inside a chunk, when the chunk fills it (so the test at http.c:203 fails), delivers its payload, and the chunk shrinks by the window's size. This holds for the corrected cut. |
| Properties.ChunkStream | http.c:264-276 | Inside a chunk, any sequence of non-empty windows within it (each failing the test at http.c:203) delivers, concatenated, exactly the payload among the received bytes. So no byte of the CRLF is delivered, however the reads split the chunk. This holds for the corrected cut. |
| Properties.WholeChunk | http.c:206-276 | A chunk received to its end in any split delivers exactly its payload, and the next size line is due (chunk 0). This holds for the corrected cut. |
| Properties.CutAsWrittenDiffers | http.c:176-185 | The cut as written differs from the corrected one only for a one-byte fragment that completes its chunk. |
| Properties.LoneLFAsWritten | http.c:264-276 | The finding's input. With chunk 1 and a window holding one byte, the cut as written keeps that byte, though it is not payload. |
| Examples.WikipediaChunks | http.c:228-262 | With the body `4\r\nWiki\r\n5\r\npedia\r\n0\r\n\r\n` in one window, three calls give "Wiki", "pedia" and an empty fragment, ending at the end of the window. |
| Examples.WikipediaFirst | http.c:228-254 | The first of those calls. |
| Examples.WikipediaSecond | http.c:228-254 | The second. |
| Examples.WikipediaLast | http.c:228-262 | The third, on the zero-size chunk. |
| Examples.StatusRead | http.c:305-317 | "HTTP/1.1 200 OK" sets code 200, and parsing goes on after its LF. |
| Examples.HeadersRead | http.c:319-337 | "Content-Length: 5" then a blank line sets header.length 5 and enters the body. |
| Examples.ResponseInOneWindow | http.c:286-362 | The whole response with `Content-Length: 5` and body `hello` gives code 200, header.length 5 and the fragment "hello" in one call. The fragment's length equals header.length. |
| Examples.PartialHeaders | http.c:319-361 | A window that ends inside a header line stops just past the status line. |
| Examples.FtpStatus | http.c:306-311 | "FTP/1.1 200 OK" gives NULL. |

## Left out

- `http_connect`, `http_send`, `http_request` and `http_response` (http.c:79-169, 474-533) are not modelled. They are DNS resolution, socket connect, `send` and `select`: foreign calls around the decoder.
- `recv` is the `Socket` class: a sequence of byte strings, with an empty one for a closed peer. A failing `recv` is not told apart from a close, as `http_read` does not tell them apart either.
- The `WIN32` branches and the command-line driver in test/main.c are not modelled.
- The fields `last` and `free` of the struct (http.h:20-21) are not modelled, as the code never uses them.
- The decoder's integers are unbounded. The model leaves out C `int` overflow in `atoi`, in `sscanf("%x")`, in `chunk + 2` and in `total`.
- `sscanf("%x")` is modelled as white space, then hexadecimal digits. Its acceptance of a sign or a `0x` prefix is left out.
- The check `!bod` at http.c:292-294 is left out: `http_read` never passes NULL, and `Decoder.Message` takes a position.
- Pointers are indices into the buffer. The parse methods are proved against the `Decoder` functions on a ghost copy of the buffer as it was when the parse began, because the C code writes NULs behind the parse position as it goes.
- `strtok`'s hidden static pointer is left out: each header line calls it afresh, and the model finds the token ends with `Span`.
- `calloc` failure in `http_parse_url` (it returns NULL) is left out.
- Http.Read: when a full buffer dropped its first half at some refill, the contract does not say which received bytes the window holds. `Http.Message.Receive` and `Http.Message.Pass` state it for one refill.
- Http.Message.Await: the same gap exists for a dropped half, because several refills can each drop a half.
- Http.Message.Await: after progress, the fragment comes from the corrected cut, through `Progressed` and `Decoder.Message`. On the lone-LF input it has length 0, where the code as written delivers the LF as a one-byte fragment.
- Http.Message.Pass: the same lone-LF difference applies to its progress case, which is tied to `Decoder.Message` through `Progressed`.
- Decoder.Cut: this is the corrected cut, not the code as written. With chunk 0 and a one-byte fragment it gives length 0, where http.c:180-184 keeps the byte. The as-written cut is `Decoder.CutAsWritten`, and the difference is the finding below.
- Decoder.Content: uses the corrected cut, so a window that holds only the pending LF of a chunk (chunk 1) gives length 0. The code as written delivers that LF as a one-byte fragment.
- Decoder.Message: uses Decoder.Content, so the same lone-LF difference applies.
- Http.Message.CutTrailingCrlf: implements the corrected cut. With chunk 0 and length 1 it sets length 0 and writes a NUL, where the code as written leaves both alone.
- Http.Message.WholeWindow: the lone-LF difference arises here, because the whole-window branch (http.c:264-276) is where the one-byte fragment is cut.
- Http.Message.ParseContent: implements Decoder.Content, so the lone-LF difference applies.
- Http.Message.ParseMessage: implements Decoder.Message, so the lone-LF difference applies.
- Http.Read: the fragment it returns comes from the corrected cut, so on the lone-LF input it returns 1 with length 0, where the code as written returns 1 with the LF as a one-byte fragment.
- Http.Message.ParseBuffered: adds the fragment length of the corrected cut to total. On the lone-LF input, the code as written adds 1.
- Properties.ChunkStep: proved for the corrected cut only. With chunk 1 and the window "\n", it gives the fragment "". The code as written (http.c:264-276, then http.c:180-184) delivers "\n".
- Properties.ChunkStream: proved for the corrected cut only, so the same lone-LF difference applies to its last window.
- Properties.WholeChunk: proved for the corrected cut only. When the last window holds only the LF, the code as written delivers that LF after the payload.
- Properties.ContentInChunk: proved for the corrected cut only. The code as written breaks it on the lone-LF input, as `Properties.LoneLFAsWritten` shows.
- Examples.ResponseInOneWindow: states the parse result, not the `total` field of a `Message`. That the total then equals header.length follows from `Http.Message.ParseBuffered` adding the fragment length to a total of 0, but no lemma states it for this response.
- The stream lemmas (`Properties.PlainStream`, `Properties.ChunkStream`) treat each window as consumed whole in a buffer of its own. A chunked body read across size lines, with a size line split between reads and carried over to the next window, has no stream-level lemma. Only the per-call facts (`Properties.SizeLine`, `Properties.SizeLineIncomplete`, `Properties.ContentInChunk`) cover it.

## Findings

| source | as written | input that shows it | evidently intended | confidence | as-written member | corrected member |
|---|---|---|---|---|---|---|
| http.c:180-184 | The CRLF cut needs at least two bytes in the fragment when chunk is 0. A one-byte fragment that ends a chunk keeps its byte. | A chunked body where one window ends just after the CR of a chunk's CRLF, so chunk is 1. The next window holds only the LF. The whole-window branch makes chunk 0 and delivers a one-byte fragment: the LF. | A fragment that completes its chunk loses the part of the CRLF it holds, so this fragment is empty (length 0). | not executed | Decoder.CutAsWritten, shown by Properties.LoneLFAsWritten and Properties.CutAsWrittenDiffers | Decoder.Cut, with Properties.ContentInChunk and Properties.ChunkStream: the fragment is always the payload among the chunk's bytes in the window, and a chunk read in any split delivers exactly its payload |
