# WorkHorz: the request path, the codecs and the layouts, in Dafny

This project models two parts of the WorkHorz web server.

**The request path.** A connection reads bytes into a fixed buffer of 8192 bytes and hands the whole
buffer to a resumable parser of 20 states. The parser fills a request record. A decided request is
answered once: the handler decodes the uri, checks the path, reads a file in chunks of 512 bytes and
frames the reply; a rejected request gets the 400 page. The reply is sent as a list of buffers.

**Codecs and layouts.** The percent decoder, the Base64 encoder, the two rasterisers of the QR
generator, the memory image of the template cache, the UTF-8 sanitiser and the round-robin pool.

Objects that the C++ code updates in place are classes (`Request`, `Reply`, `Parser`, `Handler`,
`FileStream`, `Connection`, `Cache`, `Pool`); their methods follow the code branch by branch and are
proved equal to a function on values. The theorems are about those functions.

A C++ `char` is a Dafny `char` whose code is the byte value; the statements hold for all strings, so
in particular for all byte strings. Where `char` is signed the classifiers see negative numbers for
bytes of 128 and more; `SignednessIrrelevant` shows that this changes no answer. Those bytes are
neither "char" nor "ctl": they are legal in a uri or a value, not in a method or a name. The version
fields are bytes and wrap. The version fields of a new request and the status of a new reply are not
initialised, so they are arbitrary in every statement.

## How the pieces fit

- `RequestParser` holds the machine; `Next` is its control and `Store` its effect on the record.
- `Grammar` writes the accepted language as pieces of text (method, uri, digit runs, header lines
  with any number of continuations) and shows that each accepted byte adds exactly itself to the text
  of the pieces. `Acceptance` concludes that the parser accepts exactly that language, stores exactly
  the meaning of the text, and that no text has two divisions into pieces.
- `NormalForm` prints requests and parses them back. `Liveness` measures how far each state is from
  acceptance.
- `Connections` is the event loop of one connection as a state machine over read completions.
- `EndToEnd` joins parser, decoder, handler, reply printer and connection in one statement.
- `Shortfalls` has concrete inputs on which the server fails.

Whatever code and specification share, so that no comparison of the two could find it wrong, is fixed
in plain values by a lemma of its own: the bytes each parser state takes (`NameBytesExactly`,
`UriAndValueBytesExactly`, `VersionBytesExactly`), the guard and the file name of the handler
(`RefusedExactly`, `AnsweredExactly`), the hex digits (`HexDigitsExactly`, `PairValueExactly`), the
phrases and pages (`PageOfCode`, `OnTheWire`), the grey values (`PixelExactly`), the escaped characters
and the syntax of UTF-8 (`ControlsEscapedExactly`, `ValidExactly`), the template files and the layout of
the image (`LookupAfterReload`, `LayoutPush`).

## Where the code does less than its design

`connection::do_read` ignores the number of bytes transferred and parses the whole buffer, so the
connection does not always do what the received bytes ask for.

- `AnyRunExact` gives the exact condition for reads of any number and sizes: padding each read with the bytes that are
  behind it in the buffer changes neither the verdict on the received bytes nor the reply of the
  handler. Effect, parser state and record are all right exactly when it also changes neither of the
  last two. `StaleBytesExact` is the same for one read from any session, with the stale bytes named.
- `FullReadsExact` is its form for runs in which only the last read may be short: the received bytes
  decide the request, or the parser finds nothing to decide in the bytes of the read before that
  still lie behind them.
- `ShortFirstRead`: from a new connection, a run whose first read neither fills the buffer nor decides
  is always refused, so it is right exactly when the received bytes are malformed. `FirstReadExact` is
  the case of a single read.
- `SplitRequest` is a family of inputs that fail: every well-formed request cut in two is refused
  unless its first part fills the buffer.
- An undecided read can also look right and still leave the parser in a wrong state, in which a later
  read is decided wrongly: `Shortfalls.StaleBytesBecomeName` has a malformed request that reaches the
  handler and a well-formed one that is refused. `Shortfalls` has a concrete input for each failure.

The handler checks a decoded path but opens a C string. `OpensCheckedPathExactly` says when the opened
name is the checked path: exactly when neither root nor path holds a zero byte. `ZeroByteCutsName` is
the other case: what follows the zero byte is ignored, be it an extension or the slash that asks for
index.html. `Shortfalls.ZeroByteServesOther` is one such uri.

## Model

| member | source | states |
|---|---|---|
| Text.SignednessIrrelevant | src/whz_request_parser.cpp:189-226 | The byte classes of bytes 128 to 255 are the same whether `char` is signed or not |
| Text.NumberOfDecimal | src/whz_common.cpp:18 | A printed length, read as a decimal number, is the length, with no leading zero |
| RequestParser.Parser.constructor | src/whz_request_parser.cpp:4 | A new parser stands at the start of the method |
| RequestParser.Parser.Reset | src/whz_request_parser.cpp:6-8 | Reset returns to the start of the method from any state |
| RequestParser.Parser.Consume | src/whz_request_parser.cpp:10-187 | One byte: verdict, next state and record are those of the machine in all 20 states, and `headers.back()` is only used when a header exists |
| RequestParser.NameBytesExactly | src/whz_request_parser.cpp:10-226 | Methods and header names take exactly the letters, digits and 15 signs spelled out, and end at a space or a colon; so do the bytes that may begin a header line |
| RequestParser.UriAndValueBytesExactly | src/whz_request_parser.cpp:24-174 | A uri takes exactly the bytes of 0x20 and more but 0x7F, a value also ends at a carriage return, and only the blanks before a continuation may hold a tab |
| RequestParser.VersionBytesExactly | src/whz_request_parser.cpp:76-117 | The version numbers take exactly the ten digits, and end at a dot and at a carriage return |
| RequestParser.Parser.ParseRange | src/whz_request_parser.hpp:20-29 | The loop gives the verdict, state, record and iterator position of the machine on the input |
| RequestParser.ParseConcat | src/whz_request_parser.hpp:20-29 | Input a then b is a, resumed with b only if a decided nothing; bytes after the decision have no influence |
| RequestParser.ChunkInvariance | src/whz_request_parser.hpp:20-29 | Every way of cutting the input into pieces gives the same verdict, state, record and total consumed |
| RequestParser.StopsAtFirstDecidingByte | src/whz_request_parser.hpp:20-29 | All shorter prefixes are undecided, and any other tail gives the same outcome |
| Grammar.GrowAppends | src/whz_request_parser.cpp:11-183 | In every state the accepted byte is exactly what the text of the collected pieces gains |
| Grammar.GrowShaped | src/whz_request_parser.cpp:11-183 | In every state the accepted byte keeps the collected pieces well formed |
| Grammar.GrowStores | src/whz_request_parser.cpp:11-183 | In every state the record keeps holding the meaning of the pieces, versions modulo 256, values without line ends and leading blanks of continuations |
| Acceptance.Soundness | src/whz_request_parser.cpp:10-187 | Whatever a fresh parser accepts is a text of the grammar up to the iterator, and the record is its meaning |
| Acceptance.Completeness | src/whz_request_parser.cpp:10-187 | Every text of the grammar is accepted at exactly its last byte with its own meaning, whatever the uninitialised fields held |
| Acceptance.AcceptsExactlyTheGrammar | src/whz_request_parser.cpp:10-187 | An input is accepted with a record if and only if it is a text of the grammar with that meaning |
| Acceptance.Unambiguous | src/whz_request_parser.cpp:10-187 | A text has only one division into method, uri, digits, header lines and continuations |
| Acceptance.PrefixFree | src/whz_request_parser.hpp:20-29 | No accepted input is a proper prefix of another |
| Acceptance.VersionExact | src/whz_request_parser.cpp:68-112 | For digit runs of any length the stored version is the number in the text if and only if it is at most 255 |
| NormalForm.ParseOfPrint | src/whz_request_parser.cpp:10-187 | Printing any well-formed request and parsing gives it back, decided at exactly the last byte |
| NormalForm.Reprint | src/whz_request_parser.cpp:135-187 | Any accepted request, however folded, is unchanged by printing and parsing again |
| NormalForm.ProducedExactlyWellFormed | src/whz_request_parser.cpp:10-187 | A record is produced by some accepted input if and only if it is well formed |
| NormalForm.EveryRunStaysSane | src/whz_request_parser.cpp:12-181 | After any bytes, also rejected ones: tokens in method and non-empty names, no control byte or space in the uri, no control byte in values, no more stored than consumed |
| Liveness.NoShorterWay | src/whz_request_parser.cpp:10-187 | From each state acceptance takes at least the distance of that state in bytes |
| Liveness.AlwaysCompletable | src/whz_request_parser.cpp:10-187 | From every state, whatever was stored, some input of exactly that length is accepted |
| Liveness.ShortestRequest | src/whz_request_parser.cpp:10-187 | No request has fewer than 15 bytes, and one has 15 |
| Liveness.ZeroByteDecides | src/whz_request_parser.cpp:10-187 | A zero byte is rejected in all 20 states, so an input with one is never undecided |
| UrlCodec.UrlDecode | src/whz_utils.hpp:19-43 | The index loop computes the decoding of the whole input, or fails with it |
| UrlCodec.HexDigitsExactly | src/whz_utils.hpp:28 | Exactly the digits 0-9, a-f and A-F are hex digits, each with its value |
| UrlCodec.PairValueExactly | src/whz_utils.hpp:28 | Two hex digits in either case are read as a number of base 16, the first one higher |
| UrlCodec.DecodeConcat | src/whz_utils.hpp:22-41 | Decoding distributes over every cut that is not inside an escape |
| UrlCodec.TruncatedEscapeFails | src/whz_utils.hpp:24-35 | A '%' with fewer than two bytes after it makes the whole decode fail, wherever it stands |
| UrlCodec.DecodeUndoesEncode | src/whz_utils.hpp:19-43 | Decoding undoes every encoder, for any choice per byte of literal, escape in either case, or '+' for a space |
| UrlCodec.DecodeExactlyInvertsEncoders | src/whz_utils.hpp:19-43 | For inputs whose escapes are hex pairs, decoding gives s if and only if some encoder writes s as the input |
| Replies.ToBuffers | src/whz_common.cpp:24-37 | The buffers in order are status line, header lines, blank line and body |
| Replies.ReadStatusLine | src/whz_common.cpp:59-96 | The status line read back is the code if it has a name, else 500 |
| Replies.ReadsBackExactly | src/whz_common.cpp:24-37 | A reader of status line, header lines and blank line recovers the reply if and only if the status has a name and no header name has a ':' or line end and no value a line end |
| Replies.StockReplyReadsBack | src/whz_common.cpp:12-22 | Every stock reply with a named status survives the wire with a correct Content-Length |
| Replies.PageOfCode | src/whz_common.cpp:98-242 | Every named code has the phrase of RFC 1945 in its status line and in the title of its page; the heading is the status text but for 204 and 404; the page of 200 is empty |
| Replies.HeadingExactly | src/whz_common.cpp:98-242 | The number in the heading of a page is its code if and only if the code is not 404, whose page says 200; the heading is the status text if and only if the code is neither 204 nor 404 |
| Replies.OtherCodes | src/whz_common.cpp:92-95 | A status without a name has the status text and the page of 500 |
| Replies.OnTheWire | src/whz_common.cpp:12-37 | The bytes of every stock or file reply: version, status text, Content-Length in decimal, Content-Type text/html, blank line, body |
| RequestHandler.FileStream.Read | src/whz_request_handler.cpp:43-44 | A chunk is the next part of the file; a short chunk is the last, and after it no more comes |
| RequestHandler.Handler.HandleRequest | src/whz_request_handler.cpp:10-53 | The reply record is the specified one on all four paths; the read loop ends with the whole file appended |
| RequestHandler.FramedAndReadable | src/whz_request_handler.cpp:13-52 | On every path, whatever the record held before, Content-Length is the length of the body, Content-Type is text/html and the reply reads back from the wire; starting empty, the body is the file |
| RequestHandler.RefusedExactly | src/whz_request_handler.cpp:11-24 | A request gets 400 if and only if its uri does not decode, or decodes to a path that is empty, does not start with '/' or has two dots in a row |
| RequestHandler.AnsweredExactly | src/whz_request_handler.cpp:26-52 | Any other path names root + path, with index.html behind a trailing '/', up to the first zero byte: 200 with that file's bytes appended if it exists, else 404 |
| RequestHandler.ServedBelowRoot | src/whz_request_handler.cpp:18-34 | Every opened name, whether the file exists or not, is the root plus a path that starts with '/', has no two dots in a row even with index.html appended, has no component "..", and never leads above the root |
| RequestHandler.ComponentsJoin | src/whz_request_handler.cpp:20-28 | The components walked are the division of the path at every slash and nowhere else |
| RequestHandler.EncodingDoesNotMatter | src/whz_request_handler.cpp:11-52 | However a path is percent-encoded, zero bytes included, the answer is the same: the file with the opened name, 404 or 400 |
| RequestHandler.OpensCheckedPathExactly | src/whz_request_handler.cpp:20-34 | The opened name is the checked path below the root if and only if neither holds a zero byte |
| RequestHandler.ZeroByteCutsName | src/whz_request_handler.cpp:20-44 | A checked path with a zero byte serves the file named by what precedes it, whatever follows |
| Connections.Connection.constructor | src/whz_connection.hpp:34-38 | A new connection has a buffer of 8192 zero bytes, a fresh parser and record, and has sent nothing |
| Connections.Connection.Complete | src/whz_connection.cpp:22-40 | A read completion overwrites the front of the buffer, parses all of it, and answers or reads again |
| Connections.Connection.Write | src/whz_connection.cpp:43-51 | One write sends the bytes of the reply, and no read follows |
| Connections.Connection.Serve | src/whz_connection.cpp:13-51 | The event loop takes the object through exactly the run of the state machine |
| Connections.RunFollowsVerdict | src/whz_connection.cpp:17-51 | Over every run the effect is the one for the verdict on the bytes that were fed; a failed read ends it silently |
| Connections.RepliesOnce | src/whz_connection.cpp:17-51 | At most one reply, exactly when the parser decided; at most one handler call, exactly on `good`; what was sent reads back as that reply |
| Connections.RunConcat | src/whz_connection.cpp:30-38 | After the answer or a failed read, further completions change nothing |
| Connections.AnyRun | src/whz_connection.cpp:17-40 | Whatever the sizes of the reads, effect, parser state, record and buffer are those the received bytes lead to when each read is padded with what is behind it in the buffer |
| Connections.AnyRunExact | src/whz_connection.cpp:17-40 | For reads of any number and sizes, the connection does what the received bytes ask for if and only if the padding changes neither verdict nor reply, and also ends in the right parser state with the right record if and only if it changes neither of these |
| Connections.FailedReadDrops | src/whz_connection.cpp:20-40 | While the bytes fed decide nothing the connection goes on reading, and a failed read ends it with nothing sent; once they decide, nothing changes any more |
| Connections.FullReadsExact | src/whz_connection.cpp:17-40 | For every run in which only the last read may be short, the connection does what the received bytes ask for if and only if they decide, or the stale bytes of the read before decide nothing |
| Connections.FullRun | src/whz_connection.cpp:17-40 | After reads that all fill the buffer, effect, parser state, record and buffer are those of the received bytes |
| Connections.FullReadsRefine | src/whz_connection.cpp:17-40 | In particular the connection does what the received bytes ask for when they decide or the last read fills the buffer too |
| Connections.DecidedRead | src/whz_connection.cpp:22-40 | A read whose bytes decide the request, or that fills the buffer, has the effect and the parser state of the received bytes alone |
| Connections.StaleBytesExact | src/whz_connection.cpp:22-40 | For any read, the connection does what the received bytes ask for if and only if they decide or the stale bytes behind them decide nothing; parser state and record are right too if and only if the stale bytes also change neither |
| Connections.FirstReadExact | src/whz_connection.cpp:20-40 | For the first read, if and only if the read filled the buffer or its bytes decide; otherwise the 400 page is sent |
| Connections.ShortFirstRead | src/whz_connection.cpp:17-40 | A run of any number of reads whose first is short and undecided sends the 400 page, and does what the received bytes ask for if and only if they are malformed |
| Connections.SplitRequest | src/whz_connection.cpp:20-40 | A well-formed request in two reads reaches the handler if and only if the first part fills the 8192 bytes of the buffer |
| Shortfalls.CutRequestRefused | src/whz_connection.cpp:20-40 | "GET / HTTP/1.0" reaches the handler in one read and is refused when cut after the method |
| Shortfalls.StaleBytesRefuse | src/whz_connection.cpp:20-40 | After a first read that fills the buffer with a long uri, the space that ends the uri is refused because of the stale bytes |
| Shortfalls.StaleBytesBecomeName | src/whz_connection.cpp:20-40 | After an undecided second read that looks right, stale bytes have become a header name: a malformed third read reaches the handler, and the empty line that completes a request is refused |
| Shortfalls.ZeroByteServesOther | src/whz_request_handler.cpp:20-44 | The uri "/a%00.h" decodes to a servable path with an extension, and serves the file "/a" |
| EndToEnd.ClientReadsFile | src/whz_connection.cpp:17-51 | A client that sends any acceptable request for an encoded path, folded in any way, of any size and with anything after it, in reads that fill the buffer except for the last, gets back the exact file with the opened name, or 404, or 400 |
| Base64.Base64Encode | src/whz_qrcode_generator.hpp:202-218 | The shift-and-mask loop computes the encoding that RFC 4648 section 4 defines by regrouping the bit string in sixes |
| Base64.GroupsOfThree | src/whz_qrcode_generator.hpp:208-215 | Shifting and masking the 24-bit value gives the four six-bit groups of three bytes |
| Base64Decoding.IndexOfLetter | src/whz_qrcode_generator.hpp:203 | The 64 letters are, in order, A-Z, a-z, 0-9, '+' and '/', by the index that RFC 4648 gives each |
| Base64Decoding.OutputShape | src/whz_qrcode_generator.hpp:205-216 | The output has 4 * ceil(len / 3) characters; '=' stands exactly in the last 0, 1 or 2 as len mod 3 fixes; all others are letters |
| Base64Decoding.DecodingInvertsEncoding | src/whz_qrcode_generator.hpp:202-218 | A reference decoder returns the input for every byte sequence |
| QrRaster.DrawRow | src/whz_qrcode_generator.hpp:92-99 | The refilled row buffer holds the pixels of that image row |
| QrRaster.PixelExactly | src/whz_qrcode_generator.hpp:89-97 | A pixel is 0 if it lies in the square of a dark module, from border + x * scale on and scale wide, and 255 otherwise |
| QrRaster.WritePng | src/whz_qrcode_generator.hpp:84-101 | The rows handed over are all the rows of the image, in order: 0 on the squares of dark modules, 255 elsewhere |
| QrRaster.CellOfIndex | src/whz_qrcode_generator.hpp:148 | Every computed index lies inside the image and names its own module and offset again, so distinct ones hit distinct cells |
| QrRaster.EncodeImage | src/whz_qrcode_generator.hpp:139-154 | The module-driven loops blacken exactly the cells of dark modules |
| QrRaster.ImageRow | src/whz_qrcode_generator.hpp:183-185 | Each row of the flat image is black exactly where a dark module exists at the scaled place |
| QrRaster.ImageExactly | src/whz_qrcode_generator.hpp:137-154 | Each place of the flat image is 0 on the squares of dark modules and 255 elsewhere |
| QrRaster.RasterisersAgree | src/whz_qrcode_generator.hpp:84-154 | Both rasterisers give the same image, row by row, for every matrix, scale and border |
| QrRaster.EncodeBase64Rows | src/whz_qrcode_generator.hpp:139-185 | The module-driven writer hands over all rows of the image, in order, each a slice of the flat buffer: 0 on the squares of dark modules, 255 elsewhere |
| QrRaster.DrawBoth | src/whz_qrcode_generator.hpp:84-185 | The same of the code: both writers hand over the same rows, the slices of the flat image, and its black pixels number scale * scale times the dark modules |
| QrRaster.BlackPixelCount | src/whz_qrcode_generator.hpp:142-154 | The number of black pixels is scale * scale times the number of dark modules |
| TemplateCache.CopyWithZero | src/whz_templateCache.cpp:47-50 | A copied string and its zero byte change nothing before or behind them |
| TemplateCache.LayoutPush | src/whz_templateCache.cpp:45-51 | Each template adds its path, a zero byte, its content and a zero byte, in this order, behind the templates before it |
| TemplateCache.Cache.MemoryMapTemplates | src/whz_templateCache.cpp:23-51 | The write pass fills exactly the bytes the size pass counted, every copy in bounds, with the layout of all templates |
| TemplateCache.ImageReadsBackExactly | src/whz_templateCache.cpp:45-51 | Splitting the image at zero bytes recovers the templates if and only if none contains a zero byte |
| TemplateCache.Cache.LoadTemplates | src/whz_templateCache.hpp:38-51 | Loading adds exactly the readable template files of the listing |
| TemplateCache.Cache.ReloadTemplates | src/whz_templateCache.hpp:70-73 | Reloading leaves exactly the readable template files of the listing |
| TemplateCache.Cache.GetTemplate | src/whz_templateCache.hpp:58-64 | A lookup gives the content of some template with that path, or the empty string if there is none |
| TemplateCache.LookupAfterReload | src/whz_templateCache.hpp:38-73 | After a reload every readable regular file with the extension .whzt is found with its own content, and no other path is found |
| TemplateCache.Cache.ReloadThenGet | src/whz_templateCache.hpp:58-73 | The same of the object: a reload followed by a lookup returns the content of the file with that path, or the empty string |
| Sanitizer.Sanitize | src/whz_utils.hpp:47-74 | The loop renders the code points of the input, or U+FFFD for an invalid input |
| Sanitizer.DecodeOfEncode | src/whz_utils.hpp:53-61 | Encoded code points decode to themselves |
| Sanitizer.EncodeOfDecode | src/whz_utils.hpp:53-61 | Whatever decodes is the encoding of its code points |
| Sanitizer.EscapeShape | src/whz_utils.hpp:68-69 | An unprintable code point becomes a backslash, a 'u' and four hex digits of its value |
| Sanitizer.OutputPrintable | src/whz_utils.hpp:47-74 | Whatever the input, the output is valid UTF-8 of printable code points only |
| Sanitizer.UnchangedExactly | src/whz_utils.hpp:64-71 | The output is the input if and only if the input is valid UTF-8 of printable code points only |
| Sanitizer.ControlsEscapedExactly | src/whz_utils.hpp:49-71 | Of all characters exactly those below U+0020 and from U+007F to U+009F are escaped; every other one is kept |
| Sanitizer.ValidExactly | src/whz_utils.hpp:56-61 | An input is decoded if and only if it follows the byte syntax of section 4 of RFC 3629; overlong forms, surrogates and values above U+10FFFF do not |
| Sanitizer.Utf8Exactly | src/whz_utils.hpp:66 | The bytes written for a character carry its value behind the marks of lead and tail bytes |
| Sanitizer.Idempotent | src/whz_utils.hpp:47-74 | Sanitising twice is sanitising once, also for invalid input |
| Sanitizer.InvalidReplaced | src/whz_utils.hpp:58-61 | An invalid input becomes the three bytes of U+FFFD |
| IoContextPool.Pool.constructor | src/whz_io_context_pool.cpp:11-24 | A pool of n different contexts whose cursor is at the first |
| IoContextPool.Pool.GetIoContext | src/whz_io_context_pool.cpp:41-48 | The j-th call returns context j mod n, which joins the log, and the cursor stays below n |
| IoContextPool.UsesExactly | src/whz_io_context_pool.cpp:41-48 | In the log of k contexts handed out, context i occurs k / n times, once more if i < k mod n |
| IoContextPool.Fair | src/whz_io_context_pool.cpp:41-48 | However often a pool was asked, the contexts it handed out differ in number by at most one |

## Left out

- UrlCodec.Decode: what the stream library makes of a pair after '%' that is not two hex digits is a parameter; only hex pairs are fixed.
- Connections.Connection.Complete: sockets, the acceptor, shared ownership and write errors; a completion is an error or a number of bytes, a write appends to what was sent.
- RequestHandler.Handler.HandleRequest: the file system is a map from names to contents that does not change; a name ends at its first zero byte, as a C string does; whether a file can be read is not modelled.
- QrRaster.EncodeImage: `int` is unbounded, so overflow of very large symbols is not modelled; negative borders and scales below 1 are outside the contracts.
- TemplateCache.Cache.GetTemplate: which of several equal keys is found is left open, as the multimap leaves it.
- TemplateCache.Cache.MemoryMapTemplates: open, ftruncate, mmap and msync and their failures, including the failure to map zero bytes; the mapped file is an array with arbitrary content.
- Sanitizer.Decode: the library codec is taken to be UTF-8 as in section 3 of RFC 3629.
- IoContextPool.Pool.constructor: a pool of size 0 ends the process and is outside the contract; running and stopping the contexts on threads is not modelled.
- The method bodies of the QR encoder itself, libpng and the temporary file: the symbol is an arbitrary boolean function. The SVG writer would add only decimal-printing facts.
- Configuration reading, logging, localization, Lua, encryption, compression, the template renderer and the vCard writer: wrappers over libraries, or plain concatenation.
- The TLS connection: it echoes bytes and never uses the parser.
- The URL router: its source is not in the build.
