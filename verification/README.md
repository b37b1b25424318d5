# Tiny web server: request decision and response text

A Dafny model of the pure decision logic of `tiny.c`, an iterative HTTP/1.0
server that answers one GET request per connection. The request is answered
with a static file or with the output of a CGI program. The model covers:

- **URI resolution** (`parse_uri`), in module `Uri`. A URI that contains
  `cgi-bin` anywhere is dynamic. It is split at its first `?` into the
  program path and the argument string that becomes `QUERY_STRING`
  (section 4.1.7 of RFC 3875). Any other URI is static: it is prefixed with
  `.`, and `home.html` is appended when it ends in `/`. No `..` segment is
  interpreted.
- **Content-type classification** (`get_file_type`), in module `Mime`. This
  is a first-match substring test over `.html`, `.gif`, `.png` and `.jpg`,
  with `text/plain` as the fallback.
- **The decision of `serve_client`**, in module `Server`. It takes the
  request-line tokens and an abstract file system (a map from path to the
  `stat` fields consulted). The result is one of: no request, 501, 404,
  403 "couldn't read", 403 "couldn't run", serve static, or serve dynamic.
  The result also records the order of effects: the header lines are read,
  then the target path is stat'ed.
- **The text written back**, in module `Http`: the static header block, the
  two-line partial header of dynamic content, and the error response with
  its HTML body. The status line follows section 6.1 of RFC 1945. A reader
  for the message head is the partner of these writers: for every writer it
  is proved that the reader recovers exactly the intended lines and
  remainder. For error responses, the Content-Length read back equals the
  length of the body that follows.
- **C library behaviour** the decision depends on, in module `Text`.
  `strstr` and `index` are first-occurrence search. `strcasecmp` is ASCII
  case folding. `%d` and `%zu` are decimal numerals. Printing and reading
  back are proved inverse in both directions, for negative values too: every
  integer reads back as itself, and every canonical signed numeral is the
  printing of its value. `st_size` is passed to `serve_static` as an `int`,
  which is a 32-bit two's-complement truncation.

One Dafny `char` stands for one byte of a C string. `strlen` counts bytes,
so the `Content-Length` of an error response is `|body|`, the number of
`char`s in the body. A URI holding multi-byte characters arrives here
already as its bytes.

Modelled as written:

- `serve_static` receives `st_size` as a C `int`. For a file of 2 GiB or
  more, the printed `Content-length` is therefore the truncated and possibly
  negative value (`Text.ToInt32`, `Http.StaticContentLength`).
- The error body's `"<body bgcolor=""ffffff"">"` is three adjacent C string
  literals. The emitted text is `<body bgcolor=ffffff>`, with no quotes.
- `S_IRUSR` and `S_IXUSR` are the owner's permission bits. They do not say
  whether the server process itself may read or execute the file.
  `FileInfo.userReadable` and `FileInfo.userExecutable` are these bits.
- The static branch of `parse_uri` reads the URI's last character, so a
  GET request needs a non-empty URI. That is the precondition
  `Server.Parsable`. For a non-GET method the URI is never looked at.
- `read_requestheaders` leaves its loop only when the buffer holds the bare
  CRLF. If the input ends first, the loop never exits (see "## Findings").
  `Server.HeaderLoop` is the loop as written. `Server.SkipHeaders` is the
  corrected reading, which stops at the end of input.

## Model

| member | source | states |
|---|---|---|
| Text.Find | tiny.c:154 | `strstr` returns the first position where the pattern occurs, and NULL exactly when it occurs nowhere |
| Text.FindCharIsIndex | tiny.c:163 | `index(s, c)` finds the first position holding `c`; no earlier position holds it; it fails exactly when `c` is absent |
| Text.NatToDecimal | tiny.c:276 | `%zu` prints a non-empty digit string without leading zeros |
| Text.DecimalRoundTrip | tiny.c:276 | reading back a printed length gives the length |
| Text.NumeralRoundTrip | tiny.c:192 | every canonical numeral is the printing of its value, so printing is a bijection onto canonical numerals |
| Text.IntToDecimal | tiny.c:192 | `%d` prints a canonical signed numeral: a leading `-` exactly for negative values, no leading zeros, no `-0` |
| Text.SignedNumeralRoundTrip | tiny.c:192 | every canonical signed numeral reads as a value whose `%d` printing is that numeral, so printing is a bijection onto them |
| Text.CaseFoldEquality | tiny.c:95 | `strcasecmp(a, b) == 0` holds exactly when the strings are equal after `tolower` of every character |
| Text.IntRoundTrip | tiny.c:192 | `%d` of any int, negative ones included, reads back as that int |
| Text.ToInt32 | tiny.c:116 | the `off_t` size passed as `int` is the unique 32-bit value congruent to it mod 2^32; sizes that fit are unchanged |
| Uri.ParseUri | tiny.c:149-174 | static exactly when the URI lacks `cgi-bin`; static targets have no CGI arguments; every filename starts with `.` |
| Uri.StaticResolution | tiny.c:154-160 | a static filename is `.` plus the URI, then `home.html` exactly when the URI ends in `/`, and nothing else |
| Uri.DynamicWithQuery | tiny.c:162-172 | with a `?`, `.` plus the URI equals filename, `?`, arguments; the filename has no `?`, so the split is at the first `?` |
| Uri.DynamicWithoutQuery | tiny.c:168-172 | without a `?`, the filename is `.` plus the whole URI and the arguments are empty |
| Uri.DynamicSplitUnique | tiny.c:163-171 | any `?`-free path and argument string that reassemble to the URI are the ones produced |
| Uri.NoNormalisation | tiny.c:156-157 | `/../etc/passwd` resolves to `./../etc/passwd`: no `..` handling |
| Uri.RootResolvesToHome | tiny.c:158-159 | `/` resolves to `./home.html` with no arguments |
| Uri.AdderResolution | tiny.c:163-171 | `/cgi-bin/adder?15&20` resolves to program `./cgi-bin/adder` with arguments `15&20` |
| Mime.FileType | tiny.c:214-227 | the type is always one of the five strings |
| Mime.FirstMatch | tiny.c:217-226 | returns the first table entry whose extension occurs in the name; none earlier occurs |
| Mime.FileTypeIsLookup | tiny.c:217-226 | the if-chain equals first-match lookup over the ordered table `.html`, `.gif`, `.png`, `.jpg` |
| Mime.FileTypeCharacterised | tiny.c:217-226 | each type is returned exactly when its extension occurs and no earlier one does; `text/plain` exactly when none occurs |
| Mime.NotASuffixTest | tiny.c:217-218 | `./a.html.png` is `text/html`: the test is by substring, in priority order |
| Http.StaticHeader | tiny.c:186-195 | the text the `strcat` calls build is the five header lines, each ended by CRLF, then the empty line |
| Http.StaticHeaderLines | tiny.c:186-195 | the static header reads back as exactly the status, Server, Connection, Content-length and Content-type lines in order, then the empty line and nothing more |
| Http.StaticStartsWithStatus | tiny.c:188 | the static header opens with the status line `HTTP/1.0 200 OK` |
| Http.StaticContentLength | tiny.c:192-193 | a client reading the Content-Length field (any case) gets the size passed in |
| Http.StaticContentType | tiny.c:187-194 | a client reading the Content-Type field gets `get_file_type` of the filename |
| Http.DynamicSegments | tiny.c:238-241 | the two writes are the status line and the Server line, each one line ended by CRLF; together they are exactly those two lines |
| Http.DynamicHeadMerges | tiny.c:237-241 | the partial header is the status and Server lines with no empty line; the program's header lines continue the same head |
| Http.DynamicStartsWithStatus | tiny.c:237-241 | the partial header opens with the status line `HTTP/1.0 200 OK`, followed only by the Server line |
| Http.StatusLineRoundTrip | tiny.c:270 | a status line with a three-digit code splits back into version, code and the whole reason phrase |
| Http.ErrorBody | tiny.c:262-267 | the body is the three lines: the HTML opening, `errnum: short_msg`, `long_msg: cause`, each ended by CRLF |
| Http.ErrorBodyOpenText | tiny.c:262-263 | the opening line is `<html><title>Tiny web server Error</title><body bgcolor=ffffff>`, with no quotes around the colour |
| Http.ErrorSegments | tiny.c:270-279 | the four writes are, in order, the status line, the Content-Type line, the Content-Length line (the body's length) followed by the empty line, and the body; together they are the head, the empty line and the body |
| Http.ErrorBodyLines | tiny.c:262-267 | the error body is three lines: the HTML opening, `errnum: short_msg`, `long_msg: cause` |
| Http.ErrorResponseDecodes | tiny.c:262-279 | the error response reads back as status, Content-Type and Content-Length lines, the empty line, then exactly the body |
| Http.ErrorContentLength | tiny.c:276-279 | the Content-Length read back equals the length of the body that follows |
| Http.ErrorStatus | tiny.c:270 | the error status line carries `errnum` and `short_msg` |
| Http.ErrorWritesPrefix | tiny.c:270-279 | what `client_error` attempts is a prefix of the full error response, all of it when every write succeeds, and exactly the status line when the first write fails |
| Http.Attempted | tiny.c:271-280 | writes are attempted in order up to and including the first failing one; a failure stops the rest |
| Server.Decide | tiny.c:80-126 | no request line gives a silent close; 501 exactly for non-GET methods, with the method as cause and no effects; a GET reads headers, then stats the resolved filename |
| Server.IsGet | tiny.c:95 | the method check passes exactly when the method lowers to `get` |
| Server.GetOutcomes | tiny.c:103-125 | for GET: 404 exactly when the path is absent; 403 read or 403 run exactly when the path exists but is not regular or lacks the read/execute bit; otherwise static or dynamic, by `cgi-bin` |
| Server.ServedOnlyWhenPermitted | tiny.c:104-124 | a served target exists, is regular and has the needed permission bit; every resolved outcome stats exactly its own filename |
| Server.NotImplementedIgnoresFiles | tiny.c:95-99 | the 501 answer is the same for every file system, with no header read and no stat |
| Server.OnlyTargetMatters | tiny.c:103-125 | two file systems that agree on the resolved path give the same decision |
| Server.IsGetSpellings | tiny.c:95 | `strcasecmp` accepts exactly the eight case variants of `GET` |
| Server.HeaderLoop | tiny.c:131-143 | `read_requestheaders` as written: each pass reads at most one line; the buffer is the bare CRLF only once the line just read is that CRLF; no line read earlier is one |
| Server.HeaderLoopPrefix | tiny.c:136-141 | as written, until a bare CRLF is read, pass `n` of the loop has read exactly lines 0 to `n` |
| Server.HeaderLoopSpins | tiny.c:138-141 | as written, when no line is the bare CRLF, the loop test never fails, whether the reader leaves the buffer unchanged or empties it at end of input |
| Server.UnterminatedHeadersSpin | tiny.c:136-141 | one header line and then end of input: the loop never exits, whether the reader leaves the buffer unchanged or empties it at end of input |
| Server.SkipHeaders | tiny.c:131-143 | consumes lines up to and including the first bare CRLF, exactly the lines the C loop consumes; stops at the end of input, where the C loop does not |
| Server.ErrorOf | tiny.c:95-121 | each error outcome calls `client_error` with the method (501) or the filename as cause, code 501 exactly for a refused method, 404 exactly for a missing file, 403 exactly for the two permission failures; the code is three digits and the reason has no CR |
| Server.Reply | tiny.c:95-125 | no request writes nothing and every other outcome writes something; an error outcome makes the four writes of `client_error` |
| Server.ReplyStatusLine | tiny.c:95-125 | every answer starts with a status line carrying the outcome's code and reason (501, 404, 403, 200), whatever follows |
| Server.ErrorReplyComplete | tiny.c:96-121 | each of the four error answers is a complete message whose Content-Length matches its body |
| Server.IndexScenario | tiny.c:103-116 | `GET /index.html` of a readable 42-byte file is served statically as `./index.html` with size 42 |
| Server.IndexHeaderScenario | tiny.c:186-195 | its header lines include `Content-length: 42` and `Content-type: text/html` |
| Server.AdderScenario | tiny.c:103-124 | `GET /cgi-bin/adder?15&20` with an executable adder runs it with arguments `15&20` |
| Server.MethodScenarios | tiny.c:95-99 | `post` is refused with 501; lower-case `get` is accepted |

## Left out

- The accept loop, `open_listenfd`, `getnameinfo` and the logging in `main` (tiny.c:50-74). This is network plumbing with no decision in it.
- The line reader and writer (`sio_*`). Their library is not part of this model. Header reading is modelled only as which lines are consumed. What the reader leaves in the buffer at end of input is a parameter (`Server.EofRead`: unchanged or emptied), and the buffer before the first read is taken to be empty.
- The echo of the request line and header lines to standard output (tiny.c:93, 137, 140) and the header log in `serve_static` (tiny.c:199-200). These are logging with no effect on the answer.
- `Server.Decide` records that the headers are read (`ReadHeaders`) but does not take the header lines. It assumes they contain a bare CRLF. Without one the loop at tiny.c:138-141 never exits and nothing is answered (`Server.HeaderLoopSpins`). The lines the program reads are modelled by `Server.HeaderLoop`.
- The `sscanf` split of the request line (tiny.c:94). Method, URI and version arrive as tokens. With fewer than three tokens the C code reads uninitialised buffers, which has no defined result.
- `open`, `mmap` and the transfer of the file body (tiny.c:203-207). The unchecked failure when the file vanishes between `stat` and `open` has no defined result either.
- `fork`, `setenv`, `dup2`, `execve` and `wait` (tiny.c:243-249). This is process management. The `QUERY_STRING` value is the `cgiargs` of `ServeDynamic`.
- The `MAX_LINE` and `MAX_BUF` capacities (tiny.c:21-22). Overflowing them is undefined behaviour, not a specified limit. Strings are unbounded.
- Http.Attempted: does not say how many bytes of the failing write reached the client, because that depends on the writer.
- Server.Decide: its own contract states the effect order and the 501 and no-request cases only. The permission outcomes are stated in full by Server.GetOutcomes and Server.ServedOnlyWhenPermitted.
- Uri.ParseUri: its own contract states the static/dynamic classification and the `.` prefix only. The exact filename and argument strings are stated by Uri.StaticResolution, Uri.DynamicWithQuery and Uri.DynamicWithoutQuery.
- Server.SkipHeaders: returns at end of input with `ended` false, where the C loop (tiny.c:138-141) never exits. This is the corrected behaviour. The loop as written is `Server.HeaderLoop`, whose non-termination `Server.HeaderLoopSpins` states.

## Findings

| source | as written | input that shows it | evidently intended | confidence | as-written member | corrected member |
|---|---|---|---|---|---|---|
| tiny.c:136-141 | the header loop exits only when the buffer equals `"\r\n"`; the result of `sio_read_line` is not checked | the request line, `Host: a\r\n`, then end of input: the buffer is never `"\r\n"`, so the single-threaded server spins for ever | stop reading headers when the reader reports end of input | high for any reader that does not write `"\r\n"` at end of input; not executed | Server.UnterminatedHeadersSpin | Server.SkipHeaders |
