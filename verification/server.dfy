/** The per-connection decision of the server (`serve_client`, tiny.c):
    what happens to one request, given the tokens of its request line and
    what `stat` reports about the path the URI resolves to; and the bytes
    the server writes for each decision, before any file contents or CGI
    output. The socket, the line reader, `sscanf`, `open`/`mmap` and
    `fork`/`execve` are outside the model: the request line arrives already
    split into its three tokens, and the file system is a map from paths to
    the `stat` fields the decision reads. */
module Server {
  import opened Text
  import Uri
  import Http
  import Mime

  /** The three tokens `sscanf("%s %s %s")` takes from the request line. */
  datatype RequestLine = RequestLine(verb: string, uri: string, version: string)

  /** The `stat` fields the server consults: S_ISREG, S_IRUSR, S_IXUSR and
      st_size. */
  datatype FileInfo = FileInfo(isRegular: bool, userReadable: bool, userExecutable: bool, size: nat)

  /** `stat(path)` succeeds exactly on the keys of the map. */
  type FileSystem = map<string, FileInfo>

  /** What the server does on the connection before it answers, in order. */
  datatype Effect = ReadHeaders | Stat(path: string)

  /** The decision taken for one connection. */
  datatype Outcome =
    | NoRequest                                   // no request line: close silently
    | NotImplemented(verb: string)                // 501
    | NotFound(filename: string)                  // 404
    | CannotRead(filename: string)                // 403, static target
    | CannotRun(filename: string)                 // 403, dynamic target
    | ServeStatic(filename: string, size: int)    // serve_static(fd, filename, st_size)
    | ServeDynamic(filename: string, cgiargs: string)

  datatype Handling = Handling(effects: seq<Effect>, outcome: Outcome)

  /** `strcasecmp(verb, "GET") == 0`. */
  predicate IsGet(verb: string): (b: bool)
    ensures b <==> Lowered(verb) == "get"
  {
    CaseFoldEquality(verb, "GET");
    LoweredGet();
    EqualsIgnoreCase(verb, "GET")
  }

  lemma LoweredGet()
    ensures Lowered("GET") == "get"
  {
    assert "GET"[1..] == "ET" && "ET"[1..] == "T" && "T"[1..] == "";
  }

  /** A GET request carries a non-empty URI: `parse_uri` reads its last
      character. (A `%s` token is never empty.) */
  predicate Parsable(line: Option<RequestLine>)
  {
    line.Some? && IsGet(line.value.verb) ==> |line.value.uri| > 0
  }

  /** `serve_client`: the method check comes first, then the header lines
      are read, the URI is resolved and its path is stat'ed once; the
      permission test depends on whether the target is static or dynamic. */
  function Decide(line: Option<RequestLine>, fs: FileSystem): (h: Handling)
    requires Parsable(line)
    ensures line.None? <==> h.outcome == NoRequest
    ensures h.outcome.NotImplemented? <==> line.Some? && !IsGet(line.value.verb)
    ensures h.outcome.NotImplemented? ==> h.outcome.verb == line.value.verb
    ensures line.Some? && IsGet(line.value.verb) ==>
      h.effects == [ReadHeaders, Stat(Uri.ParseUri(line.value.uri).filename)]
    ensures h.outcome.NoRequest? || h.outcome.NotImplemented? ==> h.effects == []
  {
    match line
    case None => Handling([], NoRequest)
    case Some(req) =>
      if !IsGet(req.verb) then Handling([], NotImplemented(req.verb))
      else
        var t := Uri.ParseUri(req.uri);
        var effects := [ReadHeaders, Stat(t.filename)];
        if t.filename !in fs then Handling(effects, NotFound(t.filename))
        else
          var info := fs[t.filename];
          if t.isStatic then
            if !info.isRegular || !info.userReadable then Handling(effects, CannotRead(t.filename))
            else Handling(effects, ServeStatic(t.filename, ToInt32(info.size)))
          else
            if !info.isRegular || !info.userExecutable then Handling(effects, CannotRun(t.filename))
            else Handling(effects, ServeDynamic(t.filename, t.cgiargs))
  }

  /** The outcome of a GET request, case by case, in terms of the URI and
      the file system: each outcome happens exactly under its condition. */
  lemma GetOutcomes(req: RequestLine, fs: FileSystem)
    requires IsGet(req.verb) && |req.uri| > 0
    ensures var t := Uri.ParseUri(req.uri);
      var o := Decide(Some(req), fs).outcome;
      var dynamic := Contains(req.uri, Uri.DynamicMarker);
      && (o == NotFound(t.filename) <==> t.filename !in fs)
      && (o == CannotRead(t.filename) <==>
            t.filename in fs && !dynamic && !(fs[t.filename].isRegular && fs[t.filename].userReadable))
      && (o == CannotRun(t.filename) <==>
            t.filename in fs && dynamic && !(fs[t.filename].isRegular && fs[t.filename].userExecutable))
      && (o.ServeStatic? <==>
            t.filename in fs && !dynamic && fs[t.filename].isRegular && fs[t.filename].userReadable)
      && (o.ServeStatic? ==> o == ServeStatic(t.filename, ToInt32(fs[t.filename].size)))
      && (o.ServeDynamic? <==>
            t.filename in fs && dynamic && fs[t.filename].isRegular && fs[t.filename].userExecutable)
      && (o.ServeDynamic? ==> o == ServeDynamic(t.filename, t.cgiargs))
  {
  }

  /** A file is served only when the path exists with the right permission,
      and only the target's path is ever looked at. */
  lemma ServedOnlyWhenPermitted(line: Option<RequestLine>, fs: FileSystem)
    requires Parsable(line)
    ensures var o := Decide(line, fs).outcome;
      && (o.ServeStatic? ==> o.filename in fs && fs[o.filename].isRegular && fs[o.filename].userReadable)
      && (o.ServeDynamic? ==> o.filename in fs && fs[o.filename].isRegular && fs[o.filename].userExecutable)
      && (o.ServeStatic? || o.ServeDynamic? || o.NotFound? || o.CannotRead? || o.CannotRun? ==>
            Decide(line, fs).effects == [ReadHeaders, Stat(o.filename)])
  {
  }

  /** The 501 answer is given before any file-system access: it is the same
      whatever the file system holds. */
  lemma NotImplementedIgnoresFiles(line: RequestLine, fs1: FileSystem, fs2: FileSystem)
    requires !IsGet(line.verb)
    ensures Decide(Some(line), fs1) == Decide(Some(line), fs2) == Handling([], NotImplemented(line.verb))
  {
  }

  /** The decision depends on the file system only through the one path the
      URI resolves to. */
  lemma OnlyTargetMatters(line: Option<RequestLine>, fs1: FileSystem, fs2: FileSystem)
    requires Parsable(line) && line.Some? && IsGet(line.value.verb)
    requires var f := Uri.ParseUri(line.value.uri).filename;
      (f in fs1 <==> f in fs2) && (f in fs1 ==> fs1[f] == fs2[f])
    ensures Decide(line, fs1) == Decide(line, fs2)
  {
  }

  /** The eight spellings of GET that strcasecmp accepts. */
  const GetSpellings: set<string> := {"GET", "GEt", "GeT", "Get", "gET", "gEt", "geT", "get"}

  lemma ToLowerIs(c: char, lower: char)
    requires 'a' <= lower <= 'z'
    ensures ToLower(c) == lower <==> c == lower || c as int == lower as int - ('a' as int - 'A' as int)
  {
  }

  /** strcasecmp accepts exactly the eight case variants of "GET": "get",
      "Get" and "gEt" pass, "GETS", "GE" and "POST" do not. */
  lemma IsGetSpellings(m: string)
    ensures IsGet(m) <==> m in GetSpellings
  {
    if IsGet(m) {
      assert ToLower(m[0]) == 'g' && ToLower(m[1]) == 'e' && ToLower(m[2]) == 't';
      ToLowerIs(m[0], 'g');
      ToLowerIs(m[1], 'e');
      ToLowerIs(m[2], 't');
      assert m == [m[0], m[1], m[2]];
    }
  }

  // ---------------------------------------------------------------------
  // Reading the header lines
  // ---------------------------------------------------------------------

  /** What the line reader leaves in the buffer once the input has ended:
      the previous contents, or the empty string. */
  datatype EofRead = Unchanged | Emptied

  /** One `sio_read_line` into `buf`: the next line while there is one, and
      at the end of input the buffer as `eof` leaves it. The result is the
      reader's position and the new buffer. */
  function ReadLine(lines: seq<string>, pos: nat, buf: string, eof: EofRead): (nat, string)
  {
    if pos < |lines| then (pos + 1, lines[pos])
    else (pos, if eof == Emptied then "" else buf)
  }

  /** `read_requestheaders` as written: the first read, then `n` passes of
      its `while` loop. A pass whose test finds "\r\n" in the buffer leaves
      the state alone (the loop has exited). The buffer before the first
      read is taken to be empty. At most one line is read per pass, the
      buffer holds "\r\n" only once the line just read is the bare CRLF,
      and no line read before that one is. */
  function HeaderLoop(lines: seq<string>, eof: EofRead, n: nat): (r: (nat, string))
    ensures r.0 <= |lines| && r.0 <= n + 1
    ensures r.1 == CRLF ==> 0 < r.0 && lines[r.0 - 1] == CRLF
    ensures forall j :: 0 <= j < r.0 - 1 ==> lines[j] != CRLF
  {
    if n == 0 then ReadLine(lines, 0, "", eof)
    else
      var (pos, buf) := HeaderLoop(lines, eof, n - 1);
      if buf == CRLF then (pos, buf) else ReadLine(lines, pos, buf, eof)
  }

  /** The `while` test has failed within `n` passes. */
  predicate LoopExited(lines: seq<string>, eof: EofRead, n: nat)
  {
    HeaderLoop(lines, eof, n).1 == CRLF
  }

  /** While no bare CRLF has been read, pass `n` has consumed the lines up to
      and including line `n`. */
  lemma {:induction false} HeaderLoopPrefix(lines: seq<string>, eof: EofRead, n: nat)
    requires n < |lines|
    requires forall j :: 0 <= j < n ==> lines[j] != CRLF
    ensures HeaderLoop(lines, eof, n) == (n + 1, lines[n])
  {
    if n > 0 {
      HeaderLoopPrefix(lines, eof, n - 1);
    }
  }

  /** As written, the loop never exits when the input ends before a bare
      CRLF: whatever the reader leaves in the buffer at the end of input,
      the buffer is never "\r\n". */
  lemma {:induction false} HeaderLoopSpins(lines: seq<string>, eof: EofRead, n: nat)
    requires forall j :: 0 <= j < |lines| ==> lines[j] != CRLF
    ensures !LoopExited(lines, eof, n)
  {
    if n > 0 {
      HeaderLoopSpins(lines, eof, n - 1);
    }
  }

  /** A request line, one header line and then the end of input: the C loop
      spins for ever, under either reading of the end of input. */
  lemma UnterminatedHeadersSpin(n: nat)
    ensures !LoopExited(["Host: a\r\n"], Unchanged, n)
    ensures !LoopExited(["Host: a\r\n"], Emptied, n)
  {
    var lines := ["Host: a\r\n"];
    assert lines[0] != CRLF;
    HeaderLoopSpins(lines, Unchanged, n);
    HeaderLoopSpins(lines, Emptied, n);
  }

  /** `read_requestheaders` with the end of input handled: reads one line,
      then keeps reading while the last line read is not the bare CRLF and
      the input has not ended. `lines` is what the line reader returns, each
      line with its terminator. When a bare CRLF arrives, the lines consumed
      are exactly those the C loop consumes; when the input ends first, the
      C loop never exits and this one returns with `ended` false. */
  method SkipHeaders(lines: seq<string>) returns (consumed: nat, ended: bool)
    ensures consumed <= |lines|
    ensures ended ==> consumed >= 1 && lines[consumed - 1] == CRLF
    ensures ended ==> forall j :: 0 <= j < consumed - 1 ==> lines[j] != CRLF
    ensures ended ==> HeaderLoop(lines, Unchanged, consumed - 1) == (consumed, CRLF)
    ensures ended ==> HeaderLoop(lines, Emptied, consumed - 1) == (consumed, CRLF)
    ensures !ended ==> consumed == |lines| && forall j :: 0 <= j < |lines| ==> lines[j] != CRLF
  {
    consumed := 0;
    ended := false;
    while consumed < |lines| && !ended
      invariant consumed <= |lines|
      invariant ended ==> consumed >= 1 && lines[consumed - 1] == CRLF
      invariant forall j :: 0 <= j < consumed && !(ended && j == consumed - 1) ==> lines[j] != CRLF
      decreases |lines| - consumed
    {
      ended := lines[consumed] == CRLF;
      consumed := consumed + 1;
    }
    if ended {
      HeaderLoopPrefix(lines, Unchanged, consumed - 1);
      HeaderLoopPrefix(lines, Emptied, consumed - 1);
    }
  }

  // ---------------------------------------------------------------------
  // What is written back
  // ---------------------------------------------------------------------

  /** The outcomes answered by `client_error`. */
  predicate IsError(o: Outcome)
  {
    o.NotImplemented? || o.NotFound? || o.CannotRead? || o.CannotRun?
  }

  /** The arguments of a `client_error` call. */
  datatype ErrorCall = ErrorCall(cause: string, errnum: string, shortMsg: string, longMsg: string)

  /** The `client_error` call `serve_client` makes for an error outcome,
      with its literal arguments. */
  function ErrorOf(o: Outcome): (e: ErrorCall)
    requires IsError(o)
    ensures e.cause == if o.NotImplemented? then o.verb else o.filename
    ensures Http.IsStatusCode(e.errnum) && Http.NoCR(e.shortMsg)
    ensures e.errnum == "501" <==> o.NotImplemented?
    ensures e.errnum == "404" <==> o.NotFound?
    ensures e.errnum == "403" <==> o.CannotRead? || o.CannotRun?
  {
    LiteralStatuses();
    match o
    case NotImplemented(m) => ErrorCall(m, "501", "Not Implemented", "Tiny does not implement this method")
    case NotFound(f) => ErrorCall(f, "404", "Not found", "Tiny couldn't find this file")
    case CannotRead(f) => ErrorCall(f, "403", "Forbidden", "Tiny couldn't read the file")
    case CannotRun(f) => ErrorCall(f, "403", "Forbidden", "Tiny couldn't run the CGI program")
  }

  /** The writes the server makes for an outcome, in order, before the file
      contents (static) or the CGI program's output (dynamic). */
  function Reply(o: Outcome): (r: seq<string>)
    ensures r == [] <==> o.NoRequest?
    ensures IsError(o) ==> |r| == 4
  {
    if IsError(o) then
      var e := ErrorOf(o);
      Http.ErrorSegments(e.cause, e.errnum, e.shortMsg, e.longMsg)
    else if o.ServeStatic? then [Http.StaticHeader(o.filename, o.size)]
    else if o.ServeDynamic? then Http.DynamicSegments()
    else []
  }

  /** The Status-Code and Reason-Phrase each outcome answers with. */
  function Status(o: Outcome): (string, string)
    requires !o.NoRequest?
  {
    if IsError(o) then (ErrorOf(o).errnum, ErrorOf(o).shortMsg) else ("200", "OK")
  }

  /** Every answer starts with a Status-Line of section 6.1 of RFC 1945
      carrying the outcome's code and reason, whatever follows the head
      (file contents or CGI output). */
  lemma ReplyStatusLine(o: Outcome, rest: string)
    requires !o.NoRequest?
    ensures Http.FirstLine(Http.Concat(Reply(o)) + rest).Some?
    ensures Http.ParseStatusLine(Http.FirstLine(Http.Concat(Reply(o)) + rest).value)
      == Some((Http.Version, Status(o).0, Status(o).1))
  {
    StatusWellFormed(o);
    var after := ReplyAfterStatus(o);
    StatusLineFirst(Http.Concat(Reply(o)), Status(o).0, Status(o).1, after, rest);
  }

  lemma StatusWellFormed(o: Outcome)
    requires !o.NoRequest?
    ensures Http.IsStatusCode(Status(o).0) && Http.NoCR(Status(o).1)
  {
    LiteralStatuses();
  }

  /** The codes and reasons the server writes are well formed. */
  lemma LiteralStatuses()
    ensures Http.IsStatusCode("501") && Http.IsStatusCode("404")
    ensures Http.IsStatusCode("403") && Http.IsStatusCode("200")
    ensures Http.NoCR("Not Implemented") && Http.NoCR("Not found")
    ensures Http.NoCR("Forbidden") && Http.NoCR("OK")
  {
  }

  /** What an answer holds after its Status-Line and CRLF. */
  function ReplyAfterStatus(o: Outcome): (after: string)
    requires !o.NoRequest?
    ensures Http.Concat(Reply(o)) == Http.StatusText(Status(o).0, Status(o).1) + CRLF + after
  {
    if IsError(o) then
      var e := ErrorOf(o);
      Http.ErrorStartsWithStatus(e.cause, e.errnum, e.shortMsg, e.longMsg);
      Http.Concat(Reply(o)[1..])
    else if o.ServeStatic? then
      Http.StaticStartsWithStatus(o.filename, o.size);
      Http.StaticAfterStatus(IntToDecimal(o.size), Mime.FileType(o.filename))
    else
      Http.DynamicStartsWithStatus();
      Http.DynamicLines[1] + CRLF
  }

  /** A Status-Line the server writes is the first line of the message and
      reads back as written. */
  lemma StatusLineFirst(text: string, code: string, reason: string, after: string, rest: string)
    requires Http.IsStatusCode(code) && Http.NoCR(reason)
    requires text == Http.StatusText(code, reason) + CRLF + after
    ensures Http.FirstLine(text + rest) == Some(Http.StatusText(code, reason))
    ensures Http.ParseStatusLine(Http.StatusText(code, reason)) == Some((Http.Version, code, reason))
  {
    var status := Http.StatusText(code, reason);
    assert text + rest == status + CRLF + (after + rest);
    Http.NoCRAppend(Http.Version + " ", code);
    Http.NoCRAppend(Http.Version + " " + code, " ");
    Http.NoCRAppend(Http.Version + " " + code + " ", reason);
    Http.NoCRIsHeadLine(status);
    Http.FindLineEnd(status, after + rest);
    assert (status + CRLF + (after + rest))[..|status|] == status;
    Http.StatusLineRoundTrip(code, reason);
  }

  /** Every error answer is a complete message whose Content-Length is the
      length of the body that follows its head. */
  lemma ErrorReplyComplete(o: Outcome)
    requires IsError(o)
    ensures var d := Http.DecodeHead(Http.Concat(Reply(o)));
      d.Some? && Http.ContentLength(d.value.0) == Some(|d.value.1|)
  {
    var e := ErrorOf(o);
    StatusWellFormed(o);
    Http.ErrorContentLength(e.cause, e.errnum, e.shortMsg, e.longMsg);
  }

  // ---------------------------------------------------------------------
  // Scenarios
  // ---------------------------------------------------------------------

  /** `GET /index.html HTTP/1.0` for a readable regular file of 42 bytes is
      served as ./index.html with size 42. */
  lemma IndexScenario(fs: FileSystem)
    requires "./index.html" in fs
    requires fs["./index.html"].isRegular && fs["./index.html"].userReadable && fs["./index.html"].size == 42
    ensures Decide(Some(RequestLine("GET", "/index.html", "HTTP/1.0")), fs).outcome
      == ServeStatic("./index.html", 42)
  {
    var u := "/index.html";
    MissingChar(u, Uri.DynamicMarker, 0);
    assert IsGet("GET");
    Uri.StaticFile(u);
    assert "." + u == "./index.html";
  }

  /** Its header carries Content-length 42 and Content-type text/html. */
  lemma IndexHeaderScenario()
    ensures Http.StaticLines("./index.html", 42)
      == ["HTTP/1.0 200 OK", "Server: Tiny Web Server", "Connection: close",
          "Content-length: 42", "Content-type: text/html"]
  {
    assert OccursAt("./index.html", ".html", 7);
    assert Mime.FileType("./index.html") == "text/html";
    assert IntToDecimal(42) == "42" by {
      assert NatToDecimal(4) == "4";
    }
    assert "Content-length: " + "42" == "Content-length: 42";
    assert "Content-type: " + "text/html" == "Content-type: text/html";
  }

  /** `GET /cgi-bin/adder?15&20 HTTP/1.0` with an executable adder runs it
      with QUERY_STRING "15&20". */
  lemma AdderScenario(fs: FileSystem)
    requires "./cgi-bin/adder" in fs && fs["./cgi-bin/adder"].isRegular && fs["./cgi-bin/adder"].userExecutable
    ensures Decide(Some(RequestLine("GET", "/cgi-bin/adder?15&20", "HTTP/1.0")), fs).outcome
      == ServeDynamic("./cgi-bin/adder", "15&20")
  {
    Uri.AdderResolution();
  }

  /** A lower-case method is accepted; a POST is refused with 501 whatever
      the URI. */
  lemma MethodScenarios(fs: FileSystem)
    ensures Decide(Some(RequestLine("post", "/", "HTTP/1.0")), fs).outcome == NotImplemented("post")
    ensures !Decide(Some(RequestLine("get", "/", "HTTP/1.0")), fs).outcome.NotImplemented?
  {
    IsGetSpellings("post");
    IsGetSpellings("get");
  }
}
