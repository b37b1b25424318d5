/** Response text of the server: the static header block (`serve_static`),
    the partial header of dynamic content (`serve_dynamic`) and the error
    response (`client_error`), together with a reader for the message head
    of HTTP/1.0 (sections 4.1 and 6.1 of RFC 1945) that recovers the lines,
    the Status-Line and the header fields a client sees. The reader is the
    partner of the writers: every writer is proved to produce text that the
    reader takes apart into the intended lines. */
module Http {
  import opened Text
  import Mime

  // ---------------------------------------------------------------------
  // Reading a message head
  // ---------------------------------------------------------------------

  /** A line of a message head: non-empty (an empty line ends the head) and
      free of CRLF. */
  ghost predicate IsHeadLine(l: string)
  {
    |l| > 0 && !Contains(l, CRLF)
  }

  /** A string without carriage returns. */
  predicate NoCR(s: string)
  {
    !HasChar(s, '\r')
  }

  /** Each line followed by CRLF. */
  function Lines(ls: seq<string>): string
  {
    if |ls| == 0 then "" else ls[0] + CRLF + Lines(ls[1..])
  }

  /** The concatenation of the segments written one after another. */
  function Concat(segs: seq<string>): string
  {
    if |segs| == 0 then "" else segs[0] + Concat(segs[1..])
  }

  /** Splits a message into the lines of its head and what follows the empty
      line that ends the head; `None` when no empty line is found. */
  function DecodeHead(text: string): (r: Option<(seq<string>, string)>)
    ensures r.Some? ==> forall k :: 0 <= k < |r.value.0| ==> IsHeadLine(r.value.0[k])
    ensures r.Some? ==> Lines(r.value.0) + CRLF + r.value.1 == text
    decreases |text|
  {
    match Find(text, CRLF)
    case None => None
    case Some(i) =>
      if i == 0 then Some(([], text[2..]))
      else
        match DecodeHead(text[i + 2..])
        case None => None
        case Some((ls, rest)) =>
          DecodeStep(text, i, ls, rest);
          Some(([text[..i]] + ls, rest))
  }

  /** One line of DecodeHead: the line before the first CRLF, put in front
      of the lines decoded from the text after it. */
  lemma DecodeStep(text: string, i: nat, ls: seq<string>, rest: string)
    requires Find(text, CRLF) == Some(i) && i > 0
    requires forall k :: 0 <= k < |ls| ==> IsHeadLine(ls[k])
    requires i + 2 <= |text| && Lines(ls) + CRLF + rest == text[i + 2..]
    ensures forall k :: 0 <= k < |[text[..i]] + ls| ==> IsHeadLine(([text[..i]] + ls)[k])
    ensures Lines([text[..i]] + ls) + CRLF + rest == text
  {
    LineBeforeFirstCRLF(text, i);
    LinesCons(text[..i], ls);
    var all := [text[..i]] + ls;
    forall k | 0 <= k < |all|
      ensures IsHeadLine(all[k])
    {
      if k > 0 {
        assert all[k] == ls[k - 1];
      }
    }
  }

  lemma Lines3(a: string, b: string, c: string)
    ensures Lines([a, b, c]) == a + CRLF + b + CRLF + c + CRLF
  {
    assert [a, b, c][1..] == [b, c] && [b, c][1..] == [c] && [c][1..] == [];
    assert Lines([c]) == c + CRLF;
    assert Lines([b, c]) == b + CRLF + (c + CRLF);
  }

  lemma Lines5(a: string, b: string, c: string, d: string, e: string)
    ensures Lines([a, b, c, d, e]) == a + CRLF + b + CRLF + c + CRLF + d + CRLF + e + CRLF
  {
    var ls := [a, b, c, d, e];
    Lines3(c, d, e);
    assert ls[1..] == [b] + [c, d, e] && ls == [a] + ls[1..];
    LinesCons(b, [c, d, e]);
    LinesCons(a, ls[1..]);
  }

  lemma Concat4(a: string, b: string, c: string, d: string)
    ensures Concat([a, b, c, d]) == a + b + c + d
  {
    assert [a, b, c, d][1..] == [b, c, d] && [b, c, d][1..] == [c, d];
    assert [c, d][1..] == [d] && [d][1..] == [];
    assert Concat([d]) == d;
    assert Concat([c, d]) == c + d;
    assert Concat([b, c, d]) == b + (c + d);
  }

  lemma LinesCons(l: string, ls: seq<string>)
    ensures Lines([l] + ls) == l + CRLF + Lines(ls)
  {
    assert ([l] + ls)[0] == l && ([l] + ls)[1..] == ls;
  }

  /** The text before the first CRLF holds no CRLF. */
  lemma LineBeforeFirstCRLF(text: string, i: nat)
    requires Find(text, CRLF) == Some(i) && i > 0
    ensures IsHeadLine(text[..i])
    ensures text == text[..i] + CRLF + text[i + 2..]
  {
    forall j
      ensures !OccursAt(text[..i], CRLF, j)
    {
      OccursInPrefix(text, i, CRLF, j);
    }
  }

  /** A string without carriage returns holds no CRLF. */
  lemma NoCRIsHeadLine(s: string)
    requires |s| > 0 && NoCR(s)
    ensures IsHeadLine(s)
  {
    MissingChar(s, CRLF, 0);
  }

  /** In a line followed by CRLF, the first CRLF is the one after the line. */
  lemma FindLineEnd(l: string, rest: string)
    requires IsHeadLine(l)
    ensures Find(l + CRLF + rest, CRLF) == Some(|l|)
  {
    forall j | 0 <= j < |l|
      ensures !OccursAt(l + CRLF, CRLF, j)
    {
      if j + 2 <= |l| {
        assert (l + CRLF)[j..j + 2] == l[j..j + 2];
        assert !OccursAt(l, CRLF, j);
      } else {
        assert (l + CRLF)[j + 1] == '\r';
      }
    }
    FindAfter(l, CRLF, rest);
  }

  lemma {:induction false} LinesAppend(a: seq<string>, b: seq<string>)
    ensures Lines(a + b) == Lines(a) + Lines(b)
    decreases |a|
  {
    if |a| > 0 {
      assert (a + b)[0] == a[0];
      assert (a + b)[1..] == a[1..] + b;
      LinesAppend(a[1..], b);
      calc {
        Lines(a + b);
        a[0] + CRLF + Lines(a[1..] + b);
        a[0] + CRLF + (Lines(a[1..]) + Lines(b));
        (a[0] + CRLF + Lines(a[1..])) + Lines(b);
      }
    } else {
      assert a + b == b;
    }
  }

  /** Writing head lines and reading them back gives the same lines and the
      same remainder: the head format is unambiguous. */
  lemma {:induction false} HeadRoundTrip(ls: seq<string>, body: string)
    requires forall k :: 0 <= k < |ls| ==> IsHeadLine(ls[k])
    ensures DecodeHead(Lines(ls) + CRLF + body) == Some((ls, body))
    decreases |ls|
  {
    if |ls| == 0 {
      assert Lines(ls) + CRLF + body == CRLF + body;
      HeadEmpty(body);
    } else {
      HeadRoundTrip(ls[1..], body);
      HeadCons(ls[0], ls[1..], body);
      assert [ls[0]] + ls[1..] == ls;
    }
  }

  /** A message opening with the empty line has an empty head. */
  lemma HeadEmpty(body: string)
    ensures DecodeHead(CRLF + body) == Some(([], body))
  {
    var text := CRLF + body;
    assert OccursAt(text, CRLF, 0);
    assert Find(text, CRLF) == Some(0);
    assert text[2..] == body;
  }

  /** A proper line put in front of a head that decodes joins that head. */
  lemma HeadCons(l: string, ls: seq<string>, body: string)
    requires IsHeadLine(l)
    requires DecodeHead(Lines(ls) + CRLF + body) == Some((ls, body))
    ensures DecodeHead(Lines([l] + ls) + CRLF + body) == Some(([l] + ls, body))
  {
    LinesCons(l, ls);
    Associate(l, CRLF, Lines(ls), CRLF, body);
    DecodeLine(l, Lines(ls) + CRLF + body, ls, body);
  }

  /** Regrouping a concatenation of five strings. */
  lemma Associate(a: string, b: string, c: string, d: string, e: string)
    ensures a + b + c + d + e == a + b + (c + d + e)
  {
  }

  /** Whatever follows it, a proper line and its CRLF become the first line
      of the head. */
  lemma DecodeLine(l: string, tail: string, ls: seq<string>, rest: string)
    requires IsHeadLine(l)
    requires DecodeHead(tail) == Some((ls, rest))
    ensures DecodeHead(l + CRLF + tail) == Some(([l] + ls, rest))
  {
    var text := l + CRLF + tail;
    FindLineEnd(l, tail);
    assert text[|l| + 2..] == tail && text[..|l|] == l;
  }

  // ---------------------------------------------------------------------
  // Status-Line and header fields
  // ---------------------------------------------------------------------

  /** A Status-Code of section 6.1.1 of RFC 1945: three digits. */
  predicate IsStatusCode(code: string)
  {
    |code| == 3 && AllDigits(code)
  }

  /** Splits `s` at the first occurrence of the separator `sep`. */
  function SplitOnce(s: string, sep: string): (r: Option<(string, string)>)
    requires |sep| > 0
    ensures r.Some? ==> s == r.value.0 + sep + r.value.1 && !Contains(r.value.0, sep)
    ensures r.None? <==> !Contains(s, sep)
  {
    match Find(s, sep)
    case None => None
    case Some(i) =>
      PrefixBeforeFirst(s, sep, i);
      assert s == s[..i] + sep + s[i + |sep|..];
      Some((s[..i], s[i + |sep|..]))
  }

  /** Splits `HTTP-Version SP Status-Code SP Reason-Phrase` at its first two
      spaces; the Reason-Phrase may itself hold spaces. */
  function ParseStatusLine(line: string): (r: Option<(string, string, string)>)
    ensures r.Some? ==> line == r.value.0 + " " + r.value.1 + " " + r.value.2
    ensures r.Some? ==> !Contains(r.value.0, " ") && !Contains(r.value.1, " ")
  {
    match SplitOnce(line, " ")
    case None => None
    case Some((version, rest)) =>
      match SplitOnce(rest, " ")
      case None => None
      case Some((code, reason)) =>
        Regroup(version, code, reason);
        Some((version, code, reason))
  }

  /** The three space-separated parts of a Status-Line, regrouped. */
  lemma Regroup(a: string, b: string, c: string)
    ensures a + " " + (b + " " + c) == a + " " + b + " " + c
  {
  }

  /** The text before the first occurrence of `pat` does not contain it. */
  lemma PrefixBeforeFirst(s: string, pat: string, i: nat)
    requires |pat| > 0 && Find(s, pat) == Some(i)
    ensures !Contains(s[..i], pat)
  {
    forall j
      ensures !OccursAt(s[..i], pat, j)
    {
      OccursInPrefix(s, i, pat, j);
    }
  }

  const Version: string := "HTTP/1.0"

  /** The Status-Line as the server writes it, without its CRLF. */
  function StatusText(code: string, reason: string): string
  {
    Version + " " + code + " " + reason
  }

  /** Reading back a Status-Line written with a three-digit code gives the
      version, the code and the whole reason phrase. */
  lemma StatusLineRoundTrip(code: string, reason: string)
    requires IsStatusCode(code)
    ensures ParseStatusLine(StatusText(code, reason)) == Some((Version, code, reason))
  {
    var line := StatusText(code, reason);
    assert forall k :: 0 <= k < |Version| ==> Version[k] != ' ';
    assert line == Version + [' '] + (code + " " + reason);
    FindCharAfter(Version, ' ', code + " " + reason);
    var rest := line[|Version| + 1..];
    assert rest == code + [' '] + reason;
    FindCharAfter(code, ' ', reason);
  }

  /** The first line of a message, if it has one. */
  function FirstLine(text: string): Option<string>
  {
    match Find(text, CRLF)
    case None => None
    case Some(i) => Some(text[..i])
  }

  /** The value of the first field named `name` (compared without regard to
      case, section 4.2 of RFC 1945) among the head lines. */
  function FieldValue(ls: seq<string>, name: string): (r: Option<string>)
    ensures r.Some? ==> exists k :: 0 <= k < |ls| && FieldLine(ls[k], name, r.value)
    ensures r.None? ==> forall k :: 0 <= k < |ls| ==> !IsFieldOf(ls[k], name)
  {
    if |ls| == 0 then None
    else if IsFieldOf(ls[0], name) then
      assert FieldLine(ls[0], name, ls[0][|name| + 2..]);
      Some(ls[0][|name| + 2..])
    else
      var r := FieldValue(ls[1..], name);
      if r.Some? then
        var k :| 0 <= k < |ls[1..]| && FieldLine(ls[1..][k], name, r.value);
        assert FieldLine(ls[k + 1], name, r.value);
        r
      else
        assert forall k :: 1 <= k < |ls| ==> ls[k] == ls[1..][k - 1];
        None
  }

  /** The value of the field `name` is taken from the first line that names
      it: lines before it are passed over. */
  lemma FieldValueAt(ls: seq<string>, name: string, k: nat)
    requires k < |ls| && IsFieldOf(ls[k], name)
    requires forall j :: 0 <= j < k ==> !IsFieldOf(ls[j], name)
    ensures FieldValue(ls, name) == Some(ls[k][|name| + 2..])
    decreases k
  {
    if k > 0 {
      FieldValueAt(ls[1..], name, k - 1);
    }
  }

  /** A line whose k-th character differs (up to case) from the k-th
      character of `name` is not that field. */
  lemma NotFieldAt(l: string, name: string, k: nat)
    requires k < |name| && k < |l| && ToLower(l[k]) != ToLower(name[k])
    ensures !IsFieldOf(l, name)
  {
    if |l| >= |name| + 2 {
      assert l[..|name|][k] == l[k];
    }
  }

  /** `l` starts with a field name equal to `name` up to case, then ": ". */
  predicate IsFieldOf(l: string, name: string)
  {
    |l| >= |name| + 2 && EqualsIgnoreCase(l[..|name|], name) && l[|name|..|name| + 2] == ": "
  }

  /** `l` is the field `name` with value `v`. */
  predicate FieldLine(l: string, name: string, v: string)
  {
    IsFieldOf(l, name) && l[|name| + 2..] == v
  }

  /** The Content-Length a client reads from the head lines. */
  function ContentLength(ls: seq<string>): Option<int>
  {
    match FieldValue(ls, "Content-Length")
    case None => None
    case Some(v) => ParseInt(v)
  }

  // ---------------------------------------------------------------------
  // Static content: the header block of serve_static
  // ---------------------------------------------------------------------

  /** The header block `serve_static` writes for a file of `size` bytes
      (the C `int` it receives): the five header lines, each ended by CRLF,
      then the empty line that ends the head. */
  function StaticHeader(filename: string, size: int): (h: string)
    ensures h == Lines(StaticLines(filename, size)) + CRLF
  {
    var n := IntToDecimal(size);
    var t := Mime.FileType(filename);
    HeaderText(n, t);
    StaticText(n, t)
  }

  /** The fixed lines a successful response opens with. */
  const OkLine: string := "HTTP/1.0 200 OK"
  const ServerLine: string := "Server: Tiny Web Server"
  const CloseLine: string := "Connection: close"

  /** The text the successive `strcat` calls of `serve_static` build, for
      the printed length `n` and the type `t`. */
  function StaticText(n: string, t: string): string
  {
    OkLine + CRLF
    + ServerLine + CRLF
    + CloseLine + CRLF
    + "Content-length: " + n + CRLF
    + "Content-type: " + t + CRLF + CRLF
  }

  /** The header lines of the static response, in order. */
  function StaticLines(filename: string, size: int): seq<string>
  {
    HeaderLinesOf(IntToDecimal(size), Mime.FileType(filename))
  }

  /** The five static header lines for a printed length and a type. */
  function HeaderLinesOf(length: string, ctype: string): seq<string>
  {
    [OkLine,
     ServerLine,
     CloseLine,
     "Content-length: " + length,
     "Content-type: " + ctype]
  }

  /** The static header block reads back as exactly five lines followed by
      the empty line, with nothing after it. */
  lemma StaticHeaderLines(filename: string, size: int)
    ensures DecodeHead(StaticHeader(filename, size)) == Some((StaticLines(filename, size), ""))
  {
    var n := IntToDecimal(size);
    var t := Mime.FileType(filename);
    NumeralNoCR(size);
    TypeNoCR(filename);
    HeaderLinesAreHeadLines(n, t);
    var text := Lines(HeaderLinesOf(n, t)) + CRLF;
    assert text + "" == text;
    HeadRoundTrip(HeaderLinesOf(n, t), "");
  }

  lemma NumeralNoCR(i: int)
    ensures NoCR(IntToDecimal(i))
  {
    var s := IntToDecimal(i);
    forall k | 0 <= k < |s|
      ensures s[k] != '\r'
    {
      if i >= 0 || k > 0 {
        assert IsDigit(s[k]);
      }
    }
  }

  lemma TypeNoCR(filename: string)
    ensures NoCR(Mime.FileType(filename))
  {
    var t := Mime.FileType(filename);
    assert t in {"text/html", "image/gif", "image/png", "image/jpeg", "text/plain"};
  }

  lemma HeaderLinesAreHeadLines(n: string, t: string)
    requires NoCR(n) && NoCR(t)
    ensures var ls := HeaderLinesOf(n, t);
      forall k :: 0 <= k < |ls| ==> IsHeadLine(ls[k])
  {
    var ls := HeaderLinesOf(n, t);
    NoCRAppend("Content-length: ", n);
    NoCRAppend("Content-type: ", t);
    NoCRIsHeadLine(ls[0]);
    NoCRIsHeadLine(ls[1]);
    NoCRIsHeadLine(ls[2]);
    NoCRIsHeadLine(ls[3]);
    NoCRIsHeadLine(ls[4]);
  }

  /** The header block written by serve_static, with the printed length and
      the type as parameters, is the five lines and the empty line. */
  lemma HeaderText(n: string, t: string)
    ensures StaticText(n, t) == Lines(HeaderLinesOf(n, t)) + CRLF
  {
    Lines5(OkLine, ServerLine, CloseLine, "Content-length: " + n, "Content-type: " + t);
  }

  /** The static header block opens with the Status-Line "HTTP/1.0 200 OK". */
  lemma StaticStartsWithStatus(filename: string, size: int)
    ensures StaticHeader(filename, size)
      == StatusText("200", "OK") + CRLF + StaticAfterStatus(IntToDecimal(size), Mime.FileType(filename))
  {
    var ls := StaticLines(filename, size);
    LinesCons(ls[0], ls[1..]);
    assert ls == [ls[0]] + ls[1..];
    assert ls[0] == StatusText("200", "OK");
  }

  /** The static header block after its Status-Line: the other four lines
      and the empty line. */
  function StaticAfterStatus(n: string, t: string): string
  {
    Lines(HeaderLinesOf(n, t)[1..]) + CRLF
  }

  /** The error response opens with its Status-Line. */
  lemma ErrorStartsWithStatus(cause: string, errnum: string, shortMsg: string, longMsg: string)
    ensures var segs := ErrorSegments(cause, errnum, shortMsg, longMsg);
      Concat(segs) == StatusText(errnum, shortMsg) + CRLF + Concat(segs[1..])
  {
    var segs := ErrorSegments(cause, errnum, shortMsg, longMsg);
    assert segs[0] == StatusText(errnum, shortMsg) + CRLF;
  }

  /** A client reads the Content-Length field of the static header as the
      size that was printed. */
  lemma StaticContentLength(filename: string, size: int)
    ensures ContentLength(StaticLines(filename, size)) == Some(size)
  {
    LengthField(IntToDecimal(size), Mime.FileType(filename));
    IntRoundTrip(size);
  }

  lemma LengthField(n: string, t: string)
    ensures FieldValue(HeaderLinesOf(n, t), "Content-Length") == Some(n)
  {
    var ls := HeaderLinesOf(n, t);
    var cl := "Content-Length";
    NotFieldAt(ls[0], cl, 0);
    NotFieldAt(ls[1], cl, 0);
    NotFieldAt(ls[2], cl, 3);
    FieldNames();
    assert ls[3] == "Content-length" + ": " + n;
    FieldIn(ls[3], cl, "Content-length", n);
    FieldValueAt(ls, cl, 3);
  }

  /** The field names the server writes match the names a client asks for. */
  lemma FieldNames()
    ensures EqualsIgnoreCase("Content-length", "Content-Length")
    ensures EqualsIgnoreCase("Content-type", "Content-Type")
    ensures EqualsIgnoreCase("Content-Length", "Content-Length")
  {
  }

  /** A line written as a field name, ": " and a value is that field. */
  lemma FieldIn(l: string, name: string, written: string, v: string)
    requires EqualsIgnoreCase(written, name) && l == written + ": " + v
    ensures IsFieldOf(l, name) && l[|name| + 2..] == v
  {
    assert l[..|name|] == written;
    assert l[|name|..|name| + 2] == ": ";
  }

  /** A client reads the Content-Type field of the static header as the
      file's type. */
  lemma StaticContentType(filename: string, size: int)
    ensures FieldValue(StaticLines(filename, size), "Content-Type") == Some(Mime.FileType(filename))
  {
    TypeField(IntToDecimal(size), Mime.FileType(filename));
  }

  lemma TypeField(n: string, t: string)
    ensures FieldValue(HeaderLinesOf(n, t), "Content-Type") == Some(t)
  {
    var ls := HeaderLinesOf(n, t);
    var ct := "Content-Type";
    NotFieldAt(ls[0], ct, 0);
    NotFieldAt(ls[1], ct, 0);
    NotFieldAt(ls[2], ct, 3);
    NotFieldAt(ls[3], ct, 8);
    FieldNames();
    assert ls[4] == "Content-type" + ": " + t;
    FieldIn(ls[4], ct, "Content-type", t);
    LastOfFive(ls[0], ls[1], ls[2], ls[3], ls[4], ct);
  }

  /** The field of the fifth line, when the four lines before it are other
      fields. */
  lemma LastOfFive(a: string, b: string, c: string, d: string, e: string, name: string)
    requires !IsFieldOf(a, name) && !IsFieldOf(b, name) && !IsFieldOf(c, name) && !IsFieldOf(d, name)
    requires IsFieldOf(e, name)
    ensures FieldValue([a, b, c, d, e], name) == Some(e[|name| + 2..])
  {
    var ls := [a, b, c, d, e];
    assert ls[1..] == [b, c, d, e] && ls[1..][1..] == [c, d, e];
    assert ls[1..][1..][1..] == [d, e] && ls[1..][1..][1..][1..] == [e];
    assert FieldValue([e], name) == Some(e[|name| + 2..]);
    assert FieldValue([d, e], name) == FieldValue([e], name);
    assert FieldValue([c, d, e], name) == FieldValue([d, e], name);
    assert FieldValue([b, c, d, e], name) == FieldValue([c, d, e], name);
  }

  // ---------------------------------------------------------------------
  // Dynamic content: the partial header of serve_dynamic
  // ---------------------------------------------------------------------

  /** The two lines `serve_dynamic` writes before the CGI program runs. */
  const DynamicLines: seq<string> := [OkLine, ServerLine]

  /** The two writes `serve_dynamic` makes before the CGI program runs; each
      is one line of the partial header. */
  function DynamicSegments(): (segs: seq<string>)
    ensures |segs| == |DynamicLines|
    ensures forall k :: 0 <= k < |segs| ==> segs[k] == DynamicLines[k] + CRLF
    ensures Concat(segs) == Lines(DynamicLines)
  {
    var segs := [OkLine + "\r\n", ServerLine + "\r\n"];
    assert segs[1..] == [segs[1]] && segs[1..][1..] == [];
    assert Concat(segs[1..]) == segs[1] + Concat([]);
    assert Concat(segs) == segs[0] + (segs[1] + "");
    LinesCons(OkLine, [ServerLine]);
    LinesCons(ServerLine, []);
    assert DynamicLines == [OkLine] + [ServerLine] && [ServerLine] == [ServerLine] + [];
    segs
  }

  /** The partial header opens with the Status-Line "HTTP/1.0 200 OK". */
  lemma DynamicStartsWithStatus()
    ensures Concat(DynamicSegments()) == StatusText("200", "OK") + CRLF + (DynamicLines[1] + CRLF)
  {
    var segs := DynamicSegments();
    assert segs[1..][1..] == [];
    assert Concat(segs) == segs[0] + segs[1];
    assert DynamicLines[0] == StatusText("200", "OK");
  }

  /** The partial header has no empty line: the program's own header lines
      join the same head, after the status line and the server line. */
  lemma DynamicHeadMerges(programLines: seq<string>, programBody: string)
    requires forall k :: 0 <= k < |programLines| ==> IsHeadLine(programLines[k])
    ensures DecodeHead(Concat(DynamicSegments()) + Lines(programLines) + CRLF + programBody)
      == Some((DynamicLines + programLines, programBody))
  {
    var first := DynamicLines;
    NoCRIsHeadLine(first[0]);
    NoCRIsHeadLine(first[1]);
    LinesAppend(first, programLines);
    var ls := first + programLines;
    forall k | 0 <= k < |ls|
      ensures IsHeadLine(ls[k])
    {
      if k >= 2 {
        assert ls[k] == programLines[k - 2];
      }
    }
    HeadRoundTrip(ls, programBody);
  }

  // ---------------------------------------------------------------------
  // Errors: client_error
  // ---------------------------------------------------------------------

  const ErrorTitle: string := "<html><title>Tiny web server Error</title>"

  /** The first line of the error body. The source's
      `"<body bgcolor=""ffffff"">"` is three adjacent C literals, so the
      attribute value carries no quotes. */
  const ErrorBodyOpen: string := ErrorTitle + "<body bgcolor=" + "ffffff" + ">"

  /** The HTML body `client_error` builds: three lines, the fixed opening,
      "errnum: shortMsg" and "longMsg: cause". */
  function ErrorBody(cause: string, errnum: string, shortMsg: string, longMsg: string): (b: string)
    ensures b == Lines([ErrorBodyOpen, errnum + ": " + shortMsg, longMsg + ": " + cause])
  {
    Lines3(ErrorBodyOpen, errnum + ": " + shortMsg, longMsg + ": " + cause);
    BodyShape(ErrorBodyOpen, errnum, shortMsg, longMsg, cause);
    ErrorBodyOpen + "\r\n" + errnum + ": " + shortMsg + "\r\n" + longMsg + ": " + cause + "\r\n"
  }

  /** The attribute value is emitted without quotes. */
  lemma ErrorBodyOpenText()
    ensures ErrorBodyOpen == "<html><title>Tiny web server Error</title><body bgcolor=ffffff>"
  {
  }

  /** The four writes of `client_error`, in order: status line, type,
      length with the empty line, body. Together they are the three head
      lines, the empty line and the body. */
  function ErrorSegments(cause: string, errnum: string, shortMsg: string, longMsg: string): (segs: seq<string>)
    ensures |segs| == 4 && segs[3] == ErrorBody(cause, errnum, shortMsg, longMsg)
    ensures segs[0] == StatusText(errnum, shortMsg) + CRLF
    ensures segs[1] == "Content-Type: text/html" + CRLF
    ensures segs[2] == "Content-Length: " + NatToDecimal(|segs[3]|) + CRLF + CRLF
    ensures Concat(segs) == Lines(ErrorLines(cause, errnum, shortMsg, longMsg)) + CRLF + ErrorBody(cause, errnum, shortMsg, longMsg)
  {
    var ls := ErrorLines(cause, errnum, shortMsg, longMsg);
    var segs := [ls[0] + CRLF, ls[1] + CRLF, ls[2] + CRLF + CRLF, ErrorBody(cause, errnum, shortMsg, longMsg)];
    HeadShape(ls[0], ls[1], ls[2], segs[0], segs[1], segs[2], segs[3]);
    assert ls == [ls[0], ls[1], ls[2]];
    segs
  }

  /** The head lines of the error response. */
  function ErrorLines(cause: string, errnum: string, shortMsg: string, longMsg: string): seq<string>
  {
    [StatusText(errnum, shortMsg),
     "Content-Type: text/html",
     "Content-Length: " + NatToDecimal(|ErrorBody(cause, errnum, shortMsg, longMsg)|)]
  }

  /** The body is three lines: the fixed HTML opening, "errnum: shortMsg"
      and "longMsg: cause". */
  lemma ErrorBodyLines(cause: string, errnum: string, shortMsg: string, longMsg: string)
    requires NoCR(cause) && NoCR(errnum) && NoCR(shortMsg) && NoCR(longMsg)
    ensures DecodeHead(ErrorBody(cause, errnum, shortMsg, longMsg) + CRLF)
      == Some(([ErrorBodyOpen, errnum + ": " + shortMsg, longMsg + ": " + cause], ""))
  {
    var ls := [ErrorBodyOpen, errnum + ": " + shortMsg, longMsg + ": " + cause];
    NoCRAppend(errnum, ": ");
    NoCRAppend(errnum + ": ", shortMsg);
    NoCRAppend(longMsg, ": ");
    NoCRAppend(longMsg + ": ", cause);
    ErrorBodyOpenNoCR();
    NoCRIsHeadLine(ls[0]);
    NoCRIsHeadLine(ls[1]);
    NoCRIsHeadLine(ls[2]);
    var text := ErrorBody(cause, errnum, shortMsg, longMsg) + CRLF;
    assert text == Lines(ls) + CRLF + "";
    HeadRoundTrip(ls, "");
  }

  lemma ErrorBodyOpenNoCR()
    ensures NoCR(ErrorBodyOpen)
  {
    assert NoCR(ErrorTitle) && NoCR("<body bgcolor=" + "ffffff" + ">");
    NoCRAppend(ErrorTitle, "<body bgcolor=" + "ffffff" + ">");
    assert ErrorBodyOpen == ErrorTitle + ("<body bgcolor=" + "ffffff" + ">");
  }

  /** The body text regrouped as three lines, whatever their contents. */
  lemma BodyShape(open: string, e: string, s: string, l: string, c: string)
    ensures open + "\r\n" + e + ": " + s + "\r\n" + l + ": " + c + "\r\n"
      == open + CRLF + (e + ": " + s) + CRLF + (l + ": " + c) + CRLF
  {
  }

  lemma NoCRAppend(a: string, b: string)
    requires NoCR(a) && NoCR(b)
    ensures NoCR(a + b)
  {
    assert forall i :: |a| <= i < |a + b| ==> (a + b)[i] == b[i - |a|];
  }

  /** Every head line of the error response is a proper line. */
  lemma ErrorLinesAreHeadLines(cause: string, errnum: string, shortMsg: string, longMsg: string)
    requires IsStatusCode(errnum) && NoCR(shortMsg)
    ensures var ls := ErrorLines(cause, errnum, shortMsg, longMsg);
      forall k :: 0 <= k < |ls| ==> IsHeadLine(ls[k])
  {
    var ls := ErrorLines(cause, errnum, shortMsg, longMsg);
    NoCRAppend(Version + " ", errnum);
    NoCRAppend(Version + " " + errnum, " ");
    NoCRAppend(Version + " " + errnum + " ", shortMsg);
    NoCRIsHeadLine(ls[0]);
    NoCRIsHeadLine(ls[1]);
    var n := NatToDecimal(|ErrorBody(cause, errnum, shortMsg, longMsg)|);
    NoCRAppend("Content-Length: ", n);
    NoCRIsHeadLine(ls[2]);
  }

  /** Three writes that each end a line, the last also ending the head, then
      the body. */
  lemma HeadShape(l0: string, l1: string, l2: string, w0: string, w1: string, w2: string, body: string)
    requires w0 == l0 + CRLF && w1 == l1 + CRLF && w2 == l2 + CRLF + CRLF
    ensures Concat([w0, w1, w2, body]) == Lines([l0, l1, l2]) + CRLF + body
  {
    Concat4(w0, w1, w2, body);
    Lines3(l0, l1, l2);
  }

  /** The error response reads back as its three head lines and then
      exactly the generated body. */
  lemma ErrorResponseDecodes(cause: string, errnum: string, shortMsg: string, longMsg: string)
    requires IsStatusCode(errnum) && NoCR(shortMsg)
    ensures DecodeHead(Concat(ErrorSegments(cause, errnum, shortMsg, longMsg)))
      == Some((ErrorLines(cause, errnum, shortMsg, longMsg), ErrorBody(cause, errnum, shortMsg, longMsg)))
  {
    ErrorLinesAreHeadLines(cause, errnum, shortMsg, longMsg);
    HeadRoundTrip(ErrorLines(cause, errnum, shortMsg, longMsg), ErrorBody(cause, errnum, shortMsg, longMsg));
  }

  /** The Content-Length a client reads from the error response is the
      length of the body that follows the head. */
  lemma ErrorContentLength(cause: string, errnum: string, shortMsg: string, longMsg: string)
    requires IsStatusCode(errnum) && NoCR(shortMsg)
    ensures var d := DecodeHead(Concat(ErrorSegments(cause, errnum, shortMsg, longMsg)));
      d.Some? && ContentLength(d.value.0) == Some(|d.value.1|)
  {
    ErrorResponseDecodes(cause, errnum, shortMsg, longMsg);
    var body := ErrorBody(cause, errnum, shortMsg, longMsg);
    var ls := ErrorLines(cause, errnum, shortMsg, longMsg);
    var n := NatToDecimal(|body|);
    ErrorLengthField(ls[0], n);
    DecimalRoundTrip(|body|);
  }

  /** In the three error head lines, the Content-Length field is the third. */
  lemma ErrorLengthField(status: string, n: string)
    requires |status| > 0 && status[0] == 'H'
    ensures FieldValue([status, "Content-Type: text/html", "Content-Length: " + n], "Content-Length") == Some(n)
  {
    var ls := [status, "Content-Type: text/html", "Content-Length: " + n];
    var cl := "Content-Length";
    NotFieldAt(ls[0], cl, 0);
    NotFieldAt(ls[1], cl, 8);
    FieldNames();
    assert ls[2] == "Content-Length" + ": " + n;
    FieldIn(ls[2], cl, "Content-Length", n);
    FieldValueAt(ls, cl, 2);
  }

  /** The Status-Line of the error response carries the error number and
      the short message. */
  lemma ErrorStatus(cause: string, errnum: string, shortMsg: string, longMsg: string)
    requires IsStatusCode(errnum) && NoCR(shortMsg)
    ensures var d := DecodeHead(Concat(ErrorSegments(cause, errnum, shortMsg, longMsg)));
      d.Some? && |d.value.0| > 0 && ParseStatusLine(d.value.0[0]) == Some((Version, errnum, shortMsg))
  {
    ErrorResponseDecodes(cause, errnum, shortMsg, longMsg);
    StatusLineRoundTrip(errnum, shortMsg);
  }

  /** The writes `client_error` attempts when the writer reports `ok[i]` for
      the i-th write: every write up to and including the first failing one;
      a failure ends the response. */
  function Attempted(segs: seq<string>, ok: seq<bool>): (sent: seq<string>)
    requires |ok| == |segs|
    ensures sent <= segs
    ensures |segs| > 0 ==> |sent| > 0
    ensures forall i :: 0 <= i < |sent| - 1 ==> ok[i]
    ensures |sent| < |segs| ==> !ok[|sent| - 1]
  {
    if |segs| == 0 then []
    else if !ok[0] then [segs[0]]
    else
      var rest := Attempted(segs[1..], ok[1..]);
      assert forall i :: 1 <= i < |rest| ==> ok[1..][i - 1] == ok[i];
      [segs[0]] + rest
  }

  /** A prefix of the writes makes a prefix of the message. */
  lemma {:induction false} ConcatPrefix(a: seq<string>, b: seq<string>)
    requires a <= b
    ensures Concat(a) <= Concat(b)
    decreases |a|
  {
    if |a| > 0 {
      ConcatPrefix(a[1..], b[1..]);
      PrefixAppend(a[0], Concat(a[1..]), Concat(b[1..]));
    }
  }

  lemma PrefixAppend(x: string, p: string, q: string)
    requires p <= q
    ensures x + p <= x + q
  {
    assert forall i :: 0 <= i < |x + p| ==> (x + p)[i] == (x + q)[i];
  }

  /** When every write succeeds, every write is attempted. */
  lemma {:induction false} AttemptedAllOk(segs: seq<string>, ok: seq<bool>)
    requires |ok| == |segs| && forall i :: 0 <= i < |ok| ==> ok[i]
    ensures Attempted(segs, ok) == segs
    decreases |segs|
  {
    if |segs| > 0 {
      assert forall i :: 0 <= i < |ok[1..]| ==> ok[1..][i] == ok[i + 1];
      AttemptedAllOk(segs[1..], ok[1..]);
      assert segs == [segs[0]] + segs[1..];
    }
  }

  /** What `client_error` sends is a prefix of the complete error response,
      and all of it when every write succeeds. */
  lemma ErrorWritesPrefix(cause: string, errnum: string, shortMsg: string, longMsg: string, ok: seq<bool>)
    requires |ok| == 4
    ensures var segs := ErrorSegments(cause, errnum, shortMsg, longMsg);
      Concat(Attempted(segs, ok)) <= Concat(segs)
    ensures (forall i :: 0 <= i < |ok| ==> ok[i]) ==>
      var segs := ErrorSegments(cause, errnum, shortMsg, longMsg);
      Concat(Attempted(segs, ok)) == Concat(segs)
    ensures !ok[0] ==>
      Concat(Attempted(ErrorSegments(cause, errnum, shortMsg, longMsg), ok)) == StatusText(errnum, shortMsg) + CRLF
  {
    var segs := ErrorSegments(cause, errnum, shortMsg, longMsg);
    AttemptedPrefix(segs, ok);
    if !ok[0] {
      FirstWriteFails(segs, ok);
    }
  }

  /** When the first write fails, only that write is attempted. */
  lemma FirstWriteFails(segs: seq<string>, ok: seq<bool>)
    requires |ok| == |segs| && |segs| > 0 && !ok[0]
    ensures Concat(Attempted(segs, ok)) == segs[0]
  {
    assert Attempted(segs, ok) == [segs[0]];
    assert [segs[0]][1..] == [];
    assert Concat([segs[0]]) == segs[0] + "";
  }

  /** The attempted writes make a prefix of the message, all of it when
      every write succeeds. */
  lemma AttemptedPrefix(segs: seq<string>, ok: seq<bool>)
    requires |ok| == |segs|
    ensures Concat(Attempted(segs, ok)) <= Concat(segs)
    ensures (forall i :: 0 <= i < |ok| ==> ok[i]) ==> Concat(Attempted(segs, ok)) == Concat(segs)
  {
    ConcatPrefix(Attempted(segs, ok), segs);
    if forall i :: 0 <= i < |ok| ==> ok[i] {
      AttemptedAllOk(segs, ok);
    }
  }
}
