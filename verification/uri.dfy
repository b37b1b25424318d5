/** URI resolution (`parse_uri`, tiny.c): a request URI is dynamic when it
    contains "cgi-bin" anywhere, static otherwise; it is mapped onto a path
    under the working directory and, for dynamic content, the CGI argument
    string that becomes QUERY_STRING (section 4.1.7 of RFC 3875). The
    mapping is purely textual: no ".." segment is interpreted. */
module Uri {
  import opened Text

  /** The result of `parse_uri`: its return value (1 static, 0 dynamic)
      and the two buffers it fills. */
  datatype Target = Target(isStatic: bool, filename: string, cgiargs: string)

  const DynamicMarker: string := "cgi-bin"
  const DefaultDocument: string := "home.html"

  /** `parse_uri`. The URI must be non-empty: the static branch reads its
      last character. */
  function ParseUri(uri: string): (t: Target)
    requires |uri| > 0
    ensures t.isStatic <==> !Contains(uri, DynamicMarker)
    ensures |t.filename| > 0 && t.filename[0] == '.'
    ensures t.isStatic ==> t.cgiargs == ""
  {
    if Find(uri, DynamicMarker).None? then
      var suffix := if uri[|uri| - 1] == '/' then DefaultDocument else "";
      Target(true, "." + uri + suffix, "")
    else
      match Find(uri, "?")
      case None => Target(false, "." + uri, "")
      case Some(i) => Target(false, "." + uri[..i], uri[i + 1..])
  }

  /** A static URI is copied after the "." prefix, and only a trailing '/'
      adds anything: the default document name. */
  lemma StaticResolution(uri: string)
    requires |uri| > 0 && !Contains(uri, DynamicMarker)
    ensures var t := ParseUri(uri);
      && t.isStatic && t.cgiargs == ""
      && t.filename[..|uri| + 1] == "." + uri
      && (uri[|uri| - 1] == '/' ==> t.filename[|uri| + 1..] == DefaultDocument)
      && (uri[|uri| - 1] != '/' ==> |t.filename| == |uri| + 1)
  {
    var t := ParseUri(uri);
    assert t.filename[..|uri| + 1] == "." + uri;
  }

  /** A dynamic URI with a '?' splits at its FIRST '?': the program path
      holds no '?', and putting the pieces back together gives the URI. */
  lemma DynamicWithQuery(uri: string)
    requires Contains(uri, DynamicMarker) && HasChar(uri, '?')
    ensures var t := ParseUri(uri);
      && !t.isStatic
      && "." + uri == t.filename + "?" + t.cgiargs
      && !HasChar(t.filename, '?')
  {
    FindCharIsIndex(uri, '?');
    assert "?" == ['?'];
    var i := Find(uri, "?").value;
    assert ParseUri(uri) == Target(false, "." + uri[..i], uri[i + 1..]);
    SplitAt(uri, i, '?');
  }

  /** Splitting at the first `c` leaves a prefix without `c`, and the pieces
      with `c` between them give back the whole. */
  lemma SplitAt(s: string, i: nat, c: char)
    requires i < |s| && s[i] == c
    requires forall j :: 0 <= j < i ==> s[j] != c
    requires c != '.'
    ensures "." + s == "." + s[..i] + [c] + s[i + 1..]
    ensures !HasChar("." + s[..i], c)
  {
    assert s == s[..i] + [c] + s[i + 1..];
    var p := "." + s[..i];
    forall j | 0 <= j < |p|
      ensures p[j] != c
    {
      if j > 0 {
        assert p[j] == s[j - 1];
      }
    }
  }

  /** A dynamic URI without '?' names the program directly, with no
      arguments. */
  lemma DynamicWithoutQuery(uri: string)
    requires Contains(uri, DynamicMarker) && !HasChar(uri, '?')
    ensures var t := ParseUri(uri);
      && !t.isStatic
      && t.filename == "." + uri
      && t.cgiargs == ""
  {
    FindCharIsIndex(uri, '?');
  }

  /** The split of a dynamic URI is determined by the pieces alone: any
      program path without '?' and argument string that reassemble to the URI
      are the ones `parse_uri` produces. */
  lemma DynamicSplitUnique(uri: string, filename: string, cgiargs: string)
    requires Contains(uri, DynamicMarker)
    requires |filename| > 0 && !HasChar(filename, '?')
    requires "." + uri == filename + "?" + cgiargs
    ensures ParseUri(uri) == Target(false, filename, cgiargs)
  {
    var s := "." + uri;
    var k := |filename|;
    assert s[k] == '?';
    assert uri[k - 1] == '?';
    DynamicWithQuery(uri);
    var t := ParseUri(uri);
    var k' := |t.filename|;
    assert s[k'] == '?';
    assert k' == k;
    assert filename == s[..k] == t.filename;
    assert cgiargs == s[k + 1..] == t.cgiargs;
  }

  /** No path normalisation: ".." segments reach the file system as written. */
  lemma NoNormalisation()
    ensures ParseUri("/../etc/passwd").filename == "./../etc/passwd"
  {
    var u := "/../etc/passwd";
    MissingChar(u, DynamicMarker, 1);
    StaticFile(u);
    DotPrefix();
  }

  /** The resolved name of the traversal URI, spelled out. */
  lemma DotPrefix()
    ensures "." + "/../etc/passwd" == "./../etc/passwd"
  {
  }

  /** A static URI that does not end in '/' names the file "." + uri. */
  lemma StaticFile(uri: string)
    requires |uri| > 0 && !Contains(uri, DynamicMarker) && uri[|uri| - 1] != '/'
    ensures ParseUri(uri) == Target(true, "." + uri, "")
  {
    assert "." + uri + "" == "." + uri;
  }

  /** `GET /` resolves to the default document. */
  lemma RootResolvesToHome()
    ensures ParseUri("/") == Target(true, "./home.html", "")
  {
    MissingChar("/", DynamicMarker, 0);
  }

  /** `GET /cgi-bin/adder?15&20` runs ./cgi-bin/adder with "15&20". */
  lemma AdderResolution()
    ensures ParseUri("/cgi-bin/adder?15&20") == Target(false, "./cgi-bin/adder", "15&20")
  {
    var u := "/cgi-bin/adder?15&20";
    assert OccursAt(u, DynamicMarker, 1);
    DynamicSplitUnique(u, "./cgi-bin/adder", "15&20");
  }
}
