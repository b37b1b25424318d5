/** Content-type classification (`get_file_type`, tiny.c): the first of
    ".html", ".gif", ".png", ".jpg" that occurs ANYWHERE in the file name
    (a substring test, not a suffix test) decides the type; "text/plain"
    is the fallback. */
module Mime {
  import opened Text

  /** The classification table, in the order the source tests it. */
  const Table: seq<(string, string)> :=
    [(".html", "text/html"), (".gif", "image/gif"), (".png", "image/png"), (".jpg", "image/jpeg")]

  const Fallback: string := "text/plain"

  /** `get_file_type`, written as the source's chain of `strstr` tests. */
  function FileType(filename: string): (t: string)
    ensures t in {"text/html", "image/gif", "image/png", "image/jpeg", Fallback}
  {
    if Find(filename, ".html").Some? then "text/html"
    else if Find(filename, ".gif").Some? then "image/gif"
    else if Find(filename, ".png").Some? then "image/png"
    else if Find(filename, ".jpg").Some? then "image/jpeg"
    else "text/plain"
  }

  /** The position in `table` (from `from` on) of the first entry whose
      pattern occurs in `name`; `|table|` when none does. */
  function FirstMatch(table: seq<(string, string)>, name: string, from: nat): (k: nat)
    requires from <= |table|
    ensures from <= k <= |table|
    ensures k < |table| ==> Contains(name, table[k].0)
    ensures forall j :: from <= j < k ==> !Contains(name, table[j].0)
    decreases |table| - from
  {
    if from == |table| then |table|
    else if Find(name, table[from].0).Some? then from
    else FirstMatch(table, name, from + 1)
  }

  /** Table-driven first-match lookup: the reference definition. */
  function Lookup(table: seq<(string, string)>, name: string): string
  {
    var k := FirstMatch(table, name, 0);
    if k < |table| then table[k].1 else Fallback
  }

  /** The source's if-chain is exactly the first-match lookup over Table. */
  lemma FileTypeIsLookup(filename: string)
    ensures FileType(filename) == Lookup(Table, filename)
  {
    var k := FirstMatch(Table, filename, 0);
    assert Table[0].0 == ".html" && Table[1].0 == ".gif";
    assert Table[2].0 == ".png" && Table[3].0 == ".jpg";
    if k == 4 {
      assert !Contains(filename, Table[0].0) && !Contains(filename, Table[1].0);
      assert !Contains(filename, Table[2].0) && !Contains(filename, Table[3].0);
    }
  }

  /** Each type is chosen exactly when its extension occurs and no earlier
      one in the table does; the fallback exactly when none occurs. */
  lemma FileTypeCharacterised(filename: string)
    ensures FileType(filename) == "text/html" <==> Contains(filename, ".html")
    ensures FileType(filename) == "image/gif" <==>
      !Contains(filename, ".html") && Contains(filename, ".gif")
    ensures FileType(filename) == "image/png" <==>
      !Contains(filename, ".html") && !Contains(filename, ".gif") && Contains(filename, ".png")
    ensures FileType(filename) == "image/jpeg" <==>
      !Contains(filename, ".html") && !Contains(filename, ".gif") && !Contains(filename, ".png")
      && Contains(filename, ".jpg")
    ensures FileType(filename) == Fallback <==>
      !Contains(filename, ".html") && !Contains(filename, ".gif") && !Contains(filename, ".png")
      && !Contains(filename, ".jpg")
  {
  }

  /** Substring, not suffix: an extension in the middle of the name counts,
      and ".html" wins over a later ".png". */
  lemma NotASuffixTest()
    ensures FileType("./a.html.png") == "text/html"
  {
    assert OccursAt("./a.html.png", ".html", 3);
  }
}
