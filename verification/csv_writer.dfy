/** The CSV sink: the output path derived from the input path, and one
    single-field record per feed item holding an HTML anchor. Creating the file
    and the CSV encoding of the records are abstracted away; the records are
    modelled before quoting. */
module CsvWriter {
  import opened Wrappers
  import Text
  import opened Feed
  import opened Paths

  /** The extension `get_out_file` asks for. */
  const OutExtension: string := "out.csv"

  /** A CSV record: its fields, in order. */
  type Record = seq<string>

  /** What a successful `write_file` leaves behind: the file it created and
      the records it serialised into it, with no header record. */
  datatype CsvFile = CsvFile(path: Path, records: seq<Record>)

  /** `write_file` fails before writing anything when the output file cannot
      be created; the error names the derived path. */
  datatype WriteError = CannotCreate(path: Path)

  /** `<a href='LINK'>TEXT</a>`, with both arguments inserted verbatim: nothing
      is escaped. */
  function MakeAnchor(text: string, link: string): (r: string)
    ensures |r| == |link| + |text| + 15
    ensures "<a href='" <= r && r[|r| - 4..] == "</a>"
    ensures r[9..9 + |link|] == link && r[11 + |link|..|r| - 4] == text
    ensures r[9 + |link|..11 + |link|] == "'>"
  {
    "<a href='" + link + "'>" + text + "</a>"
  }

  /** Reads `(text, link)` back from an anchor, taking the link to end at the
      first `'`. */
  function ParseAnchor(s: string): Option<(string, string)>
  {
    if |s| < 13 || s[..9] != "<a href='" || s[|s| - 4..] != "</a>" then None
    else ParseAnchorBody(s[9..|s| - 4])
  }

  /** Splits the inside of an anchor, `LINK'>TEXT`, at its first `'`. */
  function ParseAnchorBody(body: string): (r: Option<(string, string)>)
    ensures r.Some? ==> '\'' !in r.value.1 && body == r.value.1 + "'>" + r.value.0
  {
    match Text.FirstIndexOf(body, '\'')
    case None => None
    case Some(i) =>
      if i + 2 <= |body| && body[i..i + 2] == "'>" then
        Text.ThreeSlices(body, i, i + 2);
        Some((body[i + 2..], body[..i]))
      else None
  }

  /** The file name `get_out_file` gives the output of an input named `name`. */
  function OutFileName(name: Component): Component
  {
    OutNameShape(FileStem(name));
    ReplaceExtension(name, OutExtension)
  }

  /** Appending the out extension to a stem appends `.out.csv`. */
  lemma OutNameShape(stem: string)
    ensures |OutExtension| > 0 && '/' !in OutExtension
    ensures stem + "." + OutExtension == stem + ".out.csv"
    ensures stem + ".out.csv" == (stem + ".out") + "." + "csv" && '.' !in "csv"
  {
    assert OutExtension == ['o', 'u', 't', '.', 'c', 's', 'v'];
    assert "csv" == ['c', 's', 'v'];
  }

  /** `get_out_file`: `path.with_file_name(path.with_extension("out.csv"))`. */
  function GetOutFile(path: Path): (r: Path)
    ensures r.absolute == path.absolute
    ensures match FileName(path)
            case None => r == path
            case Some(name) => FileName(r) == Some(FileStem(name) + ".out.csv")
  {
    var r := WithFileName(path, WithExtension(path, OutExtension));
    match FileName(path)
    case None => r
    case Some(name) =>
      OutNameShape(FileStem(name));
      r
  }

  /** The records the loop of `write_file` serialises: one per item, in
      order, each a single field holding the item's anchor. */
  method AnchorRecords(items: seq<Item>) returns (records: seq<Record>)
    ensures |records| == |items|
    ensures forall i :: 0 <= i < |items| ==> records[i] == [MakeAnchor(items[i].title, items[i].link)]
  {
    records := [];
    for i := 0 to |items|
      invariant |records| == i
      invariant forall j :: 0 <= j < i ==> records[j] == [MakeAnchor(items[j].title, items[j].link)]
    {
      records := records + [[MakeAnchor(items[i].title, items[i].link)]];
    }
  }

  /** `write_file`: `canCreate` stands for whether `File::create` succeeds on a
      path. On success, the records written are one per item, in channel
      order, each a single field holding the item's anchor. */
  method WriteFile(rss: Rss, path: Path, canCreate: Path -> bool) returns (r: Result<CsvFile, WriteError>)
    ensures r.Failure? <==> !canCreate(GetOutFile(path))
    ensures r.Failure? ==> r.error == CannotCreate(GetOutFile(path))
    ensures r.Success? ==> r.value.path == GetOutFile(path)
    ensures r.Success? ==> |r.value.records| == |rss.channel.items|
    ensures r.Success? ==> forall i :: 0 <= i < |r.value.records| ==>
      r.value.records[i] == [MakeAnchor(rss.channel.items[i].title, rss.channel.items[i].link)]
  {
    var outFile := GetOutFile(path);
    if !canCreate(outFile) {
      return Failure(CannotCreate(outFile));
    }
    var records := AnchorRecords(rss.channel.items);
    r := Success(CsvFile(outFile, records));
  }

  // ---------------------------------------------------------------------------
  // Anchors

  /** A link without `'` can be read back from its anchor together with the
      text, whatever the text holds. */
  lemma AnchorRoundTrip(text: string, link: string)
    requires '\'' !in link
    ensures ParseAnchor(MakeAnchor(text, link)) == Some((text, link))
  {
    var s := MakeAnchor(text, link);
    var body := s[9..|s| - 4];
    assert body == link + "'>" + text;
    Text.FirstIndexOfUnique(body, '\'', |link|);
    assert body[..|link|] == link;
    assert body[|link| + 2..] == text;
  }

  /** Whatever `ParseAnchor` accepts is the anchor of what it returns, and its
      link has no `'`. */
  lemma ParseAnchorSound(s: string)
    requires ParseAnchor(s).Some?
    ensures '\'' !in ParseAnchor(s).value.1
    ensures MakeAnchor(ParseAnchor(s).value.0, ParseAnchor(s).value.1) == s
  {
    var body := s[9..|s| - 4];
    assert s == "<a href='" + body + "</a>" by {
      assert s[..9] == "<a href='" && s[|s| - 4..] == "</a>";
      Text.ThreeSlices(s, 9, |s| - 4);
    }
    var (text, link) := ParseAnchorBody(body).value;
    AnchorAroundBody(text, link);
  }

  /** An anchor is its body between the opening and closing tags. */
  lemma AnchorAroundBody(text: string, link: string)
    ensures MakeAnchor(text, link) == "<a href='" + (link + "'>" + text) + "</a>"
  {
  }

  /** Because nothing is escaped, a `'>` inside the link is indistinguishable
      from the end of the link: two different items give the same anchor. */
  lemma AnchorNotInjective()
    ensures MakeAnchor("z", "x'>y") == MakeAnchor("y'>z", "x")
  {
  }

  /** The boundary item with empty title and link. */
  lemma EmptyAnchor()
    ensures MakeAnchor("", "") == "<a href=''></a>"
  {
  }

  // ---------------------------------------------------------------------------
  // Output path

  /** The output name ends in `.out.csv` after the input's stem; read back as a
      file name, its extension is `csv` and its stem the old stem plus `.out`. */
  lemma OutFileNameSplit(path: Path)
    requires FileName(path).Some?
    ensures SplitAtDot(FileName(GetOutFile(path)).value)
      == (FileStem(FileName(path).value) + ".out", Some("csv"))
  {
    var stem := FileStem(FileName(path).value);
    assert FileName(GetOutFile(path)) == Some(stem + ".out.csv");
    OutNameShape(stem);
    AppendExtension(stem + ".out", "csv");
  }

  /** A name without an extension gets `.out.csv` appended. */
  lemma OutFileNoExtension(path: Path)
    requires FileName(path).Some? && Extension(FileName(path).value).None?
    ensures FileName(GetOutFile(path)) == Some(FileName(path).value + ".out.csv")
  {
  }

  /** A bare file name becomes the bare output name. */
  lemma OutFileBareName(name: Component)
    ensures GetOutFile(Path(false, [name])) == Path(false, [OutFileName(name)])
  {
  }

  /** An absolute path keeps its directory: only the file name changes. */
  lemma OutFileAbsolute(path: Path)
    requires path.absolute && FileName(path).Some?
    ensures Pop(GetOutFile(path)) == Pop(path)
    ensures GetOutFile(path) == WithExtension(path, OutExtension)
  {
  }

  /** `with_extension("out.csv")` keeps the directory and renames the file to
      its stem followed by `.out.csv`. */
  lemma OutFileRenamed(path: Path)
    requires FileName(path).Some?
    ensures WithExtension(path, OutExtension)
      == Path(path.absolute, Pop(path).components + [OutFileName(FileName(path).value)])
  {
    DirectoryAndName(WithExtension(path, OutExtension));
  }

  /** A relative path with a directory gets that directory twice: the whole
      relative path is pushed back under the directory. */
  lemma OutFileRelativeDoublesDirectory(path: Path)
    requires !path.absolute && FileName(path).Some?
    ensures var dir := Pop(path).components;
      GetOutFile(path).components == dir + dir + [OutFileName(FileName(path).value)]
  {
    var dir := Pop(path).components;
    var last := OutFileName(FileName(path).value);
    OutFileRenamed(path);
    assert dir + (dir + [last]) == dir + dir + [last];
  }

  /** `dir/foo.xml` is written to `dir/dir/foo.out.csv`. */
  lemma OutFileExampleRelative(dir: Component, name: Component, stem: string)
    requires |stem| > 0 && '.' !in stem && name == stem + ".xml"
    ensures OutFileName(name) == stem + ".out.csv"
    ensures GetOutFile(Path(false, [dir, name])) == Path(false, [dir, dir, OutFileName(name)])
  {
    assert FileStem(name) == stem by {
      assert name == stem + "." + "xml";
      AppendExtension(stem, "xml");
    }
    var path := Path(false, [dir, name]);
    OutFileRelativeDoublesDirectory(path);
    assert Pop(path).components == [dir];
  }
}
