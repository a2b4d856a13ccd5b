# JIRA RSS export — formatting core in Dafny

The utility reads a JIRA issue export, an RSS document whose channel holds a
list of items with a title and a link. It writes the items in one of two
forms:

- **Console lines** (`src/out_writer.rs`). Each item becomes the line
  `TITLE, LINK`. Every comma is removed from the title. The link is cut at
  its first comma.
- **CSV file** (`src/csv_writer.rs`). Each item becomes a one-field record
  holding the HTML anchor `<a href='LINK'>TITLE</a>`. There is no header.
  The records go to a file whose name is derived from the input path.

The model has six modules:

- `Wrappers`: `Option` and `Result`.
- `Feed`: the `Rss` / `Channel` / `Item` records of `src/jira_export_struct.rs:3-17`.
- `Text`: the parts of Rust's `str` that the code uses, on a single-character
  pattern. `split` always yields at least one piece. `replace` is the join of
  the split pieces. `Iterator::nth` is modelled as `Nth`.
- `Paths`: the parts of Rust's `Path`/`PathBuf` that the code uses. A path is
  an absolute flag plus a sequence of normal components. The model covers
  `file_name`, `file_stem`, `extension`, `pop`, `push`, `with_extension` and
  `with_file_name`. Stem and extension split at the last `.` of the file
  name, unless that name's only `.` is its first character.
- `OutWriter` and `CsvWriter`: the two output forms.

Printing becomes a returned sequence of lines. Writing becomes a returned
`CsvFile` value holding the target path and its records. Whether the output
file can be created is a parameter, `canCreate`.

The written output path follows the code, not its stated intent. The
program's own help text for `--csv` promises an "Output to csv file next to
the input file" (`src/main.rs:34`). The code calls `with_extension("out.csv")`
and passes the resulting *whole path* to `with_file_name`. For a bare name
or an absolute path this gives the intended result:
`foo.xml` → `foo.out.csv` and `/a/foo.xml` → `/a/foo.out.csv`. For a
relative path with a directory, the directory appears twice:
`dir/foo.xml` → `dir/dir/foo.out.csv`. The model and its lemmas state this
behaviour as written.

## Model

| member | source | states |
|---|---|---|
| OutWriter.RemoveCommas | src/out_writer.rs:13-15 | The cleaned title contains no comma. It equals the input with exactly the commas filtered out, so every other character is kept in order. |
| OutWriter.RemoveCommasIdentity | src/out_writer.rs:14 | A title that has no comma is returned unchanged. |
| OutWriter.RemoveCommasIdempotent | src/out_writer.rs:14 | Cleaning a title twice gives the same result as cleaning it once. |
| OutWriter.RemoveCommasKeepsOthers | src/out_writer.rs:14 | Every character other than a comma occurs as many times in the cleaned title as in the input. |
| OutWriter.RemoveCommasAppend | src/out_writer.rs:14 | Cleaning a concatenation gives the concatenation of the cleaned parts, so order is preserved. |
| OutWriter.CutComma | src/out_writer.rs:17-19 | The shortened link is a prefix of the link and has no comma. If the link has a comma, the prefix stops exactly at the first one. If not, the link is returned whole, including the empty link. |
| OutWriter.CutCommaFallbackUnreachable | src/out_writer.rs:18 | Splitting any link on `,` yields a first piece, so the `"-"` fallback is never taken and the result is that first piece. |
| OutWriter.CutCommaFirstComma | src/out_writer.rs:18 | The shortened link's length is the index of the first comma, or the whole length when there is no comma. |
| OutWriter.WriteOut | src/out_writer.rs:4-11 | For the channel's items: one line per item, in channel order. Line i is the comma-free title, then `", "`, then the link cut at its first comma. |
| OutWriter.WriteOutAppend | src/out_writer.rs:7-8 | The lines of two item lists in sequence are the lines of the first followed by those of the second. |
| OutWriter.Line | src/out_writer.rs:8 | The line's only comma is the one the format puts between the fields. Splitting the line on commas recovers exactly two fields: the cleaned title, and a space followed by the cut link. |
| OutWriter.OneCommaTitleLine | src/out_writer.rs:8 | A title with one comma inside prints with that comma dropped, e.g. `Hello, World` with link `L` prints as `Hello World, L`. |
| OutWriter.EmptyItemExample | src/out_writer.rs:8 | An item with an empty title and an empty link prints as `", "`. |
| Text.Split | src/out_writer.rs:18 | Splitting yields at least one piece, and no piece contains the separator. The first piece is a prefix of the input that ends at a separator or at the end. |
| Text.JoinSplit | src/out_writer.rs:18 | Joining the pieces of a split with the separator gives back the input. |
| Text.SplitCount | src/out_writer.rs:18 | A split yields one more piece than there are separators in the input. |
| Text.Nth | src/out_writer.rs:18 | `nth(n)` yields a value exactly when the sequence has more than n elements, and that value is element n. |
| Text.Replace | src/out_writer.rs:14 | When the replacement does not contain the pattern, no occurrence of it is left. Replacing the pattern with itself gives back the input. |
| Text.ReplaceEmptyIsWithout | src/out_writer.rs:14 | Replacing a character with the empty string equals filtering that character out. |
| Text.FirstIndexOf | src/out_writer.rs:18 | There is no index exactly when the character is absent. Otherwise the index holds the character and nothing before it does. |
| CsvWriter.MakeAnchor | src/csv_writer.rs:26-28 | The anchor's length is the link's length plus the text's length plus 15. It starts with `<a href='` and ends with `</a>`. The link appears verbatim right after `<a href='`, then `'>`, then the text verbatim. |
| CsvWriter.AnchorRoundTrip | src/csv_writer.rs:27 | Parsing an anchor back gives the original link and text whenever the link has no `'`. |
| CsvWriter.ParseAnchorSound | src/csv_writer.rs:27 | Whatever the parser accepts is exactly the anchor built from the text and link it returns, and that link has no `'`. |
| CsvWriter.AnchorNotInjective | src/csv_writer.rs:27 | Because nothing is escaped, two different (text, link) pairs can give the same anchor. |
| CsvWriter.EmptyAnchor | src/csv_writer.rs:27 | An empty text and an empty link give `<a href=''></a>`. |
| CsvWriter.AnchorRecords | src/csv_writer.rs:16-18 | One record per item, in item order. Each record is a single field holding the anchor of the item's title and link. |
| CsvWriter.WriteFile | src/csv_writer.rs:8-24 | The write fails exactly when the derived output path cannot be created, and the error names that path. On success the file is at the derived path. It has one single-field record per item, in item order, each the anchor of the item's title and link, with no header. |
| CsvWriter.GetOutFile | src/csv_writer.rs:30-33 | Absoluteness is kept. The empty path and `/`, the only represented paths with no file name, are returned unchanged. Otherwise the output's file name is the stem followed by `.out.csv`. |
| CsvWriter.OutFileNameSplit | src/csv_writer.rs:31 | Read back, the output name has stem `STEM.out` and extension `csv`. |
| CsvWriter.OutFileNoExtension | src/csv_writer.rs:31 | A name with no extension gets `.out.csv` appended to it whole. |
| CsvWriter.OutFileBareName | src/csv_writer.rs:30-33 | A bare relative file name maps to the one-component path made of its stem plus `.out.csv`. |
| CsvWriter.OutFileAbsolute | src/csv_writer.rs:30-33 | For an absolute path, the output keeps the input's directory. The result equals `with_extension("out.csv")`. |
| CsvWriter.OutFileRenamed | src/csv_writer.rs:31 | For a path with a file name, `with_extension("out.csv")` keeps absoluteness and parent. It replaces the last component with the stem followed by `.out.csv`. |
| CsvWriter.OutFileRelativeDoublesDirectory | src/csv_writer.rs:31-32 | For a relative path `dir/name`, the output is `dir/dir/` followed by the new file name. The directory appears twice. |
| CsvWriter.OutFileExampleRelative | src/csv_writer.rs:31-32 | For a relative path `dir/STEM.xml` whose stem has no dot, the output is `dir/dir/STEM.out.csv`. |
| Paths.SplitAtDot | src/csv_writer.rs:31 | For a normal file name: stem, `.` and extension put back together give the name. There is no extension exactly when the name has no `.` after its first character. The extension has no `.`, and the stem is a non-empty prefix of the name. |
| Paths.FileStem | src/csv_writer.rs:31 | `file_stem` is a non-empty prefix of the name. It is the whole name when no `.` follows the first character. |
| Paths.Extension | src/csv_writer.rs:31 | `extension` is present exactly when a `.` follows the first character. It has no `.`, and the name is the stem, a `.` and the extension. |
| Paths.AppendExtension | src/csv_writer.rs:31 | After setting an extension with no `.` on a non-empty stem, reading it back gives that stem and that extension. |
| Paths.WithExtension | src/csv_writer.rs:31 | `with_extension` keeps absoluteness, length and parent. It replaces the file name's extension, or leaves a path with no file name unchanged. |
| Paths.Pop | src/csv_writer.rs:32 | `pop` keeps absoluteness and leaves a prefix of the components one shorter. A path with no components is left alone. |
| Paths.DirectoryAndName | src/csv_writer.rs:32 | `file_name` is the last component: a path with a file name is its parent (`pop`) followed by that file name. |
| Paths.PopAfterPush | src/csv_writer.rs:32 | Pushing one component and popping it again gives back the original path. |
| Paths.WithFileNameOneComponent | src/csv_writer.rs:32 | Setting the file name to a one-component name replaces only the last component. |
| Paths.WithFileName | src/csv_writer.rs:32 | `with_file_name` with an absolute name yields that name. With a relative name, it keeps absoluteness and puts all of the name's components after the parent. The name's file name becomes the result's file name. |

## Left out

- `src/xml_reader.rs` is not part of this model. It covers file opening and XML deserialisation. The parsed `Rss` value is taken as input.
- `src/main.rs` is not part of this model. It covers argument parsing, logger set-up and the choice between the two output forms.
- CSV quoting and line termination, done by the `csv` crate, are not modelled. Records are modelled as field sequences before encoding.
- The stderr banner (`[ID] TITLE, LINK` and the dashes) and the `Writing ...` / ` done!` progress messages are not modelled.
- Errors during serialisation of a record after the file was created are not modelled. Only the creation failure is.
- Serde rename attributes are not modelled. They only matter to the deserialiser.
- Paths are not fully modelled. Only normal components are represented, so the model has no `.` or `..`, no trailing separators, no Windows prefixes and no non-UTF-8 names. A path whose last component is `..` has no file name in Rust, and this case is not represented. As a consequence, the model does not show that `get_out_file("..")` gives `../..`: `with_extension` leaves `..` alone, and `with_file_name` then skips the `pop` and pushes `..` onto itself.
- Paths.WithExtension: states the result only for a non-empty extension without `/`, which covers the one the code passes, `out.csv`. Rust also accepts an empty extension, which removes the existing one.
- Text.Split: models splitting on one character only, which is the only pattern the code uses.
