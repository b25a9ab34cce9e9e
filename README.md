# cdoc, modelled in Dafny

cdoc builds API documentation for a Rails application out of specially
marked comments in its controllers. It keeps the files under
`app/controllers` whose names end in `_controller.rb`. It groups them by
controller name. From each file it pulls the comment blocks that follow a
`#doc` line. The result is one Markdown buffer, which `finish` (left out)
writes as Markdown and as HTML: a title, then a `##` section per
controller, then the blocks of that controller's files, with the following
rendering:

- a line holding an `@tag` becomes a labelled line;
- a run of lines indented by two spaces becomes a fenced code block,
  pretty-printed when it parses as JSON;
- any other line is copied as it is.

The model covers the core of `lib/cdoc.rb`. It is split into these modules:

- `Text` (`text.dfy`): the Ruby string operations the core relies on.
  These are `strip`, `start_with?`/`end_with?`, `sub` with a string
  pattern, `split("\n")`, `join("\n")` and `capitalize`.
- `Tags` (`tags.dfy`): the leftmost, greedy match of `/@\w+/` and
  `DocString#tagged_line`.
- `Extraction` (`extraction.dfy`): `CDoc#extract_documentation`.
  - `Idle` and `Recording` are two mutually recursive functions. They are
    the reference definition: one says what the scan does while not
    recording, the other while recording a block.
  - `ExtractDocumentation` is the loop itself, with the `recording` flag and
    the `docs`/`doclines` arrays. It is proved to return `Documentation` of
    its lines.
- `Subsection` (`subsection.dfy`): how `DocString#subsection` cuts a block
  into tag lines, code runs and plain lines (`Segment`), and how each piece
  is rendered. `Segment` is pinned down by a rule-based characterisation:
  `SegmentWellFormed` and `SegmentUnique`.
- `DocStrings` (`docstring.dfy`): the class `DocString`. Its `title`,
  `section` and `subsection` methods append to the `docstring` field.
  `Subsection` keeps the source's index loop and inner loop (`SubsectionStep`,
  `CodeRunStep`). It is proved to append exactly `SubsectionText` of the
  block's lines.
- `Generation` (`generation.dfy`): the class `CDoc`.
  - Its constructor applies the `_controller.rb` filter.
  - `group_by` is modelled by `GroupBy`, with what it promises proved in
    `GroupByGroups`: distinct keys, exact members in list order, every file
    covered, keys in first-seen order.
  - `Generate` walks the groups and files with loops, as the source does.
    It is proved to append `GenerateText`.

Reading a file (`File.readlines`) is a function parameter `readLines` from
a path to its lines. The JSON library is a value
`JsonLib(parses, pretty)`: `parses(s)` says whether `JSON.parse(s)`
succeeds, and `pretty(s)` is the pretty-printed text. The model does not
look inside either.

Four behaviours of the code are easy to misread; the model follows the
code:

- A `#doc` line followed at once by a non-blank, non-comment line makes an
  empty documentation string `""`; the block is not dropped (`EmptyBlockEmitted`,
  `ClosedBlock` with an empty body). Only an empty block open at the end of
  the file is dropped (`OpenBlockAtEnd`).
- A comment line loses exactly its first `#`. The space after it stays, so
  `# Title` contributes ` Title` (`RemainderDropsHash`).
- A second `#doc` inside an open block is an ordinary comment and adds
  `doc` to the block (`MarkerInsideBlock`).
- The title is the source's literal `Chillr API Documentaion`, typo
  included (`Generation.DocTitle`).

## Model

| member | source | states |
|---|---|---|
| Text.StripUnique | lib/cdoc.rb:164 | `strip` removes exactly the whitespace at both ends: whitespace, a trimmed middle and whitespace strip to the middle |
| Text.StripCutsSpace | lib/cdoc.rb:158 | the stripped line sits inside the line with only whitespace before and after it |
| Text.StripTrimmed | lib/cdoc.rb:169 | stripping an already stripped line (`line.strip.sub`) changes nothing |
| Text.SubFirstLeftmost | lib/cdoc.rb:78 | `sub` with a string pattern replaces the leftmost occurrence and nothing else |
| Text.SubFirstPrefix | lib/cdoc.rb:43 | `sub` of a prefix the string starts with removes exactly that prefix |
| Text.JoinSplitAll | lib/cdoc.rb:31 | joining the pieces between line feeds gives back the string |
| Text.SplitLinesJoin | lib/cdoc.rb:31 | `split("\n")` of a `join("\n")` of line-feed-free lines gives the lines back, less trailing empty lines |
| Tags.FindTag | lib/cdoc.rb:39 | `line.match(/@\w+/)`: none iff no `@` is followed by a word character; otherwise the leftmost such `@`, with the longest run of word characters |
| Tags.TagText | lib/cdoc.rb:40 | `m[0]` is an `@` followed by one or more word characters |
| Tags.TagOccursFirstAtMatch | lib/cdoc.rb:78 | removing the tag text with `sub` removes the matched span, because no earlier copy of it exists |
| Tags.TaggedLineOutput | lib/cdoc.rb:77-86 | `tagged_line` gives a line break and the capitalised tag name without `@`; when the rest of the line is not blank, it adds the stripped rest in bold and two line breaks |
| Tags.TagAnywhere | lib/cdoc.rb:39 | an `@` followed by a word character anywhere in a line makes it a tag line, matched no later than that `@` |
| Subsection.IndentedRun | lib/cdoc.rb:45-64 | the inner loop's run: the longest prefix of lines starting with two spaces |
| Subsection.Segment | lib/cdoc.rb:34-72 | the pieces the loop works through consume every line of the block exactly once, in order |
| Subsection.SegmentWellFormed | lib/cdoc.rb:39-68 | every piece follows the classification: a tag line has a tag; a code run starts untagged and every line of it is indented; a plain line has neither; each code run is maximal |
| Subsection.SegmentUnique | lib/cdoc.rb:39-68 | any cut of the lines that follows those rules is the one `Segment` makes |
| Subsection.TagBeatsIndent | lib/cdoc.rb:39-41 | a tagged line is a tag line even when it starts with two spaces, and consumes only itself |
| Subsection.RunSwallowsTaggedLine | lib/cdoc.rb:45-64 | a code run opened by an untagged indented line takes the next indented line even if that line has a tag |
| Subsection.DedentedDropsIndent | lib/cdoc.rb:43 | each line of a code run loses exactly its first two spaces |
| Subsection.CodeBlockShape | lib/cdoc.rb:49-58 | a code run renders as a `json` fence around the pretty-printed JSON when it parses, and as a bare fence around the code otherwise |
| Subsection.PlainLinesConcatenate | lib/cdoc.rb:66-74 | untagged, unindented lines are one plain piece each, appended with no separator and followed by one line feed |
| DocStrings.DocString.constructor | lib/cdoc.rb:17-19 | a new buffer is empty and has no title |
| DocStrings.DocString.Title | lib/cdoc.rb:21-24 | `title` records the title and appends a line break, `# title`, a line break |
| DocStrings.DocString.Section | lib/cdoc.rb:26-28 | `section` appends a line break, `## str`, a line break, and changes nothing else |
| DocStrings.FenceCode | lib/cdoc.rb:49-58 | the `begin`/`rescue` gives `"\n\n```json\n"`, the pretty-printed JSON and a closing fence when the code parses, and `"\n\n```\n"`, the code as written and a closing fence otherwise |
| DocStrings.CodeRunStep | lib/cdoc.rb:42-65 | the inner loop stops at the first line after the index that is not indented, and its block is the fence of the run's dedented lines |
| DocStrings.SubsectionStep | lib/cdoc.rb:35-71 | one turn of the loop consumes exactly the next piece of `Segment` and appends that piece's rendering |
| DocStrings.DocString.Subsection | lib/cdoc.rb:30-75 | `subsection` appends the renderings of the block's pieces in order, then a line feed, and changes nothing else |
| Extraction.ExtractDocumentation | lib/cdoc.rb:153-184 | the loop returns the joined blocks of the reference scan `Idle` |
| Extraction.IdleSkips | lib/cdoc.rb:157-161 | lines before the first `#doc` line contribute nothing |
| Extraction.RecordingBody | lib/cdoc.rb:163-169 | while recording, blank lines are skipped and each comment line adds its remainder to the open block |
| Extraction.RemainderDropsHash | lib/cdoc.rb:168-169 | a comment line contributes its stripped text without exactly its first `#` |
| Extraction.ClosedBlock | lib/cdoc.rb:158-174 | a marker, then blank and comment lines, then any other line gives exactly one block, even an empty one, and the scan resumes after that line |
| Extraction.EmptyBlockEmitted | lib/cdoc.rb:170-173 | a marker directly followed by a code line yields one empty documentation string |
| Extraction.OpenBlockAtEnd | lib/cdoc.rb:178-182 | a block still open at the end of the file is kept only if it has a line |
| Extraction.NoMarkerNoBlocks | lib/cdoc.rb:157-161 | a file without a `#doc` line has no documentation |
| Extraction.MarkerInsideBlock | lib/cdoc.rb:158-169 | a `#doc` line inside an open block is a comment that adds `doc`, not a new block |
| Extraction.DocumentationSplits | lib/cdoc.rb:172 | for lines as `readlines` gives them, splitting a documentation string at line feeds gives back its block's lines, less trailing empty ones |
| Generation.ControllerFilesKept | lib/cdoc.rb:123 | a path is kept iff it ends in `_controller.rb`, with all its copies |
| Generation.LastComponent | lib/cdoc.rb:130 | the basename is a suffix of the path with no `/`, preceded by `/` unless it is the whole path |
| Generation.LastComponentAfterSlash | lib/cdoc.rb:130 | the last component of `dir/name` is `name` |
| Generation.ControllerBaseName | lib/cdoc.rb:130 | `File.basename("dir/name_controller.rb", "_controller.rb")` is `name` |
| Generation.GroupByGroups | lib/cdoc.rb:130 | `group_by` gives distinct keys; each group holds exactly the files with its key, in list order; every file's key has a group and every group a file; keys come in the order of their first file |
| Generation.GroupByPartition | lib/cdoc.rb:130 | the groups together hold every file exactly as often as the list does |
| Generation.SameNameOneGroup | lib/cdoc.rb:130-133 | two controllers with the same name in any directories share one group, hence one section |
| Generation.CDoc.constructor | lib/cdoc.rb:121-125 | `files` is the globbed list filtered to controller files, with a fresh empty buffer |
| Generation.CDoc.AppendFile | lib/cdoc.rb:134-139 | for one file, `subsection` is appended for each of its documentation strings, in order |
| Generation.CDoc.AppendGroup | lib/cdoc.rb:132-140 | for one group, the capitalised key as a section, then each member file's text |
| Generation.CDoc.Generate | lib/cdoc.rb:127-141 | `generate` sets the title, stores `GroupBy` of the files by basename, and appends the title and every group's text in group order |

## Left out

- File discovery: `Rake::FileList.new('app/controllers/**/*.rb')` is replaced by the constructor's `globbed` parameter. Globbing is file-system I/O.
- Reading a file: `File.readlines` is the function parameter `readLines`. Its `rescue` branch is not modelled. That branch logs a message and returns `nil`, on which `generate` would call `each` and fail; every read succeeds in the model.
- `DocString#finish`, `render_as_markdown`, `render_as_html`, the HTML layout and the CSS copy are left out. They are file output and Markdown-to-HTML rendering in external libraries. `Generate` stops before `@doc.finish`.
- `DocRenderer#block_code` is left out. It is syntax highlighting through Pygments, a foreign library.
- `JSON.parse` and `JSON.pretty_generate` are abstract (`JsonLib`). The model does not describe which strings are JSON or how they are printed.
- The `puts` logging of JSON parser errors and read errors is output only and not modelled.
- Text.Capitalize: only ASCII letters change case. Ruby's Unicode case mapping is not modelled.
- Text.Strip: only the ASCII whitespace Ruby's `strip` removes is modelled; strings are sequences of characters, not encoded bytes.
- Generation.LastComponent: `File.basename` on a path ending in `/` (which Ruby strips first) is not modelled. Controller paths from the glob never end in `/`.
- Generation.CDoc.Generate: `@file_groups` is a Ruby `Hash`; it is modelled as an ordered sequence of `Group` records, which is how its `each` iterates it (insertion order).
