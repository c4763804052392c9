# repolog, modelled in Dafny

repolog is a small command-line tool with two commands over the source
files of one language (`rust` or `python`) found by walking a directory:

- **title** makes sure every file starts with a title comment naming the
  file by its dotted path (`// src.foo.bar` for `./src/foo/bar.rs`). It
  reads each file, decides with a pattern on the first line whether a title
  is already there, and otherwise writes the file back with the title, a
  blank line and the old content.
- **export** concatenates all such files into one output file, each under a
  three-line header (a rule of `=`, a `File:` line naming the path, the rule
  again), in walk order.

A small language registry (`src/language.rs`) maps each language to its
extension and comment symbol. `src/main.rs:6-7` declares only the `export`
and `title` modules, so the registry is never compiled into the tool: both
engines run on their own string matches, and the model proves that those
tables agree with the registry.

The model is split into modules that follow the program:

| file | module | models |
|---|---|---|
| `language.dfy` | `Language` | the language registry |
| `title.dfy` | `Title` | title detection, title generation, the per-file title step and the run over a walk |
| `export.dfy` | `Export` | the file header, the per-file block, the output file and the run over a walk |
| `paths.dfy` | `Paths` | the path operations both engines use: dropping a leading `./`, the extension of the final component, removing it, turning separators into dots |
| `file_tree.dfy` | `FileTree` | walk entries, the file system, error kinds and the extension filter each engine applies to the walk |
| `text.dfy` | `Text` | splitting a text into lines, used to state what "the first line" and "three lines" mean |
| `wrappers.dfy` | `Wrappers` | `Option` |

The file system is a value: a map from path to a file with its content and
whether it may be read and overwritten. Reading fails when the path is
missing or unreadable; creating (truncating) a file fails when it exists
and is not writable. The walk is a sequence of entries (a path and whether
it is a file) and of entries the walk could not read, which both commands
skip. The title command changes files in place, so its operations return
the new file system. The export command only reads the file system and
writes to an output file, modelled as an object whose text grows with
each write; it returns that text, or nothing when the file was never
created. Each method is proved equal to a function that states the same
run step by step; the lemmas about those functions carry the properties.

Two places where the tool's stated intent and its code disagree; the model
follows the code:

- The doc comments at `src/title.rs:11-12` and `src/title.rs:50-53` say a
  title is added only to a file that does not already have one, so a second
  run should change nothing. The title written at `src/title.rs:149` is
  recognised by the pattern at `src/title.rs:104` only when the dotted path
  holds a dot between word characters: a file directly under `.` whose stem
  has no dot (`./main.rs` gives `// main`) gets a further title on every
  run (`Title.SecondRunNoOpIff`, `Title.TopLevelFileTitledTwice`).
- The comment at `src/export.rs:38` says the last write of a file adds an
  empty line between files. The code at `src/export.rs:37-38` writes the
  content, a line feed and one more line feed, so a file
  whose content already ends with a line feed is followed by two empty
  lines (`Export.TerminatedContentBlock`).

## Model

| member | source | states |
|---|---|---|
| Language.Extension | src/language.rs:13-19 | every language has a non-empty extension without dot or separator |
| Language.CommentSymbol | src/language.rs:22-28 | every language has a non-empty one-line comment symbol |
| Language.Parse | src/language.rs:4-9 | a language name parses only to the language of that name |
| Language.ParseName | src/language.rs:4-9 | every language's name parses back to that language |
| Language.ExtensionInjective | src/language.rs:13-19 | distinct languages have distinct extensions |
| Language.CommentSymbolInjective | src/language.rs:22-28 | distinct languages have distinct comment symbols |
| Title.TitleExtension | src/title.rs:30-34 | an extension exists exactly for `rust` and `python`, and it is non-empty with no dot or `/` |
| Title.CommentPattern | src/title.rs:97-101 | the detector has a comment prefix exactly for the supported languages, and it is the symbol that title generation writes |
| Title.TitleCommentSymbol | src/title.rs:131-135 | the comment symbol of a title is non-empty and holds no dot and no line feed |
| Title.TitleTablesAgree | src/title.rs:30-34 | the title engine's extension, pattern and symbol tables accept exactly the registry's names and agree with its extension and comment symbol; unknown names get `#` |
| Export.ExportExtension | src/export.rs:8-12 | an extension exists exactly for `rust` and `python`, and it is non-empty with no dot or `/` |
| Export.HeaderCommentSymbol | src/export.rs:44-48 | the header's comment symbol is non-empty and holds no line feed |
| Export.ExportTablesAgree | src/export.rs:8-12 | the export engine's extension and header-symbol tables agree with the registry; unknown names get `#` |
| Paths.StripCurDir | src/title.rs:137-138 | a path starting with `./` loses exactly those two characters, and any other path is kept as it is |
| Paths.ExtensionDot | src/title.rs:139 | the extension dot is the last dot of the name, never its first character, and there is none exactly for `..` and names with no dot after the first character |
| Paths.Extension | src/title.rs:40-41 | an extension holds no dot and no separator |
| Paths.WithoutExtension | src/title.rs:139 | removing the extension leaves the path when there is none, and otherwise a stem that gives back the path with `.` and the extension |
| Paths.ExtensionOfName | src/title.rs:139 | `dir + stem + "." + ext` has extension `ext` and loses exactly `"." + ext`, even when the stem holds dots |
| Paths.NoExtensionWithoutDot | src/title.rs:37-41 | a file whose name has no dot has no extension, and removing the extension keeps its path |
| Paths.ReplaceSeparators | src/title.rs:141-147 | same length, no separator left, and every other character kept in place |
| Paths.ReplaceSeparatorsConcat | src/title.rs:141-147 | the replacement works character by character, so it distributes over concatenation |
| Paths.ReplaceSeparatorsJoin | src/title.rs:141-147 | a separator between a plain component and the rest becomes a dot |
| FileTree.Selected | src/title.rs:36-42 | the selection has at most one path per walk item, and every selected path has the language's extension |
| FileTree.SelectedMembers | src/title.rs:36-44 | a path is processed exactly when some walk entry is a file with that path and the language's extension; walk errors and other entries are skipped |
| FileTree.SelectedAppend | src/export.rs:17-26 | selection keeps walk order: a joined walk selects the joined selections |
| Title.DottedIffRegex | src/title.rs:103-108 | the pattern `^<comment>.*[a-zA-Z0-9_]+(\.[a-zA-Z0-9_]+)+`, with `.` not crossing a line feed, matches exactly when a word character, a dot and a word character meet on the first line |
| Title.ScanDotted | src/title.rs:108 | the scan succeeds on a word-dot-word at the start of the text, and a success implies a dot in the text |
| Title.ScanDottedCorrect | src/title.rs:108 | the executable scan answers the same as the first-line predicate |
| Title.HasTitle | src/title.rs:96-109 | a title is there exactly when the content starts with the language's comment symbol and the rest of the first line holds a word character, a dot and a word character; unknown languages never have one |
| Title.HasTitleRegex | src/title.rs:103-108 | the detector answers as the regular expression does |
| Title.HasTitleFirstLine | src/title.rs:103-108 | the detector gives the same answer on the first line alone |
| Title.HasTitleIgnoresLaterLines | src/title.rs:103-108 | changing the text after the first line feed never changes the answer |
| Title.NoTitleWithoutDot | src/title.rs:104 | a first line without a dot is never a title |
| Title.HasTitleUnsupported | src/title.rs:97-101 | any language name other than `rust` and `python` has no title |
| Title.TitleLineDetected | src/title.rs:104 | a generated title line `// src.foo.bar` is recognised |
| Title.PlainCommentNotDetected | src/title.rs:104 | `// just a comment` is not a title, whatever follows it |
| Title.FileNameCommentDetected | src/title.rs:104 | `# see README.md` is taken for a title: the detector is a heuristic |
| Title.TrailingCommentNotDetected | src/title.rs:98 | a dotted comment after code on the first line is not a title |
| Title.DottedPath | src/title.rs:137-147 | the dotted path holds no separator |
| Title.GenerateTitle | src/title.rs:130-149 | a title is the comment symbol, a space and a text with no separator |
| Title.GenerateTitleRoundTrip | src/title.rs:137-147 | putting the removed extension back after the dotted part of a title gives the relative path with separators turned into dots |
| Title.DottedPathOf | src/title.rs:137-147 | for a relative path `dir + stem + "." + ext`, the dotted path is `dir + stem` with separators turned into dots |
| Title.NestedFileTitle | src/title.rs:137-149 | `./a/b/stem.ext` is titled `// a.b.stem`, as `./src/foo/bar.rs` becomes `// src.foo.bar` |
| Title.SubdirFileTitle | src/title.rs:137-149 | `./a/stem.ext` is titled `// a.stem` and only the last extension goes, as `./a/b.test.rs` becomes `// a.b.test` |
| Title.RelativeFileTitle | src/title.rs:138 | a path not starting with `./` is kept: `a/stem.ext` is titled `// a.stem` |
| Title.TopLevelFileTitle | src/title.rs:137-149 | `./stem.ext` is titled with the stem alone, as `./main.rs` becomes `// main` |
| Title.TitledContent | src/title.rs:73-75 | the new content equals the old one exactly when the old one already has a title |
| Title.TitledContentPrepends | src/title.rs:73-77 | without a title the new content is the title, a blank line and the old content, which stays as a suffix; with one the content is unchanged |
| Title.TitleDetectedIff | src/title.rs:73-77 | a freshly titled content is recognised exactly when its dotted path holds a dotted word |
| Title.SecondRunNoOpIff | src/title.rs:73-77 | a second title step changes nothing exactly when the content had a title or the dotted path holds a dotted word |
| Title.TopLevelFileTitledTwice | src/title.rs:149 | a top-level file with no dot in its stem and no title gets a second title on a second run |
| Title.AddTitleToFile | src/title.rs:69-80 | the per-file step reads the file, fails on a read error, and writes the titled content only when there was no title, failing when the file cannot be overwritten |
| Title.TitleFile | src/title.rs:69-80 | the step creates and deletes no file, a failing step leaves the file system as it was, and the outcome is success, a read error or a write error on the step's own path |
| Title.TitleFileEffect | src/title.rs:69-80 | the per-file step touches only its own file, reports the read or write error and changes nothing when it fails, leaves titled files unwritten, and otherwise leaves the titled content |
| Title.TitlePaths | src/title.rs:36-45 | a run creates and deletes no file, and a failing run reports a read or write error on one of its paths |
| Title.FirstTitleFailure | src/title.rs:36-45 | the position of the first file whose step fails: every earlier step succeeds |
| Title.TitlePathsFrame | src/title.rs:36-45 | a run creates and deletes no file and leaves every file outside the run as it was |
| Title.TitlePathsOutcome | src/title.rs:36-47 | a run over distinct paths finishes exactly when no step fails and otherwise reports the first failing step's error |
| Title.TitlePathsTitled | src/title.rs:36-45 | in a run over distinct paths, every file before the first failing one is titled |
| Title.TitlePathsUntouched | src/title.rs:36-45 | in a run over distinct paths, the first failing file and every later one are left as they were |
| Title.TitlePathsEffect | src/title.rs:36-47 | the three facts above together |
| Title.TitleRun | src/title.rs:29-48 | the command creates and deletes no file; it fails with an unsupported-language error exactly when the language has no extension, and any other error names a selected path |
| Title.TitleRunUnsupported | src/title.rs:30-34 | an unsupported language fails before the walk, with every file untouched |
| Title.AddTitles | src/title.rs:29-48 | the title command over a walk does what the step-by-step run does: unsupported language first, then the selected files in walk order up to the first failure |
| Export.Rule | src/export.rs:50 | the rule is sixty `=` characters |
| Export.Separator | src/export.rs:50 | the separator is the comment symbol, a space and sixty `=`, one line of `|comment| + 61` characters |
| Export.FileLine | src/export.rs:53-56 | the line naming the file is as long as the comment symbol, ` File: ` and the path together, and holds no line feed when the path holds none |
| Export.GenerateFileHeader | src/export.rs:43-57 | for a path without line feed the header is exactly three lines: separator, `<comment> File: <path>`, separator |
| Export.HeaderExample | src/export.rs:53-56 | the header of `./a.py` in Python is `# ` and the rule, `# File: ./a.py`, `# ` and the rule |
| Export.FileBlock | src/export.rs:35-38 | a block is as long as its header and the content together plus three line feeds |
| Export.FileBlockLines | src/export.rs:35-38 | a file's block is the three header lines, the content's lines and one empty line before the next block |
| Export.FileBlockContent | src/export.rs:35-38 | a file's block holds its content verbatim right after the header's line feed |
| Export.TerminatedContentBlock | src/export.rs:36-38 | a content ending with a line feed is followed by two empty lines |
| Export.OutputFile.constructor | src/export.rs:14-15 | the created output file starts empty |
| Export.OutputFile.WriteLine | src/export.rs:36-38 | a write appends the text and a line feed |
| Export.AppendFileToOutput | src/export.rs:31-41 | a readable file appends exactly its header, content and empty line; an unreadable one fails with a read error and appends nothing |
| Export.FirstUnreadable | src/export.rs:32-33 | the position of the first unreadable file: every earlier file can be read |
| Export.ExportPaths | src/export.rs:17-28 | the export keeps what was written before it, and can only fail with a read error |
| Export.BlocksAppend | src/export.rs:17-26 | the blocks of a joined run of files are the joined blocks |
| Export.BlocksAt | src/export.rs:17-26 | each file's block lies between the blocks of the files before and after it |
| Export.ExportPathsResult | src/export.rs:17-28 | the export writes the blocks of the files before the first unreadable one, then stops with its read error; with all files readable it writes all blocks and finishes |
| Export.ExportRun | src/export.rs:7-29 | the output file is missing exactly when the language is unsupported or the file cannot be created, and a finished command always has an output file |
| Export.ExportRunUnsupported | src/export.rs:8-15 | an unsupported language fails before the output file is created |
| Export.ExportRunCreateFails | src/export.rs:14-15 | an output file that cannot be created fails the command before any file is read |
| Export.ExportRunResult | src/export.rs:7-29 | the output file holds the blocks of the selected files in walk order up to the first unreadable one, and the command finishes exactly when all can be read |
| Export.ExportRunNothingSelected | src/export.rs:17-28 | a walk with no file of the language leaves an empty output file |
| Export.ExportRunSingleFile | src/export.rs:17-38 | a walk with one readable file writes exactly that file's block |
| Export.ExportFiles | src/export.rs:7-29 | the export command with an output file grown in a loop does what the step-by-step run does |

## Left out

- Command-line parsing and dispatch in `src/main.rs`; its promise that export writes to standard output when no output path is given has no counterpart in `export_files`, which always takes an output path.
- Real input and output: files are a map from path to content with read and overwrite permissions; errors of the operating system beyond "cannot read" and "cannot create" are not modelled.
- Title.AddTitleToFile: a write that fails after the file was created and truncated is not modelled; the step either writes the whole new content or fails before writing.
- Export.ExportFiles: errors of the writes to the output file after it was created are not modelled; every write succeeds.
- The output file being itself one of the walked files: files are read from the file system as it was before the export.
- The order and contents of the directory walk, symbolic links and the walk's own errors: the walk is an arbitrary given sequence.
- The `regex` crate: both patterns are written out over characters, and only these two patterns are modelled.
- Path normalisation by the operating system (`//`, `a/./b`, a trailing `/`, `.` alone): paths are `/`-separated text, and stripping `.` removes a literal leading `./`.
- The error of a path that is not valid UTF-8 in `generate_title`: paths are Dafny strings, which always convert.
- File content that is not valid UTF-8: such a file is an unreadable file.
