/**
  The export engine: writes every file of one language found by a walk into
  a single output file, each under a three-line header naming the file, in
  walk order, stopping at the first file that cannot be read.
 */
module Export {
  import opened Wrappers
  import opened FileTree
  import opened Text
  import Paths
  import L = Language

  /** The extension the export command looks for, by language name. */
  function ExportExtension(lang: string): (ext: Option<string>)
    ensures ext.Some? <==> lang == "rust" || lang == "python"
    ensures ext.Some? ==> ext.value != [] && '.' !in ext.value && '/' !in ext.value
  {
    if lang == "rust" then Some("rs")
    else if lang == "python" then Some("py")
    else None
  }

  /** The comment symbol of the file headers; unknown names fall back to `#`. */
  function HeaderCommentSymbol(lang: string): (sym: string)
    ensures sym != [] && '\n' !in sym
  {
    if lang == "rust" then "//"
    else if lang == "python" then "#"
    else "#"
  }

  /** The two string tables of this engine agree with the language registry. */
  lemma ExportTablesAgree(lang: string)
    ensures ExportExtension(lang).Some? <==> L.Parse(lang).Some?
    ensures L.Parse(lang).Some? ==>
      ExportExtension(lang) == Some(L.Extension(L.Parse(lang).value)) &&
      HeaderCommentSymbol(lang) == L.CommentSymbol(L.Parse(lang).value)
    ensures L.Parse(lang).None? ==> HeaderCommentSymbol(lang) == "#"
  {
  }

  /** The comment symbol never holds a line feed. */
  lemma HeaderCommentSymbolOneLine(lang: string)
    ensures HeaderCommentSymbol(lang) != [] && '\n' !in HeaderCommentSymbol(lang)
  {
  }

  /** A rule of sixty `=` characters. */
  function Rule(): (r: string)
    ensures |r| == 60 && forall k :: 0 <= k < |r| ==> r[k] == '='
  {
    seq(60, _ => '=')
  }

  /**
    The separator line of a header: the comment symbol, a space and sixty
    `=` characters, on one line.
   */
  function Separator(lang: string): (sep: string)
    ensures |sep| == |HeaderCommentSymbol(lang)| + 61
    ensures sep[..|HeaderCommentSymbol(lang)| + 1] == HeaderCommentSymbol(lang) + " "
    ensures forall k :: |HeaderCommentSymbol(lang)| < k < |sep| ==> sep[k] == '='
    ensures '\n' !in sep
  {
    var sym := HeaderCommentSymbol(lang);
    var sep := sym + " " + Rule();
    HeaderCommentSymbolOneLine(lang);
    assert forall k :: |sym| < k < |sep| ==> sep[k] == Rule()[k - |sym| - 1];
    assert forall k :: 0 <= k < |sym| ==> sep[k] == sym[k];
    sep
  }

  /** The line of a header that names the file. */
  function FileLine(path: string, lang: string): (line: string)
    ensures '\n' !in path ==> '\n' !in line
    ensures |line| == |HeaderCommentSymbol(lang)| + 7 + |path|
  {
    HeaderCommentSymbolOneLine(lang);
    HeaderCommentSymbol(lang) + " File: " + path
  }

  /** The header written above a file: a separator, the line naming it and a separator again. */
  function GenerateFileHeader(path: string, lang: string): (h: string)
    ensures '\n' !in path ==> SplitLines(h) == [Separator(lang), FileLine(path, lang), Separator(lang)]
  {
    var sep := Separator(lang);
    var h := sep + "\n" + FileLine(path, lang) + "\n" + sep;
    if '\n' in path then h
    else
      assert h == sep + "\n" + (FileLine(path, lang) + "\n" + sep);
      SplitAfterLine(sep, FileLine(path, lang) + "\n" + sep);
      SplitAfterLine(FileLine(path, lang), sep);
      SplitSingleLine(sep);
      h
  }

  /**
    What the export writes for one file: its header, its content and an
    empty line, each followed by a line feed.
   */
  function FileBlock(path: string, content: string, lang: string): (b: string)
    ensures |b| == |GenerateFileHeader(path, lang)| + |content| + 3
  {
    GenerateFileHeader(path, lang) + "\n" + content + "\n" + "\n"
  }

  /**
    A block is the three header lines, then the lines of the content, then
    one empty line; the last, empty, piece is where the next block starts.
   */
  lemma FileBlockLines(path: string, content: string, lang: string)
    requires '\n' !in path
    ensures SplitLines(FileBlock(path, content, lang)) ==
            [Separator(lang), FileLine(path, lang), Separator(lang)] + SplitLines(content) + ["", ""]
  {
    var h := GenerateFileHeader(path, lang);
    assert FileBlock(path, content, lang) == h + "\n" + (content + "\n" + "\n");
    SplitJoin(h, content + "\n" + "\n");
    ContentThenBlankLine(content);
  }

  /** A content followed by two line feeds splits into its own lines and two empty ones. */
  lemma ContentThenBlankLine(content: string)
    ensures SplitLines(content + "\n" + "\n") == SplitLines(content) + ["", ""]
  {
    SplitJoin(content, "\n");
    assert "\n" == "" + "\n" + "";
    SplitJoin("", "");
  }

  /**
    A content that ends with a line feed, as text files usually do, is
    followed in its block by two empty lines before the next header.
   */
  lemma TerminatedContentBlock(path: string, line: string, lang: string)
    requires '\n' !in path && '\n' !in line
    ensures SplitLines(FileBlock(path, line + "\n", lang)) ==
            [Separator(lang), FileLine(path, lang), Separator(lang), line, "", "", ""]
  {
    FileBlockLines(path, line + "\n", lang);
    assert line + "\n" == line + "\n" + "";
    SplitAfterLine(line, "");
  }

  /** The block of a file holds the file's content verbatim, right after the header line feed. */
  lemma FileBlockContent(path: string, content: string, lang: string)
    ensures var h := GenerateFileHeader(path, lang);
            var b := FileBlock(path, content, lang);
            |b| == |h| + |content| + 3 && b[|h| + 1..|h| + 1 + |content|] == content
  {
    var h := GenerateFileHeader(path, lang);
    var b := FileBlock(path, content, lang);
    assert b == (h + "\n") + content + "\n\n";
  }

  /** A header sample: the Python file `./a.py` is headed by a rule, its name and a rule. */
  lemma HeaderExample()
    ensures GenerateFileHeader("./a.py", "python") ==
            "# " + Rule() + "\n# File: ./a.py\n# " + Rule()
  {
  }

  /** The output file: the text written to it so far. */
  class OutputFile {
    var contents: string

    /** Creating the file truncates it, so it starts empty. */
    constructor ()
      ensures contents == []
    {
      contents := [];
    }

    /** Writes `s` and a line feed at the end of the file. */
    method WriteLine(s: string)
      modifies this
      ensures contents == old(contents) + s + "\n"
    {
      contents := contents + s + "\n";
    }
  }

  /**
    Appends the file at `path` to the output: reads it, and on success writes
    its header, its content and an empty line. A file that cannot be read
    ends the step with a read error before anything is written.
   */
  method AppendFileToOutput(output: OutputFile, path: string, lang: string, fs: FileSystem) returns (outcome: Outcome)
    modifies output
    ensures outcome == if CanRead(fs, path) then Done else Failed(ReadFailure(path))
    ensures output.contents ==
            old(output.contents) + if CanRead(fs, path) then FileBlock(path, fs[path].content, lang) else []
  {
    if !CanRead(fs, path) {
      assert old(output.contents) + [] == output.contents;
      return Failed(ReadFailure(path));
    }
    var content := fs[path].content;
    var header := GenerateFileHeader(path, lang);
    output.WriteLine(header);
    output.WriteLine(content);
    output.WriteLine("");
    assert output.contents == old(output.contents) + FileBlock(path, content, lang);
    outcome := Done;
  }

  /** The export of `paths` in order after `out` was written, stopping at the first unreadable file. */
  function ExportPaths(paths: seq<string>, lang: string, fs: FileSystem, out: string): (r: (Outcome, string))
    ensures |r.1| >= |out| && r.1[..|out|] == out
    ensures r.0.Failed? ==> r.0.error.ReadFailure?
    decreases |paths|
  {
    if paths == [] then (Done, out)
    else if !CanRead(fs, paths[0]) then (Failed(ReadFailure(paths[0])), out)
    else ExportPaths(paths[1..], lang, fs, out + FileBlock(paths[0], fs[paths[0]].content, lang))
  }

  /** The position of the first unreadable file of `paths`, or `|paths|` when all can be read. */
  function FirstUnreadable(paths: seq<string>, fs: FileSystem): (j: nat)
    ensures j <= |paths|
    ensures forall k :: 0 <= k < j ==> CanRead(fs, paths[k])
    ensures j < |paths| ==> !CanRead(fs, paths[j])
    decreases |paths|
  {
    if paths == [] || !CanRead(fs, paths[0]) then 0
    else 1 + FirstUnreadable(paths[1..], fs)
  }

  /** The blocks of readable files, one after the other. */
  function Blocks(paths: seq<string>, lang: string, fs: FileSystem): string
    requires forall k :: 0 <= k < |paths| ==> CanRead(fs, paths[k])
    decreases |paths|
  {
    if paths == [] then []
    else
      assert CanRead(fs, paths[0]);
      FileBlock(paths[0], fs[paths[0]].content, lang) + Blocks(paths[1..], lang, fs)
  }

  /** The blocks of two runs of files, one after the other, are the blocks of the joined run. */
  lemma {:induction false} BlocksAppend(p1: seq<string>, p2: seq<string>, lang: string, fs: FileSystem)
    requires forall k :: 0 <= k < |p1| ==> CanRead(fs, p1[k])
    requires forall k :: 0 <= k < |p2| ==> CanRead(fs, p2[k])
    ensures forall k :: 0 <= k < |p1 + p2| ==> CanRead(fs, (p1 + p2)[k])
    ensures Blocks(p1 + p2, lang, fs) == Blocks(p1, lang, fs) + Blocks(p2, lang, fs)
    decreases |p1|
  {
    assert forall k :: 0 <= k < |p1 + p2| ==> CanRead(fs, (p1 + p2)[k]) by {
      forall k | 0 <= k < |p1 + p2|
        ensures CanRead(fs, (p1 + p2)[k])
      {
        if k < |p1| {
          assert (p1 + p2)[k] == p1[k];
        } else {
          assert (p1 + p2)[k] == p2[k - |p1|];
        }
      }
    }
    if p1 == [] {
      assert p1 + p2 == p2;
    } else {
      assert (p1 + p2)[1..] == p1[1..] + p2;
      BlocksAppend(p1[1..], p2, lang, fs);
      assert Blocks(p1 + p2, lang, fs) ==
             FileBlock(p1[0], fs[p1[0]].content, lang) + (Blocks(p1[1..], lang, fs) + Blocks(p2, lang, fs));
    }
  }

  /** The block of each file sits in the output between the blocks of the files before and after it. */
  lemma BlocksAt(paths: seq<string>, k: nat, lang: string, fs: FileSystem)
    requires k < |paths|
    requires forall i :: 0 <= i < |paths| ==> CanRead(fs, paths[i])
    ensures Blocks(paths, lang, fs) ==
            Blocks(paths[..k], lang, fs) + FileBlock(paths[k], fs[paths[k]].content, lang) + Blocks(paths[k + 1..], lang, fs)
  {
    assert paths == paths[..k] + paths[k..];
    assert forall i :: 0 <= i < |paths[..k]| ==> paths[..k][i] == paths[i];
    assert forall i :: 0 <= i < |paths[k..]| ==> paths[k..][i] == paths[i + k];
    BlocksAppend(paths[..k], paths[k..], lang, fs);
    assert paths[k..][0] == paths[k];
    assert paths[k..][1..] == paths[k + 1..];
    Associative(Blocks(paths[..k], lang, fs), FileBlock(paths[k], fs[paths[k]].content, lang), Blocks(paths[k + 1..], lang, fs));
  }

  /**
    The export of `paths` writes the blocks of every file before the first
    unreadable one, then stops with that file's read error; when every file
    can be read it writes all blocks and finishes.
   */
  lemma ExportPathsResult(paths: seq<string>, lang: string, fs: FileSystem, out: string)
    ensures var j := FirstUnreadable(paths, fs);
            ExportPaths(paths, lang, fs, out) ==
            (if j < |paths| then Failed(ReadFailure(paths[j])) else Done, out + Blocks(paths[..j], lang, fs))
  {
    ExportPathsOutcome(paths, lang, fs, out);
    ExportPathsOutput(paths, lang, fs, out);
  }

  /** The export stops with the read error of the first unreadable file, and finishes when there is none. */
  lemma {:induction false} ExportPathsOutcome(paths: seq<string>, lang: string, fs: FileSystem, out: string)
    ensures var j := FirstUnreadable(paths, fs);
            ExportPaths(paths, lang, fs, out).0 == if j < |paths| then Failed(ReadFailure(paths[j])) else Done
    decreases |paths|
  {
    if paths != [] && CanRead(fs, paths[0]) {
      var j := FirstUnreadable(paths, fs);
      ExportPathsOutcome(paths[1..], lang, fs, out + FileBlock(paths[0], fs[paths[0]].content, lang));
      assert FirstUnreadable(paths[1..], fs) == j - 1;
      assert j < |paths| ==> paths[1..][j - 1] == paths[j];
    }
  }

  /** The export writes the blocks of the files before the first unreadable one after `out`. */
  lemma {:induction false} ExportPathsOutput(paths: seq<string>, lang: string, fs: FileSystem, out: string)
    ensures ExportPaths(paths, lang, fs, out).1 == out + Blocks(paths[..FirstUnreadable(paths, fs)], lang, fs)
    decreases |paths|
  {
    var j := FirstUnreadable(paths, fs);
    if paths == [] || !CanRead(fs, paths[0]) {
      assert paths[..j] == [];
      assert out + Blocks(paths[..j], lang, fs) == out;
    } else {
      var b := FileBlock(paths[0], fs[paths[0]].content, lang);
      var rest := ExportPaths(paths[1..], lang, fs, out + b);
      assert ExportPaths(paths, lang, fs, out) == rest;
      ExportPathsOutput(paths[1..], lang, fs, out + b);
      assert FirstUnreadable(paths[1..], fs) == j - 1;
      var x := Blocks(paths[1..][..j - 1], lang, fs);
      assert rest.1 == out + b + x;
      BlocksFirst(paths, j, lang, fs);
      Associative(out, b, x);
    }
  }

  /** Concatenation of texts is associative. */
  lemma Associative(a: string, b: string, c: string)
    ensures a + b + c == a + (b + c)
  {
  }

  /** The empty text is a left unit of concatenation. */
  lemma EmptyPrefix(a: string)
    ensures "" + a == a
  {
  }

  /** The blocks of a readable prefix start with the block of its first file. */
  lemma BlocksFirst(paths: seq<string>, j: nat, lang: string, fs: FileSystem)
    requires 0 < j <= |paths|
    requires forall k :: 0 <= k < j ==> CanRead(fs, paths[k])
    ensures Blocks(paths[..j], lang, fs) ==
            FileBlock(paths[0], fs[paths[0]].content, lang) + Blocks(paths[1..][..j - 1], lang, fs)
  {
    assert paths[..j][1..] == paths[1..][..j - 1];
  }

  /** Exporting `[p] + rest`: the block of `p` if it can be read, then the export of `rest`. */
  lemma ExportPathsCons(p: string, rest: seq<string>, lang: string, fs: FileSystem, out: string)
    ensures ExportPaths([p] + rest, lang, fs, out) ==
            if !CanRead(fs, p) then (Failed(ReadFailure(p)), out)
            else ExportPaths(rest, lang, fs, out + FileBlock(p, fs[p].content, lang))
  {
    assert ([p] + rest)[1..] == rest;
  }

  /**
    The export command: fail on an unsupported language before anything
    else, then create the output file, select the language's files from
    the walk and export them. The second component is the output file's
    final text, or nothing when it was never created.
   */
  function ExportRun(lang: string, output: string, walk: seq<WalkItem>, fs: FileSystem): (r: (Outcome, Option<string>))
    ensures r.1.None? <==> ExportExtension(lang).None? || !CanCreate(fs, output)
    ensures r.0.Done? ==> r.1.Some?
  {
    match ExportExtension(lang)
    case None => (Failed(UnsupportedLanguage(lang)), None)
    case Some(ext) =>
      if !CanCreate(fs, output) then (Failed(CreateFailure(output)), None)
      else
        var r := ExportPaths(Selected(walk, ext), lang, fs, "");
        (r.0, Some(r.1))
  }

  /** An unsupported language fails first, and no output file is created. */
  lemma ExportRunUnsupported(lang: string, output: string, walk: seq<WalkItem>, fs: FileSystem)
    requires lang != "rust" && lang != "python"
    ensures ExportRun(lang, output, walk, fs) == (Failed(UnsupportedLanguage(lang)), None)
  {
  }

  /** A supported language with an output file that cannot be created fails before any file is read. */
  lemma ExportRunCreateFails(lang: string, output: string, walk: seq<WalkItem>, fs: FileSystem)
    requires lang == "rust" || lang == "python"
    requires !CanCreate(fs, output)
    ensures ExportRun(lang, output, walk, fs) == (Failed(CreateFailure(output)), None)
  {
  }

  /**
    Once the output file is created, it holds the blocks of the selected
    files up to the first unreadable one, in walk order; the export finishes
    exactly when all selected files can be read, and otherwise reports the
    first unreadable one.
   */
  lemma ExportRunResult(lang: string, output: string, walk: seq<WalkItem>, fs: FileSystem)
    requires lang == "rust" || lang == "python"
    requires CanCreate(fs, output)
    ensures var paths := Selected(walk, ExportExtension(lang).value);
            var j := FirstUnreadable(paths, fs);
            ExportRun(lang, output, walk, fs) ==
            (if j < |paths| then Failed(ReadFailure(paths[j])) else Done, Some(Blocks(paths[..j], lang, fs)))
  {
    var paths := Selected(walk, ExportExtension(lang).value);
    var j := FirstUnreadable(paths, fs);
    var r := ExportPaths(paths, lang, fs, "");
    assert ExportRun(lang, output, walk, fs) == (r.0, Some(r.1));
    ExportPathsOutcome(paths, lang, fs, "");
    ExportPathsOutput(paths, lang, fs, "");
    EmptyPrefix(Blocks(paths[..j], lang, fs));
  }

  /** A walk with no file of the language leaves an empty output file and finishes. */
  lemma ExportRunNothingSelected(lang: string, output: string, walk: seq<WalkItem>, fs: FileSystem)
    requires lang == "rust" || lang == "python"
    requires CanCreate(fs, output)
    requires Selected(walk, ExportExtension(lang).value) == []
    ensures ExportRun(lang, output, walk, fs) == (Done, Some(""))
  {
  }

  /** A walk that finds a single readable file writes exactly that file's block. */
  lemma ExportRunSingleFile(lang: string, output: string, path: string, fs: FileSystem)
    requires lang == "rust" || lang == "python"
    requires CanCreate(fs, output) && CanRead(fs, path)
    requires Paths.Extension(path) == ExportExtension(lang)
    ensures ExportRun(lang, output, [Entry(path, true)], fs) ==
            (Done, Some(FileBlock(path, fs[path].content, lang)))
  {
    var w := [Entry(path, true)];
    assert Selected(w, ExportExtension(lang).value) == [path] by {
      assert w[1..] == [];
    }
    ExportPathsCons(path, [], lang, fs, "");
    assert "" + FileBlock(path, fs[path].content, lang) == FileBlock(path, fs[path].content, lang);
  }

  /** One entry of the walk in the export loop: a selected file is exported first, any other entry is skipped. */
  lemma ExportWalkStep(walk: seq<WalkItem>, i: nat, ext: string, lang: string, fs: FileSystem, out: string)
    requires i < |walk|
    ensures ExportPaths(Selected(walk[i..], ext), lang, fs, out) ==
            if !IsSelected(walk[i], ext) then ExportPaths(Selected(walk[i + 1..], ext), lang, fs, out)
            else if !CanRead(fs, walk[i].path) then (Failed(ReadFailure(walk[i].path)), out)
            else ExportPaths(Selected(walk[i + 1..], ext), lang, fs, out + FileBlock(walk[i].path, fs[walk[i].path].content, lang))
  {
    SelectedFrom(walk, i, ext);
    var rest := Selected(walk[i + 1..], ext);
    if IsSelected(walk[i], ext) {
      assert Selected(walk[i..], ext) == [walk[i].path] + rest;
      ExportPathsCons(walk[i].path, rest, lang, fs, out);
    } else {
      assert Selected(walk[i..], ext) == rest;
    }
  }

  /** The export command with a real output file; it answers as `ExportRun` does. */
  method ExportFiles(lang: string, output: string, walk: seq<WalkItem>, fs: FileSystem) returns (outcome: Outcome, written: Option<string>)
    ensures (outcome, written) == ExportRun(lang, output, walk, fs)
  {
    if ExportExtension(lang).None? {
      return Failed(UnsupportedLanguage(lang)), None;
    }
    var ext := ExportExtension(lang).value;
    if !CanCreate(fs, output) {
      return Failed(CreateFailure(output)), None;
    }
    var file := new OutputFile();
    ghost var run := ExportPaths(Selected(walk, ext), lang, fs, "");
    assert ExportRun(lang, output, walk, fs) == (run.0, Some(run.1));
    assert walk[0..] == walk;
    var i := 0;
    while i < |walk|
      invariant 0 <= i <= |walk|
      invariant run == ExportPaths(Selected(walk[i..], ext), lang, fs, file.contents)
    {
      ExportWalkStep(walk, i, ext, lang, fs, file.contents);
      if IsSelected(walk[i], ext) {
        ghost var before := file.contents;
        var step := AppendFileToOutput(file, walk[i].path, lang, fs);
        if step.Failed? {
          assert file.contents == before;
          return step, Some(file.contents);
        }
      }
      i := i + 1;
    }
    assert walk[i..] == [];
    outcome, written := Done, Some(file.contents);
  }
}
