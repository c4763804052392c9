/**
  The title engine: decides whether a source file already starts with a
  title comment, derives the title from the file's path, prepends it when
  it is missing, and does so for every file of one language in a walk.
 */
module Title {
  import opened Wrappers
  import opened FileTree
  import opened Text
  import Paths
  import L = Language

  /** The extension the title command looks for, by language name. */
  function TitleExtension(lang: string): (ext: Option<string>)
    ensures ext.Some? <==> lang == "rust" || lang == "python"
    ensures ext.Some? ==> ext.value != [] && '.' !in ext.value && '/' !in ext.value
  {
    if lang == "rust" then Some("rs")
    else if lang == "python" then Some("py")
    else None
  }

  /** The comment prefix the title detector anchors at the start of the text, by language name. */
  function CommentPattern(lang: string): (pat: Option<string>)
    ensures pat.Some? <==> TitleExtension(lang).Some?
    ensures pat.Some? ==> pat.value == TitleCommentSymbol(lang)
  {
    if lang == "rust" then Some("//")
    else if lang == "python" then Some("#")
    else None
  }

  /** The comment symbol written in front of a generated title; unknown names fall back to `#`. */
  function TitleCommentSymbol(lang: string): (sym: string)
    ensures sym != [] && '.' !in sym && '\n' !in sym
  {
    if lang == "rust" then "//"
    else if lang == "python" then "#"
    else "#"
  }

  /** The three string tables of this engine agree with the language registry. */
  lemma TitleTablesAgree(lang: string)
    ensures TitleExtension(lang).Some? <==> L.Parse(lang).Some?
    ensures CommentPattern(lang).Some? <==> L.Parse(lang).Some?
    ensures L.Parse(lang).Some? ==>
      TitleExtension(lang) == Some(L.Extension(L.Parse(lang).value)) &&
      CommentPattern(lang) == Some(L.CommentSymbol(L.Parse(lang).value)) &&
      TitleCommentSymbol(lang) == L.CommentSymbol(L.Parse(lang).value)
    ensures L.Parse(lang).None? ==> TitleCommentSymbol(lang) == "#"
  {
  }

  // ---------------------------------------------------------------------
  // Detecting a title
  // ---------------------------------------------------------------------

  /** A character of the class `[a-zA-Z0-9_]`. */
  predicate IsWordChar(c: char)
  {
    'a' <= c <= 'z' || 'A' <= c <= 'Z' || '0' <= c <= '9' || c == '_'
  }

  /** A word character, a dot and a word character start at position `i` of `s`. */
  predicate DottedAt(s: string, i: nat)
    requires i + 2 < |s|
  {
    IsWordChar(s[i]) && s[i + 1] == '.' && IsWordChar(s[i + 2])
  }

  /** Somewhere on the first line of `s` a word character, a dot and a word character follow each other. */
  ghost predicate DottedOnFirstLine(s: string)
  {
    exists i: nat :: i + 2 < |s| && '\n' !in s[..i] && DottedAt(s, i)
  }

  ghost predicate AllWordChars(w: string)
  {
    forall k :: 0 <= k < |w| ==> IsWordChar(w[k])
  }

  /** `t` is matched by `(\.[a-zA-Z0-9_]+)+`: one or more groups of a dot and a word. */
  ghost predicate DotGroups(t: string)
    decreases |t|
  {
    |t| >= 2 && t[0] == '.' &&
    exists m :: 2 <= m <= |t| && AllWordChars(t[1..m]) && (m == |t| || DotGroups(t[m..]))
  }

  /**
    The pattern `.*[a-zA-Z0-9_]+(\.[a-zA-Z0-9_]+)+` matches `s[..e]`, with
    `.*` taking `s[..a]` (which therefore holds no line feed), the first word
    `s[a..b]` and the dotted groups `s[b..e]`.
   */
  ghost predicate RegexMatchAt(s: string, a: nat, b: nat, e: nat)
  {
    a < b < e <= |s| && '\n' !in s[..a] && AllWordChars(s[a..b]) && DotGroups(s[b..e])
  }

  /** The pattern matches a prefix of `s` (the match is anchored where `s` starts). */
  ghost predicate RegexMatches(s: string)
  {
    exists a: nat, b: nat, e: nat :: RegexMatchAt(s, a, b, e)
  }

  /** The regular expression matches exactly when a word, a dot and a word meet on the first line. */
  lemma DottedIffRegex(s: string)
    ensures DottedOnFirstLine(s) <==> RegexMatches(s)
  {
    if DottedOnFirstLine(s) {
      var i: nat :| i + 2 < |s| && '\n' !in s[..i] && DottedAt(s, i);
      var t := s[i + 1..i + 3];
      assert |t| == 2 && t[0] == '.' && t[1..2][0] == s[i + 2];
      assert AllWordChars(t[1..2]);
      assert DotGroups(t);
      assert s[i..i + 1] == [s[i]];
      assert RegexMatchAt(s, i, i + 1, i + 3);
    }
    if RegexMatches(s) {
      var a: nat, b: nat, e: nat :| RegexMatchAt(s, a, b, e);
      var t := s[b..e];
      var m :| 2 <= m <= |t| && AllWordChars(t[1..m]) && (m == |t| || DotGroups(t[m..]));
      assert t[1..m][0] == s[b + 1];
      assert s[a..b][b - 1 - a] == s[b - 1];
      forall k | 0 <= k < b - 1
        ensures s[k] != '\n'
      {
        if k < a {
          assert s[..a][k] == s[k];
        } else {
          assert s[a..b][k - a] == s[k];
        }
      }
      assert '\n' !in s[..b - 1];
      assert DottedAt(s, b - 1);
    }
  }

  /** The scan the matcher performs: try every start position of the first line. */
  function ScanDotted(s: string): (found: bool)
    ensures |s| >= 3 && s[0] != '\n' && DottedAt(s, 0) ==> found
    ensures found ==> |s| >= 3 && '.' in s
    decreases |s|
  {
    if |s| < 3 || s[0] == '\n' then false
    else DottedAt(s, 0) || ScanDotted(s[1..])
  }

  /** The scan finds a match exactly when there is one on the first line. */
  lemma {:induction false} ScanDottedCorrect(s: string)
    ensures ScanDotted(s) <==> DottedOnFirstLine(s)
    decreases |s|
  {
    if |s| >= 3 && s[0] != '\n' {
      ScanDottedCorrect(s[1..]);
      if DottedAt(s, 0) {
        assert '\n' !in s[..0];
      } else if ScanDotted(s[1..]) {
        var i: nat :| i + 2 < |s[1..]| && '\n' !in s[1..][..i] && DottedAt(s[1..], i);
        assert s[..i + 1] == [s[0]] + s[1..][..i];
        assert DottedAt(s, i + 1);
      } else {
        forall i: nat | i + 2 < |s| && '\n' !in s[..i]
          ensures !DottedAt(s, i)
        {
          if i > 0 {
            assert s[1..][..i - 1] == s[1..i];
            assert forall k :: 0 <= k < i - 1 ==> s[1..i][k] == s[..i][k + 1];
            assert !DottedAt(s[1..], i - 1);
          }
        }
      }
    }
  }

  /**
    The content already has a title: it starts with the language's comment
    symbol and, on the rest of its first line, a word character, a dot and a
    word character follow each other. Unknown language names never have one.
   */
  function HasTitle(content: string, lang: string): (b: bool)
    ensures b <==> CommentPattern(lang).Some? && CommentPattern(lang).value <= content &&
                   DottedOnFirstLine(content[|CommentPattern(lang).value|..])
  {
    match CommentPattern(lang)
    case None => false
    case Some(c) =>
      if c <= content then
        var rest := content[|c|..];
        ScanDottedCorrect(rest);
        ScanDotted(rest)
      else false
  }

  /** The detector answers as the regular expression `^<comment>.*[a-zA-Z0-9_]+(\.[a-zA-Z0-9_]+)+` does. */
  lemma HasTitleRegex(content: string, lang: string)
    ensures HasTitle(content, lang) <==>
            CommentPattern(lang).Some? && CommentPattern(lang).value <= content &&
            RegexMatches(content[|CommentPattern(lang).value|..])
  {
    if CommentPattern(lang).Some? && CommentPattern(lang).value <= content {
      DottedIffRegex(content[|CommentPattern(lang).value|..]);
    }
  }

  /** Whether a dotted word is on the first line is decided before the first line feed. */
  lemma DottedOnFirstLineAppend(x: string, y: string)
    ensures DottedOnFirstLine(x + "\n" + y) <==> DottedOnFirstLine(x)
  {
    var s := x + "\n" + y;
    assert s[|x|] == '\n';
    if DottedOnFirstLine(s) {
      var i: nat :| i + 2 < |s| && '\n' !in s[..i] && DottedAt(s, i);
      assert i + 2 < |x|;
      assert s[..i] == x[..i];
      assert DottedAt(x, i);
    }
    if DottedOnFirstLine(x) {
      var i: nat :| i + 2 < |x| && '\n' !in x[..i] && DottedAt(x, i);
      assert s[..i] == x[..i];
      assert DottedAt(s, i);
    }
  }

  /** A leading space never takes part in a match. */
  lemma DottedOnFirstLineSpace(x: string)
    ensures DottedOnFirstLine(" " + x) <==> DottedOnFirstLine(x)
  {
    var s := " " + x;
    if DottedOnFirstLine(s) {
      var i: nat :| i + 2 < |s| && '\n' !in s[..i] && DottedAt(s, i);
      assert i > 0;
      assert s[1..] == x;
      forall k | 0 <= k < i - 1
        ensures x[k] != '\n'
      {
        assert x[k] == s[..i][k + 1];
      }
      assert '\n' !in x[..i - 1];
      assert DottedAt(x, i - 1);
    }
    if DottedOnFirstLine(x) {
      var i: nat :| i + 2 < |x| && '\n' !in x[..i] && DottedAt(x, i);
      assert s[..i + 1] == " " + x[..i];
      assert DottedAt(s, i + 1);
    }
  }

  /** A text without a dot holds no dotted word. */
  lemma NoDotNoDotted(s: string)
    requires '.' !in s
    ensures !DottedOnFirstLine(s)
  {
    forall i: nat | i + 2 < |s| && '\n' !in s[..i]
      ensures !DottedAt(s, i)
    {
      assert s[i + 1] in s;
    }
  }

  /** Only the first line counts: the detector gives the same answer on the first line alone. */
  lemma HasTitleFirstLine(content: string, lang: string)
    ensures HasTitle(content, lang) == HasTitle(FirstLine(content), lang)
  {
    var line := FirstLine(content);
    FirstLineBounds(content);
    if CommentPattern(lang).Some? {
      var c := CommentPattern(lang).value;
      if c <= content {
        assert |c| <= |line|;
        assert c <= line;
        if |line| < |content| {
          assert content[|c|..] == line[|c|..] + "\n" + content[|line| + 1..];
          DottedOnFirstLineAppend(line[|c|..], content[|line| + 1..]);
        } else {
          assert line == content;
        }
      }
    }
  }

  /** Text after the first line feed never changes whether the content has a title. */
  lemma HasTitleIgnoresLaterLines(line: string, t1: string, t2: string, lang: string)
    requires '\n' !in line
    ensures HasTitle(line + "\n" + t1, lang) == HasTitle(line + "\n" + t2, lang)
  {
    HasTitleFirstLine(line + "\n" + t1, lang);
    HasTitleFirstLine(line + "\n" + t2, lang);
    FirstLineOf(line, t1);
    FirstLineOf(line, t2);
  }

  /** A content whose first line holds no dot has no title. */
  lemma NoTitleWithoutDot(content: string, lang: string)
    requires '.' !in FirstLine(content)
    ensures !HasTitle(content, lang)
  {
    HasTitleFirstLine(content, lang);
    var line := FirstLine(content);
    if CommentPattern(lang).Some? && CommentPattern(lang).value <= line {
      var rest := line[|CommentPattern(lang).value|..];
      assert forall k :: 0 <= k < |rest| ==> rest[k] == line[k + |CommentPattern(lang).value|];
      assert forall k :: 0 <= k < |rest| ==> rest[k] in line;
      NoDotNoDotted(rest);
    }
  }

  /** For a language name other than "rust" and "python" the detector always answers no. */
  lemma HasTitleUnsupported(content: string, lang: string)
    requires lang != "rust" && lang != "python"
    ensures !HasTitle(content, lang)
  {
  }

  /** A generated title line is detected. */
  lemma TitleLineDetected()
    ensures HasTitle("// src.foo.bar\n\nfn main() {}", "rust")
  {
    var a := "// src.foo.bar\n\nfn main() {}"[2..];
    assert '\n' !in a[..3] && DottedAt(a, 3);
  }

  /** A plain comment without a dotted word is not a title, whatever code follows it. */
  lemma PlainCommentNotDetected(code: string)
    ensures !HasTitle("// just a comment\n" + code, "rust")
  {
    assert "// just a comment\n" + code == "// just a comment" + "\n" + code;
    FirstLineOf("// just a comment", code);
    NoTitleWithoutDot("// just a comment\n" + code, "rust");
  }

  /** Any comment naming a file on the first line is taken for a title. */
  lemma FileNameCommentDetected()
    ensures HasTitle("# see README.md\nimport os", "python")
  {
    var c := "# see README.md\nimport os"[1..];
    assert '\n' !in c[..10] && DottedAt(c, 10);
  }

  /** The comment symbol must come first: a dotted comment after code is no title. */
  lemma TrailingCommentNotDetected()
    ensures !HasTitle("fn main() {} // src.foo", "rust")
  {
    var s := "fn main() {} // src.foo";
    assert s[0] == 'f';
  }

  // ---------------------------------------------------------------------
  // Generating a title
  // ---------------------------------------------------------------------

  /** The file's path relative to `.`, without its extension, with separators turned into dots. */
  function DottedPath(path: string): (dotted: string)
    ensures forall k :: 0 <= k < |dotted| ==> !Paths.IsSeparator(dotted[k])
  {
    Paths.ReplaceSeparators(Paths.WithoutExtension(Paths.StripCurDir(path)))
  }

  /** A comment symbol, a space and a text without separators: no separator follows the space. */
  lemma TitleLayout(sym: string, d: string)
    requires forall k :: 0 <= k < |d| ==> !Paths.IsSeparator(d[k])
    ensures (sym + " " + d)[..|sym| + 1] == sym + " "
    ensures forall k :: |sym| < k < |sym + " " + d| ==> !Paths.IsSeparator((sym + " " + d)[k])
  {
    var t := sym + " " + d;
    forall k | |sym| < k < |t|
      ensures !Paths.IsSeparator(t[k])
    {
      assert t[k] == d[k - |sym| - 1];
    }
  }

  /**
    The title of the file at `path`: the comment symbol, a space, and a
    dotted path in which no separator is left.
   */
  function GenerateTitle(path: string, lang: string): (title: string)
    ensures |title| > |TitleCommentSymbol(lang)|
    ensures title[..|TitleCommentSymbol(lang)| + 1] == TitleCommentSymbol(lang) + " "
    ensures forall k :: |TitleCommentSymbol(lang)| < k < |title| ==> !Paths.IsSeparator(title[k])
  {
    var sym := TitleCommentSymbol(lang);
    var dotted := DottedPath(path);
    TitleLayout(sym, dotted);
    sym + " " + dotted
  }

  /** The title is the comment symbol, a space and the dotted path. */
  lemma GenerateTitleParts(path: string, lang: string)
    ensures GenerateTitle(path, lang) == TitleCommentSymbol(lang) + " " + DottedPath(path)
    ensures GenerateTitle(path, lang)[|TitleCommentSymbol(lang)| + 1..] == DottedPath(path)
  {
  }

  /**
    The dotted part of a title gives back the relative path, separators
    turned into dots, once the removed extension is put back.
   */
  lemma GenerateTitleRoundTrip(path: string, lang: string)
    ensures var rel := Paths.StripCurDir(path);
            var dotted := GenerateTitle(path, lang)[|TitleCommentSymbol(lang)| + 1..];
            (Paths.Extension(rel).None? ==> dotted == Paths.ReplaceSeparators(rel)) &&
            (Paths.Extension(rel).Some? ==>
               dotted + "." + Paths.ReplaceSeparators(Paths.Extension(rel).value) == Paths.ReplaceSeparators(rel))
  {
    GenerateTitleParts(path, lang);
    ReplaceSeparatorsAroundDot(Paths.StripCurDir(path));
  }

  /** Putting back the extension commutes with turning separators into dots. */
  lemma ReplaceSeparatorsAroundDot(rel: string)
    ensures Paths.Extension(rel).Some? ==>
            Paths.ReplaceSeparators(Paths.WithoutExtension(rel)) + "." + Paths.ReplaceSeparators(Paths.Extension(rel).value) ==
            Paths.ReplaceSeparators(rel)
  {
    if Paths.Extension(rel).Some? {
      var stem := Paths.WithoutExtension(rel);
      var ext := Paths.Extension(rel).value;
      Paths.ReplaceSeparatorsConcat(stem + ".", ext);
      Paths.ReplaceSeparatorsConcat(stem, ".");
      Paths.ReplaceSeparatorsKeeps(".");
    }
  }

  /** A component is plain when it is not empty and holds no separator. */
  predicate PlainComponent(w: string)
  {
    w != [] && '/' !in w && '\\' !in w
  }

  /**
    The dotted path of a file whose path relative to `.` is
    `dir + stem + "." + ext`: the directory and the stem with separators
    turned into dots, the last extension gone.
   */
  lemma DottedPathOf(path: string, dir: string, stem: string, ext: string)
    requires Paths.StripCurDir(path) == dir + stem + "." + ext
    requires dir == [] || dir[|dir| - 1] == '/'
    requires PlainComponent(stem) && '/' !in ext && '.' !in ext && stem + "." + ext != ".."
    ensures DottedPath(path) == Paths.ReplaceSeparators(dir + stem)
  {
    Paths.ExtensionOfName(dir, stem, ext);
  }

  /**
    A file two directories below `.` is titled with both directories and
    its stem joined by dots, as `./src/foo/bar.rs` becomes `// src.foo.bar`;
    only the last extension goes, so `./a/b/c.test.rs` becomes `// a.b.c.test`.
   */
  lemma NestedFileTitle(a: string, b: string, stem: string, ext: string)
    requires PlainComponent(a) && PlainComponent(b) && PlainComponent(stem)
    requires ext != [] && '/' !in ext && '.' !in ext
    ensures GenerateTitle("./" + a + "/" + b + "/" + stem + "." + ext, "rust") == "// " + a + "." + b + "." + stem
  {
    var path := "./" + a + "/" + b + "/" + stem + "." + ext;
    var dir := a + "/" + b + "/";
    assert path == "./" + (dir + stem + "." + ext);
    assert path[0] == '.' && path[1] == '/' && path[2..] == dir + stem + "." + ext;
    assert Paths.StripCurDir(path) == dir + stem + "." + ext;
    assert dir[|dir| - 1] == '/';
    assert |stem + "." + ext| > 2;
    DottedPathOf(path, dir, stem, ext);
    JoinTwo(a, b, stem);
    GenerateTitleParts(path, "rust");
    TitleText("//", a + "." + b + "." + stem);
    assert GenerateTitle(path, "rust") == "//" + (" " + (a + "." + b + "." + stem));
    NestedTitleText(a, b, stem);
  }

  /** Two plain directories and a stem, joined by separators, become joined by dots. */
  lemma JoinTwo(a: string, b: string, stem: string)
    requires PlainComponent(a) && PlainComponent(b) && PlainComponent(stem)
    ensures Paths.ReplaceSeparators(a + "/" + b + "/" + stem) == a + "." + b + "." + stem
  {
    assert a + "/" + b + "/" + stem == a + "/" + (b + "/" + stem);
    Paths.ReplaceSeparatorsJoin(a, b + "/" + stem);
    Paths.ReplaceSeparatorsJoin(b, stem);
    Paths.ReplaceSeparatorsKeeps(stem);
  }

  /** Regrouping the text of a title two directories deep. */
  lemma NestedTitleText(a: string, b: string, stem: string)
    ensures "//" + (" " + (a + "." + b + "." + stem)) == "// " + a + "." + b + "." + stem
  {
  }

  /** Regrouping a comment symbol, a space and a dotted path. */
  lemma TitleText(sym: string, d: string)
    ensures sym + " " + d == sym + (" " + d)
  {
  }

  /**
    A file one directory below `.` is titled with the directory and its
    stem joined by a dot; only the last extension goes, so `./a/b.test.rs`
    becomes `// a.b.test`.
   */
  lemma SubdirFileTitle(a: string, stem: string, ext: string)
    requires PlainComponent(a) && PlainComponent(stem)
    requires ext != [] && '/' !in ext && '.' !in ext
    ensures GenerateTitle("./" + a + "/" + stem + "." + ext, "rust") == "// " + a + "." + stem
  {
    var path := "./" + a + "/" + stem + "." + ext;
    var dir := a + "/";
    assert path == "./" + (dir + stem + "." + ext);
    assert path[0] == '.' && path[1] == '/' && path[2..] == dir + stem + "." + ext;
    assert Paths.StripCurDir(path) == dir + stem + "." + ext;
    assert |stem + "." + ext| > 2;
    DottedPathOf(path, dir, stem, ext);
    Paths.ReplaceSeparatorsJoin(a, stem);
    Paths.ReplaceSeparatorsKeeps(stem);
    GenerateTitleParts(path, "rust");
    TitleText("//", a + "." + stem);
    assert GenerateTitle(path, "rust") == "//" + (" " + (a + "." + stem));
    SubdirTitleText(a, stem);
  }

  /** Regrouping the text of a title one directory deep. */
  lemma SubdirTitleText(a: string, stem: string)
    ensures "//" + (" " + (a + "." + stem)) == "// " + a + "." + stem
  {
  }

  /** A path that does not start with `./` is used as it is: `src/main.rs` is titled `// src.main`. */
  lemma RelativeFileTitle(a: string, stem: string, ext: string)
    requires PlainComponent(a) && a != "." && PlainComponent(stem)
    requires ext != [] && '/' !in ext && '.' !in ext
    ensures GenerateTitle(a + "/" + stem + "." + ext, "rust") == "// " + a + "." + stem
  {
    var path := a + "/" + stem + "." + ext;
    var dir := a + "/";
    assert path == dir + stem + "." + ext;
    assert !(path[..2] == "./") by {
      if |a| == 1 {
        assert path[0] == a[0] && a != ".";
        assert a == [a[0]];
      } else {
        assert path[1] == a[1] && a[1] in a;
      }
    }
    assert |stem + "." + ext| > 2;
    DottedPathOf(path, dir, stem, ext);
    Paths.ReplaceSeparatorsJoin(a, stem);
    Paths.ReplaceSeparatorsKeeps(stem);
    GenerateTitleParts(path, "rust");
    TitleText("//", a + "." + stem);
    assert GenerateTitle(path, "rust") == "//" + (" " + (a + "." + stem));
    SubdirTitleText(a, stem);
  }

  /** A file directly under `.`, such as `./main.rs`, is titled with its stem alone: `// main`. */
  lemma TopLevelFileTitle(stem: string, ext: string, lang: string)
    requires PlainComponent(stem) && ext != [] && '/' !in ext && '.' !in ext
    ensures DottedPath("./" + stem + "." + ext) == stem
    ensures GenerateTitle("./" + stem + "." + ext, lang) == TitleCommentSymbol(lang) + " " + stem
  {
    var path := "./" + stem + "." + ext;
    assert path == "./" + ("" + stem + "." + ext);
    assert |stem + "." + ext| > 2;
    DottedPathOf(path, "", stem, ext);
    assert "" + stem == stem;
    Paths.ReplaceSeparatorsKeeps(stem);
    GenerateTitleParts(path, lang);
  }

  // ---------------------------------------------------------------------
  // Adding a title to one file
  // ---------------------------------------------------------------------

  /** The content a file has after the title step: unchanged if it has a title, else the title, a blank line and the old content. */
  function TitledContent(content: string, path: string, lang: string): (r: string)
    ensures r == content <==> HasTitle(content, lang)
  {
    if HasTitle(content, lang) then content
    else GenerateTitle(path, lang) + "\n\n" + content
  }

  /** Without a title the old content is kept verbatim after the title and one blank line; with one nothing changes. */
  lemma TitledContentPrepends(content: string, path: string, lang: string)
    ensures var r := TitledContent(content, path, lang);
            (HasTitle(content, lang) ==> r == content) &&
            (!HasTitle(content, lang) ==>
               r == GenerateTitle(path, lang) + "\n\n" + content && |r| > |content| &&
               r[|r| - |content|..] == content)
  {
  }

  /** A titled content is the comment symbol followed by the rest of the title line, a line feed and the rest. */
  lemma TitledLayout(sym: string, d: string, content: string)
    ensures var rest := " " + (d + "\n" + ("\n" + content));
            sym + " " + d + "\n\n" + content == sym + rest &&
            sym <= sym + rest && (sym + rest)[|sym|..] == rest
  {
  }

  /** A freshly titled content is recognised as titled exactly when its dotted path holds a dotted word. */
  lemma TitleDetectedIff(path: string, lang: string, content: string)
    requires lang == "rust" || lang == "python"
    ensures HasTitle(GenerateTitle(path, lang) + "\n\n" + content, lang) <==> DottedOnFirstLine(DottedPath(path))
  {
    var sym := TitleCommentSymbol(lang);
    var d := DottedPath(path);
    GenerateTitleParts(path, lang);
    var s := GenerateTitle(path, lang) + "\n\n" + content;
    var rest := " " + (d + "\n" + ("\n" + content));
    TitledLayout(sym, d, content);
    assert CommentPattern(lang) == Some(sym);
    DottedOnFirstLineSpace(d + "\n" + ("\n" + content));
    DottedOnFirstLineAppend(d, "\n" + content);
  }

  /**
    Running the title step twice gives the same content as running it once
    exactly when the content already had a title or the generated title is
    itself recognised, that is, its dotted path holds a dotted word.
   */
  lemma SecondRunNoOpIff(content: string, path: string, lang: string)
    requires lang == "rust" || lang == "python"
    ensures TitledContent(TitledContent(content, path, lang), path, lang) == TitledContent(content, path, lang)
            <==> HasTitle(content, lang) || DottedOnFirstLine(DottedPath(path))
  {
    if !HasTitle(content, lang) {
      var once := GenerateTitle(path, lang) + "\n\n" + content;
      TitleDetectedIff(path, lang, content);
      if !DottedOnFirstLine(DottedPath(path)) {
        assert |TitledContent(once, path, lang)| > |once|;
      }
    }
  }

  /**
    A file directly under `.` whose stem has no dot, such as `./main.rs`,
    gets a title (`// main`) that is not recognised as one, so every further
    run adds another title to an untitled file.
   */
  lemma TopLevelFileTitledTwice(stem: string, content: string, lang: string)
    requires lang == "rust" || lang == "python"
    requires PlainComponent(stem) && '.' !in stem
    requires !HasTitle(content, lang)
    ensures var path := "./" + stem + "." + TitleExtension(lang).value;
            TitledContent(TitledContent(content, path, lang), path, lang) != TitledContent(content, path, lang)
  {
    var path := "./" + stem + "." + TitleExtension(lang).value;
    TopLevelFileTitle(stem, TitleExtension(lang).value, lang);
    NoDotNoDotted(stem);
    SecondRunNoOpIff(content, path, lang);
  }

  /** The title step on the file at `path`: read it, and write it back with a title only when it has none. */
  function TitleFile(path: string, lang: string, fs: FileSystem): (r: (Outcome, FileSystem))
    ensures r.1.Keys == fs.Keys
    ensures r.0.Failed? ==> r.1 == fs
    ensures r.0 in {Done, Failed(ReadFailure(path)), Failed(WriteFailure(path))}
  {
    if !CanRead(fs, path) then (Failed(ReadFailure(path)), fs)
    else if HasTitle(fs[path].content, lang) then (Done, fs)
    else if !CanCreate(fs, path) then (Failed(WriteFailure(path)), fs)
    else (Done, fs[path := fs[path].(content := TitledContent(fs[path].content, path, lang))])
  }

  method AddTitleToFile(path: string, lang: string, fs: FileSystem) returns (outcome: Outcome, after: FileSystem)
    ensures (outcome, after) == TitleFile(path, lang, fs)
  {
    after := fs;
    if !CanRead(fs, path) {
      return Failed(ReadFailure(path)), fs;
    }
    var content := fs[path].content;
    if !HasTitle(content, lang) {
      var title := GenerateTitle(path, lang);
      content := title + "\n\n" + content;
      if !CanCreate(fs, path) {
        return Failed(WriteFailure(path)), fs;
      }
      after := fs[path := fs[path].(content := content)];
    }
    outcome := Done;
  }

  /** The title step fails on the file at `p`: it cannot be read, or it has no title and cannot be overwritten. */
  predicate TitleFails(p: string, lang: string, fs: FileSystem)
  {
    !CanRead(fs, p) || (!HasTitle(fs[p].content, lang) && !CanCreate(fs, p))
  }

  /** The error a failing title step reports. */
  function TitleError(p: string, fs: FileSystem): Error
  {
    if !CanRead(fs, p) then ReadFailure(p) else WriteFailure(p)
  }

  /** The file at `q` was titled: it was readable and now holds its titled content. */
  ghost predicate Titled(before: FileSystem, after: FileSystem, q: string, lang: string)
  {
    CanRead(before, q) && q in after &&
    after[q] == before[q].(content := TitledContent(before[q].content, q, lang))
  }

  /**
    The title step touches its own file only: when it fails it reports the
    read or write error and changes nothing, otherwise the file now holds
    its titled content, and a file that already had a title is not written.
   */
  lemma TitleFileEffect(path: string, lang: string, fs: FileSystem)
    ensures TitleFile(path, lang, fs).1.Keys == fs.Keys
    ensures forall q :: q in fs && q != path ==> TitleFile(path, lang, fs).1[q] == fs[q]
    ensures TitleFile(path, lang, fs).0 ==
            if TitleFails(path, lang, fs) then Failed(TitleError(path, fs)) else Done
    ensures TitleFails(path, lang, fs) ==> TitleFile(path, lang, fs).1 == fs
    ensures !TitleFails(path, lang, fs) ==> Titled(fs, TitleFile(path, lang, fs).1, path, lang)
    ensures CanRead(fs, path) && HasTitle(fs[path].content, lang) ==> TitleFile(path, lang, fs) == (Done, fs)
  {
  }

  // ---------------------------------------------------------------------
  // Adding titles along a walk
  // ---------------------------------------------------------------------

  /** The title step applied to `paths` in order, stopping at the first failure. */
  function TitlePaths(paths: seq<string>, lang: string, fs: FileSystem): (r: (Outcome, FileSystem))
    ensures r.1.Keys == fs.Keys
    ensures r.0.Failed? ==> (r.0.error.ReadFailure? || r.0.error.WriteFailure?) && r.0.error.path in paths
    decreases |paths|
  {
    if paths == [] then (Done, fs)
    else
      var step := TitleFile(paths[0], lang, fs);
      if step.0.Failed? then step else TitlePaths(paths[1..], lang, step.1)
  }

  /** The position of the first of `paths` whose title step fails on `fs`, or `|paths|` when none does. */
  function FirstTitleFailure(paths: seq<string>, lang: string, fs: FileSystem): (j: nat)
    ensures j <= |paths|
    ensures forall k :: 0 <= k < j ==> !TitleFails(paths[k], lang, fs)
    ensures j < |paths| ==> TitleFails(paths[j], lang, fs)
    decreases |paths|
  {
    if paths == [] then 0
    else if TitleFails(paths[0], lang, fs) then 0
    else 1 + FirstTitleFailure(paths[1..], lang, fs)
  }

  /** Where the first failure is depends only on the files at the given paths. */
  lemma {:induction false} FirstTitleFailureLocal(paths: seq<string>, lang: string, fs: FileSystem, fs': FileSystem)
    requires forall q :: q in paths ==> (q in fs <==> q in fs') && (q in fs ==> fs[q] == fs'[q])
    ensures FirstTitleFailure(paths, lang, fs) == FirstTitleFailure(paths, lang, fs')
    decreases |paths|
  {
    if paths != [] {
      assert paths[0] in paths;
      FirstTitleFailureLocal(paths[1..], lang, fs, fs');
    }
  }

  /** A run over `paths` creates and deletes no file and leaves every file outside `paths` as it was. */
  lemma {:induction false} TitlePathsFrame(paths: seq<string>, lang: string, fs: FileSystem)
    ensures TitlePaths(paths, lang, fs).1.Keys == fs.Keys
    ensures forall q :: q in fs && q !in paths ==> TitlePaths(paths, lang, fs).1[q] == fs[q]
    decreases |paths|
  {
    if paths != [] {
      var step := TitleFile(paths[0], lang, fs);
      TitleFileEffect(paths[0], lang, fs);
      if step.0.Done? {
        TitlePathsFrame(paths[1..], lang, step.1);
        forall q | q in fs && q !in paths
          ensures TitlePaths(paths, lang, fs).1[q] == fs[q]
        {
          assert q !in paths[1..];
        }
      }
    }
  }

  /**
    One successful step of a run over distinct paths: the run goes on over
    the rest from the stepped file system, which agrees with the old one on
    every later path, so the first failure is one position further on.
   */
  lemma TitlePathsStep(paths: seq<string>, lang: string, fs: FileSystem)
    requires Distinct(paths) && paths != [] && !TitleFails(paths[0], lang, fs)
    ensures var fs1 := TitleFile(paths[0], lang, fs).1;
            TitlePaths(paths, lang, fs) == TitlePaths(paths[1..], lang, fs1) &&
            Distinct(paths[1..]) && paths[0] !in paths[1..] &&
            Titled(fs, fs1, paths[0], lang) &&
            FirstTitleFailure(paths, lang, fs) == 1 + FirstTitleFailure(paths[1..], lang, fs1) &&
            forall q :: q in paths[1..] ==> (q in fs1 <==> q in fs) && (q in fs ==> fs1[q] == fs[q])
  {
    var p := paths[0];
    var rest := paths[1..];
    var fs1 := TitleFile(p, lang, fs).1;
    TitleFileEffect(p, lang, fs);
    assert p !in rest by {
      forall k | 0 <= k < |rest| ensures rest[k] != p { assert rest[k] == paths[k + 1]; }
    }
    FirstTitleFailureLocal(rest, lang, fs, fs1);
  }

  /** The error reported for `q` depends only on the file at `q`. */
  lemma TitleErrorAgrees(q: string, fs: FileSystem, fs1: FileSystem)
    requires (q in fs1 <==> q in fs) && (q in fs ==> fs1[q] == fs[q])
    ensures TitleError(q, fs1) == TitleError(q, fs)
  {
  }

  /** A run over distinct paths finishes exactly when no step fails; otherwise it reports the first failing step's error. */
  lemma {:induction false} TitlePathsOutcome(paths: seq<string>, lang: string, fs: FileSystem)
    requires Distinct(paths)
    ensures TitlePaths(paths, lang, fs).0 ==
            if FirstTitleFailure(paths, lang, fs) == |paths| then Done
            else Failed(TitleError(paths[FirstTitleFailure(paths, lang, fs)], fs))
    decreases |paths|
  {
    if paths != [] {
      if TitleFails(paths[0], lang, fs) {
        TitleFileEffect(paths[0], lang, fs);
      } else {
        var rest := paths[1..];
        var fs1 := TitleFile(paths[0], lang, fs).1;
        TitlePathsStep(paths, lang, fs);
        TitlePathsOutcome(rest, lang, fs1);
        var j := FirstTitleFailure(rest, lang, fs1);
        assert FirstTitleFailure(paths, lang, fs) == j + 1;
        if j < |rest| {
          assert rest[j] in rest && paths[j + 1] == rest[j];
          TitleErrorAgrees(rest[j], fs, fs1);
        }
      }
    }
  }

  /** A run over distinct paths titles every path before the first failing one. */
  lemma {:induction false} TitlePathsTitled(paths: seq<string>, lang: string, fs: FileSystem)
    requires Distinct(paths)
    ensures forall k :: 0 <= k < FirstTitleFailure(paths, lang, fs) ==>
              Titled(fs, TitlePaths(paths, lang, fs).1, paths[k], lang)
    decreases |paths|
  {
    if paths != [] && !TitleFails(paths[0], lang, fs) {
      var rest := paths[1..];
      var fs1 := TitleFile(paths[0], lang, fs).1;
      var r := TitlePaths(rest, lang, fs1);
      TitlePathsStep(paths, lang, fs);
      TitlePathsTitled(rest, lang, fs1);
      TitlePathsFrame(rest, lang, fs1);
      forall k | 0 <= k < FirstTitleFailure(paths, lang, fs)
        ensures Titled(fs, r.1, paths[k], lang)
      {
        if k > 0 {
          assert paths[k] == rest[k - 1] && paths[k] in rest;
          assert Titled(fs1, r.1, rest[k - 1], lang);
        }
      }
    }
  }

  /** A run over distinct paths leaves the first failing path and every later one as it was. */
  lemma {:induction false} TitlePathsUntouched(paths: seq<string>, lang: string, fs: FileSystem)
    requires Distinct(paths)
    ensures forall k :: FirstTitleFailure(paths, lang, fs) <= k < |paths| && paths[k] in fs ==>
              paths[k] in TitlePaths(paths, lang, fs).1 && TitlePaths(paths, lang, fs).1[paths[k]] == fs[paths[k]]
    decreases |paths|
  {
    if paths != [] {
      TitleFileEffect(paths[0], lang, fs);
      if !TitleFails(paths[0], lang, fs) {
        var rest := paths[1..];
        var fs1 := TitleFile(paths[0], lang, fs).1;
        var r := TitlePaths(rest, lang, fs1);
        TitlePathsStep(paths, lang, fs);
        TitlePathsUntouched(rest, lang, fs1);
        forall k | FirstTitleFailure(paths, lang, fs) <= k < |paths| && paths[k] in fs
          ensures paths[k] in r.1 && r.1[paths[k]] == fs[paths[k]]
        {
          assert paths[k] == rest[k - 1] && paths[k] in rest;
        }
      }
    }
  }

  /**
    A run over distinct paths titles every path before the first one whose
    step fails, leaves that one and all later ones untouched, and finishes
    exactly when no step fails; otherwise it reports that step's error.
   */
  lemma TitlePathsEffect(paths: seq<string>, lang: string, fs: FileSystem)
    requires Distinct(paths)
    ensures TitlePaths(paths, lang, fs).0 ==
            if FirstTitleFailure(paths, lang, fs) == |paths| then Done
            else Failed(TitleError(paths[FirstTitleFailure(paths, lang, fs)], fs))
    ensures forall k :: 0 <= k < FirstTitleFailure(paths, lang, fs) ==>
              Titled(fs, TitlePaths(paths, lang, fs).1, paths[k], lang)
    ensures forall k :: FirstTitleFailure(paths, lang, fs) <= k < |paths| && paths[k] in fs ==>
              paths[k] in TitlePaths(paths, lang, fs).1 && TitlePaths(paths, lang, fs).1[paths[k]] == fs[paths[k]]
  {
    TitlePathsOutcome(paths, lang, fs);
    TitlePathsTitled(paths, lang, fs);
    TitlePathsUntouched(paths, lang, fs);
  }

  /** Titling `[p] + rest`: the step on `p`, then, unless it failed, the run over `rest`. */
  lemma TitlePathsCons(p: string, rest: seq<string>, lang: string, fs: FileSystem)
    ensures TitlePaths([p] + rest, lang, fs) ==
            if TitleFile(p, lang, fs).0.Failed? then TitleFile(p, lang, fs)
            else TitlePaths(rest, lang, TitleFile(p, lang, fs).1)
  {
    assert ([p] + rest)[1..] == rest;
  }

  /** The title command: select the language's files from the walk, then title them in walk order. */
  function TitleRun(lang: string, walk: seq<WalkItem>, fs: FileSystem): (r: (Outcome, FileSystem))
    ensures r.1.Keys == fs.Keys
    ensures r.0.Failed? && r.0.error.UnsupportedLanguage? <==> TitleExtension(lang).None?
    ensures r.0.Failed? && !r.0.error.UnsupportedLanguage? ==>
            r.0.error.path in Selected(walk, TitleExtension(lang).value)
  {
    match TitleExtension(lang)
    case None => (Failed(UnsupportedLanguage(lang)), fs)
    case Some(ext) => TitlePaths(Selected(walk, ext), lang, fs)
  }

  /** An unsupported language fails before the walk, with every file untouched. */
  lemma TitleRunUnsupported(lang: string, walk: seq<WalkItem>, fs: FileSystem)
    requires lang != "rust" && lang != "python"
    ensures TitleRun(lang, walk, fs) == (Failed(UnsupportedLanguage(lang)), fs)
  {
  }

  method AddTitles(lang: string, walk: seq<WalkItem>, fs: FileSystem) returns (outcome: Outcome, after: FileSystem)
    ensures (outcome, after) == TitleRun(lang, walk, fs)
  {
    if TitleExtension(lang).None? {
      return Failed(UnsupportedLanguage(lang)), fs;
    }
    var ext := TitleExtension(lang).value;
    assert TitleRun(lang, walk, fs) == TitlePaths(Selected(walk, ext), lang, fs);
    assert walk[0..] == walk;
    after := fs;
    var i := 0;
    while i < |walk|
      invariant 0 <= i <= |walk|
      invariant TitleRun(lang, walk, fs) == TitlePaths(Selected(walk[i..], ext), lang, after)
    {
      SelectedFrom(walk, i, ext);
      var rest := Selected(walk[i + 1..], ext);
      if IsSelected(walk[i], ext) {
        var p := walk[i].path;
        assert Selected(walk[i..], ext) == [p] + rest;
        TitlePathsCons(p, rest, lang, after);
        var step, next := AddTitleToFile(p, lang, after);
        if step.Failed? {
          return step, next;
        }
        after := next;
      } else {
        assert Selected(walk[i..], ext) == rest;
      }
      i := i + 1;
    }
    assert walk[i..] == [];
    outcome := Done;
  }
}
