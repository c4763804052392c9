/**
  The few path operations the title and export engines use, over
  `/`-separated text paths: dropping a leading current-directory component,
  the final component and its extension, and turning separators into dots.
 */
module Paths {
  import opened Wrappers

  /** A character the title engine treats as a path separator. */
  predicate IsSeparator(c: char)
  {
    c == '/' || c == '\\'
  }

  /**
    The path relative to the current directory: a leading `./` component is
    removed, and a path that does not start with it is kept as it is.
   */
  function StripCurDir(p: string): (r: string)
    ensures |r| <= |p| && r == p[|p| - |r|..]
    ensures r != p <==> |p| >= 2 && p[..2] == "./"
    ensures |p| >= 2 && p[..2] == "./" ==> r == p[2..]
  {
    if |p| >= 2 && p[0] == '.' && p[1] == '/' then p[2..] else p
  }

  /** Where the final component of `p` starts: just after its last `/`. */
  function FileNameStart(p: string): (k: nat)
    ensures k <= |p|
    ensures k > 0 ==> p[k - 1] == '/'
    ensures forall i :: k <= i < |p| ==> p[i] != '/'
    decreases |p|
  {
    if p == [] then 0
    else if p[|p| - 1] == '/' then |p|
    else FileNameStart(p[..|p| - 1])
  }

  /** The final component of `p`. */
  function FileName(p: string): string
  {
    p[FileNameStart(p)..]
  }

  /** The position of the last `.` in `name`, or -1 when there is none. */
  function LastDot(name: string): (k: int)
    ensures -1 <= k < |name|
    ensures k >= 0 ==> name[k] == '.'
    ensures forall i :: k < i < |name| ==> name[i] != '.'
    decreases |name|
  {
    if name == [] then -1
    else if name[|name| - 1] == '.' then |name| - 1
    else LastDot(name[..|name| - 1])
  }

  /**
    The position of the dot that starts the extension of a file name: the
    last dot, unless the name is `..` or that dot is its first character.
   */
  function ExtensionDot(name: string): (d: Option<nat>)
    ensures d.Some? ==> 0 < d.value < |name| && name[d.value] == '.'
    ensures d.Some? ==> forall i :: d.value < i < |name| ==> name[i] != '.'
    ensures d.None? <==> name == ".." || forall i :: 0 < i < |name| ==> name[i] != '.'
  {
    var k := LastDot(name);
    if name == ".." || k <= 0 then None else Some(k)
  }

  /** The extension of the final component of `p`, without its dot. */
  function Extension(p: string): (ext: Option<string>)
    ensures ext.Some? ==> '.' !in ext.value && '/' !in ext.value
  {
    var name := FileName(p);
    match ExtensionDot(name)
    case None => None
    case Some(d) =>
      Some(name[d + 1..])
  }

  /** `p` with the extension of its final component removed, together with its dot. */
  function WithoutExtension(p: string): (stem: string)
    ensures Extension(p).None? ==> stem == p
    ensures Extension(p).Some? ==> stem + "." + Extension(p).value == p
  {
    var start := FileNameStart(p);
    match ExtensionDot(FileName(p))
    case None => p
    case Some(d) =>
      assert p == p[..start + d] + "." + p[start + d + 1..];
      p[..start + d]
  }

  /** `s` with every separator replaced by `.`; every other character is kept. */
  function ReplaceSeparators(s: string): (r: string)
    ensures |r| == |s|
    ensures forall k :: 0 <= k < |s| ==> !IsSeparator(r[k])
    ensures forall k :: 0 <= k < |s| ==> r[k] == (if IsSeparator(s[k]) then '.' else s[k])
  {
    seq(|s|, k requires 0 <= k < |s| => if IsSeparator(s[k]) then '.' else s[k])
  }

  /** Replacing separators works character by character, so it distributes over concatenation. */
  lemma ReplaceSeparatorsConcat(a: string, b: string)
    ensures ReplaceSeparators(a + b) == ReplaceSeparators(a) + ReplaceSeparators(b)
  {
    assert forall k :: 0 <= k < |a + b| ==>
      ReplaceSeparators(a + b)[k] == (ReplaceSeparators(a) + ReplaceSeparators(b))[k];
  }

  /** Replacing separators keeps a text without separators as it is. */
  lemma ReplaceSeparatorsKeeps(w: string)
    requires '/' !in w && '\\' !in w
    ensures ReplaceSeparators(w) == w
  {
  }

  /** A separator between a plain component and the rest becomes a dot. */
  lemma ReplaceSeparatorsJoin(a: string, b: string)
    requires '/' !in a && '\\' !in a
    ensures ReplaceSeparators(a + "/" + b) == a + "." + ReplaceSeparators(b)
  {
    ReplaceSeparatorsConcat(a + "/", b);
    ReplaceSeparatorsConcat(a, "/");
    ReplaceSeparatorsKeeps(a);
    assert ReplaceSeparators("/") == ".";
  }

  /** The final component starts at `k` when `k` follows a `/` (or is 0) and no `/` comes after it. */
  lemma FileNameStartIs(p: string, k: nat)
    requires k <= |p| && (k > 0 ==> p[k - 1] == '/')
    requires forall i :: k <= i < |p| ==> p[i] != '/'
    ensures FileNameStart(p) == k
  {
  }

  /** The final component of `dir + name` is `name` when `dir` ends at a `/`. */
  lemma FileNameOf(dir: string, name: string)
    requires dir == [] || dir[|dir| - 1] == '/'
    requires '/' !in name
    ensures FileNameStart(dir + name) == |dir|
    ensures FileName(dir + name) == name
  {
    var p := dir + name;
    forall i | |dir| <= i < |p|
      ensures p[i] != '/'
    {
      assert p[i] == name[i - |dir|];
    }
    FileNameStartIs(p, |dir|);
  }

  /** The last dot of `stem + "." + ext` is the one after `stem` when `ext` has none. */
  lemma {:induction false} LastDotOf(stem: string, ext: string)
    requires '.' !in ext
    ensures LastDot(stem + "." + ext) == |stem|
    decreases |ext|
  {
    var name := stem + "." + ext;
    if ext == [] {
      assert name == stem + ".";
    } else {
      var shorter := ext[..|ext| - 1];
      assert ext[|ext| - 1] in ext;
      assert name[..|name| - 1] == stem + "." + shorter;
      assert '.' !in shorter by {
        forall k | 0 <= k < |shorter| ensures shorter[k] != '.' { assert shorter[k] in ext; }
      }
      LastDotOf(stem, shorter);
    }
  }

  lemma ExtensionIs(dir: string, stem: string, ext: string)
    requires dir == [] || dir[|dir| - 1] == '/'
    requires stem != [] && '/' !in stem && '/' !in ext && '.' !in ext
    requires stem + "." + ext != ".."
    ensures Extension(dir + stem + "." + ext) == Some(ext)
  {
    var name := stem + "." + ext;
    assert '/' !in name;
    assert dir + stem + "." + ext == dir + name;
    FileNameOf(dir, name);
    LastDotOf(stem, ext);
    assert ExtensionDot(name) == Some(|stem|);
    assert name[|stem| + 1..] == ext;
  }

  /** Removing a known extension `ext` from `dir + stem + "." + ext` leaves `dir + stem`. */
  lemma WithoutKnownExtension(dir: string, stem: string, ext: string)
    requires Extension(dir + stem + "." + ext) == Some(ext)
    ensures WithoutExtension(dir + stem + "." + ext) == dir + stem
  {
    var p := dir + stem + "." + ext;
    var w := WithoutExtension(p);
    assert w + "." + ext == p;
    assert w == p[..|w|] && dir + stem == p[..|w|];
  }

  /**
    A file `dir + stem + "." + ext` whose extension has no dot has extension
    `ext`, and removing the extension leaves `dir + stem`; only the last
    extension goes, so `stem` may hold dots itself.
   */
  lemma ExtensionOfName(dir: string, stem: string, ext: string)
    requires dir == [] || dir[|dir| - 1] == '/'
    requires stem != [] && '/' !in stem && '/' !in ext && '.' !in ext
    requires stem + "." + ext != ".."
    ensures Extension(dir + stem + "." + ext) == Some(ext)
    ensures WithoutExtension(dir + stem + "." + ext) == dir + stem
  {
    ExtensionIs(dir, stem, ext);
    WithoutKnownExtension(dir, stem, ext);
  }

  /** A file whose final component holds no dot has no extension, and nothing is removed from it. */
  lemma NoExtensionWithoutDot(dir: string, name: string)
    requires dir == [] || dir[|dir| - 1] == '/'
    requires '/' !in name && '.' !in name
    ensures Extension(dir + name) == None
    ensures WithoutExtension(dir + name) == dir + name
  {
    FileNameOf(dir, name);
    assert forall i :: 0 < i < |name| ==> name[i] != '.';
  }
}
