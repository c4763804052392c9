/**
  What the two engines see of the outside world: the entries a directory
  walk yields, a file system that maps paths to files, the errors an
  operation can end with, and the extension filter both engines apply to
  the walk.
 */
module FileTree {
  import opened Wrappers
  import Paths

  datatype Error =
    | UnsupportedLanguage(lang: string)
    | ReadFailure(path: string)
    | WriteFailure(path: string)
    | CreateFailure(path: string)

  /** How an operation ends: it either finishes or stops at its first error. */
  datatype Outcome = Done | Failed(error: Error)

  /** A file: its text and whether the process may read and overwrite it. */
  datatype FileNode = FileNode(content: string, readable: bool, writable: bool)

  type FileSystem = map<string, FileNode>

  /** One item of a directory walk: an entry (file or not) or an entry the walk could not read. */
  datatype WalkItem = Entry(path: string, isFile: bool) | WalkError

  /** Opening and reading the file at `p` to a string succeeds. */
  predicate CanRead(fs: FileSystem, p: string)
  {
    p in fs && fs[p].readable
  }

  /** Creating (or truncating) the file at `p` succeeds. */
  predicate CanCreate(fs: FileSystem, p: string)
  {
    p !in fs || fs[p].writable
  }

  /** The filter both engines apply: a walk entry that is a file with extension `ext`. */
  predicate IsSelected(item: WalkItem, ext: string)
  {
    item.Entry? && item.isFile && Paths.Extension(item.path) == Some(ext)
  }

  /** The paths of the selected entries of a walk, in walk order. */
  function Selected(walk: seq<WalkItem>, ext: string): (paths: seq<string>)
    ensures |paths| <= |walk|
    ensures forall k :: 0 <= k < |paths| ==> Paths.Extension(paths[k]) == Some(ext)
    decreases |walk|
  {
    if walk == [] then []
    else (if IsSelected(walk[0], ext) then [walk[0].path] else []) + Selected(walk[1..], ext)
  }

  /** Selecting from the walk from position `i` on: the entry at `i`, if selected, then the rest. */
  lemma SelectedFrom(walk: seq<WalkItem>, i: nat, ext: string)
    requires i < |walk|
    ensures Selected(walk[i..], ext) ==
            (if IsSelected(walk[i], ext) then [walk[i].path] else []) + Selected(walk[i + 1..], ext)
  {
    assert walk[i..][1..] == walk[i + 1..];
  }

  /** Selection keeps walk order: selecting from a concatenated walk concatenates the selections. */
  lemma {:induction false} SelectedAppend(w1: seq<WalkItem>, w2: seq<WalkItem>, ext: string)
    ensures Selected(w1 + w2, ext) == Selected(w1, ext) + Selected(w2, ext)
    decreases |w1|
  {
    if w1 == [] {
      assert w1 + w2 == w2;
    } else {
      var head := if IsSelected(w1[0], ext) then [w1[0].path] else [];
      assert (w1 + w2)[0] == w1[0];
      assert (w1 + w2)[1..] == w1[1..] + w2;
      SelectedAppend(w1[1..], w2, ext);
      assert Selected(w1 + w2, ext) == head + (Selected(w1[1..], ext) + Selected(w2, ext));
    }
  }

  /**
    A path is selected exactly when some walk entry is a file whose path it
    is and whose extension is `ext`; walk errors and other entries are skipped.
   */
  lemma {:induction false} SelectedMembers(walk: seq<WalkItem>, ext: string, p: string)
    ensures p in Selected(walk, ext) <==> exists i :: 0 <= i < |walk| && IsSelected(walk[i], ext) && walk[i].path == p
    decreases |walk|
  {
    if walk != [] {
      SelectedMembers(walk[1..], ext, p);
      if p in Selected(walk[1..], ext) {
        var i :| 0 <= i < |walk[1..]| && IsSelected(walk[1..][i], ext) && walk[1..][i].path == p;
        assert walk[i + 1] == walk[1..][i];
      }
      if exists i :: 0 <= i < |walk| && IsSelected(walk[i], ext) && walk[i].path == p {
        var i :| 0 <= i < |walk| && IsSelected(walk[i], ext) && walk[i].path == p;
        if i > 0 {
          assert walk[1..][i - 1] == walk[i];
        }
      }
    }
  }

  /** No path occurs twice: a walk visits every path once. */
  predicate Distinct(paths: seq<string>)
  {
    forall i, j :: 0 <= i < j < |paths| ==> paths[i] != paths[j]
  }
}
