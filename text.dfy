/** Lines of a text, split at every line feed. */
module Text {

  /**
    The lines of `s`: the pieces between line feeds, in order. There is
    always at least one line (an empty text is one empty line), and no line
    holds a line feed.
   */
  function SplitLines(s: string): (lines: seq<string>)
    ensures |lines| >= 1
    ensures forall k :: 0 <= k < |lines| ==> '\n' !in lines[k]
    decreases |s|
  {
    if s == [] then [""]
    else
      var rest := SplitLines(s[1..]);
      if s[0] == '\n' then [""] + rest
      else [[s[0]] + rest[0]] + rest[1..]
  }

  /** The first line of `s`: everything before its first line feed. */
  function FirstLine(s: string): string
  {
    SplitLines(s)[0]
  }

  /** A text without line feeds is a single line. */
  lemma {:induction false} SplitSingleLine(a: string)
    requires '\n' !in a
    ensures SplitLines(a) == [a]
  {
    if a != [] {
      SplitSingleLine(a[1..]);
      assert [a[0]] + a[1..] == a;
    }
  }

  /** Joining two texts with a line feed joins their lines. */
  lemma {:induction false} SplitJoin(a: string, t: string)
    ensures SplitLines(a + "\n" + t) == SplitLines(a) + SplitLines(t)
    decreases |a|
  {
    var s := a + "\n" + t;
    if a == [] {
      assert s[1..] == t;
    } else {
      assert s[1..] == a[1..] + "\n" + t;
      SplitJoin(a[1..], t);
    }
  }

  /** A line followed by a line feed splits off as the first line. */
  lemma SplitAfterLine(a: string, t: string)
    requires '\n' !in a
    ensures SplitLines(a + "\n" + t) == [a] + SplitLines(t)
  {
    SplitJoin(a, t);
    SplitSingleLine(a);
  }

  /**
    The first line is a prefix of the text without line feeds, and it ends
    at the end of the text or at the text's first line feed.
   */
  lemma {:induction false} FirstLineBounds(s: string)
    ensures FirstLine(s) <= s
    ensures '\n' !in FirstLine(s)
    ensures |FirstLine(s)| == |s| || s[|FirstLine(s)|] == '\n'
  {
    if s != [] && s[0] != '\n' {
      FirstLineBounds(s[1..]);
      assert FirstLine(s) == [s[0]] + FirstLine(s[1..]);
    }
  }

  /** The first line of `a + "\n" + t` is `a` whenever `a` has no line feed. */
  lemma FirstLineOf(a: string, t: string)
    requires '\n' !in a
    ensures FirstLine(a + "\n" + t) == a
  {
    SplitAfterLine(a, t);
  }
}
