/** The terminal hyperlink the program prints around file names: an OSC 8 hyperlink (an
    operating system command of ECMA-48, section 8.3.89) to a `file://` URI, with each of the two
    commands terminated by BEL. */
module Output {
  import opened Wrappers

  const Esc: char := '\U{1B}'
  const Bel: char := '\U{7}'

  /** The opening command up to the URI's path: ESC `]8;;file://`. */
  function LinkOpen(): (r: string)
    ensures |r| == 12 && r[0] == Esc
  {
    [Esc] + "]8;;file://"
  }

  /** The closing command, a hyperlink with an empty URI: ESC `]8;;` BEL. */
  function LinkClose(): (r: string)
    ensures |r| == 6 && r[0] == Esc && r[5] == Bel
  {
    [Esc] + "]8;;" + [Bel]
  }

  /** `to_link`: the label `caption` shown as a link to `path`. The path text is what `str()` gives for
      the path, in the newer revision, or the string itself, in the older one. */
  function ToLink(caption: string, path: string): (r: string)
    ensures |r| == |caption| + |path| + 19
    ensures r[..12] == LinkOpen()
    ensures r[12..12 + |path|] == path
    ensures r[12 + |path|] == Bel
    ensures r[13 + |path|..13 + |path| + |caption|] == caption
    ensures r[|r| - 6..] == LinkClose()
  {
    LinkOpen() + path + [Bel] + caption + LinkClose()
  }

  /** The index of the first `c` in `s`, or `|s|` when there is none. */
  function IndexOf(s: string, c: char): (i: nat)
    ensures i <= |s|
    ensures i < |s| ==> s[i] == c
    ensures c !in s[..i]
  {
    if s == [] then 0
    else if s[0] == c then 0
    else
      var j := IndexOf(s[1..], c);
      assert s[..j + 1] == [s[0]] + s[1..][..j];
      1 + j
  }

  /** How a terminal reads a hyperlink back: the text after the opening command up to the first
      BEL is the path, the rest before the closing command is the label. */
  function ParseLink(s: string): (r: Option<(string, string)>)
    ensures r.Some? ==> |s| >= 19 && s[..12] == LinkOpen() && s[|s| - 6..] == LinkClose()
  {
    if |s| >= 19 && s[..12] == LinkOpen() && s[|s| - 6..] == LinkClose() then
      var body := s[12..|s| - 6];
      var i := IndexOf(body, Bel);
      if i < |body| then Some((body[i + 1..], body[..i])) else None
    else None
  }

  /** Round trip: a terminal recovers the label and the path from the link, for any label and
      any path without a BEL in it. */
  lemma ParseToLink(caption: string, path: string)
    requires Bel !in path
    ensures ParseLink(ToLink(caption, path)) == Some((caption, path))
  {
    var r := ToLink(caption, path);
    var body := r[12..|r| - 6];
    assert body == path + [Bel] + caption;
    assert IndexOf(body, Bel) == |path| by {
      IndexOfAfter(path, [Bel] + caption, Bel);
    }
    assert body[..|path|] == path;
    assert body[|path| + 1..] == caption;
  }

  /** The first `c` of `a + b` is the first of `b` when `a` has none. */
  lemma {:induction false} IndexOfAfter(a: string, b: string, c: char)
    requires c !in a && b != [] && b[0] == c
    ensures IndexOf(a + b, c) == |a|
    decreases |a|
  {
    if a != [] {
      assert (a + b)[1..] == a[1..] + b;
      IndexOfAfter(a[1..], b, c);
    } else {
      assert a + b == b;
    }
  }
}
