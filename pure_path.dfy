/** POSIX `pathlib` paths as the program uses them: construction from a string, `str()`, the
    `/` operator, and the `name`, `stem`, `suffix` and `with_stem` accessors. */
module PurePath {

  /** A path as pathlib keeps it: whether it is rooted, and its components. Empty components
      and `.` components are dropped at construction, so they never occur in `parts`. */
  datatype Path = Path(absolute: bool, parts: seq<string>)

  /** A component pathlib keeps: non-empty, not `.`, and free of the separator. */
  predicate IsPart(s: string)
  {
    s != "" && s != "." && '/' !in s
  }

  predicate WellFormed(p: Path)
  {
    forall i :: 0 <= i < |p.parts| ==> IsPart(p.parts[i])
  }

  /** The pieces of `s` between separators, empty pieces included (`"a//b"` has three). */
  function Pieces(s: string): (r: seq<string>)
    ensures |r| >= 1
    ensures forall i :: 0 <= i < |r| ==> '/' !in r[i]
  {
    if s == [] then [""]
    else
      var rest := Pieces(s[1..]);
      if s[0] == '/' then [""] + rest
      else [[s[0]] + rest[0]] + rest[1..]
  }

  /** The pieces pathlib keeps as components. */
  function Keep(pieces: seq<string>): (r: seq<string>)
    ensures forall i :: 0 <= i < |r| ==> r[i] in pieces
    ensures (forall i :: 0 <= i < |pieces| ==> '/' !in pieces[i]) ==> forall i :: 0 <= i < |r| ==> IsPart(r[i])
    ensures (forall i :: 0 <= i < |pieces| ==> IsPart(pieces[i])) ==> r == pieces
  {
    if pieces == [] then []
    else if pieces[0] == "" || pieces[0] == "." then Keep(pieces[1..])
    else [pieces[0]] + Keep(pieces[1..])
  }

  /** `Path(s)`: the path a string denotes. */
  function Parse(s: string): (p: Path)
    ensures WellFormed(p)
    ensures p.absolute <==> |s| > 0 && s[0] == '/'
  {
    Path(|s| > 0 && s[0] == '/', Keep(Pieces(s)))
  }

  /** The components joined by single separators. */
  function JoinParts(parts: seq<string>): string
  {
    if parts == [] then ""
    else if |parts| == 1 then parts[0]
    else parts[0] + "/" + JoinParts(parts[1..])
  }

  /** `str(p)`: a rooted path starts with `/`; the empty relative path is written `.`. */
  function Render(p: Path): (r: string)
    ensures WellFormed(p) ==> r != "" && (r[0] == '/' <==> p.absolute)
  {
    if p.absolute then "/" + JoinParts(p.parts)
    else if p.parts == [] then "."
    else if WellFormed(p) then
      JoinPartsHead(p.parts);
      assert p.parts[0][0] in p.parts[0];
      JoinParts(p.parts)
    else JoinParts(p.parts)
  }

  /** `p / s`: an absolute `s` replaces `p`, a relative one appends its components. */
  function Join(p: Path, s: string): (r: Path)
    ensures WellFormed(p) ==> WellFormed(r)
  {
    var q := Parse(s);
    if q.absolute then q else Path(p.absolute, p.parts + q.parts)
  }

  /** `p.name`: the last component, or "" for a path with none (`/`, `.`). */
  function Name(p: Path): (r: string)
    ensures WellFormed(p) ==> (r == "" <==> p.parts == [])
    ensures WellFormed(p) && p.parts != [] ==> IsPart(r)
  {
    if p.parts == [] then "" else p.parts[|p.parts| - 1]
  }

  /** `str.rfind(c)`: the index of the last occurrence of `c`, or -1. */
  function RFind(s: string, c: char): (i: int)
    ensures -1 <= i < |s|
    ensures i >= 0 ==> s[i] == c
    ensures forall k :: i < k < |s| ==> s[k] != c
  {
    if s == [] then -1
    else if s[|s| - 1] == c then |s| - 1
    else RFind(s[..|s| - 1], c)
  }

  /** Whether a name has a suffix: a last dot that is neither its first nor its last character. */
  predicate HasSuffix(name: string)
  {
    var i := RFind(name, '.');
    0 < i < |name| - 1
  }

  /** `p.suffix` of a path whose name is `name`: from the last dot on, or "". */
  function Suffix(name: string): (r: string)
    ensures |r| <= |name| && r == name[|name| - |r|..]
    ensures r != "" ==> r[0] == '.'
    ensures r != "" <==> HasSuffix(name)
  {
    if HasSuffix(name) then name[RFind(name, '.')..] else ""
  }

  /** `p.stem` of a path whose name is `name`: the name without its suffix. */
  function Stem(name: string): (r: string)
    ensures |r| <= |name| && r == name[..|r|]
  {
    if HasSuffix(name) then name[..RFind(name, '.')] else name
  }

  /** `p.with_stem(stem)`: the same parent, the name replaced by `stem` followed by the old suffix.
      pathlib raises for a path without a name. */
  function WithStem(p: Path, stem: string): (r: Path)
    requires p.parts != []
    ensures r.absolute == p.absolute && |r.parts| == |p.parts|
    ensures r.parts[..|r.parts| - 1] == p.parts[..|p.parts| - 1]
    ensures Name(r) == stem + Suffix(Name(p))
  {
    Path(p.absolute, p.parts[..|p.parts| - 1] + [stem + Suffix(Name(p))])
  }

  /** A name splits into its stem followed by its suffix, and the stem is empty only for the
      empty name; so a path has an empty stem exactly when it has no name. */
  lemma StemSuffixSplit(name: string)
    ensures Stem(name) + Suffix(name) == name
    ensures Stem(name) == "" <==> name == ""
    ensures Suffix(name) != "" ==> Suffix(name)[0] == '.' && |Suffix(name)| >= 2 && '.' !in Suffix(name)[1..]
  {
    if HasSuffix(name) {
      var i := RFind(name, '.');
      assert name[..i] + name[i..] == name;
      assert Suffix(name)[1..] == name[i + 1..];
    }
  }

  /** The last dot of `a + b` lies in `b` when `b` has one, at its position there. */
  lemma {:induction false} RFindAppend(a: string, b: string, c: char)
    requires c in b
    ensures RFind(a + b, c) == |a| + RFind(b, c)
    decreases |b|
  {
    var ab := a + b;
    if b[|b| - 1] == c {
    } else {
      assert ab[..|ab| - 1] == a + b[..|b| - 1];
      assert c in b[..|b| - 1] by {
        var k :| 0 <= k < |b| && b[k] == c;
        assert b[..|b| - 1][k] == c;
      }
      RFindAppend(a, b[..|b| - 1], c);
    }
  }

  /** Giving a suffixed name a new non-empty stem keeps the suffix and makes that stem the stem. */
  lemma NewStemKeepsSuffix(stem: string, name: string)
    requires stem != "" && Suffix(name) != ""
    ensures Stem(stem + Suffix(name)) == stem
    ensures Suffix(stem + Suffix(name)) == Suffix(name)
  {
    StemSuffixSplit(name);
    var suf := Suffix(name);
    assert suf == ['.'] + suf[1..];
    assert RFind(suf, '.') == 0 by {
      assert suf[0] == '.';
      RFindPrefix(suf[1..], '.');
    }
    RFindAppend(stem, suf, '.');
    var full := stem + suf;
    assert full[..|stem|] == stem;
    assert full[|stem|..] == suf;
  }

  /** A string `[c] + t` whose tail has no `c` has its last `c` at index 0. */
  lemma {:induction false} RFindPrefix(t: string, c: char)
    requires c !in t
    ensures RFind([c] + t, c) == 0
    decreases |t|
  {
    if t != [] {
      var s := [c] + t;
      assert s[|s| - 1] == t[|t| - 1];
      assert s[..|s| - 1] == [c] + t[..|t| - 1];
      RFindPrefix(t[..|t| - 1], c);
    }
  }

  /** Pieces of a string are split exactly at a separator placed between two strings. */
  lemma {:induction false} PiecesAround(a: string, b: string)
    ensures Pieces(a + "/" + b) == Pieces(a) + Pieces(b)
    decreases |a|
  {
    if a == [] {
      assert a + "/" + b == "/" + b;
      assert ("/" + b)[1..] == b;
    } else {
      var s := a + "/" + b;
      assert s[0] == a[0];
      assert s[1..] == a[1..] + "/" + b;
      PiecesAround(a[1..], b);
    }
  }

  /** A separator-free string is one piece. */
  lemma {:induction false} PiecesOfPiece(s: string)
    requires '/' !in s
    ensures Pieces(s) == [s]
    decreases |s|
  {
    if s != [] {
      PiecesOfPiece(s[1..]);
      assert [s[0]] + s[1..] == s;
    }
  }

  /** Joining components and splitting again gives back the components. */
  lemma {:induction false} PiecesOfJoin(parts: seq<string>)
    requires parts != []
    requires forall i :: 0 <= i < |parts| ==> IsPart(parts[i])
    ensures Pieces(JoinParts(parts)) == parts
    decreases |parts|
  {
    if |parts| == 1 {
      PiecesOfPiece(parts[0]);
    } else {
      PiecesOfPiece(parts[0]);
      PiecesOfJoin(parts[1..]);
      PiecesAround(parts[0], JoinParts(parts[1..]));
      assert parts == [parts[0]] + parts[1..];
    }
  }

  /** A joined sequence of components starts with the first component's first character. */
  lemma JoinPartsHead(parts: seq<string>)
    requires parts != [] && parts[0] != ""
    ensures JoinParts(parts) != "" && JoinParts(parts)[0] == parts[0][0]
  {
  }

  /** Round trip: the string `str(p)` of a path denotes that path again, so a path written to
      the configuration document as text is read back unchanged. */
  lemma ParseRender(p: Path)
    requires WellFormed(p)
    ensures Parse(Render(p)) == p
  {
    if p.parts == [] {
      if p.absolute {
        assert Render(p) == "/";
        assert Pieces("/") == ["", ""] by { assert "/"[1..] == ""; }
      } else {
        assert Pieces(".") == ["."] by {
          assert "."[1..] == "";
          assert Pieces("") == [""];
          assert ['.'] + "" == ".";
        }
      }
    } else {
      PiecesOfJoin(p.parts);
      JoinPartsHead(p.parts);
      if p.absolute {
        var s := "/" + JoinParts(p.parts);
        assert s[1..] == JoinParts(p.parts);
        assert Pieces(s) == [""] + p.parts;
      } else {
        assert p.parts[0][0] != '/' by { assert p.parts[0][0] in p.parts[0]; }
      }
    }
  }
}
