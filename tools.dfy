/** The background repository helpers: listing the backgrounds of a directory, finding a
    background in the enabled or disabled directory, and finding a free file name. */
module Tools {
  import opened Wrappers
  import opened PurePath

  /** What a path names on disk; a directory carries its entries in iteration order. */
  datatype Kind = RegularFile | Directory(entries: seq<string>)

  /** The file system: every existing path and what it is. */
  type Tree = map<Path, Kind>

  predicate IsFile(t: Tree, p: Path)
  {
    p in t && t[p].RegularFile?
  }

  predicate IsDir(t: Tree, p: Path)
  {
    p in t && t[p].Directory?
  }

  /** The path `iterdir` yields for an entry `name` of `dir`. */
  function Child(dir: Path, name: string): (r: Path)
    ensures Name(r) == name
  {
    Path(dir.absolute, dir.parts + [name])
  }

  /** Whether an entry of `dir` is listed as a background with extension `ext` (dot included):
      a regular file with that suffix and a non-empty stem. */
  predicate Listed(t: Tree, dir: Path, name: string, ext: string)
    ensures Listed(t, dir, name, ext) ==> name != "" && Child(dir, name) in t
    ensures Listed(t, dir, name, ext) && ext != "" ==> ext[0] == '.' && HasSuffix(name)
  {
    IsFile(t, Child(dir, name)) && Suffix(name) == ext && Stem(name) != ""
  }

  /** The stems of the listed entries among `names`, in the order of `names`. */
  function ListedStems(t: Tree, dir: Path, names: seq<string>, ext: string): (r: seq<string>)
    ensures |r| <= |names|
    ensures forall i :: 0 <= i < |r| ==> r[i] != ""
  {
    if names == [] then []
    else
      var rest := ListedStems(t, dir, names[1..], ext);
      if Listed(t, dir, names[0], ext) then [Stem(names[0])] + rest else rest
  }

  /** A stem is listed exactly when some entry with that stem is a listed background. */
  lemma {:induction false} ListedStemsExact(t: Tree, dir: Path, names: seq<string>, ext: string, s: string)
    ensures s in ListedStems(t, dir, names, ext) <==>
      exists j :: 0 <= j < |names| && Listed(t, dir, names[j], ext) && Stem(names[j]) == s
    decreases |names|
  {
    if names != [] {
      ListedStemsExact(t, dir, names[1..], ext, s);
      if s in ListedStems(t, dir, names[1..], ext) {
        var j :| 0 <= j < |names[1..]| && Listed(t, dir, names[1..][j], ext) && Stem(names[1..][j]) == s;
        assert names[j + 1] == names[1..][j];
      }
      if exists j :: 0 <= j < |names| && Listed(t, dir, names[j], ext) && Stem(names[j]) == s {
        var j :| 0 <= j < |names| && Listed(t, dir, names[j], ext) && Stem(names[j]) == s;
        if j > 0 {
          assert names[1..][j - 1] == names[j];
        }
      }
    }
  }

  /** `get_ext_in_path`: the listed stems of the directory's entries in iteration order, or
      nothing when `path` is not a directory. */
  function GetExtInPath(t: Tree, path: Path, ext: string): (r: seq<string>)
    ensures !IsDir(t, path) ==> r == []
    ensures IsDir(t, path) ==> r == ListedStems(t, path, t[path].entries, ext)
  {
    if !IsDir(t, path) then [] else ListedStems(t, path, t[path].entries, ext)
  }

  /** Listing keeps iteration order: the listing of two runs of entries is the listing of the
      first followed by that of the second. */
  lemma {:induction false} ListedStemsAppend(t: Tree, dir: Path, a: seq<string>, b: seq<string>, ext: string)
    ensures ListedStems(t, dir, a + b, ext) == ListedStems(t, dir, a, ext) + ListedStems(t, dir, b, ext)
    decreases |a|
  {
    if a != [] {
      assert (a + b)[0] == a[0];
      assert (a + b)[1..] == a[1..] + b;
      ListedStemsAppend(t, dir, a[1..], b, ext);
    } else {
      assert a + b == b;
    }
  }

  /** The paths `search_enabled_disabled` checks, in the order it checks them: with a preference
      only that directory, without one the enabled directory first and then the disabled one. */
  function Candidates(enabledPath: Path, disabledPath: Path, enabled: Option<bool>, bg: string): (r: seq<Path>)
    ensures 1 <= |r| <= 2 && (|r| == 2 <==> enabled.None?)
    ensures enabled != Some(false) ==> r[0] == Join(enabledPath, bg + ".png")
    ensures enabled != Some(true) ==> r[|r| - 1] == Join(disabledPath, bg + ".png")
  {
    var name := bg + ".png";
    match enabled
    case Some(true) => [Join(enabledPath, name)]
    case Some(false) => [Join(disabledPath, name)]
    case None => [Join(enabledPath, name), Join(disabledPath, name)]
  }

  /** The first of `paths` that exists. */
  function FirstExisting(t: Tree, paths: seq<Path>): (r: Option<Path>)
    ensures r.None? <==> forall i :: 0 <= i < |paths| ==> paths[i] !in t
    ensures r.Some? ==> r.value in t && r.value in paths
    ensures r.Some? ==> exists i :: 0 <= i < |paths| && paths[i] == r.value && forall j :: 0 <= j < i ==> paths[j] !in t
  {
    if paths == [] then None
    else if paths[0] in t then Some(paths[0])
    else FirstExisting(t, paths[1..])
  }

  /** `search_enabled_disabled`: `<enabled>/<bg>.png` or `<disabled>/<bg>.png`, whichever the
      preference allows and exists, preferring the enabled one when there is no preference. */
  function SearchEnabledDisabled(t: Tree, enabledPath: Path, disabledPath: Path, enabled: Option<bool>, bg: string): (r: Option<Path>)
    ensures r.Some? ==> r.value in t && (r.value == Join(enabledPath, bg + ".png") || r.value == Join(disabledPath, bg + ".png"))
    ensures enabled == Some(true) ==> r.Some? == (Join(enabledPath, bg + ".png") in t) && (r.Some? ==> r.value == Join(enabledPath, bg + ".png"))
    ensures enabled == Some(false) ==> r.Some? == (Join(disabledPath, bg + ".png") in t) && (r.Some? ==> r.value == Join(disabledPath, bg + ".png"))
    ensures enabled.None? && Join(enabledPath, bg + ".png") in t ==> r == Some(Join(enabledPath, bg + ".png"))
    ensures enabled.None? ==> (r.None? <==> Join(enabledPath, bg + ".png") !in t && Join(disabledPath, bg + ".png") !in t)
  {
    var (path1, path2) := if enabled != Some(false) then (enabledPath, disabledPath) else (disabledPath, enabledPath);
    var file := Join(path1, bg + ".png");
    if file in t then Some(file)
    else if enabled.None? then
      var file2 := Join(path2, bg + ".png");
      if file2 in t then Some(file2) else None
    else None
  }

  /** The search returns the first existing candidate, checked in order. */
  lemma SearchIsFirstExisting(t: Tree, enabledPath: Path, disabledPath: Path, enabled: Option<bool>, bg: string)
    ensures SearchEnabledDisabled(t, enabledPath, disabledPath, enabled, bg)
            == FirstExisting(t, Candidates(enabledPath, disabledPath, enabled, bg))
  {
    var c := Candidates(enabledPath, disabledPath, enabled, bg);
    if enabled.None? && c[0] !in t {
      assert c[1..] == [c[1]];
    }
  }

  /** Decimal text of a natural number, as an f-string writes it. */
  function NatToString(n: nat): (s: string)
    ensures s != [] && forall i :: 0 <= i < |s| ==> '0' <= s[i] <= '9'
  {
    var digit := ['0' + (n % 10) as char];
    if n < 10 then digit else NatToString(n / 10) + digit
  }

  /** The path `resolve_name_conflict` tries for counter `n`: the stem suffixed with `_n`. */
  function Candidate(file: Path, n: nat): (r: Path)
    requires file.parts != []
    ensures |r.parts| == |file.parts|
    ensures Name(r) == Stem(Name(file)) + "_" + NatToString(n) + Suffix(Name(file))
  {
    WithStem(file, Stem(Name(file)) + "_" + NatToString(n))
  }

  /** A candidate keeps the parent directory, differs from the file itself, and, for a file
      with a suffix, keeps that suffix and has the stem `<stem>_<n>`. */
  lemma CandidateShape(file: Path, n: nat)
    requires file.parts != []
    ensures Candidate(file, n).absolute == file.absolute
    ensures Candidate(file, n).parts[..|file.parts| - 1] == file.parts[..|file.parts| - 1]
    ensures Candidate(file, n) != file
    ensures Suffix(Name(file)) != "" ==>
      Suffix(Name(Candidate(file, n))) == Suffix(Name(file))
      && Stem(Name(Candidate(file, n))) == Stem(Name(file)) + "_" + NatToString(n)
  {
    var name := Name(file);
    StemSuffixSplit(name);
    var stem := Stem(name) + "_" + NatToString(n);
    assert |Name(Candidate(file, n))| > |name|;
    if Suffix(name) != "" {
      NewStemKeepsSuffix(stem, name);
    }
  }

  /** `resolve_name_conflict`: tries `<stem>_1`, `<stem>_2`, ... and returns the first that does
      not exist, or None when `<stem>_1` to `<stem>_999` all exist. */
  method ResolveNameConflict(t: Tree, file: Path) returns (r: Option<Path>)
    requires file.parts != []
    ensures r.None? <==> forall k :: 1 <= k < 1000 ==> Candidate(file, k) in t
    ensures r.Some? ==>
      exists n :: 1 <= n < 1000 && r.value == Candidate(file, n) && forall k :: 1 <= k < n ==> Candidate(file, k) in t
    ensures r.Some? ==> r.value !in t && r.value != file
  {
    var n := 1;
    while Candidate(file, n) in t && n < 1000
      invariant 1 <= n <= 1000
      invariant forall k :: 1 <= k < n ==> Candidate(file, k) in t
      decreases 1000 - n
    {
      n := n + 1;
    }
    if n == 1000 {
      return None;
    }
    CandidateShape(file, n);
    return Some(Candidate(file, n));
  }
}
