/** The file system as the older command module sees it: literal path strings, `os.listdir` of a
    directory string, and the `rsplit('.', 1)` extension filter of its `get_ext_in_path`. */
module LegacyFs {
  import opened Wrappers
  import opened PurePath

  /** What a path string names: a file with its bytes, or a directory. */
  datatype Node = File(data: seq<bv8>) | Dir

  /** Every existing path string and what it names. */
  type Fs = map<string, Node>

  /** `exists(p) and not isdir(p)`. */
  predicate IsPlainFile(fs: Fs, p: string)
    ensures IsPlainFile(fs, p) <==> p in fs && !IsDirAt(fs, p)
  {
    p in fs && fs[p].File?
  }

  /** `isdir(p)`. */
  predicate IsDirAt(fs: Fs, p: string)
  {
    p in fs && fs[p].Dir?
  }

  /** `os.listdir(d)` for a directory string ending in a separator: the single components that
      extend `d` to an existing path. */
  function Listing(fs: Fs, d: string): (r: set<string>)
    ensures forall n :: n in r ==> n != "" && '/' !in n && d + n in fs
  {
    var r := set p | p in fs && |d| < |p| && p[..|d|] == d && '/' !in p[|d|..] :: p[|d|..];
    forall n | n in r
      ensures n != "" && '/' !in n && d + n in fs
    {
      var p :| p in fs && |d| < |p| && p[..|d|] == d && '/' !in p[|d|..] && n == p[|d|..];
      assert d + n == p;
    }
    r
  }

  /** An entry is listed exactly when it is one non-empty component naming an existing path. */
  lemma ListingExact(fs: Fs, d: string, n: string)
    ensures n in Listing(fs, d) <==> n != "" && '/' !in n && d + n in fs
  {
    if n != "" && '/' !in n && d + n in fs {
      var p := d + n;
      assert p[..|d|] == d && p[|d|..] == n;
    }
    if n in Listing(fs, d) {
      var p :| p in fs && |d| < |p| && p[..|d|] == d && '/' !in p[|d|..] && p[|d|..] == n;
      assert p == d + n;
    }
  }

  /** `f.rsplit('.', 1)`: the text before and after the last dot, or None for a name without one. */
  function RSplitDot(f: string): (r: Option<(string, string)>)
    ensures r.None? <==> '.' !in f
    ensures r.Some? ==> f == r.value.0 + "." + r.value.1 && '.' !in r.value.1
  {
    var i := RFind(f, '.');
    if i < 0 then None
    else
      assert f == f[..i] + "." + f[i + 1..];
      Some((f[..i], f[i + 1..]))
  }

  /** Splitting `name.ext` at the last dot gives back `name` and `ext` when `ext` has no dot. */
  lemma RSplitJoin(name: string, ext: string)
    requires '.' !in ext
    ensures RSplitDot(name + "." + ext) == Some((name, ext))
  {
    var f := name + "." + ext;
    assert f == name + ("." + ext);
    assert RFind("." + ext, '.') == 0 by {
      assert "." + ext == ['.'] + ext;
      RFindPrefix(ext, '.');
    }
    RFindAppend(name, "." + ext, '.');
    assert RFind(f, '.') == |name|;
    assert f[..|name|] == name;
    assert f[|name| + 1..] == ext;
  }

  /** The name `get_ext_in_path` yields for an entry `f`: the text before its last dot, when that
      is non-empty and the text after it is `ext`. */
  function EntryName(f: string, ext: string): (r: Option<string>)
    ensures r.Some? ==> r.value != "" && f == r.value + "." + ext
  {
    match RSplitDot(f)
    case None => None
    case Some((name, e)) => if name != "" && e == ext then Some(name) else None
  }

  /** For an extension without a dot, an entry yields `name` exactly when it is `name.ext` with
      `name` non-empty; so a name without a dot is skipped. */
  lemma EntryNameExact(f: string, ext: string, name: string)
    requires '.' !in ext
    ensures EntryName(f, ext) == Some(name) <==> name != "" && f == name + "." + ext
  {
    if name != "" && f == name + "." + ext {
      RSplitJoin(name, ext);
    }
  }

  /** `get_ext_in_path(path, ext)` of the older revision, as the set of names it yields: one for
      each entry that is not a directory and splits into a non-empty name and `ext`. */
  function ExtNames(fs: Fs, path: string, ext: string): (r: set<string>)
    ensures forall n :: n in r ==> n != "" && IsPlainFile(fs, path + n + "." + ext)
  {
    var r := set f | f in Listing(fs, path) && !IsDirAt(fs, path + f) && EntryName(f, ext).Some? :: EntryName(f, ext).value;
    forall f | f in Listing(fs, path) && !IsDirAt(fs, path + f) && EntryName(f, ext).Some?
      ensures IsPlainFile(fs, path + EntryName(f, ext).value + "." + ext)
    {
      EntryIsPlainFile(fs, path, ext, f);
    }
    r
  }

  /** A non-directory entry that yields a name is that name's `<path><name>.<ext>` file. */
  lemma EntryIsPlainFile(fs: Fs, path: string, ext: string, f: string)
    requires f in Listing(fs, path) && !IsDirAt(fs, path + f) && EntryName(f, ext).Some?
    ensures IsPlainFile(fs, path + EntryName(f, ext).value + "." + ext)
  {
    ListingExact(fs, path, f);
    assert path + f == path + EntryName(f, ext).value + "." + ext;
  }

  /** For an extension that is a single dot-free component, a name is yielded exactly when
      `<path><name>.<ext>` is an existing non-directory and the name is one non-empty component. */
  lemma ExtNamesExact(fs: Fs, path: string, ext: string, name: string)
    requires '.' !in ext && '/' !in ext
    ensures name in ExtNames(fs, path, ext) <==>
      name != "" && '/' !in name && IsPlainFile(fs, path + name + "." + ext)
  {
    if name in ExtNames(fs, path, ext) {
      YieldedIsPlainFile(fs, path, ext, name);
    }
    if name != "" && '/' !in name && IsPlainFile(fs, path + name + "." + ext) {
      PlainFileIsYielded(fs, path, ext, name);
    }
  }

  /** Every yielded name comes from its own `<name>.<ext>` file. */
  lemma YieldedIsPlainFile(fs: Fs, path: string, ext: string, name: string)
    requires '.' !in ext && '/' !in ext
    requires name in ExtNames(fs, path, ext)
    ensures name != "" && '/' !in name && IsPlainFile(fs, path + name + "." + ext)
  {
    var g :| g in Listing(fs, path) && !IsDirAt(fs, path + g) && EntryName(g, ext).Some? && EntryName(g, ext).value == name;
    EntryNameExact(g, ext, name);
    ListingExact(fs, path, g);
    assert path + g == path + name + "." + ext;
    assert '/' !in name by {
      assert g[..|name|] == name;
    }
  }

  /** Every `<name>.<ext>` file with a single-component name is yielded. */
  lemma PlainFileIsYielded(fs: Fs, path: string, ext: string, name: string)
    requires '.' !in ext && '/' !in ext
    requires name != "" && '/' !in name && IsPlainFile(fs, path + name + "." + ext)
    ensures name in ExtNames(fs, path, ext)
  {
    var f := name + "." + ext;
    assert path + f == path + name + "." + ext;
    assert '/' !in f by {
      assert forall k :: 0 <= k < |f| ==> f[k] == (if k < |name| then name[k] else ("." + ext)[k - |name|]);
    }
    ListingExact(fs, path, f);
    EntryNameExact(f, ext, name);
    assert EntryName(f, ext).Some? && EntryName(f, ext).value == name;
  }
}
