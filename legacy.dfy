/** The older command module: module globals for the image factors and the two background
    directories, an option loader gated on truthiness, `.next` marker files recording the next
    background, and the commands that select, enable, disable and add backgrounds. */
module Legacy {
  import opened Wrappers
  import opened Json
  import opened PurePath
  import opened LegacyFs

  /** The configuration file as `json.load` sees it. `Unreadable` stands for a file whose text
      is not JSON (such as an empty file) or whose document is not an object. */
  datatype ConfigFile = Missing | Unreadable | Parsed(data: Document)

  /** Why a command stops: an exception the source raises, or a failure it reports. */
  datatype Failure =
    | ConfigUnreadable          // `json.load` raises, or `data.get` on a non-object
    | OptionsNotAnObject        // `options.get` on a non-object raises
    | PathNotText(key: string)  // `expandvars` of a non-string raises
    | NotABackground(file: string)
    | NoBackgrounds             // `rand.choice` of an empty list raises
    | DoesNotExist(path: string)
    | IsADirectory(path: string)
    | NotInFolder(path: string)
    | InvalidFilename(name: string)
    | NotAnImage(path: string)

  /** The `options` object of a parsed configuration document, when there is one. */
  function OptionsOf(c: ConfigFile): (r: Option<map<string, JValue>>)
    ensures r.Some? <==> c.Parsed? && Get(c.data, "options").Some? && Get(c.data, "options").value.JObject?
  {
    if c.Parsed? then
      match Get(c.data, "options")
      case Some(JObject(fields)) => Some(fields)
      case _ => None
    else None
  }

  /** A truthiness-gated assignment: the option's value when it is truthy, else the current value. */
  function Gated(current: JValue, opts: map<string, JValue>, key: string): (r: JValue)
    ensures Truthy(r) || r == current
    ensures r != current ==> key in opts && r == opts[key]
    ensures key in opts && Truthy(opts[key]) ==> r == opts[key]
    ensures !(key in opts && Truthy(opts[key])) ==> r == current
  {
    if key in opts && Truthy(opts[key]) then opts[key] else current
  }

  /** A truthiness-gated path assignment: the expanded option when it is truthy text, the current
      path when it is falsy, and a failure when it is truthy but not text. */
  function GatedPath(current: string, opts: map<string, JValue>, key: string, expand: string -> string): (r: Result<string, Failure>)
    ensures r.Err? <==> key in opts && Truthy(opts[key]) && !opts[key].JString?
    ensures r.Err? ==> r.error == PathNotText(key)
    ensures !(key in opts && Truthy(opts[key])) ==> r == Ok(current)
    ensures key in opts && Truthy(opts[key]) && opts[key].JString? ==> r == Ok(expand(opts[key].s))
  {
    if key in opts && Truthy(opts[key]) then
      if opts[key].JString? then Ok(expand(opts[key].s)) else Err(PathNotText(key))
    else Ok(current)
  }

  /** Falsy option values (`0`, `0.0`, `""`, `false`, null, empty containers) keep the current
      value. */
  lemma FalsyKeepsCurrent(current: JValue, opts: map<string, JValue>, key: string)
    requires key in opts
    ensures opts[key] in {JInt(0), JFloat(0.0), JString(""), JBool(false), JNull, JArray([]), JObject(map[])} ==>
      Gated(current, opts, key) == current
  {
  }

  /** Where the `.next` marker of background `bg` lives. */
  function Marker(e: string, bg: string): (r: string)
    ensures |r| == |e| + |bg| + 5 && r[..|e|] == e && r[|r| - 5..] == ".next"
  {
    e + bg + ".next"
  }

  /** Where the next background is copied for the terminal to show. */
  function CurrentCopy(e: string): (r: string)
    ensures |r| == |e| + 19 && r[..|e|] == e && r[|r| - 4..] == ".png"
  {
    e + "current/current.png"
  }

  /** The marker files of the given background names. */
  function MarkerPaths(e: string, names: set<string>): set<string>
  {
    set n | n in names :: Marker(e, n)
  }

  /** Every marker path lies in the enabled directory and ends in `.next`, and each name has one. */
  lemma MarkerPathsShape(e: string, names: set<string>)
    ensures forall n :: n in names ==> Marker(e, n) in MarkerPaths(e, names)
    ensures forall p :: p in MarkerPaths(e, names) ==> |p| >= |e| + 5 && p[..|e|] == e && p[|p| - 5..] == ".next"
  {
  }

  /** The file system after `remove_next_file`: every listed marker of the enabled directory gone. */
  function WithoutMarkers(fs: Fs, e: string): (r: Fs)
    ensures r.Keys <= fs.Keys
    ensures forall p :: p in r ==> r[p] == fs[p]
  {
    fs - MarkerPaths(e, ExtNames(fs, e, "next"))
  }

  /** The file system after a background is selected: old markers removed, the marker of `bg`
      created empty, and the chosen file copied over the current copy. */
  function Selected(fs: Fs, e: string, bg: string, file: string): (r: Fs)
    requires file in fs
    ensures Marker(e, bg) in r && r[Marker(e, bg)] == File([])
    ensures CurrentCopy(e) in r && r[CurrentCopy(e)] == fs[file]
  {
    MarkerIsNotCopy(e, bg);
    WithoutMarkers(fs, e)[Marker(e, bg) := File([])][CurrentCopy(e) := fs[file]]
  }

  /** The file `set` and `silent_callback` take for `bg`: the enabled copy when it is an existing
      non-directory, else the disabled copy when that is one, else none. */
  function Choice(fs: Fs, e: string, d: string, bg: string): (r: Option<string>)
    ensures r.Some? ==> IsPlainFile(fs, r.value)
    ensures r.Some? ==> r.value == e + bg + ".png" || r.value == d + bg + ".png"
    ensures IsPlainFile(fs, e + bg + ".png") ==> r == Some(e + bg + ".png")
    ensures r.None? <==> !IsPlainFile(fs, e + bg + ".png") && !IsPlainFile(fs, d + bg + ".png")
  {
    if IsPlainFile(fs, e + bg + ".png") then Some(e + bg + ".png")
    else if IsPlainFile(fs, d + bg + ".png") then Some(d + bg + ".png")
    else None
  }

  /** `folder_contains_file`: the file exists and some entry of the folder is not a directory
      relative to the working directory (`isdir` of the bare entry name). */
  predicate FolderContains(fs: Fs, folder: string, file: string, cwdIsDir: string -> bool)
    ensures FolderContains(fs, folder, file, cwdIsDir) ==> folder + file in fs && Listing(fs, folder) != {}
  {
    folder + file in fs && exists f :: f in Listing(fs, folder) && !cwdIsDir(f)
  }

  /** `shutil.move(src, dst)` of a file onto a path that is not a directory. */
  function Moved(fs: Fs, src: string, dst: string): (r: Fs)
    requires src in fs
    ensures dst in r && r[dst] == fs[src]
    ensures src != dst ==> src !in r
    ensures forall p :: p != src && p != dst ==> (p in r <==> p in fs) && (p in r ==> r[p] == fs[p])
  {
    (fs - {src})[dst := fs[src]]
  }

  /** What `enable` (from the disabled to the enabled directory) and `disable` (the reverse) do:
      the three checks in order, then the move. */
  function Transferred(fs: Fs, from: string, to: string, bg: string, cwdIsDir: string -> bool): (r: (Fs, Result<(), Failure>))
    ensures r.1.Ok? <==> IsPlainFile(fs, from + bg + ".png") && FolderContains(fs, from, bg + ".png", cwdIsDir)
    ensures r.1.Err? ==> r.0 == fs
    ensures r.1.Ok? ==> r.0 == Moved(fs, from + bg + ".png", to + bg + ".png")
  {
    var file := from + bg + ".png";
    if file !in fs then (fs, Err(DoesNotExist(file)))
    else if fs[file].Dir? then (fs, Err(IsADirectory(file)))
    else if !FolderContains(fs, from, bg + ".png", cwdIsDir) then (fs, Err(NotInFolder(file)))
    else (Moved(fs, file, to + bg + ".png"), Ok(()))
  }

  /** `os.path.basename`: the text after the last separator. */
  function Basename(p: string): (r: string)
    ensures '/' !in r
    ensures |r| <= |p| && r == p[|p| - |r|..]
  {
    p[RFind(p, '/') + 1..]
  }

  /** The basename is the whole path or follows its last separator. */
  lemma BasenameAfterSeparator(p: string)
    ensures |Basename(p)| < |p| ==> p[|p| - |Basename(p)| - 1] == '/'
  {
  }

  /** The name `add` stores an image under: the basename's text before its last dot, when the
      basename has a dot and both sides of the last one are non-empty. */
  function AddName(p: string): (r: Option<string>)
    ensures r.Some? <==> 0 < RFind(Basename(p), '.') < |Basename(p)| - 1
    ensures r.Some? ==> r.value == Basename(p)[..RFind(Basename(p), '.')]
  {
    match RSplitDot(Basename(p))
    case None => None
    case Some((name, ext)) => if name == "" || ext == "" then None else Some(name)
  }

  /** The last `c` of `a + b` is the last of `a` when `b` has none. */
  lemma {:induction false} RFindBefore(a: string, b: string, c: char)
    requires c !in b
    ensures RFind(a + b, c) == RFind(a, c)
    decreases |b|
  {
    if b == [] {
      assert a + b == a;
    } else {
      assert (a + b)[..|a + b| - 1] == a + b[..|b| - 1];
      RFindBefore(a, b[..|b| - 1], c);
    }
  }

  /** `add` of `<dir><name>.<ext>`, with `dir` empty or ending in a separator, stores the image
      under `name` whenever `name` and `ext` are non-empty single components and `ext` has no dot. */
  lemma AddNameOf(dir: string, name: string, ext: string)
    requires dir == "" || dir[|dir| - 1] == '/'
    requires name != "" && ext != "" && '.' !in ext && '/' !in name && '/' !in ext
    ensures AddName(dir + name + "." + ext) == Some(name)
  {
    var base := name + "." + ext;
    var p := dir + base;
    assert p == dir + name + "." + ext;
    assert '/' !in base by {
      assert forall k :: 0 <= k < |base| ==> base[k] == (if k < |name| then name[k] else ("." + ext)[k - |name|]);
    }
    RFindBefore(dir, base, '/');
    assert Basename(p) == base by {
      if dir == "" {
        assert p == base;
      } else {
        assert RFind(dir, '/') == |dir| - 1;
        assert p[|dir|..] == base;
      }
    }
    RSplitJoin(name, ext);
  }

  /** A basename without a dot, with nothing before its last dot, or with nothing after it is
      refused. */
  lemma AddNameRefuses(p: string)
    ensures '.' !in Basename(p) ==> AddName(p).None?
    ensures |Basename(p)| > 0 && Basename(p)[0] == '.' && '.' !in Basename(p)[1..] ==> AddName(p).None?
    ensures |Basename(p)| > 0 && Basename(p)[|Basename(p)| - 1] == '.' ==> AddName(p).None?
  {
    var b := Basename(p);
    if |b| > 0 && b[0] == '.' && '.' !in b[1..] {
      assert b == ['.'] + b[1..];
      RFindPrefix(b[1..], '.');
    }
  }

  /** The one `.next` marker left after a selection is that of the selected background (none
      when `bg` is not a single non-empty component, since then `get_ext_in_path` skips it). */
  lemma SelectLeavesOneMarker(fs: Fs, e: string, bg: string, file: string)
    requires file in fs
    ensures ExtNames(Selected(fs, e, bg, file), e, "next") == (if bg != "" && '/' !in bg then {bg} else {})
  {
    forall n
      ensures n in ExtNames(Selected(fs, e, bg, file), e, "next") <==> n == bg && bg != "" && '/' !in bg
    {
      MarkerAfterSelect(fs, e, bg, file, n);
    }
  }

  /** One name at a time: after a selection, a name is a listed marker exactly when it is `bg`. */
  lemma MarkerAfterSelect(fs: Fs, e: string, bg: string, file: string, n: string)
    requires file in fs
    ensures n in ExtNames(Selected(fs, e, bg, file), e, "next") <==> n == bg && bg != "" && '/' !in bg
  {
    assert e + n + "." + "next" == Marker(e, n);
    ExtNamesExact(Selected(fs, e, bg, file), e, "next", n);
    if n == bg {
      SelectedMarker(fs, e, bg, file);
    } else {
      OldMarkerGone(fs, e, bg, file, n);
    }
  }

  /** After a selection, the marker of a name other than `bg` is not a plain file when the name
      is a single non-empty component. */
  lemma OldMarkerGone(fs: Fs, e: string, bg: string, file: string, n: string)
    requires file in fs && n != bg
    ensures n != "" && '/' !in n ==> !IsPlainFile(Selected(fs, e, bg, file), Marker(e, n))
  {
    MarkerIsNotCopy(e, n);
    MarkersDiffer(e, n, bg);
    if n != "" && '/' !in n {
      ListedMarkerRemoved(fs, e, n);
    }
  }

  /** Removing the listed markers leaves no plain-file marker of a single-component name. */
  lemma ListedMarkerRemoved(fs: Fs, e: string, n: string)
    requires n != "" && '/' !in n
    ensures !IsPlainFile(WithoutMarkers(fs, e), Marker(e, n))
  {
    var m := Marker(e, n);
    if IsPlainFile(fs, m) {
      assert e + n + "." + "next" == m;
      ExtNamesExact(fs, e, "next", n);
      var listed := ExtNames(fs, e, "next");
      assert n in listed;
      MarkerPathsShape(e, listed);
      assert WithoutMarkers(fs, e) == fs - MarkerPaths(e, listed);
    }
  }

  /** After a selection the marker of `bg` is an empty file. */
  lemma SelectedMarker(fs: Fs, e: string, bg: string, file: string)
    requires file in fs
    ensures IsPlainFile(Selected(fs, e, bg, file), Marker(e, bg))
  {
    MarkerIsNotCopy(e, bg);
  }

  /** Away from the new marker and the current copy, a selection only removes old markers. */
  lemma SelectedElsewhere(fs: Fs, e: string, bg: string, file: string, k: string)
    requires file in fs && k != Marker(e, bg) && k != CurrentCopy(e)
    ensures k in Selected(fs, e, bg, file) <==> k in fs && k !in MarkerPaths(e, ExtNames(fs, e, "next"))
    ensures k in Selected(fs, e, bg, file) ==> Selected(fs, e, bg, file)[k] == fs[k]
  {
  }

  /** A marker path is never the current copy: one ends in `t`, the other in `g`. */
  lemma MarkerIsNotCopy(e: string, n: string)
    ensures Marker(e, n) != CurrentCopy(e)
  {
    var m := Marker(e, n);
    var c := CurrentCopy(e);
    assert m[|m| - 1] == 't';
    assert c[|c| - 1] == 'g';
  }

  /** Markers of different names are different paths. */
  lemma MarkersDiffer(e: string, n: string, m: string)
    requires n != m
    ensures Marker(e, n) != Marker(e, m)
  {
    if |n| == |m| {
      var k :| 0 <= k < |n| && n[k] != m[k];
      assert Marker(e, n)[|e| + k] == n[k];
      assert Marker(e, m)[|e| + k] == m[k];
    }
  }

  /** Every enabled `.png` name `silent_callback` can draw has its enabled file, so it never
      falls back to the disabled directory and never fails after drawing. */
  lemma ListedIsChosen(fs: Fs, e: string, d: string, bg: string)
    requires bg in ExtNames(fs, e, "png")
    ensures Choice(fs, e, d, bg) == Some(e + bg + ".png")
  {
    ExtNamesExact(fs, e, "png", bg);
    assert e + bg + "." + "png" == e + bg + ".png";
  }

  /** Enabling a background and then disabling it again restores the file system, when the
      enabled directory had no file of that name and the name is not a directory relative to the
      working directory. */
  lemma EnableThenDisable(fs: Fs, e: string, d: string, bg: string, cwdIsDir: string -> bool)
    requires Transferred(fs, d, e, bg, cwdIsDir).1.Ok?
    requires e + bg + ".png" !in fs && '/' !in bg && !cwdIsDir(bg + ".png")
    ensures Transferred(Transferred(fs, d, e, bg, cwdIsDir).0, e, d, bg, cwdIsDir) == (fs, Ok(()))
  {
    var src := d + bg + ".png";
    var dst := e + bg + ".png";
    var moved := Moved(fs, src, dst);
    assert Transferred(fs, d, e, bg, cwdIsDir).0 == moved;
    MovedIsListed(moved, e, bg, cwdIsDir);
    MoveBack(fs, src, dst);
  }

  /** A plain file `<e><bg>.png` whose name is a single component and not a directory relative
      to the working directory passes `folder_contains_file`. */
  lemma MovedIsListed(fs: Fs, e: string, bg: string, cwdIsDir: string -> bool)
    requires IsPlainFile(fs, e + bg + ".png") && '/' !in bg && !cwdIsDir(bg + ".png")
    ensures FolderContains(fs, e, bg + ".png", cwdIsDir)
  {
    var n := bg + ".png";
    assert e + bg + ".png" == e + n;
    assert '/' !in n by {
      assert forall k :: 0 <= k < |n| ==> n[k] == (if k < |bg| then bg[k] else ".png"[k - |bg|]);
    }
    ListingExact(fs, e, n);
  }

  /** Moving a file onto a free path and back restores the file system. */
  lemma MoveBack(fs: Fs, src: string, dst: string)
    requires src in fs && dst !in fs
    ensures Moved(Moved(fs, src, dst), dst, src) == fs
  {
    var back := Moved(Moved(fs, src, dst), dst, src);
    assert back.Keys == fs.Keys;
  }

  /** The state of the older command module: its globals, the configuration file, and the file
      system. The environment's pieces are fixed at construction: `expand` is
      `os.path.expandvars`, `cwdIsDir` is `isdir` of a path relative to the working directory,
      `isImage` is `imghdr.what(...) is not None` on a file's bytes, and `render` is the image
      library's open, contrast and brightness enhancement, and PNG encoding. */
  class LegacyApp {
    var enabledPath: string
    var disabledPath: string
    var brightness: JValue
    var contrast: JValue
    var config: ConfigFile
    var fs: Fs

    const expand: string -> string
    const cwdIsDir: string -> bool
    const isImage: seq<bv8> -> bool
    const render: (seq<bv8>, JValue, JValue) -> seq<bv8>

    /** The globals `load_config` may assign. */
    ghost function Settings(): (JValue, JValue, string, string)
      reads this
    {
      (brightness, contrast, enabledPath, disabledPath)
    }

    /** Module import: the enabled directory is the expanded default and the disabled directory
        the expansion of `disabled/` under it; the factors start at 0.1 and 1.0. */
    constructor (expand: string -> string, cwdIsDir: string -> bool, isImage: seq<bv8> -> bool,
                 render: (seq<bv8>, JValue, JValue) -> seq<bv8>, config: ConfigFile, fs: Fs)
      ensures this.expand == expand && this.cwdIsDir == cwdIsDir
      ensures this.isImage == isImage && this.render == render
      ensures enabledPath == expand("/home/$USER/Pictures/kittyWallpapers/")
      ensures disabledPath == expand(enabledPath + "disabled/")
      ensures brightness == JFloat(0.1) && contrast == JFloat(1.0)
      ensures this.config == config && this.fs == fs
    {
      this.expand := expand;
      this.cwdIsDir := cwdIsDir;
      this.isImage := isImage;
      this.render := render;
      enabledPath := expand("/home/$USER/Pictures/kittyWallpapers/");
      disabledPath := expand(expand("/home/$USER/Pictures/kittyWallpapers/") + "disabled/");
      brightness := JFloat(0.1);
      contrast := JFloat(1.0);
      this.config := config;
      this.fs := fs;
    }

    /** `load_config`: a missing file is created empty and nothing else changes; otherwise each
        of the four options is assigned, in order, only when it is truthy, and the paths through
        `expandvars`. */
    method LoadConfig() returns (r: Result<(), Failure>)
      modifies this`config, this`brightness, this`contrast, this`enabledPath, this`disabledPath
      ensures old(config).Missing? ==> config == Unreadable && r.Ok? && Settings() == old(Settings())
      ensures !old(config).Missing? ==> config == old(config)
      ensures old(config).Unreadable? ==> r == Err(ConfigUnreadable) && Settings() == old(Settings())
      ensures old(config).Parsed? && Get(old(config).data, "options").None? ==> r.Ok? && Settings() == old(Settings())
      ensures old(config).Parsed? && Get(old(config).data, "options").Some? && !Get(old(config).data, "options").value.JObject? ==>
        r == Err(OptionsNotAnObject) && Settings() == old(Settings())
      ensures OptionsOf(old(config)).Some? ==>
        var opts := OptionsOf(old(config)).value;
        brightness == Gated(old(brightness), opts, "brightness")
        && contrast == Gated(old(contrast), opts, "contrast")
        && match GatedPath(old(enabledPath), opts, "enabled_path", expand)
           case Err(f) => r == Err(f) && enabledPath == old(enabledPath) && disabledPath == old(disabledPath)
           case Ok(ep) =>
             (enabledPath == ep
              && match GatedPath(old(disabledPath), opts, "disabled_path", expand)
                 case Err(f) => r == Err(f) && disabledPath == old(disabledPath)
                 case Ok(dp) => r.Ok? && disabledPath == dp)
    {
      match config
      case Missing =>
        config := Unreadable;
        return Ok(());
      case Unreadable =>
        return Err(ConfigUnreadable);
      case Parsed(data) =>
        var options := Get(data, "options");
        if options.None? {
          return Ok(());
        }
        if !options.value.JObject? {
          return Err(OptionsNotAnObject);
        }
        var opts := options.value.fields;
        if "brightness" in opts && Truthy(opts["brightness"]) {
          brightness := opts["brightness"];
        }
        if "contrast" in opts && Truthy(opts["contrast"]) {
          contrast := opts["contrast"];
        }
        if "enabled_path" in opts && Truthy(opts["enabled_path"]) {
          var e := opts["enabled_path"];
          if !e.JString? {
            return Err(PathNotText("enabled_path"));
          }
          enabledPath := expand(e.s);
        }
        if "disabled_path" in opts && Truthy(opts["disabled_path"]) {
          var d := opts["disabled_path"];
          if !d.JString? {
            return Err(PathNotText("disabled_path"));
          }
          disabledPath := expand(d.s);
        }
        return Ok(());
    }

    /** `folder_contains_file`: scans the folder's entries for one that is not a directory
        relative to the working directory while the file exists. */
    method FolderContainsFile(folder: string, file: string) returns (found: bool)
      ensures found <==> FolderContains(fs, folder, file, cwdIsDir)
    {
      var entries := Listing(fs, folder);
      while entries != {}
        invariant entries <= Listing(fs, folder)
        invariant forall f :: f in Listing(fs, folder) && f !in entries ==> cwdIsDir(f) || folder + file !in fs
        decreases entries
      {
        var f :| f in entries;
        if !cwdIsDir(f) && folder + file in fs {
          return true;
        }
        entries := entries - {f};
      }
      return false;
    }

    /** `remove_next_file`: removes every listed `.next` marker of the enabled directory. */
    method RemoveNextFile()
      modifies this`fs
      ensures fs == WithoutMarkers(old(fs), enabledPath)
    {
      var names := ExtNames(fs, enabledPath, "next");
      RemoveMarkers(names);
    }

    /** The loop of `remove_next_file`: removes the marker of each name in turn. */
    method RemoveMarkers(names: set<string>)
      modifies this`fs
      ensures fs == old(fs) - MarkerPaths(enabledPath, names)
    {
      var todo := names;
      ghost var done: set<string> := {};
      while todo != {}
        invariant done + todo == names && done !! todo
        invariant fs == old(fs) - MarkerPaths(enabledPath, done)
        decreases todo
      {
        var n :| n in todo;
        MarkerPathsAdd(old(fs), enabledPath, done, n);
        fs := fs - {Marker(enabledPath, n)};
        todo := todo - {n};
        done := done + {n};
      }
      assert done == names;
    }

    /** The steps `set` and `silent_callback` share once a file is chosen: remove the markers,
        create the marker of `bg`, copy the file over the current copy. */
    method Select(bg: string, file: string)
      requires IsPlainFile(fs, file) && |file| >= 4 && file[|file| - 4..] == ".png"
      modifies this`fs
      ensures fs == Selected(old(fs), enabledPath, bg, file)
    {
      PngSurvivesRemoval(fs, enabledPath, file);
      PngIsNotMarker(enabledPath, bg, file);
      RemoveNextFile();
      fs := fs[Marker(enabledPath, bg) := File([])];
      assert fs[file] == old(fs)[file];
      fs := fs[CurrentCopy(enabledPath) := fs[file]];
    }

    /** `set`: selects the enabled copy of `bg`, else the disabled one; with neither, reports
        and changes nothing. */
    method Set(bg: string) returns (r: Result<string, Failure>)
      modifies this`fs
      ensures Choice(old(fs), enabledPath, disabledPath, bg).None? ==>
        r == Err(NotABackground(disabledPath + bg + ".png")) && fs == old(fs)
      ensures Choice(old(fs), enabledPath, disabledPath, bg).Some? ==>
        r == Ok(Choice(old(fs), enabledPath, disabledPath, bg).value)
        && fs == Selected(old(fs), enabledPath, bg, r.value)
    {
      var file := enabledPath + bg + ".png";
      if !IsPlainFile(fs, file) {
        file := disabledPath + bg + ".png";
        if !IsPlainFile(fs, file) {
          return Err(NotABackground(file));
        }
      }
      PngSuffix(if file == enabledPath + bg + ".png" then enabledPath else disabledPath, bg);
      Select(bg, file);
      return Ok(file);
    }

    /** `silent_callback`: draws a name from the enabled `.png` backgrounds and selects it;
        an empty list fails before anything changes. */
    method SilentCallback() returns (r: Result<string, Failure>)
      modifies this`fs
      ensures r.Err? <==> ExtNames(old(fs), enabledPath, "png") == {}
      ensures r.Err? ==> r == Err(NoBackgrounds) && fs == old(fs)
      ensures r.Ok? ==>
        (r.value in ExtNames(old(fs), enabledPath, "png")
         && Choice(old(fs), enabledPath, disabledPath, r.value).Some?
         && fs == Selected(old(fs), enabledPath, r.value, Choice(old(fs), enabledPath, disabledPath, r.value).value))
    {
      var names := ExtNames(fs, enabledPath, "png");
      if names == {} {
        return Err(NoBackgrounds);
      }
      var bg :| bg in names;
      ListedIsChosen(fs, enabledPath, disabledPath, bg);
      var chosen := Set(bg);
      assert chosen.Ok?;
      return Ok(bg);
    }

    /** `enable`: moves `<disabled><bg>.png` into the enabled directory after the three checks. */
    method Enable(bg: string) returns (r: Result<(), Failure>)
      modifies this`fs
      ensures (fs, r) == Transferred(old(fs), disabledPath, enabledPath, bg, cwdIsDir)
    {
      var file := disabledPath + bg + ".png";
      if file !in fs {
        return Err(DoesNotExist(file));
      } else if fs[file].Dir? {
        return Err(IsADirectory(file));
      }
      var contains := FolderContainsFile(disabledPath, bg + ".png");
      if !contains {
        return Err(NotInFolder(file));
      }
      fs := (fs - {file})[enabledPath + bg + ".png" := fs[file]];
      return Ok(());
    }

    /** `disable`: moves `<enabled><bg>.png` into the disabled directory after the three checks. */
    method Disable(bg: string) returns (r: Result<(), Failure>)
      modifies this`fs
      ensures (fs, r) == Transferred(old(fs), enabledPath, disabledPath, bg, cwdIsDir)
    {
      var file := enabledPath + bg + ".png";
      if file !in fs {
        return Err(DoesNotExist(file));
      } else if fs[file].Dir? {
        return Err(IsADirectory(file));
      }
      var contains := FolderContainsFile(enabledPath, bg + ".png");
      if !contains {
        return Err(NotInFolder(file));
      }
      fs := (fs - {file})[disabledPath + bg + ".png" := fs[file]];
      return Ok(());
    }

    /** `add`: checks that the path exists, is not a directory, has a valid file name and holds an
        image, then writes the enhanced image as `<enabled><name>.png`. */
    method Add(pathToFile: string) returns (r: Result<string, Failure>)
      modifies this`fs
      ensures pathToFile !in old(fs) ==> r == Err(DoesNotExist(pathToFile)) && fs == old(fs)
      ensures IsDirAt(old(fs), pathToFile) ==> r == Err(IsADirectory(pathToFile)) && fs == old(fs)
      ensures IsPlainFile(old(fs), pathToFile) && AddName(pathToFile).None? ==>
        r == Err(InvalidFilename(Basename(pathToFile))) && fs == old(fs)
      ensures IsPlainFile(old(fs), pathToFile) && AddName(pathToFile).Some? && !isImage(old(fs)[pathToFile].data) ==>
        r == Err(NotAnImage(pathToFile)) && fs == old(fs)
      ensures IsPlainFile(old(fs), pathToFile) && AddName(pathToFile).Some? && isImage(old(fs)[pathToFile].data) ==>
        r == Ok(enabledPath + AddName(pathToFile).value + ".png")
        && fs == old(fs)[r.value := File(render(old(fs)[pathToFile].data, contrast, brightness))]
    {
      var file := Basename(pathToFile);
      var props := RSplitDot(file);
      assert AddName(pathToFile) == if props.None? || props.value.0 == "" || props.value.1 == "" then None else Some(props.value.0);
      if pathToFile !in fs {
        return Err(DoesNotExist(pathToFile));
      } else if fs[pathToFile].Dir? {
        return Err(IsADirectory(pathToFile));
      } else if props.None? || props.value.0 == "" || props.value.1 == "" {
        return Err(InvalidFilename(file));
      } else if !isImage(fs[pathToFile].data) {
        return Err(NotAnImage(pathToFile));
      }
      var outPath := enabledPath + props.value.0 + ".png";
      fs := fs[outPath := File(render(fs[pathToFile].data, contrast, brightness))];
      return Ok(outPath);
    }
  }

  /** Removing one more marker is removing the markers of one more name. */
  lemma MarkerPathsAdd(fs: Fs, e: string, done: set<string>, n: string)
    ensures fs - MarkerPaths(e, done + {n}) == (fs - MarkerPaths(e, done)) - {Marker(e, n)}
  {
    assert MarkerPaths(e, done + {n}) == MarkerPaths(e, done) + {Marker(e, n)};
  }

  /** A `.png` path is never a `.next` marker. */
  lemma PngIsNotMarker(e: string, n: string, file: string)
    requires |file| >= 4 && file[|file| - 4..] == ".png"
    ensures Marker(e, n) != file
  {
    var m := Marker(e, n);
    assert m[|m| - 1] == ".next"[4];
    assert file[|file| - 1] == ".png"[3];
  }

  /** Removing the markers keeps a `.png` file and its contents. */
  lemma PngSurvivesRemoval(fs: Fs, e: string, file: string)
    requires file in fs && |file| >= 4 && file[|file| - 4..] == ".png"
    ensures file in WithoutMarkers(fs, e) && WithoutMarkers(fs, e)[file] == fs[file]
  {
    forall n | n in ExtNames(fs, e, "next")
      ensures Marker(e, n) != file
    {
      PngIsNotMarker(e, n, file);
    }
  }

  /** `<dir><bg>.png` ends in `.png`. */
  lemma PngSuffix(dir: string, bg: string)
    ensures |dir + bg + ".png"| >= 4 && (dir + bg + ".png")[|dir + bg + ".png"| - 4..] == ".png"
  {
  }
}
