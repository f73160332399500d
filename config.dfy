/** The configuration store and its JSON document: loading options into the validated property
    store, persisting it, and recording the next/previous background selection. */
module Config {
  import opened Wrappers
  import opened Json
  import opened PurePath
  import opened Schema

  datatype ConfigError =
    | ConfigMissing            // config.json is not a file
    | UnknownProperty(name: string)
    | NotAnObject(key: string) // a value the program calls `.get` on is not a JSON object
    | NotText(key: string)     // a value the program hands to `expandvars` is not a string

  datatype LoadOutcome =
    | Created                  // no config file: a default one was written
    | Loaded(rejected: seq<string>)
    | Failed(error: ConfigError)

  /** The store's values right after the thirteen properties are registered. */
  function DefaultValues(): (m: map<string, JValue>)
    ensures m.Keys == Registered()
    ensures forall n :: n in m ==> m[n] == Properties[n].default
  {
    map n | n in Properties :: Properties[n].default
  }

  /** Whether loading takes `options`' entry for `name`: the entry is present, not null, and
      passes the property's validator. */
  predicate Accepted(name: string, options: map<string, JValue>, isColor: JValue -> bool)
    ensures Accepted(name, options, isColor) ==> name in options && options[name] != JNull
    ensures Accepted(name, options, isColor) ==> !Refused(name, options, isColor)
  {
    name in Properties && Get(options, name).Some? && Validate(Properties[name].rule, options[name], isColor)
  }

  /** Whether loading reports `options`' entry for `name` as invalid and keeps the old value. */
  predicate Refused(name: string, options: map<string, JValue>, isColor: JValue -> bool)
    ensures Refused(name, options, isColor) ==> name in options && options[name] != JNull
  {
    name in Properties && Get(options, name).Some? && !Validate(Properties[name].rule, options[name], isColor)
  }

  /** The store after the names in `done` have been visited, in order, by a load of `options`:
      each visited name the store holds takes its entry when the load accepts it. */
  function MergedOver(values: map<string, JValue>, options: map<string, JValue>, done: seq<string>,
                      isColor: JValue -> bool): (r: map<string, JValue>)
    ensures r.Keys == values.Keys
  {
    if done == [] then values
    else
      var m := MergedOver(values, options, done[..|done| - 1], isColor);
      var name := done[|done| - 1];
      if name in m && Accepted(name, options, isColor) then m[name := options[name]] else m
  }

  /** The store after a load of `options` has visited every registered name. */
  function Merged(values: map<string, JValue>, options: map<string, JValue>, isColor: JValue -> bool): (r: map<string, JValue>)
    ensures r.Keys == values.Keys
  {
    MergedOver(values, options, Names(), isColor)
  }

  /** What the load leaves under one name: its entry when the name was visited and the entry
      accepted, the old value otherwise. */
  lemma {:induction false} MergedOverAt(values: map<string, JValue>, options: map<string, JValue>, done: seq<string>,
                                        isColor: JValue -> bool, k: string)
    requires k in values
    ensures MergedOver(values, options, done, isColor)[k]
            == if k in done && Accepted(k, options, isColor) then options[k] else values[k]
    decreases |done|
  {
    if done != [] {
      var init := done[..|done| - 1];
      MergedOverAt(values, options, init, isColor, k);
      assert done == init + [done[|done| - 1]];
    }
  }

  /** Visiting one more name changes at most that name's value: it takes the entry when the
      load accepts it and keeps the store otherwise. */
  lemma MergeStep(values: map<string, JValue>, options: map<string, JValue>, done: seq<string>, name: string,
                  isColor: JValue -> bool)
    requires name in values
    ensures MergedOver(values, options, done + [name], isColor)
            == if Accepted(name, options, isColor)
               then MergedOver(values, options, done, isColor)[name := options[name]]
               else MergedOver(values, options, done, isColor)
  {
    assert (done + [name])[..|done|] == done;
  }

  /** The names a load of `options` reports as invalid, in the order it visits `names`. */
  function RejectedNames(names: seq<string>, options: map<string, JValue>, isColor: JValue -> bool): (r: seq<string>)
    ensures |r| <= |names|
    ensures forall i :: 0 <= i < |r| ==> Refused(r[i], options, isColor)
  {
    if names == [] then []
    else
      var last := names[|names| - 1];
      RejectedNames(names[..|names| - 1], options, isColor) + (if Refused(last, options, isColor) then [last] else [])
  }

  /** One visit of the load, by outcome: an accepted entry is stored, a refused one is reported,
      and an absent or null one changes nothing. */
  lemma LoadStep(before: map<string, JValue>, values: map<string, JValue>, rejected: seq<string>,
                 options: map<string, JValue>, done: seq<string>, name: string, isColor: JValue -> bool)
    requires name in before && name in Properties
    requires values == MergedOver(before, options, done, isColor)
    requires rejected == RejectedNames(done, options, isColor)
    ensures Get(options, name).Some? && Validate(Properties[name].rule, options[name], isColor) ==>
      MergedOver(before, options, done + [name], isColor) == values[name := options[name]]
      && RejectedNames(done + [name], options, isColor) == rejected
    ensures Get(options, name).Some? && !Validate(Properties[name].rule, options[name], isColor) ==>
      MergedOver(before, options, done + [name], isColor) == values
      && RejectedNames(done + [name], options, isColor) == rejected + [name]
    ensures Get(options, name).None? ==>
      MergedOver(before, options, done + [name], isColor) == values
      && RejectedNames(done + [name], options, isColor) == rejected
  {
    MergeStep(before, options, done, name, isColor);
    RejectStep(done, name, options, isColor);
  }

  /** Visiting one more name appends it to the report exactly when its entry is refused. */
  lemma RejectStep(done: seq<string>, name: string, options: map<string, JValue>, isColor: JValue -> bool)
    ensures RejectedNames(done + [name], options, isColor)
            == RejectedNames(done, options, isColor) + (if Refused(name, options, isColor) then [name] else [])
  {
    assert (done + [name])[..|done|] == done;
  }

  /** The `options` object a save writes: every registered name with its current value. */
  function SavedDocument(doc: Document, values: map<string, JValue>): (r: Document)
    ensures r.Keys == doc.Keys + {"options"}
    ensures r["options"] == JObject(values)
    ensures forall k :: k in doc && k != "options" ==> r[k] == doc[k]
  {
    doc["options" := JObject(values)]
  }

  /** The document written when config.json is missing. */
  function DefaultDocument(values: map<string, JValue>): (r: Document)
    ensures r.Keys == {"options", "background"}
    ensures r["options"] == JObject(values)
    ensures r["background"] == JObject(map["next" := JString(""), "previous" := JString("")])
  {
    map["options" := JObject(values),
        "background" := JObject(map["next" := JString(""), "previous" := JString("")])]
  }

  /** The document after recording `target` (the resolved new background, as text) as next:
      `background` becomes `{next: target}`, plus `previous` holding the old `background.next`
      when there was one. A `background` that is not an object makes `.get` raise. */
  function AdvancedDocument(doc: Document, target: string): (r: Result<Document, ConfigError>)
    ensures r.Err? <==> Get(doc, "background").Some? && !doc["background"].JObject?
    ensures r.Ok? ==> r.value.Keys == doc.Keys + {"background"}
    ensures r.Ok? ==> forall k :: k in doc && k != "background" ==> r.value[k] == doc[k]
    ensures r.Ok? ==> r.value["background"].JObject? && "next" in r.value["background"].fields
    ensures r.Ok? ==> r.value["background"].fields["next"] == JString(target)
    ensures r.Ok? ==> var bg := r.value["background"].fields;
      ("previous" in bg <==> Get(doc, "background").Some? && Get(doc["background"].fields, "next").Some?)
      && ("previous" in bg ==> bg["previous"] == doc["background"].fields["next"])
      && bg.Keys <= {"next", "previous"}
  {
    var prior := Get(doc, "background");
    if prior.Some? && !prior.value.JObject? then Err(NotAnObject("background"))
    else
      var p := if prior.Some? then Get(prior.value.fields, "next") else None;
      var bg := if p.Some? then map["next" := JString(target), "previous" := p.value]
                else map["next" := JString(target)];
      Ok(doc["background" := JObject(bg)])
  }

  /** `get_next` / `get_previous`: the stem of a selected path, or None when nothing is selected
      or the path has an empty stem. */
  function ChosenName(p: Option<Path>): (r: Option<string>)
    ensures r.None? <==> p.None? || Name(p.value) == ""
    ensures r.Some? ==> r.value == Stem(Name(p.value)) && r.value != ""
    ensures r.Some? && Suffix(Name(p.value)) == "" ==> r.value == Name(p.value)
  {
    if p.None? then None
    else
      StemSuffixSplit(Name(p.value));
      if Stem(Name(p.value)) == "" then None else Some(Stem(Name(p.value)))
  }

  /** Whether a `background` entry can be loaded: absent or null, or a string `expandvars` accepts. */
  predicate Loadable(entry: Option<JValue>)
  {
    entry.None? || entry.value.JString?
  }

  /** The selection slot after loading `entry`: `Path(expandvars(entry))` for a string, the
      old slot for an absent or null entry. */
  function Slot(current: Option<Path>, entry: Option<JValue>, expand: string -> string): (r: Option<Path>)
    ensures r.None? ==> current.None?
    ensures r != current ==> entry.Some? && entry.value.JString?
  {
    if entry.Some? && entry.value.JString? then Some(Parse(expand(entry.value.s))) else current
  }

  /** For each registered name the load takes a valid entry, keeps the value for an invalid
      one, and reports exactly the invalid ones; names outside the schema are ignored. */
  lemma {:induction false} RejectedNamesExact(names: seq<string>, options: map<string, JValue>,
                                              isColor: JValue -> bool, n: string)
    ensures n in RejectedNames(names, options, isColor) <==> n in names && Refused(n, options, isColor)
    decreases |names|
  {
    if names != [] {
      var init := names[..|names| - 1];
      RejectedNamesExact(init, options, isColor, n);
      assert names == init + [names[|names| - 1]];
    }
  }

  /** The load rule for one property: a valid entry replaces the value, an invalid one is
      reported and changes nothing, and an absent or null entry changes nothing silently. */
  lemma LoadRule(values: map<string, JValue>, options: map<string, JValue>, isColor: JValue -> bool, n: string)
    requires n in values && n in Properties
    ensures Accepted(n, options, isColor) ==> Merged(values, options, isColor)[n] == options[n]
    ensures !Accepted(n, options, isColor) ==> Merged(values, options, isColor)[n] == values[n]
    ensures n in RejectedNames(Names(), options, isColor) <==> Refused(n, options, isColor)
    ensures n in RejectedNames(Names(), options, isColor) ==> Merged(values, options, isColor)[n] == values[n]
  {
    NamesRegistered();
    RejectedNamesExact(Names(), options, isColor, n);
    MergedOverAt(values, options, Names(), isColor, n);
  }

  /** Loading the same options twice gives what loading them once gives. */
  lemma MergeIdempotent(values: map<string, JValue>, options: map<string, JValue>, isColor: JValue -> bool)
    ensures Merged(Merged(values, options, isColor), options, isColor) == Merged(values, options, isColor)
  {
    var once := Merged(values, options, isColor);
    forall k | k in values
      ensures Merged(once, options, isColor)[k] == once[k]
    {
      MergedOverAt(values, options, Names(), isColor, k);
      MergedOverAt(once, options, Names(), isColor, k);
    }
  }

  /** Round trip: when every stored value is a non-null value its validator accepts, loading
      the `options` object that a save wrote restores exactly those values, whatever the store
      held before, and reports nothing. */
  lemma SaveThenLoad(doc: Document, values: map<string, JValue>, before: map<string, JValue>,
                     isColor: JValue -> bool)
    requires values.Keys == Registered() && before.Keys == Registered()
    requires forall n :: n in values ==> values[n] != JNull && Validate(Properties[n].rule, values[n], isColor)
    ensures Merged(before, SavedDocument(doc, values)["options"].fields, isColor) == values
    ensures RejectedNames(Names(), SavedDocument(doc, values)["options"].fields, isColor) == []
  {
    NamesCoverSchema();
    assert SavedDocument(doc, values)["options"].fields == values;
    LoadAllAccepted(before, values, Names(), isColor);
  }

  /** Loading options that hold a valid entry for every name the store holds, all of them
      visited, restores exactly those options and reports nothing. */
  lemma LoadAllAccepted(before: map<string, JValue>, options: map<string, JValue>, names: seq<string>,
                        isColor: JValue -> bool)
    requires options.Keys == before.Keys
    requires forall n :: n in options ==> n in names && Accepted(n, options, isColor)
    requires forall n :: n in names ==> !Refused(n, options, isColor)
    ensures MergedOver(before, options, names, isColor) == options
    ensures RejectedNames(names, options, isColor) == []
  {
    forall k | k in options
      ensures MergedOver(before, options, names, isColor)[k] == options[k]
    {
      MergedOverAt(before, options, names, isColor, k);
    }
    NoneRefusedIsEmpty(names, options, isColor);
  }

  /** A load that refuses no visited name reports nothing. */
  lemma {:induction false} NoneRefusedIsEmpty(names: seq<string>, options: map<string, JValue>, isColor: JValue -> bool)
    requires forall i :: 0 <= i < |names| ==> !Refused(names[i], options, isColor)
    ensures RejectedNames(names, options, isColor) == []
    decreases |names|
  {
    if names != [] {
      NoneRefusedIsEmpty(names[..|names| - 1], options, isColor);
    }
  }

  /** A freshly generated default document loads back to the defaults with nothing reported,
      and leaves no background selected. */
  lemma DefaultDocumentLoads(isColor: JValue -> bool, expand: string -> string)
    requires isColor(JString("#000000"))
    requires expand("") == ""
    ensures var doc := DefaultDocument(DefaultValues());
      && Merged(DefaultValues(), doc["options"].fields, isColor) == DefaultValues()
      && RejectedNames(Names(), doc["options"].fields, isColor) == []
      && ChosenName(Slot(None, Get(doc["background"].fields, "next"), expand)) == None
      && ChosenName(Slot(None, Get(doc["background"].fields, "previous"), expand)) == None
  {
    var selection := DefaultDocument(DefaultValues())["background"].fields;
    assert Get(selection, "next") == Get(selection, "previous") == Some(JString(""));
    DefaultsLoadBack(isColor);
    EmptyTextSelectsNothing(expand);
  }

  /** The default `options` object loads back to the defaults with nothing reported. */
  lemma DefaultsLoadBack(isColor: JValue -> bool)
    requires isColor(JString("#000000"))
    ensures var opts := DefaultDocument(DefaultValues())["options"].fields;
      && Merged(DefaultValues(), opts, isColor) == DefaultValues()
      && RejectedNames(Names(), opts, isColor) == []
  {
    DefaultsNotNull();
    DefaultsPassRules(isColor);
    SaveThenLoad(map[], DefaultValues(), DefaultValues(), isColor);
  }

  /** An empty recorded selection names no background. */
  lemma EmptyTextSelectsNothing(expand: string -> string)
    requires expand("") == ""
    ensures ChosenName(Slot(None, Some(JString("")), expand)) == None
  {
    assert Parse("") == Path(false, []);
  }

  /** Recording A and then B leaves B as next and A as previous: previous is always exactly
      the next it replaced, never an older one. */
  lemma AdvanceTwice(doc: Document, a: string, b: string)
    requires AdvancedDocument(doc, a).Ok?
    ensures AdvancedDocument(AdvancedDocument(doc, a).value, b).Ok?
    ensures AdvancedDocument(AdvancedDocument(doc, a).value, b).value["background"]
            == JObject(map["next" := JString(b), "previous" := JString(a)])
  {
    var d1 := AdvancedDocument(doc, a).value;
    var d2 := AdvancedDocument(d1, b).value;
    var bg := d2["background"].fields;
    assert bg.Keys == {"next", "previous"};
  }

  /** Round trip of a recorded selection: the text written for a resolved path loads back as
      that path when `expandvars` leaves it alone, and names the same background. */
  lemma RecordThenLoad(doc: Document, p: Path, expand: string -> string, before: Option<Path>)
    requires WellFormed(p) && expand(Render(p)) == Render(p)
    requires AdvancedDocument(doc, Render(p)).Ok?
    ensures var bg := AdvancedDocument(doc, Render(p)).value["background"].fields;
      Slot(before, Get(bg, "next"), expand) == Some(p)
      && ChosenName(Slot(before, Get(bg, "next"), expand)) == ChosenName(Some(p))
  {
    ParseRender(p);
  }

  /** The process-wide configuration state of the program: the property store, the selected
      backgrounds, the materialised directory paths, and the config file on disk. */
  class ConfigStore {
    var values: map<string, JValue>
    var next: Option<Path>
    var previous: Option<Path>
    var enabledPath: Option<Path>
    var disabledPath: Option<Path>
    var currentPath: Option<Path>
    /** config.json: None when it is not a file. */
    var file: Option<Document>
    /** `os.path.expandvars`, which depends on the environment. */
    const expand: string -> string
    /** `Path.resolve`, which depends on the working directory and the file system. */
    const resolve: Path -> Path
    /** The image library's color parser behind the `background_color` validator. */
    const isColor: JValue -> bool

    /** The store holds exactly the registered properties. */
    ghost predicate Valid()
      reads this
    {
      values.Keys == Registered()
    }

    /** The state once the module is imported: every property at its default, nothing selected,
        no path materialised. */
    constructor (file: Option<Document>, expand: string -> string, resolve: Path -> Path, isColor: JValue -> bool)
      ensures Valid()
      ensures values == DefaultValues() && next == None && previous == None
      ensures enabledPath == None && disabledPath == None && currentPath == None
      ensures this.file == file && this.expand == expand && this.resolve == resolve && this.isColor == isColor
    {
      values := DefaultValues();
      next, previous := None, None;
      enabledPath, disabledPath, currentPath := None, None, None;
      this.file := file;
      this.expand, this.resolve, this.isColor := expand, resolve, isColor;
    }

    /** Visits every registered name in order; a present, non-null entry of `options` that its
        validator accepts becomes the value, one it refuses is reported and changes nothing. */
    method LoadOptions(options: map<string, JValue>) returns (rejected: seq<string>)
      requires Valid()
      modifies this`values
      ensures Valid()
      ensures values == Merged(old(values), options, isColor)
      ensures rejected == RejectedNames(Names(), options, isColor)
    {
      NamesRegistered();
      rejected := LoadNames(options, Names());
    }

    /** The loop of `LoadOptions`, over any list of registered names held by the store. */
    method LoadNames(options: map<string, JValue>, names: seq<string>) returns (rejected: seq<string>)
      requires forall n :: n in names ==> n in values && n in Properties
      modifies this`values
      ensures values == MergedOver(old(values), options, names, isColor)
      ensures rejected == RejectedNames(names, options, isColor)
    {
      rejected := [];
      var i := 0;
      ghost var done := [];
      while i < |names|
        invariant 0 <= i <= |names| && done == names[..i]
        invariant values == MergedOver(old(values), options, done, isColor)
        invariant rejected == RejectedNames(done, options, isColor)
      {
        var name := names[i];
        LoadStep(old(values), values, rejected, options, done, name, isColor);
        var o := Get(options, name);
        if o.Some? {
          assert o.value == options[name];
          if Validate(Properties[name].rule, o.value, isColor) {
            values := values[name := o.value];
          } else {
            rejected := rejected + [name];
          }
        }
        assert names[..i + 1] == done + [name];
        done := done + [name];
        i := i + 1;
      }
      assert names[..|names|] == names;
    }

    /** Loads the selection from a `background` object: a string entry becomes
        `Path(expandvars(entry))`; an absent or null one leaves the slot alone; any other value
        makes `expandvars` raise, after `next` was already loaded when the failure is in
        `previous`. */
    method LoadBackground(background: map<string, JValue>) returns (r: Result<(), ConfigError>)
      modifies this`next, this`previous
      ensures var n, p := Get(background, "next"), Get(background, "previous");
        && (r.Ok? <==> Loadable(n) && Loadable(p))
        && (!Loadable(n) ==> r == Err(NotText("next")))
        && (Loadable(n) && !Loadable(p) ==> r == Err(NotText("previous")))
        && next == (if Loadable(n) then Slot(old(next), n, expand) else old(next))
        && previous == (if Loadable(n) && Loadable(p) then Slot(old(previous), p, expand) else old(previous))
    {
      var n := Get(background, "next");
      if n.Some? {
        if !n.value.JString? {
          return Err(NotText("next"));
        }
        next := Some(Parse(expand(n.value.s)));
      }
      var p := Get(background, "previous");
      if p.Some? {
        if !p.value.JString? {
          return Err(NotText("previous"));
        }
        previous := Some(Parse(expand(p.value.s)));
      }
      return Ok(());
    }

    /** Writes the default document: every property at its current value, empty selection. */
    method GenerateDefaultConfig()
      modifies this`file
      ensures file == Some(DefaultDocument(values))
    {
      file := Some(DefaultDocument(values));
    }

    /** Start-up load. A missing file is created with the defaults and nothing else changes.
        Otherwise the `options` object (when present and not null) is merged into the store,
        then the `background` object (when present and not null) into the selection; a value
        of either that is not an object makes the load fail at that point. */
    method LoadConfig() returns (r: LoadOutcome)
      requires Valid()
      modifies this`values, this`next, this`previous, this`file
      ensures Valid()
      ensures old(file).None? ==> r == Created && file == Some(DefaultDocument(values))
      ensures old(file).None? ==> values == old(values) && next == old(next) && previous == old(previous)
      ensures old(file).Some? ==> file == old(file) && !r.Created?
      ensures old(file).Some? ==>
        var doc := old(file).value;
        var opts, bg := Get(doc, "options"), Get(doc, "background");
        var optsOk := opts.None? || opts.value.JObject?;
        && values == (if opts.Some? && opts.value.JObject? then Merged(old(values), opts.value.fields, isColor) else old(values))
        && (!optsOk ==> r == Failed(NotAnObject("options")))
        && (optsOk && bg.None? ==> r.Loaded? && next == old(next) && previous == old(previous))
        && (optsOk && bg.Some? && !bg.value.JObject? ==> r == Failed(NotAnObject("background")))
        && (!optsOk || (bg.Some? && !bg.value.JObject?) ==> next == old(next) && previous == old(previous))
        && (optsOk && bg.Some? && bg.value.JObject? ==>
              var n, p := Get(bg.value.fields, "next"), Get(bg.value.fields, "previous");
              && (r.Loaded? <==> Loadable(n) && Loadable(p))
              && (!Loadable(n) ==> r == Failed(NotText("next")))
              && (Loadable(n) && !Loadable(p) ==> r == Failed(NotText("previous")))
              && next == (if Loadable(n) then Slot(old(next), n, expand) else old(next))
              && previous == (if Loadable(n) && Loadable(p) then Slot(old(previous), p, expand) else old(previous)))
        && (r.Loaded? ==> r.rejected == (if opts.Some? then RejectedNames(Names(), opts.value.fields, isColor) else []))
    {
      if file.None? {
        GenerateDefaultConfig();
        return Created;
      }
      var doc := file.value;
      var rejected := [];
      var opts := Get(doc, "options");
      if opts.Some? {
        if !opts.value.JObject? {
          return Failed(NotAnObject("options"));
        }
        rejected := LoadOptions(opts.value.fields);
      }
      var bg := Get(doc, "background");
      if bg.Some? {
        if !bg.value.JObject? {
          return Failed(NotAnObject("background"));
        }
        var loaded := LoadBackground(bg.value.fields);
        if loaded.Err? {
          return Failed(loaded.error);
        }
      }
      return Loaded(rejected);
    }

    /** Rewrites config.json with its `options` key replaced by the whole store; every other
        key, `background` included, is kept. Fails without a change when the file is missing. */
    method SaveConfig() returns (r: Result<(), ConfigError>)
      modifies this`file
      ensures r.Err? <==> old(file).None?
      ensures r.Err? ==> r.error == ConfigMissing && file == old(file)
      ensures r.Ok? ==> file == Some(SavedDocument(old(file).value, values))
    {
      if file.None? {
        return Err(ConfigMissing);
      }
      file := Some(SavedDocument(file.value, values));
      return Ok(());
    }

    /** Sets one registered property, without running its validator, and saves. A missing
        file or an unknown name is an error that changes neither the store nor the file. */
    method UpdateProperty(name: string, value: JValue) returns (r: Result<(), ConfigError>)
      requires Valid()
      modifies this`values, this`file
      ensures Valid()
      ensures old(file).None? ==> r == Err(ConfigMissing)
      ensures old(file).Some? && name !in old(values) ==> r == Err(UnknownProperty(name))
      ensures r.Err? ==> values == old(values) && file == old(file)
      ensures r.Ok? <==> old(file).Some? && name in Registered()
      ensures r.Ok? ==> values == old(values)[name := value]
      ensures r.Ok? ==> file == Some(SavedDocument(old(file).value, values))
    {
      if file.None? {
        return Err(ConfigMissing);
      }
      if name !in values {
        return Err(UnknownProperty(name));
      }
      values := values[name := value];
      file := Some(SavedDocument(file.value, values));
      return Ok(());
    }

    /** Selects `n` as the next background: None is a no-op; otherwise the in-memory next
        becomes `n` and the document records the resolved `n` as next and its old next as
        previous. The in-memory previous and the store are not touched. A missing file or a
        `background` that is not an object fails after next was set, leaving the file alone. */
    method SetNext(n: Option<Path>) returns (r: Result<(), ConfigError>)
      modifies this`next, this`file
      ensures n.None? ==> r.Ok? && next == old(next) && file == old(file)
      ensures n.Some? ==> next == n
      ensures n.Some? && old(file).None? ==> r == Err(ConfigMissing) && file == old(file)
      ensures n.Some? && old(file).Some? ==>
        var adv := AdvancedDocument(old(file).value, Render(resolve(n.value)));
        && (adv.Err? ==> r == Err(adv.error) && file == old(file))
        && (adv.Ok? ==> r.Ok? && file == Some(adv.value))
    {
      if n.None? {
        return Ok(());
      }
      next := n;
      if file.None? {
        return Err(ConfigMissing);
      }
      var adv := AdvancedDocument(file.value, Render(resolve(n.value)));
      if adv.Err? {
        return Err(adv.error);
      }
      file := Some(adv.value);
      return Ok(());
    }

    /** The name of the next background, or None. */
    function GetNext(): (r: Option<string>)
      reads this
      ensures r.None? <==> next.None? || Name(next.value) == ""
      ensures r.Some? ==> r.value == Stem(Name(next.value))
    {
      ChosenName(next)
    }

    /** The name of the previous background, or None. */
    function GetPrevious(): (r: Option<string>)
      reads this
      ensures r.None? <==> previous.None? || Name(previous.value) == ""
      ensures r.Some? ==> r.value == Stem(Name(previous.value))
    {
      ChosenName(previous)
    }

    /** Materialises the three directory paths from the store with `expandvars`, in order;
        a value that is not a string makes `expandvars` raise at that point. */
    method SetPaths() returns (r: Result<(), ConfigError>)
      requires Valid()
      modifies this`enabledPath, this`disabledPath, this`currentPath
      ensures var e, d, c := values["enabled_path"], values["disabled_path"], values["current_path"];
        && (r.Ok? <==> e.JString? && d.JString? && c.JString?)
        && enabledPath == (if e.JString? then Some(Parse(expand(e.s))) else old(enabledPath))
        && disabledPath == (if e.JString? && d.JString? then Some(Parse(expand(d.s))) else old(disabledPath))
        && currentPath == (if r.Ok? then Some(Parse(expand(c.s))) else old(currentPath))
    {
      var e := values["enabled_path"];
      if !e.JString? {
        return Err(NotText("enabled_path"));
      }
      enabledPath := Some(Parse(expand(e.s)));
      var d := values["disabled_path"];
      if !d.JString? {
        return Err(NotText("disabled_path"));
      }
      disabledPath := Some(Parse(expand(d.s)));
      var c := values["current_path"];
      if !c.JString? {
        return Err(NotText("current_path"));
      }
      currentPath := Some(Parse(expand(c.s)));
      return Ok(());
    }
  }
}
