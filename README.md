# kitty background manager — a verified model

kittybg manages wallpapers for the kitty terminal. Backgrounds are `.png` files kept in an
*enabled* directory and a *disabled* directory. The next background to show is copied to
`current/current.png` under the enabled directory. The program's settings live in
`config.json`, whose `options` object holds thirteen validated properties and whose
`background` object records the next and previous selections.

This project models the core of the program in Dafny and proves properties of that model:

- **Configuration store** (`config.py`, in `config.dfy` and `schema.dfy`)
  - A fixed schema of thirteen properties, each with a default and a validation rule.
  - `ConfigStore` is a class whose fields are the module's globals: the property values, the
    `next`/`previous` selections, the three directory paths and the config file.
  - Its methods load, save, update and advance the document as the source does, step by step.
  - Their contracts are tied to specification functions (`Merged`, `SavedDocument`,
    `AdvancedDocument`, `ChosenName`), and the lemmas prove the round trips and invariants.
- **Repository helpers** (`tools.py`, in `tools.dfy`)
  - The extension filter over a directory listing.
  - The enabled/disabled lookup.
  - The bounded search for a free `<stem>_<n>` file name.
  - These work over a file system `map<Path, Kind>`; `pure_path.dfy` models POSIX `pathlib`.
- **Older command module** (`main.py`, in `legacy.dfy` and `legacy_fs.dfy`)
  - `LegacyApp` is a class holding the module globals, the config file, and a file system
    keyed by literal path strings.
  - It models the truthiness-gated option loader, the `.next` marker bookkeeping of `set` and
    `silent_callback`, the guarded moves of `enable`/`disable`, and the checks of `add`.
- **Terminal hyperlinks** (`output.py` and the identical function in `main.py`, in
  `output.dfy`)
  - `to_link` builds an OSC 8 hyperlink: an operating system command of ECMA-48,
    section 8.3.89, terminated by BEL.

The environment enters as parameters, fixed when a `ConfigStore` or `LegacyApp` is constructed:

- `os.path.expandvars` is a function `string -> string`.
- `Path.resolve` is a function `Path -> Path`.
- The image library's color parser, `imghdr` sniffing and the image enhancement are opaque
  functions.
- `isdir` relative to the working directory is an opaque predicate.

Exceptions the source raises become error outcomes. They keep the state changes the source made
before raising.

Some behaviour of the code a reader may not expect, which the model keeps:

- `search_enabled_disabled(None, bg)` tries the *enabled* directory first.
- `update_property` stores the value without running its validator.
- `set_next` leaves the in-memory `previous` alone.
- The older `load_config` creates an *empty* `config.json` when there is none, which the next
  `json.load` rejects.
- `enable`, `disable` and `add` silently overwrite an existing file at the destination: `Moved`
  and the map update in `Add` replace whatever the destination held.

## Model

| member | source | states |
|---|---|---|
| `Json.Get` | beastwick18_kitty_background_manager/config.py:73 | `options.get(name)` followed by `is not None`: an absent key and a JSON null both give None; otherwise the stored value |
| `Json.Truthy` | beastwick18_kitty_background_manager/main.py:47-61 | Python truthiness: a value is falsy exactly when it is null, `false`, `0`, `0.0`, `""`, `[]` or `{}` |
| `Schema.NamesRegistered` | beastwick18_kitty_background_manager/config.py:37-49 | The registration list has thirteen names, and each is a registered property |
| `Schema.NamesCoverSchema` | beastwick18_kitty_background_manager/config.py:32-49 | Every registered property is in the registration list, and no name is registered twice |
| `Schema.Names` | beastwick18_kitty_background_manager/config.py:37-49 | The registration order lists thirteen names, none twice |
| `Schema.RegistryIsNames` | beastwick18_kitty_background_manager/config.py:32-49 | The registry `conf` holds exactly the properties of the registration list |
| `Schema.Validate` | beastwick18_kitty_background_manager/config.py:37-49 | Every validator except the color one refuses null, and accepts text exactly for the text, choice and dimensions rules |
| `Schema.ValidDimensions` | beastwick18_kitty_background_manager/config.py:45 | Valid dimensions are at least three characters, contain an `x`, and start and end with a digit |
| `Schema.DimensionsOf` | beastwick18_kitty_background_manager/config.py:45 | Two non-zero decimal numbers joined by `x` are valid dimensions |
| `Schema.DefaultsNotNull` | beastwick18_kitty_background_manager/config.py:37-49 | No registered default is JSON null, so every default survives the `is not None` test of a load |
| `Schema.DefaultsPassRules` | beastwick18_kitty_background_manager/config.py:37-49 | Each default passes the validator registered with it, provided the color parser accepts `#000000` |
| `Schema.CropSizeIsValid` | beastwick18_kitty_background_manager/config.py:45 | The default crop size `1920x1080` splits at its `x` into two non-zero decimal numbers |
| `Config.DefaultValues` | beastwick18_kitty_background_manager/config.py:32-49 | The store after registration has exactly the registered names, each at its default |
| `Config.MergedOver` | beastwick18_kitty_background_manager/config.py:70-77 | Loading a prefix of the names never adds or removes store entries |
| `Config.MergedOverAt` | beastwick18_kitty_background_manager/config.py:70-77 | After visiting `done`, a stored name holds its entry exactly when it was visited and the entry accepted, and its old value otherwise |
| `Config.Merged` | beastwick18_kitty_background_manager/config.py:70-77 | A full load keeps the store's key set |
| `Config.MergeStep` | beastwick18_kitty_background_manager/config.py:71-75 | Visiting one more name changes only that name's value, and only when its entry is accepted |
| `Config.RejectStep` | beastwick18_kitty_background_manager/config.py:76-77 | Visiting one more name appends it to the report exactly when its entry is refused |
| `Config.LoadStep` | beastwick18_kitty_background_manager/config.py:73-77 | One visit by outcome: an accepted entry is stored, a refused one is reported and keeps the store, an absent or null one changes nothing |
| `Config.Accepted` | beastwick18_kitty_background_manager/config.py:73-75 | An accepted entry is present and not null, and is never also refused |
| `Config.Refused` | beastwick18_kitty_background_manager/config.py:73-77 | A refused entry is present and not null |
| `Config.SavedDocument` | beastwick18_kitty_background_manager/config.py:108 | A save replaces only the `options` key, with the whole store; every other key is kept |
| `Config.DefaultDocument` | beastwick18_kitty_background_manager/config.py:51-57 | The default document holds `options` = the store and `background` = `{next: "", previous: ""}`, nothing else |
| `Config.AdvancedDocument` | beastwick18_kitty_background_manager/config.py:145-152 | `background` becomes `{next: target}`, plus `previous` = the old `background.next` exactly when that existed. Other keys are kept. A non-object `background` fails |
| `Config.ChosenName` | beastwick18_kitty_background_manager/config.py:160-168 | None exactly when nothing is selected or the path has no name; otherwise the non-empty stem |
| `Config.Slot` | beastwick18_kitty_background_manager/config.py:79-86 | Loading never clears a selection, and only a string entry changes it |
| `Config.RejectedNamesExact` | beastwick18_kitty_background_manager/config.py:70-77 | A load reports a name exactly when it is visited and its present, non-null entry fails validation |
| `Config.RejectedNames` | beastwick18_kitty_background_manager/config.py:70-77 | A load reports at most one name per visited name, and every reported name was refused |
| `Config.LoadRule` | beastwick18_kitty_background_manager/config.py:70-77 | For each registered name: an accepted entry becomes the value; otherwise the value is kept; a refused entry is reported and keeps the value |
| `Config.MergeIdempotent` | beastwick18_kitty_background_manager/config.py:70-77 | Loading the same options twice equals loading them once |
| `Config.SaveThenLoad` | beastwick18_kitty_background_manager/config.py:102-114 | Loading the saved `options` restores every valid non-null store value exactly, whatever the store held, with no reports |
| `Config.LoadAllAccepted` | beastwick18_kitty_background_manager/config.py:70-77 | Options holding an accepted entry for every stored name, all visited and none refused, load back to exactly themselves with no reports |
| `Config.NoneRefusedIsEmpty` | beastwick18_kitty_background_manager/config.py:73-77 | A load with no refused entry reports nothing |
| `Config.DefaultDocumentLoads` | beastwick18_kitty_background_manager/config.py:88-93 | Provided the color parser accepts `#000000` and `expandvars` leaves `""` alone: a generated default document loads back to the defaults with no reports, and selects no next or previous background |
| `Config.DefaultsLoadBack` | beastwick18_kitty_background_manager/config.py:51-57 | Provided the color parser accepts `#000000`: the `options` object of the default document loads back to the defaults and reports nothing |
| `Config.EmptyTextSelectsNothing` | beastwick18_kitty_background_manager/config.py:79-86 | When `expandvars` leaves `""` alone, an empty `next` or `previous` string loads as the path `.`, which names no background |
| `Config.AdvanceTwice` | beastwick18_kitty_background_manager/config.py:137-158 | Recording A and then B leaves `background` = `{next: B, previous: A}` |
| `Config.RecordThenLoad` | beastwick18_kitty_background_manager/config.py:147 | The text written for a resolved path loads back as that path, naming the same background, when `expandvars` leaves it alone |
| `Config.ConfigStore.constructor` | beastwick18_kitty_background_manager/config.py:16-49 | Every property starts at its default; no selection and no materialised paths |
| `Config.ConfigStore.LoadOptions` | beastwick18_kitty_background_manager/config.py:70-77 | The store becomes `Merged(old store, options)` with the key set kept, and the reports are exactly the refused names in registration order |
| `Config.ConfigStore.LoadNames` | beastwick18_kitty_background_manager/config.py:71-77 | Visiting a list of stored names in order leaves the store at `MergedOver(old store, options, names)` and reports exactly the refused names in that order |
| `Config.ConfigStore.LoadBackground` | beastwick18_kitty_background_manager/config.py:79-86 | String entries become `Path(expandvars(entry))`; absent or null entries keep the slot; a non-string fails, keeping `next` if it was already loaded |
| `Config.ConfigStore.GenerateDefaultConfig` | beastwick18_kitty_background_manager/config.py:51-62 | The file becomes the default document of the current store |
| `Config.ConfigStore.LoadConfig` | beastwick18_kitty_background_manager/config.py:88-100 | A missing file is created with defaults and nothing else changes. Absent `options` keeps the store; absent `background` keeps `next`/`previous`. Present values are merged or loaded; non-object values fail at that point |
| `Config.ConfigStore.SaveConfig` | beastwick18_kitty_background_manager/config.py:102-114 | The file becomes the old document with only `options` replaced by the store; a missing file fails with no change |
| `Config.ConfigStore.UpdateProperty` | beastwick18_kitty_background_manager/config.py:116-135 | A missing file or unknown name fails, with store and file unchanged. Otherwise only that value changes (unvalidated), then `options` is rewritten |
| `Config.ConfigStore.SetNext` | beastwick18_kitty_background_manager/config.py:137-158 | None is a no-op. Otherwise `next` becomes `n` and the file becomes the advanced document for `str(n.resolve())`; `previous` and the store are untouched |
| `Config.ConfigStore.GetNext` | beastwick18_kitty_background_manager/config.py:160-163 | The stem of `next`, or None when it is unset or has no name |
| `Config.ConfigStore.GetPrevious` | beastwick18_kitty_background_manager/config.py:165-168 | The stem of `previous`, or None when it is unset or has no name |
| `Config.ConfigStore.SetPaths` | beastwick18_kitty_background_manager/config.py:64-68 | The three paths become `Path(expandvars(value))` in order; a non-string value fails at that point, keeping the later paths |
| `PurePath.Parse` | beastwick18_kitty_background_manager/config.py:82 | `Path(s)` yields well-formed components and is absolute exactly when `s` starts with `/` |
| `PurePath.WithStem` | beastwick18_kitty_background_manager/tools.py:48 | `with_stem` keeps the parent and the suffix and replaces the stem |
| `PurePath.StemSuffixSplit` | beastwick18_kitty_background_manager/tools.py:19 | `stem + suffix == name`. The stem is empty only for the empty name. A suffix is a dot and at least one further character, none of them a dot |
| `PurePath.NewStemKeepsSuffix` | beastwick18_kitty_background_manager/tools.py:48 | Giving a suffixed name a new non-empty stem keeps its suffix and makes that the stem |
| `PurePath.ParseRender` | beastwick18_kitty_background_manager/config.py:147 | `Path(str(p)) == p` for every well-formed path |
| `PurePath.Name` | beastwick18_kitty_background_manager/tools.py:19 | `p.name` of a well-formed path is empty exactly when the path has no components; otherwise it is a single component |
| `PurePath.Stem` | beastwick18_kitty_background_manager/tools.py:19 | `p.stem` is a prefix of the name |
| `PurePath.Suffix` | beastwick18_kitty_background_manager/tools.py:19 | `p.suffix` is a tail of the name that starts with a dot; it is non-empty exactly when the last dot is neither the first nor the last character |
| `PurePath.Render` | beastwick18_kitty_background_manager/config.py:147 | `str(p)` of a well-formed path is non-empty and starts with `/` exactly when the path is absolute |
| `PurePath.RFind` | beastwick18_kitty_background_manager/tools.py:19 | `rfind` returns the index of the last occurrence, or -1 when there is none |
| `PurePath.Join` | beastwick18_kitty_background_manager/tools.py:30-35 | `p / name` of a well-formed path is well-formed |
| `Tools.ListedStemsExact` | beastwick18_kitty_background_manager/tools.py:18-20 | A stem is yielded exactly when some entry with that stem is a regular file with suffix `ext` and a non-empty stem |
| `Tools.GetExtInPath` | beastwick18_kitty_background_manager/tools.py:14-20 | Nothing for a path that is not a directory; otherwise the listed stems of its entries in iteration order |
| `Tools.ListedStemsAppend` | beastwick18_kitty_background_manager/tools.py:18-20 | The listing follows iteration order, one result per qualifying entry |
| `Tools.ListedStems` | beastwick18_kitty_background_manager/tools.py:18-20 | At most one stem per entry, and every yielded stem is non-empty |
| `Tools.Listed` | beastwick18_kitty_background_manager/tools.py:19 | A listed entry has a non-empty name and exists in the directory; with an extension, the name has a suffix and the extension starts with a dot |
| `Tools.FirstExisting` | beastwick18_kitty_background_manager/tools.py:30-37 | None exactly when no path of the list exists; otherwise an existing path of the list with no existing path before it |
| `Tools.SearchEnabledDisabled` | beastwick18_kitty_background_manager/tools.py:22-37 | `True` checks only the enabled copy and `False` only the disabled one. `None` prefers the enabled copy, then the disabled one. A result exists and is one of the two candidates |
| `Tools.SearchIsFirstExisting` | beastwick18_kitty_background_manager/tools.py:22-37 | The search returns the first existing candidate, in the order it checks them |
| `Tools.Candidates` | beastwick18_kitty_background_manager/tools.py:23-37 | One candidate with a preference, two without. Unless the preference is `False` the enabled copy comes first; unless it is `True` the disabled copy comes last |
| `Tools.CandidateShape` | beastwick18_kitty_background_manager/tools.py:48 | A candidate keeps the parent directory and differs from the file; for a file with a suffix it also keeps the suffix and has the stem `<stem>_<n>` |
| `Tools.Candidate` | beastwick18_kitty_background_manager/tools.py:48 | `file.with_stem(f"{file.stem}_{n}")` has the same number of components and the name `<stem>_<n><suffix>` |
| `Tools.NatToString` | beastwick18_kitty_background_manager/tools.py:48 | `str(n)` is a non-empty string of decimal digits |
| `Tools.ResolveNameConflict` | beastwick18_kitty_background_manager/tools.py:46-52 | None exactly when `<stem>_1` … `<stem>_999` all exist. Otherwise the least free candidate, which is not the input |
| `Output.ToLink` | beastwick18_kitty_background_manager/output.py:5-6 | ESC `]8;;file://`, then the path, then one BEL, then the label, then ESC `]8;;` BEL. The length is label + path + 19. `main.py:87-88` is this same function |
| `Output.ParseToLink` | beastwick18_kitty_background_manager/output.py:6 | A terminal reading the link recovers the label and the path, for any path without a BEL |
| `Output.ParseLink` | beastwick18_kitty_background_manager/output.py:6 | A string a terminal reads as a link starts with the opening command and ends with the closing one |
| `Output.LinkOpen` | beastwick18_kitty_background_manager/output.py:6 | The opening command is twelve characters and starts with ESC |
| `Output.LinkClose` | beastwick18_kitty_background_manager/output.py:6 | The closing command is six characters, ESC first and BEL last |
| `LegacyFs.ListingExact` | beastwick18_kitty_background_manager/main.py:71 | `os.listdir(d)` lists exactly the single non-empty components that extend `d` to an existing path |
| `LegacyFs.Listing` | beastwick18_kitty_background_manager/main.py:71 | Every entry of `os.listdir(d)` is a non-empty single component that extends `d` to an existing path |
| `LegacyFs.IsPlainFile` | beastwick18_kitty_background_manager/main.py:118-120 | `exists(p) and not isdir(p)` |
| `LegacyFs.RSplitDot` | beastwick18_kitty_background_manager/main.py:75 | `rsplit('.', 1)` gives None exactly for a name without a dot; otherwise text + `.` + dot-free text equal to the name |
| `LegacyFs.RSplitJoin` | beastwick18_kitty_background_manager/main.py:75-78 | Splitting `name.ext` at the last dot gives back `name` and `ext` when `ext` has no dot |
| `LegacyFs.EntryNameExact` | beastwick18_kitty_background_manager/main.py:75-80 | An entry yields `name` exactly when it is `name.ext` with `name` non-empty; names without a dot are skipped |
| `LegacyFs.EntryName` | beastwick18_kitty_background_manager/main.py:75-80 | A yielded name is non-empty, and the entry is that name, a dot and `ext` |
| `LegacyFs.ExtNamesExact` | beastwick18_kitty_background_manager/main.py:70-80 | A name is yielded exactly when it is one non-empty component and `<path><name>.<ext>` exists and is not a directory |
| `LegacyFs.ExtNames` | beastwick18_kitty_background_manager/main.py:70-80 | Every yielded name is non-empty and names an existing non-directory `<path><name>.<ext>` |
| `LegacyFs.EntryIsPlainFile` | beastwick18_kitty_background_manager/main.py:72-80 | A listed non-directory entry that yields a name is that name's `<path><name>.<ext>` file |
| `LegacyFs.YieldedIsPlainFile` | beastwick18_kitty_background_manager/main.py:70-80 | Every name `get_ext_in_path` yields comes from an existing non-directory `<path><name>.<ext>` |
| `LegacyFs.PlainFileIsYielded` | beastwick18_kitty_background_manager/main.py:70-80 | Every existing non-directory `<path><name>.<ext>` with a single-component name is yielded |
| `Legacy.OptionsOf` | beastwick18_kitty_background_manager/main.py:43-45 | There are options to load exactly when the document's `options` is present, non-null and an object |
| `Legacy.Gated` | beastwick18_kitty_background_manager/main.py:47-53 | The option's value exactly when the key is present and its value truthy; the current value otherwise |
| `Legacy.GatedPath` | beastwick18_kitty_background_manager/main.py:55-61 | Fails exactly when the option is truthy but not text. An absent or falsy option keeps the current path; truthy text becomes its `expandvars` expansion |
| `Legacy.FalsyKeepsCurrent` | beastwick18_kitty_background_manager/main.py:47-53 | For any options holding the key, the falsy values `0`, `0.0`, `""`, `false`, null, `[]` and `{}` keep the setting |
| `Legacy.Choice` | beastwick18_kitty_background_manager/main.py:186-191 | The enabled copy when it is an existing non-directory, else the disabled one, else None exactly when neither qualifies |
| `Legacy.WithoutMarkers` | beastwick18_kitty_background_manager/main.py:82-84 | `remove_next_file` only removes paths and leaves every remaining path's contents unchanged |
| `Legacy.Selected` | beastwick18_kitty_background_manager/main.py:193-198 | After a selection the marker of `bg` is an empty file and the current copy holds the chosen file's data |
| `Legacy.FolderContains` | beastwick18_kitty_background_manager/main.py:64-68 | `folder_contains_file` holds only when the file exists and the folder lists at least one entry |
| `Legacy.Moved` | beastwick18_kitty_background_manager/main.py:156 | After the move the destination holds the source's data and the source is gone; every other path is unchanged |
| `Legacy.Transferred` | beastwick18_kitty_background_manager/main.py:147-156 | The move happens exactly when the file is an existing non-directory and `folder_contains_file` holds; otherwise nothing changes |
| `Legacy.Basename` | beastwick18_kitty_background_manager/main.py:208 | The basename is a separator-free tail of the path |
| `Legacy.BasenameAfterSeparator` | beastwick18_kitty_background_manager/main.py:208 | A basename shorter than the path follows a separator |
| `Legacy.AddName` | beastwick18_kitty_background_manager/main.py:209-215 | A name is accepted exactly when the basename's last dot is neither its first nor its last character; the name is the text before that dot |
| `Legacy.AddNameOf` | beastwick18_kitty_background_manager/main.py:208-223 | `<dir><name>.<ext>` is accepted under `name` when `dir` is empty or ends in `/`, `name` is non-empty without `/`, and `ext` is non-empty without `.` or `/` |
| `Legacy.AddNameRefuses` | beastwick18_kitty_background_manager/main.py:215 | A basename with no dot, with only a leading dot, or ending in a dot is refused |
| `Legacy.RFindBefore` | beastwick18_kitty_background_manager/main.py:208 | The last occurrence of a character in `a + b` is its last in `a` when `b` has none, so `basename` of `<dir><file>` cuts at the last separator of `dir` |
| `Legacy.SelectLeavesOneMarker` | beastwick18_kitty_background_manager/main.py:193-196 | After a selection the only listed `.next` marker is that of `bg` |
| `Legacy.MarkerAfterSelect` | beastwick18_kitty_background_manager/main.py:193-196 | After a selection, a name is a listed `.next` marker exactly when it is `bg` and `bg` is one non-empty component |
| `Legacy.OldMarkerGone` | beastwick18_kitty_background_manager/main.py:82-84 | After a selection, no other single-component name keeps a marker file |
| `Legacy.ListedMarkerRemoved` | beastwick18_kitty_background_manager/main.py:82-84 | `remove_next_file` leaves no marker file of any single-component name |
| `Legacy.SelectedMarker` | beastwick18_kitty_background_manager/main.py:196 | After a selection the marker of `bg` exists as a file |
| `Legacy.SelectedElsewhere` | beastwick18_kitty_background_manager/main.py:193-198 | Away from the new marker and the current copy, a selection removes the old markers and changes nothing else |
| `Legacy.MarkerIsNotCopy` | beastwick18_kitty_background_manager/main.py:196-198 | The current copy is never a marker file |
| `Legacy.MarkersDiffer` | beastwick18_kitty_background_manager/main.py:84 | Markers of different names are different files |
| `Legacy.Marker` | beastwick18_kitty_background_manager/main.py:84 | The marker of `bg` is the enabled directory, then `bg`, then `.next` |
| `Legacy.CurrentCopy` | beastwick18_kitty_background_manager/main.py:129 | The current copy is `current/current.png` inside the enabled directory |
| `Legacy.MarkerPathsShape` | beastwick18_kitty_background_manager/main.py:82-84 | Each name's marker is among the paths `remove_next_file` removes, and every such path lies in the enabled directory and ends in `.next` |
| `Legacy.PngIsNotMarker` | beastwick18_kitty_background_manager/main.py:193-198 | A `.png` file is never a `.next` marker, so removing markers never removes the chosen file |
| `Legacy.PngSurvivesRemoval` | beastwick18_kitty_background_manager/main.py:193-198 | Removing the markers keeps the chosen `.png` file and its contents |
| `Legacy.MarkerPathsAdd` | beastwick18_kitty_background_manager/main.py:82-84 | Removing the markers of one more name removes exactly one more path |
| `Legacy.ListedIsChosen` | beastwick18_kitty_background_manager/main.py:115-120 | A name `silent_callback` draws always has its enabled file, so it never falls back or fails after drawing |
| `Legacy.EnableThenDisable` | beastwick18_kitty_background_manager/main.py:147-173 | Enabling a background onto a free name and disabling it again restores the file system, for a name without a separator whose `<bg>.png` is not a directory relative to the working directory |
| `Legacy.MovedIsListed` | beastwick18_kitty_background_manager/main.py:64-68 | An existing `<dir><bg>.png` whose entry is not a directory relative to the working directory passes `folder_contains_file` |
| `Legacy.MoveBack` | beastwick18_kitty_background_manager/main.py:156 | Moving a file onto a free path and back restores the file system |
| `Legacy.LegacyApp.constructor` | beastwick18_kitty_background_manager/main.py:16-20 | The enabled path is the expanded default, and the disabled path is the expansion of `disabled/` under it; the factors start at 0.1 and 1.0 |
| `Legacy.LegacyApp.LoadConfig` | beastwick18_kitty_background_manager/main.py:30-61 | A missing file is created empty and nothing else changes. Absent `options` changes nothing. Each option is assigned in order only when truthy, paths through `expandvars`; a truthy non-text path fails there |
| `Legacy.LegacyApp.FolderContainsFile` | beastwick18_kitty_background_manager/main.py:64-68 | True exactly when the file exists and some folder entry is not a directory relative to the working directory |
| `Legacy.LegacyApp.RemoveNextFile` | beastwick18_kitty_background_manager/main.py:82-84 | Exactly the listed `.next` markers of the enabled directory are removed |
| `Legacy.LegacyApp.RemoveMarkers` | beastwick18_kitty_background_manager/main.py:83-84 | Removing the marker of each name in turn removes exactly the markers of the whole set, whatever the order |
| `Legacy.LegacyApp.Select` | beastwick18_kitty_background_manager/main.py:193-198 | Markers removed, the marker of `bg` created empty, and the chosen file copied to `current/current.png` |
| `Legacy.LegacyApp.Set` | beastwick18_kitty_background_manager/main.py:180-198 | With no qualifying file, reports and changes nothing; otherwise selects the chosen file |
| `Legacy.LegacyApp.SilentCallback` | beastwick18_kitty_background_manager/main.py:114-129 | Fails exactly when there are no enabled `.png` names, and then changes nothing. Otherwise draws one of them and selects its file |
| `Legacy.LegacyApp.Enable` | beastwick18_kitty_background_manager/main.py:141-156 | Moves `<disabled><bg>.png` to the enabled directory exactly under the three checks; otherwise nothing moves |
| `Legacy.LegacyApp.Disable` | beastwick18_kitty_background_manager/main.py:158-173 | Moves `<enabled><bg>.png` to the disabled directory exactly under the three checks; otherwise nothing moves |
| `Legacy.LegacyApp.Add` | beastwick18_kitty_background_manager/main.py:203-231 | Missing, directory, invalid name and non-image are refused in that order with no change. Otherwise writes the enhanced image to `<enabled><name before last dot>.png` and nothing else |

## Left out

- The validator helpers are not shown in the source. `assert_type`, `assert_range` and `assert_in` are modelled by their evident names. `valid_dimensions` is modelled as `<width>x<height>` with both decimal and non-zero. `valid_color` is an opaque predicate on the value.
- Python's `bool` is a subclass of `int`, so `True` passes an `int` test there. JSON values are a tagged datatype here, and a JSON boolean is not a number.
- Floats are exact reals; NaN and infinities are not modelled.
- `os.path.expandvars`, `Path.resolve`, the image library's color parser, `imghdr` sniffing and the contrast/brightness enhancement are opaque parameters. Their behaviour is not modelled.
- The JSON text of `config.json` (`json.load`, `json.dumps`, indentation) is not modelled. The document is a map. A file whose text is not JSON, or whose top-level value is not an object, is `Unreadable` in the older module and is not modelled in the newer one.
- Terminal output (`typer.echo`, `secho`, `style`, `out.error`, `to_link_style`, `to_link_secho`), `list`, `list_next` and image previews are not modelled. The error messages become error values.
- `get_app_file`, `typer.get_app_dir`, `init_dirs` and other directory creation are not modelled. `readable_type` is not modelled.
- The `delete` and `init` commands are empty stubs and are not modelled.
- `Tools.GetExtInPath` reads a directory's entries in the order the tree stores them; the order `iterdir` really uses is the file system's.
- `LegacyFs.ExtNames` is a set of names. It does not model the order of `os.listdir` or duplicate names.
- The older module's file system is keyed by literal path strings, and paths are not normalised (`//`, `..`). `LegacyFs.Listing` is `os.listdir(d)` only for a directory string ending in a separator. The default enabled and disabled paths end in `/`, but a configured `enabled_path` or `disabled_path` is taken as given. For a configured path without a trailing `/`, the source lists the entries of that directory and then tests `isdir` on the path and entry joined without a separator. The model does not cover that case.
- `Legacy.LegacyApp.Select`: copying fails when `current/` is missing or when the chosen file is the current copy itself; the model does not cover either case.
- Moves or writes onto a directory, or into a missing parent directory, are not modelled.
- `Legacy.LegacyApp.Add`: the image is written where `Image.save` would write it; a missing enabled directory is not modelled.
- `folder_contains_file` tests `isdir` on bare entry names, which resolve against the working directory. That test is an opaque predicate.
- `rand.choice` is a nondeterministic choice from the enabled names.
- `os.listdir` of a missing directory raises `FileNotFoundError`. Here the listing of a missing directory is empty. So `Legacy.LegacyApp.SilentCallback` fails with `NoBackgrounds` where the source raises. `Legacy.LegacyApp.Set`, when only the disabled copy exists and the enabled directory is missing, writes the marker and the current copy; the source raises in `remove_next_file` before changing anything. `rand.choice` of an empty list (IndexError) is also the `NoBackgrounds` failure.
- The `silent` flag of `silent_callback` only controls output and is not modelled.
- `PurePath.Parse` turns a leading `//` into `/`. POSIX pathlib keeps a root of exactly two slashes as `//`.
- `PurePath.WithStem` requires a path with a name. pathlib raises for a path without one; `resolve_name_conflict` is only called with file paths.
- Races between processes on `config.json` are not modelled.
