# ExportShortcut: a Dafny model

`ExportShortcut.py` registers a list of applications as non-Steam shortcuts
in a Steam account's binary `shortcuts.vdf` store. Every application is
registered to start through one launcher executable. The script does this in
three steps:

1. It reads a JSON configuration. Each top-level key is an application,
   optionally with an `applicationname` override for the name shown in the
   library.
2. It locates the requested account's store under `<library>/userdata`.
3. It calls `add_shortcut` once per application. That call skips an
   application already in the store (a case-insensitive name match),
   otherwise builds a fourteen-field record, appends it and saves the store.

The process exits with status 0 only when every call returned True.

This project models that core as pure functions over an abstract disk:

| module | models |
|---|---|
| `Text` | lower-casing, `os.path.dirname` and `os.path.join` |
| `Vdf` | the decoded store: slots in dictionary order |
| `FileSystem` | `os.path.exists`, `isdir`, `listdir`, `load_shortcuts_file` and the effect of a save |
| `Lookup` | `shortcut_already_exists` |
| `Entry` | `create_shortcut_entry` |
| `Merge` | `add_shortcut` |
| `Accounts` | the directory loop of `get_vdf_path` |
| `Cli` | `load_config` and `main` |

The model follows the code as written in several places where the code does
not do what its documentation says:

- **The duplicate check uses the key, not the stored name.** `add_shortcut`
  checks the store for the configuration key. The record it writes is named
  by the override. So with an override that differs from the key beyond case,
  every run appends the application again.
- **An absent store counts as a failure.** Loading a missing file would give
  an empty store. But `add_shortcut` tests for the file first and returns
  False.
- **The placeholder account name can match.** A user directory missing from
  the account metadata gets the placeholder name "Unknown Account". The
  loop compares that placeholder like any real name, so `--account "unknown
  account"` selects such a directory.
- **An unlistable userdata path gives status 1.** This happens when the path
  exists but `os.listdir` raises on it, for example when it is a file. The
  exception escapes `main` and is not caught, so the process ends with status 1.
- **The check can raise on a numeric name.** The duplicate check raises when
  it reaches a record whose name is a non-zero number, because `.lower()` does
  not apply to it. `add_shortcut` turns that into False. So the result depends
  on the order of the records.

The user library the script calls (`steam_vdf.users`) is not part of this
model. Its append and save functions are parameters (`Merge.SteamUsers`).
Where a property needs more from the append, the lemma assumes it as a
precondition (`Merge.AppendsAtEnd`): the new record goes after the existing
ones and holds exactly the built entry.

## Model

| member | source | states |
|---|---|---|
| Lookup.NameProbe | ExportShortcut.py:116 | A non-empty text `appname` names the record. When `appname` is falsy, a non-empty text `AppName` names it instead. A name always comes from one of these two. No truthy value under either key means no name. Lower-casing raises exactly when the value `or` picks is a non-zero number. |
| Lookup.Scan | ExportShortcut.py:113-120 | The loop over an empty `shortcuts` dictionary returns False. Its full meaning is stated by `Lookup.ScanMeaning`. |
| Lookup.ScanMeaning | ExportShortcut.py:113-120 | The loop returns True exactly when some record matches `appName` ignoring case and no earlier record has a numeric name. It raises exactly when such a numeric record comes before any match. It returns False exactly when no record matches and none has a numeric name. All three directions are proved against position-based definitions. |
| Lookup.ShortcutAlreadyExists | ExportShortcut.py:110-111 | A store without a "shortcuts" key holds nothing, so the check is False. |
| Lookup.AlreadyExistsMeaning | ExportShortcut.py:110-120 | The same three-way characterisation for a whole loaded store. |
| Lookup.ScanIgnoresCase | ExportShortcut.py:117 | The result is unchanged when the looked-up name or the stored names change case. |
| Lookup.StoredNameMatchesOtherCase | ExportShortcut.py:117 | A stored "Foo" is found when looking for "foo". |
| Lookup.FoundSurvivesAppend | ExportShortcut.py:117-118 | Once a match precedes the end of the records, appending records never undoes the True result. |
| Lookup.AppendedNameDecides | ExportShortcut.py:113-120 | Behind records that neither match nor raise, a named record at the end alone decides the result. It gives True exactly when its name matches. |
| Text.DirName | ExportShortcut.py:50 | The start directory is a prefix of the launcher path that ends before its last component. Only separators are dropped between the two. It is empty exactly when the path has no separator. It ends in a separator only when it consists of separators alone, as for the root. |
| Text.Quote | ExportShortcut.py:58 | The `exe` value is the launcher path between two double quotes. |
| Text.Lower | ExportShortcut.py:117 | The lower-cased string has the same length and no upper-case ASCII letter. Each upper-case letter becomes its lower-case partner in place, and every other character is kept. Only ASCII letters change; see "Left out". |
| Text.LowerIsIdempotent | ExportShortcut.py:117 | Lower-casing an already lower-cased name changes nothing. |
| Text.LowerFixesExactlyLowerCase | ExportShortcut.py:117 | A name is its own lower-case form exactly when it has no upper-case letter. |
| Text.Join | ExportShortcut.py:243-245 | An absolute second part replaces the first. Otherwise the two parts are kept in order. One separator goes between them exactly when the first is non-empty and does not already end in one. |
| Entry.CreateShortcutEntry | ExportShortcut.py:43-71 | ValueError exactly when any of the three arguments is empty. FileNotFoundError exactly when all are non-empty and the launcher path does not exist. Otherwise the record is named by the Steam name and launches the quoted launcher from its directory, with `-Game "<appName>"`. Its ten other fields are the constants the script sets. |
| Entry.AsRecord | ExportShortcut.py:56-71 | The dictionary handed to the append has exactly the fourteen keys, each with the entry's value as text or number. When the display name is non-empty, the duplicate check reads the dictionary as named by it. |
| FileSystem.LoadShortcutsFile | ExportShortcut.py:86-96 | The decoded store when the file exists and decodes. Otherwise `{"shortcuts": {}}`. It never fails. |
| FileSystem.Store | ExportShortcut.py:149 | After a successful save, loading the path gives back the saved store. Every other path loads as before. Existence, directories and listings are unchanged, except that the path now exists. |
| Merge.AddShortcut | ExportShortcut.py:135-158 | A missing store file gives False without writing. The call skips with True exactly when the file exists and the loaded store already has a record found under the key `appName`. |
| Merge.DisplayName | ExportShortcut.py:145 | The test is `is None`. Any given override is shown, even an empty one. The key is shown only when no override is given or the override equals it. |
| Merge.AddShortcutWrites | ExportShortcut.py:140-154 | A call writes exactly when the store exists, the check finds no match and nothing raises, the entry builds under the display name, and the append succeeds. It then hands the appended store to the save and returns the save's answer. An empty override is not replaced by the key: the build rejects it. |
| Merge.CommitKeepsLayout | ExportShortcut.py:149 | A call leaves directories, listings and existence as they were, and every path other than the store file loads as before. |
| Merge.Commit | ExportShortcut.py:149-154 | Only a call that reached a successful save changes the disk. After it, the store file loads as the saved store. |
| Merge.WrittenStoreHoldsName | ExportShortcut.py:145-149 | A written store is the loaded one plus one record at the end, named by the display name. The check then finds `appName` in it exactly when the display name equals `appName` ignoring case. |
| Merge.ExtendedStoreDecides | ExportShortcut.py:113-120 | A store with no match and nothing raising, extended at its end by a record named `name`, is the old store plus that record. The check finds `appName` in it exactly when `name` equals `appName` ignoring case. Otherwise the check is False. |
| Merge.RepeatedCallSkips | ExportShortcut.py:142-147 | After a successful call, the same call skips, provided the display name equals the key ignoring case. |
| Merge.OverrideIsAddedAgain | ExportShortcut.py:142-147 | With an override that differs from the key beyond case, a repeated call appends a second record with the same display name. |
| Accounts.UserDirs | ExportShortcut.py:218-221 | Every kept entry is a directory under userdata. The result is empty exactly when no listed entry is a directory. It is no longer than the listing. |
| Accounts.UserDirsKeepsExactlyDirs | ExportShortcut.py:218-221 | An entry is kept exactly when it is listed and is a directory under userdata. |
| Accounts.UserDirsSeesOnlyDirs | ExportShortcut.py:218-221 | The filter depends only on which paths are directories. |
| Accounts.FindAccount | ExportShortcut.py:228-237 | No directory is chosen exactly when none has the requested account name, ignoring case. Otherwise the chosen directory is the first one that has it. A directory missing from the metadata carries the placeholder name. |
| Accounts.GetVdfPath | ExportShortcut.py:212-247 | Each error is an iff with its case: no userdata path; userdata not listable; no user directories; user directories but none for the account. So a listable userdata with a matching directory always succeeds, and the path is then `<userdata>/<dir>/config/shortcuts.vdf` for the first matching directory. |
| Accounts.SelectionFollowsListing | ExportShortcut.py:218-237 | Filtering and then searching picks the first listed entry that is both a directory and the account's. It finds none exactly when no listed entry is both. |
| Accounts.PlaceholderCanBeSelected | ExportShortcut.py:231-235 | A directory missing from the metadata is selected for the account "unknown account". |
| Cli.LoadConfig | ExportShortcut.py:260-279 | A configuration is returned exactly when the file exists, decodes and is not empty. It is the decoded one. |
| Cli.Prepare | ExportShortcut.py:294-313 | Loading the configuration, finding the library and locating the store are tried in order. The first failure stops the run. Once the configuration and library are obtained, the store lookup alone decides: its success gives `Setup` of the loaded configuration and the located path, and its error `e` gives `StoreNotLocated(e)`. |
| Cli.Process | ExportShortcut.py:316-326 | There is one call per configured application. The success count is at most their number and equals it exactly when every call returned True. An empty loop calls nothing and leaves the disk as it was; `Cli.ProcessStep` gives each further turn. |
| Cli.ProcessStep | ExportShortcut.py:319-326 | A loop turn calls `add_shortcut` for the first application, then runs the rest on the disk that call left. |
| Cli.Main | ExportShortcut.py:282-331 | A fatal step gives status 1 with nothing attempted. Otherwise the run is the loop after setup (`Cli.Conclude`) on the loaded configuration and located store, so every configured application, at least one, gets one attempt. The status is 0 or 1, and 0 exactly when setup succeeded and every attempt returned True. |
| Cli.Conclude | ExportShortcut.py:316-331 | After setup, the outcomes and the final disk are those of the `add_shortcut` loop, one outcome per configured application. The status is 0 or 1, and 0 exactly when every call returned True. |
| Cli.SuccessfulCallRecords | ExportShortcut.py:142-149 | A successful call keeps every name found before and makes its own key found, if no override renames it. |
| Cli.SuccessfulLoopRecordsAll | ExportShortcut.py:319-331 | After a loop where every call returned True, every configured key is found in the store and every earlier name still is. |
| Cli.LoopKeepsLayout | ExportShortcut.py:319-326 | The loop changes at most the content of store files. |
| Cli.LoopOverPresentAppsIsNoOp | ExportShortcut.py:142-144 | When every configured key is already in the store, every call skips and succeeds and nothing is written. |
| Cli.PrepareSeesOnlyLayout | ExportShortcut.py:294-313 | The setup steps do not depend on the content of store files. |
| Cli.SecondLoopIsNoOp | ExportShortcut.py:319-331 | After a loop in which every call returned True, a second loop over the same configuration skips every application. It returns status 0 and writes nothing, if no override renames an application. |
| Cli.RerunAfterSuccessIsNoOp | ExportShortcut.py:282-331 | After a run with status 0, a second identical run also gives 0, skips everything and leaves the disk unchanged, if no override renames an application. |
| Cli.MissingStoreFailsEveryApp | ExportShortcut.py:136-138 | A missing store makes every call fail and nothing is written, though loading it would give an empty store. |
| Cli.MissingStoreFailsRun | ExportShortcut.py:316-331 | So with at least one application and an absent store file, the run fails every call, leaves the disk unchanged and exits with status 1. |

## Left out

- Argument parsing, logging and `os.path.abspath`. The invocation is modelled as already-absolute paths. Log output has no effect on results.
- JSON decoding. Its result is a parameter: None for invalid JSON or a read error, otherwise the keys in order, each with an optional text override. The override is None when `applicationname` is absent or null, and a value without that key, such as a string or a list, gives None too. A falsy override such as `0` or `false` behaves like the empty text, because the build rejects it as empty.
- Config values the script cannot process. A numeric or null value raises TypeError at the `in` test, and a string or a list that contains "applicationname" raises TypeError when indexed with it. Both end the run with an uncaught exception.
- Truthy non-text overrides, such as `5` or `true`. The script builds a record with a non-text `appname` from them. The model's overrides are text only.
- The binary VDF codec. A store file either decodes to a document or does not. Values other than text and integers, and slots that are not dictionaries, are not modelled.
- `get_steam_user_names` and `steam_vdf.users._process_*`. The resulting map from directory to account name is a parameter. A metadata entry without `AccountName`, which would raise KeyError, is not modelled.
- `users.find_steam_library`. Its answer is a parameter, with None when it returned nothing or raised.
- `users.add_shortcut_to_shortcuts` and `users.save_shortcuts` are parameters. The slot id the append chooses is left open. A failed save is modelled as writing nothing, so partial writes are not modelled.
- Text.Lower: only ASCII letters change case. Python's `str.lower` also maps non-ASCII letters.
- Text.DirName: paths use the POSIX separator `/`. The Windows path rules of `ntpath` are not modelled.
- Text.Join: the same restriction. Only the POSIX `os.path.join` is modelled, not the drive-letter and backslash rules of `ntpath`.
- Concurrent writers to the store file.
