/** `add_shortcut`: adds one application to the shortcuts store unless a
    record of that name is already there. */
module Merge {
  import opened Wrappers
  import opened Text
  import opened Vdf
  import opened FileSystem
  import opened Lookup
  import opened Entry

  /** The two calls into the client-side user library, whose code is not part
      of this model: appending a record to a loaded store (None when it
      raises) and writing a store back to its file (false when it fails or
      raises). */
  datatype SteamUsers = SteamUsers(
    addShortcutToShortcuts: (Document, Record) -> Option<Document>,
    saveShortcuts: (string, Document) -> bool)

  /** `d'` is `d` with one more slot at the end, holding `rec`; every earlier
      slot is kept as it was. The new slot's id is left open. */
  ghost predicate ExtendedBy(d: Document, rec: Record, d': Document) {
    && |Slots(d')| == |Slots(d)| + 1
    && Slots(d')[..|Slots(d)|] == Slots(d)
    && Slots(d')[|Slots(d)|].record == rec
  }

  /** The append keeps every slot and puts the new record after them. */
  ghost predicate AppendsAtEnd(users: SteamUsers) {
    forall d: Document, rec: Record ::
      users.addShortcutToShortcuts(d, rec).Some? ==> ExtendedBy(d, rec, users.addShortcutToShortcuts(d, rec).value)
  }

  /** Why a call returned False. */
  datatype Reason =
    | StoreMissing                 // the store file does not exist
    | LookupRaised                 // the duplicate check raised
    | BuildRaised(why: BuildError) // create_shortcut_entry raised
    | AppendRaised                 // add_shortcut_to_shortcuts raised

  /** What one call did: found a duplicate and skipped, gave up, or handed a
      store to `save_shortcuts` (which answered `saved`). */
  datatype Outcome = Skipped | Failed(why: Reason) | Wrote(doc: Document, saved: bool)

  /** The boolean `add_shortcut` returns. */
  predicate Succeeded(o: Outcome) {
    o.Skipped? || (o.Wrote? && o.saved)
  }

  /** The name shown in the library: the override, or `appName` without one. */
  function DisplayName(appName: string, steamAppName: Option<string>): (name: string)
    // The test is `is None`, not truthiness: any override given is shown,
    // even an empty one, and the key is shown only when it is absent or equal.
    ensures steamAppName.Some? ==> name == steamAppName.value
    ensures name == appName <==> steamAppName.None? || steamAppName.value == appName
  {
    steamAppName.GetOr(appName)
  }

  /** `add_shortcut(vdfPath, appName, launcherPath, steamAppName)`. Every
      exception is turned into a False result; none escapes. */
  function AddShortcut(disk: Disk, users: SteamUsers, vdfPath: string, appName: string,
                       launcherPath: string, steamAppName: Option<string>): (r: Outcome)
    // A missing store file is a failure, although loading would treat it as empty.
    ensures !PathExists(disk, vdfPath) ==> r == Failed(StoreMissing)
    // Skipped, leaving the store alone, exactly when the loaded store already
    // holds a record named `appName` -- the key, not the display name.
    ensures r.Skipped? <==>
              PathExists(disk, vdfPath) && ShortcutAlreadyExists(LoadShortcutsFile(disk, vdfPath), appName) == Success(true)
  {
    if !PathExists(disk, vdfPath) then Failed(StoreMissing)
    else
      var shortcuts := LoadShortcutsFile(disk, vdfPath);
      match ShortcutAlreadyExists(shortcuts, appName)
      case Failure(_) => Failed(LookupRaised)
      case Success(true) => Skipped
      case Success(false) =>
        match CreateShortcutEntry(disk, appName, launcherPath, DisplayName(appName, steamAppName))
        case Failure(e) => Failed(BuildRaised(e))
        case Success(entry) =>
          match users.addShortcutToShortcuts(shortcuts, AsRecord(entry))
          case None => Failed(AppendRaised)
          case Some(doc) => Wrote(doc, users.saveShortcuts(vdfPath, doc))
  }

  /** What a call that writes has done: it found no match and nothing that
      raises in the loaded store, built the record for the display name, and
      handed the appended store to `save_shortcuts`, whose answer it returns.
      An empty override is not replaced by the key: building rejects it. */
  lemma AddShortcutWrites(disk: Disk, users: SteamUsers, vdfPath: string, appName: string,
                          launcherPath: string, steamAppName: Option<string>)
    ensures var r := AddShortcut(disk, users, vdfPath, appName, launcherPath, steamAppName);
            r.Wrote? ==>
              && PathExists(disk, vdfPath)
              && Clean(Slots(LoadShortcutsFile(disk, vdfPath)), appName)
              && var e := CreateShortcutEntry(disk, appName, launcherPath, DisplayName(appName, steamAppName));
              && e.Success?
              && users.addShortcutToShortcuts(LoadShortcutsFile(disk, vdfPath), AsRecord(e.value)) == Some(r.doc)
              && (Succeeded(r) <==> users.saveShortcuts(vdfPath, r.doc))
    // Conversely, a call that meets those conditions writes the appended store.
    ensures var e := CreateShortcutEntry(disk, appName, launcherPath, DisplayName(appName, steamAppName));
            var shortcuts := LoadShortcutsFile(disk, vdfPath);
            && PathExists(disk, vdfPath)
            && ShortcutAlreadyExists(shortcuts, appName) == Success(false)
            && e.Success?
            && users.addShortcutToShortcuts(shortcuts, AsRecord(e.value)).Some? ==>
              var d := users.addShortcutToShortcuts(shortcuts, AsRecord(e.value)).value;
              AddShortcut(disk, users, vdfPath, appName, launcherPath, steamAppName) == Wrote(d, users.saveShortcuts(vdfPath, d))
    ensures steamAppName == Some("") && PathExists(disk, vdfPath)
            && ShortcutAlreadyExists(LoadShortcutsFile(disk, vdfPath), appName) == Success(false)
            ==> AddShortcut(disk, users, vdfPath, appName, launcherPath, steamAppName) == Failed(BuildRaised(EmptyArgument))
  {
    AlreadyExistsMeaning(LoadShortcutsFile(disk, vdfPath), appName);
  }

  /** The disk after a call: only a successful save changes it. */
  function Commit(disk: Disk, vdfPath: string, o: Outcome): (disk': Disk)
    ensures o.Wrote? && o.saved ==> LoadShortcutsFile(disk', vdfPath) == o.doc
    ensures !(o.Wrote? && o.saved) ==> disk' == disk
  {
    if o.Wrote? && o.saved then Store(disk, vdfPath, o.doc) else disk
  }

  /** The disk after a call to `add_shortcut` differs from the one before
      only in the content of the store file. */
  lemma CommitKeepsLayout(disk: Disk, users: SteamUsers, vdfPath: string, appName: string,
                          launcherPath: string, steamAppName: Option<string>)
    ensures var disk' := Commit(disk, vdfPath, AddShortcut(disk, users, vdfPath, appName, launcherPath, steamAppName));
            && SameLayout(disk, disk')
            && forall q :: q != vdfPath ==> LoadShortcutsFile(disk', q) == LoadShortcutsFile(disk, q)
  {
  }

  /** Calling again with the same arguments after a successful call is a
      no-op that succeeds, provided the name shown equals `appName` ignoring
      case (no override, or one that differs only in case). */
  lemma RepeatedCallSkips(disk: Disk, users: SteamUsers, vdfPath: string, appName: string,
                          launcherPath: string, steamAppName: Option<string>)
    requires AppendsAtEnd(users)
    requires Succeeded(AddShortcut(disk, users, vdfPath, appName, launcherPath, steamAppName))
    requires SameIgnoringCase(DisplayName(appName, steamAppName), appName)
    ensures var disk1 := Commit(disk, vdfPath, AddShortcut(disk, users, vdfPath, appName, launcherPath, steamAppName));
            AddShortcut(disk1, users, vdfPath, appName, launcherPath, steamAppName) == Skipped
  {
    var o := AddShortcut(disk, users, vdfPath, appName, launcherPath, steamAppName);
    if o.Wrote? {
      WrittenStoreHoldsName(disk, users, vdfPath, appName, launcherPath, steamAppName);
    }
  }

  /** After a write, the stored file holds a record named by the display name
      at its end, behind records none of which matches `appName` or raises. */
  lemma WrittenStoreHoldsName(disk: Disk, users: SteamUsers, vdfPath: string, appName: string,
                              launcherPath: string, steamAppName: Option<string>)
    requires AppendsAtEnd(users)
    requires AddShortcut(disk, users, vdfPath, appName, launcherPath, steamAppName).Wrote?
    ensures var o := AddShortcut(disk, users, vdfPath, appName, launcherPath, steamAppName);
            var before := Slots(LoadShortcutsFile(disk, vdfPath));
            && Slots(o.doc) == before + [Slots(o.doc)[|before|]]
            && Clean(before, appName)
            && NameProbe(Slots(o.doc)[|before|].record) == Named(DisplayName(appName, steamAppName))
            && (SameIgnoringCase(DisplayName(appName, steamAppName), appName) ==>
                  ShortcutAlreadyExists(o.doc, appName) == Success(true))
            && (!SameIgnoringCase(DisplayName(appName, steamAppName), appName) ==>
                  ShortcutAlreadyExists(o.doc, appName) == Success(false))
  {
    var o := AddShortcut(disk, users, vdfPath, appName, launcherPath, steamAppName);
    AddShortcutWrites(disk, users, vdfPath, appName, launcherPath, steamAppName);
    var loaded := LoadShortcutsFile(disk, vdfPath);
    var name := DisplayName(appName, steamAppName);
    var entry := CreateShortcutEntry(disk, appName, launcherPath, name).value;
    assert entry.appname == name && name != [];
    ExtendedStoreDecides(loaded, AsRecord(entry), o.doc, appName, name);
  }

  /** A store with no match and nothing that raises, extended by a record
      named `name`, is found under `appName` exactly when the names agree. */
  lemma ExtendedStoreDecides(loaded: Document, rec: Record, doc: Document, appName: string, name: string)
    requires ExtendedBy(loaded, rec, doc)
    requires ShortcutAlreadyExists(loaded, appName) == Success(false)
    requires NameProbe(rec) == Named(name)
    ensures Slots(doc) == Slots(loaded) + [Slots(doc)[|Slots(loaded)|]]
    ensures Clean(Slots(loaded), appName)
    ensures ShortcutAlreadyExists(doc, appName) == Success(true) <==> SameIgnoringCase(name, appName)
    ensures !SameIgnoringCase(name, appName) ==> ShortcutAlreadyExists(doc, appName) == Success(false)
  {
    var before := Slots(loaded);
    var last := Slots(doc)[|before|];
    assert Slots(doc) == before + [last];
    AlreadyExistsMeaning(loaded, appName);
    AppendedNameDecides(before, last, appName);
  }

  /** With an override that differs from `appName` beyond case, a repeated call
      does not recognise the record the first call stored: it appends a second
      record with the same display name. */
  lemma OverrideIsAddedAgain(disk: Disk, users: SteamUsers, vdfPath: string, appName: string,
                             launcherPath: string, steamAppName: Option<string>)
    requires AppendsAtEnd(users)
    requires forall d: Document, rec: Record :: users.addShortcutToShortcuts(d, rec).Some?
    requires AddShortcut(disk, users, vdfPath, appName, launcherPath, steamAppName).Wrote?
    requires AddShortcut(disk, users, vdfPath, appName, launcherPath, steamAppName).saved
    requires !SameIgnoringCase(DisplayName(appName, steamAppName), appName)
    ensures var o1 := AddShortcut(disk, users, vdfPath, appName, launcherPath, steamAppName);
            var o2 := AddShortcut(Commit(disk, vdfPath, o1), users, vdfPath, appName, launcherPath, steamAppName);
            && o2.Wrote?
            && |Slots(o2.doc)| == |Slots(o1.doc)| + 1
            && NameProbe(Slots(o2.doc)[|Slots(o1.doc)| - 1].record) == Named(DisplayName(appName, steamAppName))
            && NameProbe(Slots(o2.doc)[|Slots(o1.doc)|].record) == Named(DisplayName(appName, steamAppName))
  {
    var o1 := AddShortcut(disk, users, vdfPath, appName, launcherPath, steamAppName);
    var disk1 := Commit(disk, vdfPath, o1);
    WrittenStoreHoldsName(disk, users, vdfPath, appName, launcherPath, steamAppName);
    assert LoadShortcutsFile(disk1, vdfPath) == o1.doc;
    assert PathExists(disk1, vdfPath);
    assert PathExists(disk1, launcherPath);
    var o2 := AddShortcut(disk1, users, vdfPath, appName, launcherPath, steamAppName);
    assert o2.Wrote?;
    WrittenStoreHoldsName(disk1, users, vdfPath, appName, launcherPath, steamAppName);
    var n := |Slots(o1.doc)|;
    assert Slots(o2.doc)[..n] == Slots(o1.doc);
    assert Slots(o2.doc)[n - 1] == Slots(o1.doc)[n - 1];
  }
}
