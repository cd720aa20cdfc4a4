/** `load_config` and `main`: read the list of applications, locate the
    account's store, call `add_shortcut` for each application in order and
    turn the tally into an exit status. */
module Cli {
  import opened Wrappers
  import opened Text
  import opened Vdf
  import opened FileSystem
  import opened Lookup
  import opened Merge
  import opened Accounts

  /** One top-level key of the configuration and its optional "applicationname"
      override (None when absent or null). */
  datatype AppConfig = AppConfig(key: string, override: Option<string>)

  /** The decoded configuration, in the order of its keys. */
  type Config = seq<AppConfig>

  /** The command-line arguments the run uses, already made absolute. */
  datatype Invocation = Invocation(configPath: string, account: string, launcher: string)

  /** `load_config`: None when the file is absent, when it does not decode
      (`parsed` is None) or when it decodes to no entries; otherwise the
      decoded configuration. */
  function LoadConfig(disk: Disk, configPath: string, parsed: Option<Config>): (r: Option<Config>)
    ensures r.Some? <==> PathExists(disk, configPath) && parsed.Some? && parsed.value != []
    ensures r.Some? ==> r.value == parsed.value && |r.value| > 0
  {
    if !PathExists(disk, configPath) then None
    else if parsed.None? then None
    else if parsed.value == [] then None
    else parsed
  }

  /** Why a run stopped before processing any application. */
  datatype Fatal = ConfigUnavailable | LibraryNotFound | StoreNotLocated(why: ResolveError)

  /** What the run has established before the loop. */
  datatype Setup = Setup(config: Config, storePath: string)

  /** The three fatal steps of `main`, in order. `library` is the answer of
      `find_steam_library`: None when it returned nothing or raised. */
  function Prepare(disk: Disk, inv: Invocation, parsed: Option<Config>, library: Option<string>,
                   names: map<string, string>): (r: Result<Setup, Fatal>)
    ensures LoadConfig(disk, inv.configPath, parsed).None? ==> r == Failure(ConfigUnavailable)
    ensures LoadConfig(disk, inv.configPath, parsed).Some? && (library.None? || library.value == []) ==>
              r == Failure(LibraryNotFound)
    ensures r.Success? ==>
              && LoadConfig(disk, inv.configPath, parsed) == Some(r.value.config)
              && library.Some? && library.value != []
              && GetVdfPath(disk, names, inv.account, library.value) == Success(r.value.storePath)
    ensures r.Failure? && r.error.StoreNotLocated? ==>
              GetVdfPath(disk, names, inv.account, library.value) == Failure(r.error.why)
    // Once config and library are obtained, the store lookup alone decides.
    ensures LoadConfig(disk, inv.configPath, parsed).Some? && library.Some? && library.value != [] ==>
              && (r.Success? <==> GetVdfPath(disk, names, inv.account, library.value).Success?)
              && (GetVdfPath(disk, names, inv.account, library.value).Success? ==>
                    r == Success(Setup(LoadConfig(disk, inv.configPath, parsed).value,
                                       GetVdfPath(disk, names, inv.account, library.value).value)))
              && (GetVdfPath(disk, names, inv.account, library.value).Failure? ==>
                    r == Failure(StoreNotLocated(GetVdfPath(disk, names, inv.account, library.value).error)))
  {
    match LoadConfig(disk, inv.configPath, parsed)
    case None => Failure(ConfigUnavailable)
    case Some(config) =>
      if library.None? || library.value == [] then Failure(LibraryNotFound)
      else match GetVdfPath(disk, names, inv.account, library.value)
        case Failure(e) => Failure(StoreNotLocated(e))
        case Success(p) => Success(Setup(config, p))
  }

  /** The results of the per-application loop. */
  datatype Tally = Tally(successes: nat, outcomes: seq<Outcome>, disk: Disk)

  /** Every call of a run returned True. */
  predicate AllSucceeded(outcomes: seq<Outcome>) {
    forall i :: 0 <= i < |outcomes| ==> Succeeded(outcomes[i])
  }

  lemma AllSucceededCons(o: Outcome, rest: seq<Outcome>)
    ensures AllSucceeded([o] + rest) <==> Succeeded(o) && AllSucceeded(rest)
  {
    var all := [o] + rest;
    assert all[0] == o;
    assert forall i :: 0 <= i < |rest| ==> all[i + 1] == rest[i];
    if Succeeded(o) && AllSucceeded(rest) {
      forall i | 0 <= i < |all| ensures Succeeded(all[i]) {
        if i > 0 { assert all[i] == rest[i - 1]; }
      }
    }
  }

  /** The loop of `main`: one `add_shortcut` per configured application, in
      order, each seeing the disk the previous one left behind. */
  function Process(disk: Disk, users: SteamUsers, storePath: string, launcher: string, config: Config)
    : (t: Tally)
    ensures |t.outcomes| == |config|
    ensures t.successes <= |config|
    ensures t.successes == |config| <==> AllSucceeded(t.outcomes)
    // With nothing to process, nothing is called and the disk stays as it was.
    ensures config == [] ==> t == Tally(0, [], disk)
    decreases |config|
  {
    if config == [] then Tally(0, [], disk)
    else
      var o := AddShortcut(disk, users, storePath, config[0].key, launcher, config[0].override);
      var rest := Process(Commit(disk, storePath, o), users, storePath, launcher, config[1..]);
      var t := Tally((if Succeeded(o) then 1 else 0) + rest.successes, [o] + rest.outcomes, rest.disk);
      AllSucceededCons(o, rest.outcomes);
      t
  }

  /** One turn of the loop: the first call, then the rest on the disk it leaves. */
  lemma ProcessStep(disk: Disk, users: SteamUsers, storePath: string, launcher: string, config: Config)
    requires config != []
    ensures var o := AddShortcut(disk, users, storePath, config[0].key, launcher, config[0].override);
            var t := Process(disk, users, storePath, launcher, config);
            var rest := Process(Commit(disk, storePath, o), users, storePath, launcher, config[1..]);
            && t.outcomes == [o] + rest.outcomes
            && t.disk == rest.disk
            && (t.successes == |config| ==> Succeeded(o) && rest.successes == |config| - 1)
  {
  }

  /** What a run returns and leaves behind. */
  datatype Run = Run(exit: int, outcomes: seq<Outcome>, disk: Disk)

  /** The part of `main` after setup: the loop over the configured
      applications and the status it turns into. */
  function Conclude(disk: Disk, users: SteamUsers, launcher: string, setup: Setup): (r: Run)
    ensures |r.outcomes| == |setup.config|
    ensures r.exit == 0 || r.exit == 1
    ensures r.exit == 0 <==> AllSucceeded(r.outcomes)
    // The outcomes and the final disk are those of the loop of `add_shortcut` calls.
    ensures r.outcomes == Process(disk, users, setup.storePath, launcher, setup.config).outcomes
    ensures r.disk == Process(disk, users, setup.storePath, launcher, setup.config).disk
  {
    var t := Process(disk, users, setup.storePath, launcher, setup.config);
    Run(if t.successes == |setup.config| then 0 else 1, t.outcomes, t.disk)
  }

  /** `main`. */
  function Main(disk: Disk, users: SteamUsers, inv: Invocation, parsed: Option<Config>,
                library: Option<string>, names: map<string, string>): (r: Run)
    // Any fatal step ends the run with status 1 before any application is touched.
    ensures Prepare(disk, inv, parsed, library, names).Failure? ==> r == Run(1, [], disk)
    // Otherwise every configured application gets exactly one attempt, and the
    // status is 0 exactly when every attempt returned True.
    ensures Prepare(disk, inv, parsed, library, names).Success? ==>
              |r.outcomes| == |Prepare(disk, inv, parsed, library, names).value.config| > 0
    ensures Prepare(disk, inv, parsed, library, names).Success? ==>
              r == Conclude(disk, users, inv.launcher, Prepare(disk, inv, parsed, library, names).value)
    ensures r.exit == 0 || r.exit == 1
    ensures r.exit == 0 <==>
              Prepare(disk, inv, parsed, library, names).Success?
              && AllSucceeded(r.outcomes)
  {
    match Prepare(disk, inv, parsed, library, names)
    case Failure(_) => Run(1, [], disk)
    case Success(setup) => Conclude(disk, users, inv.launcher, setup)
  }

  /** The override, if any, names the application the same way as its key. */
  predicate KeepsOwnName(c: AppConfig) {
    SameIgnoringCase(DisplayName(c.key, c.override), c.key)
  }

  /** The duplicate check finds `appName` in `doc`. */
  predicate Found(doc: Document, appName: string) {
    ShortcutAlreadyExists(doc, appName) == Success(true)
  }

  /** One successful call keeps every name found so far and makes its own found. */
  lemma SuccessfulCallRecords(disk: Disk, users: SteamUsers, storePath: string, launcher: string, c: AppConfig)
    requires AppendsAtEnd(users)
    requires KeepsOwnName(c)
    requires Succeeded(AddShortcut(disk, users, storePath, c.key, launcher, c.override))
    ensures var disk1 := Commit(disk, storePath, AddShortcut(disk, users, storePath, c.key, launcher, c.override));
            && Found(LoadShortcutsFile(disk1, storePath), c.key)
            && forall a :: Found(LoadShortcutsFile(disk, storePath), a) ==> Found(LoadShortcutsFile(disk1, storePath), a)
  {
    var o := AddShortcut(disk, users, storePath, c.key, launcher, c.override);
    var disk1 := Commit(disk, storePath, o);
    var before := LoadShortcutsFile(disk, storePath);
    var after := LoadShortcutsFile(disk1, storePath);
    if o.Wrote? {
      WrittenStoreHoldsName(disk, users, storePath, c.key, launcher, c.override);
      assert after == o.doc;
      var last := Slots(o.doc)[|Slots(before)|];
      assert Slots(after) == Slots(before) + [last];
      forall a | Found(before, a) ensures Found(after, a) {
        FoundSurvivesAppend(Slots(before), [last], a);
      }
    }
  }

  /** A loop in which every call returned True leaves the store holding every
      processed application under its key, as long as no override renames one,
      and keeps every name that was there before. */
  lemma {:induction false} SuccessfulLoopRecordsAll(disk: Disk, users: SteamUsers, storePath: string,
                                                    launcher: string, config: Config)
    requires AppendsAtEnd(users)
    requires forall i :: 0 <= i < |config| ==> KeepsOwnName(config[i])
    requires Process(disk, users, storePath, launcher, config).successes == |config|
    ensures var final := LoadShortcutsFile(Process(disk, users, storePath, launcher, config).disk, storePath);
            && (forall i :: 0 <= i < |config| ==> Found(final, config[i].key))
            && (forall a :: Found(LoadShortcutsFile(disk, storePath), a) ==> Found(final, a))
    decreases |config|
  {
    if config != [] {
      var c := config[0];
      var disk1 := Commit(disk, storePath, AddShortcut(disk, users, storePath, c.key, launcher, c.override));
      ProcessStep(disk, users, storePath, launcher, config);
      SuccessfulCallRecords(disk, users, storePath, launcher, c);
      var rest := config[1..];
      assert forall i :: 0 <= i < |rest| ==> rest[i] == config[i + 1];
      SuccessfulLoopRecordsAll(disk1, users, storePath, launcher, rest);
      var final := LoadShortcutsFile(Process(disk, users, storePath, launcher, config).disk, storePath);
      assert final == LoadShortcutsFile(Process(disk1, users, storePath, launcher, rest).disk, storePath);
      forall i | 0 <= i < |config| ensures Found(final, config[i].key) {
        if i > 0 { assert config[i] == rest[i - 1]; }
      }
    }
  }

  /** The loop changes the disk only in the content of store files. */
  lemma {:induction false} LoopKeepsLayout(disk: Disk, users: SteamUsers, storePath: string,
                                           launcher: string, config: Config)
    ensures SameLayout(disk, Process(disk, users, storePath, launcher, config).disk)
    decreases |config|
  {
    if config != [] {
      var c := config[0];
      var disk1 := Commit(disk, storePath, AddShortcut(disk, users, storePath, c.key, launcher, c.override));
      ProcessStep(disk, users, storePath, launcher, config);
      CommitKeepsLayout(disk, users, storePath, c.key, launcher, c.override);
      LoopKeepsLayout(disk1, users, storePath, launcher, config[1..]);
    }
  }

  /** A loop over applications that are all already in the store skips every
      one of them, succeeds for each and writes nothing. */
  lemma {:induction false} LoopOverPresentAppsIsNoOp(disk: Disk, users: SteamUsers, storePath: string,
                                                     launcher: string, config: Config)
    requires PathExists(disk, storePath)
    requires forall i :: 0 <= i < |config| ==> Found(LoadShortcutsFile(disk, storePath), config[i].key)
    ensures Process(disk, users, storePath, launcher, config) == Tally(|config|, seq(|config|, _ => Skipped), disk)
    decreases |config|
  {
    if config != [] {
      assert Found(LoadShortcutsFile(disk, storePath), config[0].key);
      assert forall j :: 0 <= j < |config| - 1 ==> config[1..][j] == config[j + 1];
      LoopOverPresentAppsIsNoOp(disk, users, storePath, launcher, config[1..]);
      assert [Skipped] + seq(|config| - 1, _ => Skipped) == seq(|config|, _ => Skipped);
    }
  }

  /** The fatal steps do not look at the content of store files. */
  lemma PrepareSeesOnlyLayout(disk: Disk, disk': Disk, inv: Invocation, parsed: Option<Config>,
                              library: Option<string>, names: map<string, string>)
    requires SameLayout(disk, disk')
    ensures Prepare(disk', inv, parsed, library, names) == Prepare(disk, inv, parsed, library, names)
  {
    assert LoadConfig(disk', inv.configPath, parsed) == LoadConfig(disk, inv.configPath, parsed);
    if library.Some? {
      var userdata := Userdata(library.value);
      assert PathExists(disk', userdata) == PathExists(disk, userdata);
      if userdata in disk.listings {
        UserDirsSeesOnlyDirs(disk, disk', userdata, disk.listings[userdata]);
      }
    }
  }

  /** Once the loop has succeeded for every application, running it again
      on the disk it left skips every application, succeeds and writes
      nothing -- provided no override names an application differently from
      its key. */
  lemma SecondLoopIsNoOp(disk: Disk, users: SteamUsers, launcher: string, setup: Setup)
    requires AppendsAtEnd(users)
    requires forall i :: 0 <= i < |setup.config| ==> KeepsOwnName(setup.config[i])
    requires Conclude(disk, users, launcher, setup).exit == 0
    ensures var first := Conclude(disk, users, launcher, setup);
            var second := Conclude(first.disk, users, launcher, setup);
            && second.exit == 0
            && second.disk == first.disk
            && forall i :: 0 <= i < |second.outcomes| ==> second.outcomes[i] == Skipped
  {
    var config := setup.config;
    if config != [] {
      var t := Process(disk, users, setup.storePath, launcher, config);
      SuccessfulLoopRecordsAll(disk, users, setup.storePath, launcher, config);
      LoopKeepsLayout(disk, users, setup.storePath, launcher, config);
      ProcessStep(disk, users, setup.storePath, launcher, config);
      assert PathExists(disk, setup.storePath);
      assert PathExists(t.disk, setup.storePath);
      LoopOverPresentAppsIsNoOp(t.disk, users, setup.storePath, launcher, config);
    }
  }

  /** Running the tool a second time, after a run that exited with status 0,
      changes nothing and exits with status 0 again -- provided no override
      names an application differently from its key. */
  lemma RerunAfterSuccessIsNoOp(disk: Disk, users: SteamUsers, inv: Invocation, parsed: Option<Config>,
                                library: Option<string>, names: map<string, string>)
    requires AppendsAtEnd(users)
    requires parsed.Some? ==> forall i :: 0 <= i < |parsed.value| ==> KeepsOwnName(parsed.value[i])
    requires Main(disk, users, inv, parsed, library, names).exit == 0
    ensures var first := Main(disk, users, inv, parsed, library, names);
            var second := Main(first.disk, users, inv, parsed, library, names);
            && second.exit == 0
            && second.disk == first.disk
            && forall i :: 0 <= i < |second.outcomes| ==> second.outcomes[i] == Skipped
  {
    var setup := Prepare(disk, inv, parsed, library, names).value;
    var first := Conclude(disk, users, inv.launcher, setup);
    LoopKeepsLayout(disk, users, setup.storePath, inv.launcher, setup.config);
    PrepareSeesOnlyLayout(disk, first.disk, inv, parsed, library, names);
    SecondLoopIsNoOp(disk, users, inv.launcher, setup);
  }

  /** When the located store file does not exist, every application fails and
      nothing is written, although loading the same file would have given an
      empty store. */
  lemma {:induction false} MissingStoreFailsEveryApp(disk: Disk, users: SteamUsers, storePath: string,
                                                     launcher: string, config: Config)
    requires !PathExists(disk, storePath)
    ensures LoadShortcutsFile(disk, storePath) == EmptyStore
    ensures var t := Process(disk, users, storePath, launcher, config);
            && t.successes == 0 && t.disk == disk
            && forall i :: 0 <= i < |config| ==> t.outcomes[i] == Failed(StoreMissing)
    decreases |config|
  {
    if config != [] {
      MissingStoreFailsEveryApp(disk, users, storePath, launcher, config[1..]);
    }
  }

  /** So a run whose store file is absent exits with status 1 and leaves
      the disk as it was. */
  lemma MissingStoreFailsRun(disk: Disk, users: SteamUsers, launcher: string, setup: Setup)
    requires setup.config != []
    requires !PathExists(disk, setup.storePath)
    ensures Conclude(disk, users, launcher, setup) ==
              Run(1, seq(|setup.config|, _ => Failed(StoreMissing)), disk)
  {
    MissingStoreFailsEveryApp(disk, users, setup.storePath, launcher, setup.config);
  }
}
