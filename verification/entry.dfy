/** `create_shortcut_entry`: validates its arguments and builds the record
    that registers one application as a shortcut. */
module Entry {
  import opened Wrappers
  import opened Text
  import opened Vdf
  import opened FileSystem
  import Lookup

  /** ValueError for an empty argument, FileNotFoundError for a missing launcher. */
  datatype BuildError = EmptyArgument | LauncherNotFound

  /** The record the script builds for one application, one field per key
      of the dictionary it hands to the store. */
  datatype ShortcutEntry = ShortcutEntry(
    appname: string, exe: string, startDir: string, icon: string, shortcutPath: string,
    launchOptions: string, isHidden: int, allowDesktopConfig: int, allowOverlay: int,
    openVR: int, devkit: int, devkitGameId: string, lastPlayTime: int, tags: string)

  /** Every key of the dictionary form of an entry; the same fourteen each time. */
  const EntryKeys: set<string> := {
    "appname", "exe", "StartDir", "icon", "ShortcutPath", "LaunchOptions", "IsHidden",
    "AllowDesktopConfig", "AllowOverlay", "OpenVR", "Devkit", "DevkitGameID",
    "LastPlayTime", "tags" }

  /** `rec` is the dictionary form of `e`: exactly the fourteen keys, each
      holding the matching field. */
  ghost predicate Encodes(rec: Record, e: ShortcutEntry) {
    && rec.Keys == EntryKeys
    && rec["appname"] == Str(e.appname) && rec["exe"] == Str(e.exe)
    && rec["StartDir"] == Str(e.startDir) && rec["icon"] == Str(e.icon)
    && rec["ShortcutPath"] == Str(e.shortcutPath) && rec["LaunchOptions"] == Str(e.launchOptions)
    && rec["IsHidden"] == Num(e.isHidden) && rec["AllowDesktopConfig"] == Num(e.allowDesktopConfig)
    && rec["AllowOverlay"] == Num(e.allowOverlay) && rec["OpenVR"] == Num(e.openVR)
    && rec["Devkit"] == Num(e.devkit) && rec["DevkitGameID"] == Str(e.devkitGameId)
    && rec["LastPlayTime"] == Num(e.lastPlayTime) && rec["tags"] == Str(e.tags)
  }

  /** The value the script stores under `key` for an entry. */
  function FieldOf(e: ShortcutEntry, key: string): Field {
    if key == "appname" then Str(e.appname)
    else if key == "exe" then Str(e.exe)
    else if key == "StartDir" then Str(e.startDir)
    else if key == "icon" then Str(e.icon)
    else if key == "ShortcutPath" then Str(e.shortcutPath)
    else if key == "LaunchOptions" then Str(e.launchOptions)
    else if key == "IsHidden" then Num(e.isHidden)
    else if key == "AllowDesktopConfig" then Num(e.allowDesktopConfig)
    else if key == "AllowOverlay" then Num(e.allowOverlay)
    else if key == "OpenVR" then Num(e.openVR)
    else if key == "Devkit" then Num(e.devkit)
    else if key == "DevkitGameID" then Str(e.devkitGameId)
    else if key == "LastPlayTime" then Num(e.lastPlayTime)
    else Str(e.tags)
  }

  /** The dictionary the script hands to the store for an entry. The
      duplicate check reads it as named by the entry's display name. */
  function AsRecord(e: ShortcutEntry): (rec: Record)
    ensures Encodes(rec, e)
    ensures e.appname != [] ==> Lookup.NameProbe(rec) == Lookup.Named(e.appname)
  {
    map key | key in EntryKeys :: FieldOf(e, key)
  }

  /** `-Game "<appName>"`: how the launcher is told which application to start. */
  function LaunchOptions(appName: string): string {
    "-Game " + Quote(appName)
  }

  /** `create_shortcut_entry(appName, launcherPath, steamAppName)`. The name
      shown in the library is `steamAppName`; the launcher is told `appName`. */
  function CreateShortcutEntry(disk: Disk, appName: string, launcherPath: string, steamAppName: string)
    : (r: Result<ShortcutEntry, BuildError>)
    ensures r == Failure(EmptyArgument) <==> appName == [] || launcherPath == [] || steamAppName == []
    ensures r == Failure(LauncherNotFound) <==>
              appName != [] && launcherPath != [] && steamAppName != [] && !PathExists(disk, launcherPath)
    ensures r.Success? ==>
      && r.value.appname == steamAppName
      && r.value.exe == Quote(launcherPath)
      && r.value.startDir == DirName(launcherPath)
      && r.value.launchOptions == LaunchOptions(appName)
      && r.value.icon == "" && r.value.shortcutPath == ""
      && r.value.isHidden == 0 && r.value.allowDesktopConfig == 1
      && r.value.allowOverlay == 1 && r.value.openVR == 0
      && r.value.devkit == 0 && r.value.devkitGameId == ""
      && r.value.lastPlayTime == 0 && r.value.tags == "Launcher"
  {
    if appName == [] || launcherPath == [] || steamAppName == [] then Failure(EmptyArgument)
    else if !PathExists(disk, launcherPath) then Failure(LauncherNotFound)
    else Success(ShortcutEntry(
      appname := steamAppName,
      exe := Quote(launcherPath),
      startDir := DirName(launcherPath),
      icon := "",
      shortcutPath := "",
      launchOptions := LaunchOptions(appName),
      isHidden := 0,
      allowDesktopConfig := 1,
      allowOverlay := 1,
      openVR := 0,
      devkit := 0,
      devkitGameId := "",
      lastPlayTime := 0,
      tags := "Launcher"))
  }
}
