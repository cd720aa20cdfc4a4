/** The account-selection part of `get_vdf_path`: from the directories under
    `<library>/userdata`, pick the first whose account name matches, and
    return the path of its shortcuts store. */
module Accounts {
  import opened Wrappers
  import opened Text
  import opened FileSystem

  /** Why no store path was produced. `Unlistable` stands for the exception
      `os.listdir` raises on a path that exists but cannot be listed; it is
      not caught, so the run ends with status 1 like the other three. */
  datatype ResolveError = NoUserData | Unlistable | NoUsers | AccountNotFound

  /** The name given to a directory the account metadata does not mention. */
  const UnknownAccount: string := "Unknown Account"

  function Userdata(library: string): string {
    Join(library, "userdata")
  }

  /** `<userdata>/<dir>/config/shortcuts.vdf`. */
  function StorePath(userdata: string, dir: string): string {
    Join(Join(Join(userdata, dir), "config"), "shortcuts.vdf")
  }

  /** The `AccountName` the merged metadata gives a directory, or the placeholder. */
  function AccountNameOf(names: map<string, string>, dir: string): string {
    if dir in names then names[dir] else UnknownAccount
  }

  /** The directory belongs to the requested account, ignoring case. */
  predicate Selects(names: map<string, string>, account: string, dir: string) {
    SameIgnoringCase(account, AccountNameOf(names, dir))
  }

  /** The comprehension that keeps the listed entries that are directories, in listing order. */
  function UserDirs(disk: Disk, userdata: string, listing: seq<string>): (r: seq<string>)
    ensures |r| <= |listing|
    ensures forall k :: 0 <= k < |r| ==> IsDir(disk, Join(userdata, r[k]))
    ensures r == [] <==> forall k :: 0 <= k < |listing| ==> !IsDir(disk, Join(userdata, listing[k]))
  {
    if listing == [] then []
    else
      (if IsDir(disk, Join(userdata, listing[0])) then [listing[0]] else [])
      + UserDirs(disk, userdata, listing[1..])
  }

  /** An entry is kept exactly when it is listed and is a directory. */
  lemma {:induction false} UserDirsKeepsExactlyDirs(disk: Disk, userdata: string, listing: seq<string>, x: string)
    ensures x in UserDirs(disk, userdata, listing) <==> x in listing && IsDir(disk, Join(userdata, x))
    decreases |listing|
  {
    if listing != [] {
      UserDirsKeepsExactlyDirs(disk, userdata, listing[1..], x);
      assert listing == [listing[0]] + listing[1..];
    }
  }

  /** The filter depends only on which paths are directories. */
  lemma {:induction false} UserDirsSeesOnlyDirs(disk: Disk, disk': Disk, userdata: string, listing: seq<string>)
    requires disk.dirs == disk'.dirs
    ensures UserDirs(disk, userdata, listing) == UserDirs(disk', userdata, listing)
    decreases |listing|
  {
    if listing != [] {
      UserDirsSeesOnlyDirs(disk, disk', userdata, listing[1..]);
    }
  }

  /** `dirs[k]` is selected and no earlier directory is. */
  ghost predicate FirstSelected(dirs: seq<string>, names: map<string, string>, account: string, k: int) {
    && 0 <= k < |dirs|
    && Selects(names, account, dirs[k])
    && forall j :: 0 <= j < k ==> !Selects(names, account, dirs[j])
  }

  /** Past a directory that is not selected, the first selected one of the
      rest is the first selected one overall. */
  lemma FirstSelectedShifts(dirs: seq<string>, names: map<string, string>, account: string)
    requires dirs != [] && !Selects(names, account, dirs[0])
    ensures forall k :: FirstSelected(dirs[1..], names, account, k) ==> FirstSelected(dirs, names, account, k + 1)
  {
    forall k | FirstSelected(dirs[1..], names, account, k)
      ensures FirstSelected(dirs, names, account, k + 1)
    {
      assert forall j :: 0 <= j < k ==> dirs[1..][j] == dirs[j + 1];
    }
  }

  /** The `for ... break` loop over the user directories. */
  function FindAccount(dirs: seq<string>, names: map<string, string>, account: string): (r: Option<string>)
    ensures r.None? <==> forall k :: 0 <= k < |dirs| ==> !Selects(names, account, dirs[k])
    ensures r.Some? ==> exists k :: FirstSelected(dirs, names, account, k) && dirs[k] == r.value
    decreases |dirs|
  {
    if dirs == [] then None
    else if Selects(names, account, dirs[0]) then
      assert FirstSelected(dirs, names, account, 0);
      Some(dirs[0])
    else
      var r := FindAccount(dirs[1..], names, account);
      FirstSelectedShifts(dirs, names, account);
      r
  }

  /** The store path of `get_vdf_path(account, library)`. */
  function GetVdfPath(disk: Disk, names: map<string, string>, account: string, library: string)
    : (r: Result<string, ResolveError>)
    ensures r == Failure(NoUserData) <==> !PathExists(disk, Userdata(library))
    ensures r == Failure(Unlistable) <==> PathExists(disk, Userdata(library)) && Userdata(library) !in disk.listings
    ensures r == Failure(NoUsers) <==>
              && PathExists(disk, Userdata(library)) && Userdata(library) in disk.listings
              && UserDirs(disk, Userdata(library), disk.listings[Userdata(library)]) == []
    ensures r == Failure(AccountNotFound) <==>
              && PathExists(disk, Userdata(library)) && Userdata(library) in disk.listings
              && var dirs := UserDirs(disk, Userdata(library), disk.listings[Userdata(library)]);
              && dirs != []
              && forall k :: 0 <= k < |dirs| ==> !Selects(names, account, dirs[k])
    ensures r.Success? ==>
              && PathExists(disk, Userdata(library)) && Userdata(library) in disk.listings
              && var dirs := UserDirs(disk, Userdata(library), disk.listings[Userdata(library)]);
              && exists k :: FirstSelected(dirs, names, account, k) && r.value == StorePath(Userdata(library), dirs[k])
  {
    var userdata := Userdata(library);
    if !PathExists(disk, userdata) then Failure(NoUserData)
    else if userdata !in disk.listings then Failure(Unlistable)
    else
      var dirs := UserDirs(disk, userdata, disk.listings[userdata]);
      if dirs == [] then Failure(NoUsers)
      else match FindAccount(dirs, names, account)
        case None => Failure(AccountNotFound)
        case Some(d) => Success(StorePath(userdata, d))
  }

  /** Entry `listing[k]` is a directory of the requested account and no earlier
      listed entry is both. */
  ghost predicate FirstListedMatch(disk: Disk, userdata: string, listing: seq<string>,
                                   names: map<string, string>, account: string, k: int) {
    && 0 <= k < |listing|
    && IsDir(disk, Join(userdata, listing[k])) && Selects(names, account, listing[k])
    && forall j :: 0 <= j < k ==> !(IsDir(disk, Join(userdata, listing[j])) && Selects(names, account, listing[j]))
  }

  /** The filter keeps a listed directory at the front and drops anything else. */
  lemma UserDirsStep(disk: Disk, userdata: string, listing: seq<string>)
    requires listing != []
    ensures IsDir(disk, Join(userdata, listing[0])) ==>
              UserDirs(disk, userdata, listing) == [listing[0]] + UserDirs(disk, userdata, listing[1..])
    ensures !IsDir(disk, Join(userdata, listing[0])) ==>
              UserDirs(disk, userdata, listing) == UserDirs(disk, userdata, listing[1..])
  {
  }

  /** The loop moves past a directory that is not selected. */
  lemma FindAccountStep(x: string, rest: seq<string>, names: map<string, string>, account: string)
    ensures Selects(names, account, x) ==> FindAccount([x] + rest, names, account) == Some(x)
    ensures !Selects(names, account, x) ==> FindAccount([x] + rest, names, account) == FindAccount(rest, names, account)
  {
    assert ([x] + rest)[0] == x;
    assert ([x] + rest)[1..] == rest;
  }

  /** The filter then the loop, one listed entry at a time. */
  lemma FindAfterFilterStep(disk: Disk, userdata: string, listing: seq<string>,
                            names: map<string, string>, account: string)
    requires listing != []
    ensures IsDir(disk, Join(userdata, listing[0])) && Selects(names, account, listing[0]) ==>
              FindAccount(UserDirs(disk, userdata, listing), names, account) == Some(listing[0])
    ensures !(IsDir(disk, Join(userdata, listing[0])) && Selects(names, account, listing[0])) ==>
              FindAccount(UserDirs(disk, userdata, listing), names, account)
              == FindAccount(UserDirs(disk, userdata, listing[1..]), names, account)
  {
    UserDirsStep(disk, userdata, listing);
    FindAccountStep(listing[0], UserDirs(disk, userdata, listing[1..]), names, account);
  }

  /** Past an entry that is not a selected directory, the first listed match
      of the rest is the first listed match overall. */
  lemma FirstListedMatchShifts(disk: Disk, userdata: string, listing: seq<string>,
                               names: map<string, string>, account: string)
    requires listing != []
    requires !(IsDir(disk, Join(userdata, listing[0])) && Selects(names, account, listing[0]))
    ensures forall k :: FirstListedMatch(disk, userdata, listing, names, account, k) <==>
                        k > 0 && FirstListedMatch(disk, userdata, listing[1..], names, account, k - 1)
  {
    var tail := listing[1..];
    forall k ensures FirstListedMatch(disk, userdata, listing, names, account, k) <==>
                     k > 0 && FirstListedMatch(disk, userdata, tail, names, account, k - 1)
    {
      if k > 0 && k < |listing| {
        assert listing[k] == tail[k - 1];
        assert forall j :: 0 <= j < k - 1 ==> tail[j] == listing[j + 1];
        if FirstListedMatch(disk, userdata, tail, names, account, k - 1) {
          forall j | 0 <= j < k
            ensures !(IsDir(disk, Join(userdata, listing[j])) && Selects(names, account, listing[j]))
          {
            if j > 0 { assert listing[j] == tail[j - 1]; }
          }
        }
      }
    }
  }

  /** Filtering the directories and then breaking at the first match picks the
      first listed entry that is both a directory and the requested account's. */
  lemma {:induction false} SelectionFollowsListing(disk: Disk, userdata: string, listing: seq<string>,
                                                   names: map<string, string>, account: string)
    ensures FindAccount(UserDirs(disk, userdata, listing), names, account).None? <==>
              forall k :: 0 <= k < |listing| ==> !FirstListedMatch(disk, userdata, listing, names, account, k)
    ensures FindAccount(UserDirs(disk, userdata, listing), names, account).Some? ==>
              exists k :: FirstListedMatch(disk, userdata, listing, names, account, k)
                          && listing[k] == FindAccount(UserDirs(disk, userdata, listing), names, account).value
    decreases |listing|
  {
    if listing != [] {
      SelectionFollowsListing(disk, userdata, listing[1..], names, account);
      FindAfterFilterStep(disk, userdata, listing, names, account);
      if IsDir(disk, Join(userdata, listing[0])) && Selects(names, account, listing[0]) {
        assert FirstListedMatch(disk, userdata, listing, names, account, 0);
      } else {
        FirstListedMatchShifts(disk, userdata, listing, names, account);
        forall k | FirstListedMatch(disk, userdata, listing[1..], names, account, k)
          ensures FirstListedMatch(disk, userdata, listing, names, account, k + 1)
        {
        }
      }
    }
  }

  /** A directory the metadata does not mention is chosen when the requested
      account is literally "unknown account" in any case: the placeholder is
      compared like a real name. */
  lemma PlaceholderCanBeSelected(disk: Disk, library: string, dir: string)
    requires PathExists(disk, Userdata(library))
    requires disk.listings == map[Userdata(library) := [dir]]
    requires IsDir(disk, Join(Userdata(library), dir))
    ensures GetVdfPath(disk, map[], "unknown account", library) == Success(StorePath(Userdata(library), dir))
  {
    var userdata := Userdata(library);
    assert disk.listings[userdata] == [dir];
    assert UserDirs(disk, userdata, [dir]) == [dir];
    assert Lower("unknown account") == Lower(UnknownAccount);
    assert Selects(map[], "unknown account", dir);
    assert FindAccount([dir], map[], "unknown account") == Some(dir);
  }
}
