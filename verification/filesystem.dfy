/** The part of the filesystem the script observes: which paths exist, which
    are directories, what listing a directory gives, and which files the binary
    codec decodes (and to what). */
module FileSystem {
  import opened Vdf

  datatype Disk = Disk(
    files: set<string>,                  // existing paths that are not directories
    dirs: set<string>,                   // existing directories
    listings: map<string, seq<string>>,  // `os.listdir` of a directory, in its order
    stores: map<string, Document>)       // files that decode as a shortcuts store

  /** `os.path.exists(p)`. */
  predicate PathExists(disk: Disk, p: string) {
    p in disk.files || p in disk.dirs || p in disk.stores
  }

  /** `os.path.isdir(p)`. */
  predicate IsDir(disk: Disk, p: string) {
    p in disk.dirs
  }

  /** `load_shortcuts_file`: the decoded store, or an empty store when the
      file is absent or cannot be decoded; it never fails. */
  function LoadShortcutsFile(disk: Disk, p: string): (d: Document)
    ensures PathExists(disk, p) && p in disk.stores ==> d == disk.stores[p]
    ensures !PathExists(disk, p) ==> d == EmptyStore
    ensures PathExists(disk, p) && p !in disk.stores ==> d == EmptyStore
  {
    if PathExists(disk, p) then
      if p in disk.stores then disk.stores[p] else EmptyStore
    else
      EmptyStore
  }

  /** The effect on the disk of a successful `save_shortcuts(p, doc)`. */
  function Store(disk: Disk, p: string, doc: Document): (disk': Disk)
    ensures LoadShortcutsFile(disk', p) == doc
    ensures forall q :: q != p ==> LoadShortcutsFile(disk', q) == LoadShortcutsFile(disk, q)
    ensures forall q :: PathExists(disk', q) <==> PathExists(disk, q) || q == p
    ensures disk'.dirs == disk.dirs && disk'.listings == disk.listings
  {
    disk.(stores := disk.stores[p := doc])
  }

  /** Two disks agree on everything except the content of store files. */
  ghost predicate SameLayout(a: Disk, b: Disk) {
    && a.dirs == b.dirs
    && a.listings == b.listings
    && forall q :: PathExists(a, q) <==> PathExists(b, q)
  }
}
