/** The static file hierarchy that an FTS walk observes.

    The kernel's answers are a value: `at` says what a file name names, `child` what an entry of a
    directory names, `dirs` holds every directory's contents in readdir order.  A walk never changes
    that value, so every stat(2) and opendir(3) of one walk is a lookup in it. */
module FileTree {
  import opened CStrings

  const ENOENT := 2

  datatype Inode = Inode(dev: int, ino: int)

  datatype Kind = Directory | RegularFile | SymbolicLink | OtherFile

  /** What stat(2) or lstat(2) reports. */
  datatype StatResult = Ok(kind: Kind, inode: Inode) | Err(errno: int)

  /** An object as seen through stat (follow) and through lstat (nofollow). */
  datatype Node = Node(follow: StatResult, nofollow: StatResult) {
    function Stat(followLinks: bool): StatResult { if followLinks then follow else nofollow }

    predicate IsDirectory(followLinks: bool, i: Inode) {
      Stat(followLinks) == Ok(Directory, i)
    }
  }

  /** The d_type member of a directory entry. */
  datatype EntryType = DT_UNKNOWN | DT_DIR | DT_LNK | DT_OTHER

  datatype DirEnt = DirEnt(d_name: string, d_type: EntryType)

  datatype Fs = Fs(
    at: string -> Node,
    child: (Inode, string) -> Node,
    dirs: map<Inode, seq<DirEnt>>,
    unreadable: map<Inode, int>)  // directories opendir(3) refuses, with the errno it gives

  /** The macro ISDOT: the names "." and "..". */
  predicate IsDot(name: string) { name == "." || name == ".." }

  /** A name that readdir(3) can return. */
  ghost predicate ValidName(name: string) {
    name != [] && '/' !in name && NUL !in name
  }

  /** The macro NAPPEND as a length: where the slash before a child's name goes. */
  function AppendAt(path: string): nat
    requires path != []
  {
    if path[|path| - 1] == '/' then |path| - 1 else |path|
  }

  /** The file name of an entry of directory `path`. */
  function Join(path: string, name: string): string
    requires path != []
  {
    path[..AppendAt(path)] + "/" + name
  }

  /** The hierarchy is static and coherent: the name of an entry of a directory leads to the child
      the directory lists, every directory that can be named has listed contents, the listed names
      are names, and the empty file name names nothing. */
  ghost predicate Static(fs: Fs) {
    && (forall followLinks :: fs.at("").Stat(followLinks).Err?)
    && (forall path, followLinks, i | fs.at(path).IsDirectory(followLinks, i) :: i in fs.dirs)
    && (forall i, name, followLinks, j | fs.child(i, name).IsDirectory(followLinks, j) :: j in fs.dirs)
    && (forall i, e | i in fs.dirs && e in fs.dirs[i] :: ValidName(e.d_name))
    && (forall path, followLinks, i, e |
          path != [] && fs.at(path).IsDirectory(followLinks, i) && i in fs.dirs && e in fs.dirs[i] ::
          fs.at(Join(path, e.d_name)) == fs.child(i, e.d_name))
  }

  /** In a hierarchy without symbolic links to directories, ".." leads back to the directory that
      lists the entry. */
  ghost predicate DotDotLeadsBack(fs: Fs) {
    forall i, e, j |
      i in fs.dirs && e in fs.dirs[i] && !IsDot(e.d_name) && fs.child(i, e.d_name).IsDirectory(false, j) ::
      fs.child(j, "..").IsDirectory(false, i)
  }

  lemma JoinSize(path: string, name: string)
    requires path != []
    ensures |Join(path, name)| == AppendAt(path) + 1 + |name|
    ensures NUL !in path && NUL !in name ==> NUL !in Join(path, name)
    ensures ValidName(name) ==> |Join(path, name)| > |path| && Join(path, name)[|Join(path, name)| - 1] != '/'
  {
    var t := Join(path, name);
    if ValidName(name) {
      assert t[|t| - 1] == name[|name| - 1];
    }
  }

  /** A slash between the two, unless the path ends in one. */
  lemma JoinIs(path: string, name: string)
    requires path != []
    ensures Join(path, name) == (if path[|path| - 1] == '/' then path else path + "/") + name
  {
  }

  lemma AppendAtBounds(path: string)
    requires path != []
    ensures AppendAt(path) <= |path| <= AppendAt(path) + 1
  {}

  /** The directory "d" with one entry, the file "f". */
  function OneFile(): Fs {
    var none := Err(ENOENT);
    var (d, f) := (Ok(Directory, Inode(0, 1)), Ok(RegularFile, Inode(0, 2)));
    Fs(path => if path == "d" || path == "d/" then Node(d, d)
               else if path == "d/f" then Node(f, f) else Node(none, none),
       (i, name) => if i == Inode(0, 1) && name == "f" then Node(f, f) else Node(none, none),
       map[Inode(0, 1) := [DirEnt("f", DT_OTHER)]],
       map[])
  }

  lemma OneFileStatic()
    ensures Static(OneFile())
  {
    assert Join("d", "f") == "d/f" && Join("d/", "f") == "d/f";
  }
}
