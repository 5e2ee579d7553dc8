/** What an FTS traversal is meant to return: the recursive walk of the hierarchy, written without
    entries, buffers, batches or descriptors.  The client's FTS_SKIP instructions are an oracle over
    the positions of the returned sequence. */
module FtsWalk {
  import opened CStrings
  import opened FileTree

  /** fts_info values (FTSENT.h). */
  datatype Info = FTS_D | FTS_DC | FTS_DEFAULT | FTS_DNR | FTS_DOT | FTS_DP | FTS_ERR | FTS_F
                | FTS_INIT | FTS_NS | FTS_NSOK | FTS_SL | FTS_SLNONE

  /** What a traversal is set up with: the hierarchy, the option bits that remain after fts_open has
      adjusted them, and FTS_MAX_READDIR_ENTRIES. */
  datatype Config = Config(
    fs: Fs,
    logical: bool,
    comfollow: bool,
    nochdir: bool,
    cwdfd: bool,
    nostat: bool,
    seedot: bool,
    xdev: bool,
    tight: bool,
    batch: nat)
  {
    /** Does fts_stat follow a symbolic link at this level? */
    function Follow(level: int): bool { logical || (comfollow && level == 0) }

    /** The walks modelled: the exact cycle check, and either no working directory at all or the
        virtual one of FTS_CWDFD. */
    predicate Supported() {
      && (logical || tight)
      && (logical ==> nochdir)
      && nochdir != cwdfd
      && batch >= 1
    }
  }

  /** The option bits of fts_open; `others` stands for any bit outside FTS_OPTIONMASK. */
  datatype Options = Options(
    comfollow: bool, logical: bool, nochdir: bool, nostat: bool, physical: bool, seedot: bool,
    xdev: bool, tight: bool, cwdfd: bool, verbatim: bool, others: bool)
  {
    /** fts_open fails with EINVAL. */
    predicate Refused() { others || (nochdir && cwdfd) || !(logical || physical) }

    /** Logical walks turn on FTS_NOCHDIR and turn off FTS_CWDFD. */
    function Settle(fs: Fs, batch: nat): Config {
      Config(fs, logical, comfollow, nochdir || logical, cwdfd && !logical, nostat, seedot, xdev, tight, batch)
    }

    /** The traversals modelled here. */
    ghost predicate Modelled(fs: Fs, batch: nat) {
      && !(logical && physical) && Settle(fs, batch).Supported()
      && Static(fs) && (Settle(fs, batch).cwdfd ==> DotDotLeadsBack(fs))
    }
  }

  /** One return of fts_read as the client sees it; `text` is the file name in the path buffer. */
  datatype Event = Event(info: Info, level: int, text: string, st: Inode)

  /** An entry of a directory that fts_read will visit, and whether it has to be stat'ed. */
  datatype Kid = Kid(name: string, statRequired: bool)

  /** The classification fts_stat makes: fts_info, fts_statp (cleared on failure) and fts_errno. */
  function Classify(c: Config, node: Node, name: string, level: int): (r: (Info, Inode, int))
    ensures r.0 != FTS_NS ==> r.2 == 0
    ensures r.0 == FTS_D ==> node.IsDirectory(c.Follow(level), r.1)
    ensures r.0 !in {FTS_DC, FTS_DNR, FTS_DP, FTS_ERR, FTS_INIT, FTS_NSOK}
  {
    match node.Stat(c.Follow(level))
    case Err(e) =>
      if c.Follow(level) && e == ENOENT && node.nofollow.Ok? then (FTS_SLNONE, node.nofollow.inode, 0)
      else (FTS_NS, Inode(0, 0), e)
    case Ok(kind, i) =>
      (match kind
       case Directory => if IsDot(name) && level != 0 then FTS_DOT else FTS_D
       case SymbolicLink => FTS_SL
       case RegularFile => FTS_F
       case OtherFile => FTS_DEFAULT, i, 0)
  }

  /** The entry readdir returned, as fts_build records it: FTS_NOSTAT spares the stat of an entry
      whose type is known not to be a directory. */
  function KidOf(c: Config, e: DirEnt): Kid {
    var skipStat := c.nostat && e.d_type != DT_UNKNOWN && e.d_type != DT_DIR && (!c.logical || e.d_type != DT_LNK);
    Kid(e.d_name, !skipStat)
  }

  /** The entries of a directory stream that fts_build keeps. */
  function Kids(c: Config, entries: seq<DirEnt>): (kids: seq<Kid>)
    ensures |kids| <= |entries|
  {
    if entries == [] then []
    else (if !c.seedot && IsDot(entries[0].d_name) then [] else [KidOf(c, entries[0])]) + Kids(c, entries[1..])
  }

  /** fts_info and fts_statp of an entry of directory i when it is visited.  An entry that is not
      stat'ed keeps a cleared fts_statp here. */
  function KidStat(c: Config, i: Inode, kid: Kid, level: int): (Info, Inode) {
    if kid.statRequired then
      var (info, st, _) := Classify(c, c.fs.child(i, kid.name), kid.name, level);
      (info, st)
    else (FTS_NSOK, Inode(0, 0))
  }

  /** fts_info and fts_statp of a command-line argument. */
  function RootStat(c: Config, text: string): (Info, Inode) {
    var (info, st, _) := Classify(c, c.fs.at(text), text, 0);
    (info, st)
  }

  /** The file name shown with the post-order return of a directory whose stream held n entries.
      With FTS_NOCHDIR, fts_build overwrites a trailing slash when its last batch is empty. */
  function PostText(c: Config, text: string, n: nat): string
    requires c.batch >= 1
  {
    if c.nochdir && text != [] && text[|text| - 1] == '/' && n % c.batch == 0 then text[..|text| - 1] else text
  }

  /** The directories not yet active: what bounds the depth of a walk. */
  ghost function Budget(c: Config, active: set<Inode>): nat { |c.fs.dirs.Keys - active| }

  lemma BudgetShrinks(c: Config, active: set<Inode>, i: Inode)
    requires i in c.fs.dirs && i !in active
    ensures Budget(c, active + {i}) < Budget(c, active)
  {
    assert c.fs.dirs.Keys - (active + {i}) == (c.fs.dirs.Keys - active) - {i};
  }

  /** Everything returned for one entry.  k is the position of its first return; sk(k) tells whether
      the client answers the return at position k with FTS_SKIP. */
  ghost function Visit(c: Config, sk: int -> bool, active: set<Inode>, dev: int,
                       level: int, text: string, info: Info, st: Inode, k: int): (events: seq<Event>)
    requires c.batch >= 1
    ensures |events| >= 1
    decreases Budget(c, active), 0, 1
  {
    [Event(if info == FTS_D && st in active then FTS_DC else info, level, text, st)]
    + AfterFirst(c, sk, active, dev, level, text, info, st, k)
  }

  /** The returns for an entry after its first one. */
  ghost function AfterFirst(c: Config, sk: int -> bool, active: set<Inode>, dev: int,
                            level: int, text: string, info: Info, st: Inode, k: int): seq<Event>
    requires c.batch >= 1
    decreases Budget(c, active), 0, 0
  {
    if info != FTS_D || st in active || st !in c.fs.dirs || text == [] then []
    else if sk(k) || (c.xdev && st.dev != dev) then [Event(FTS_DP, level, text, st)]
    else if st in c.fs.unreadable then [Event(FTS_DNR, level, text, st)]
    else
      var kids := Kids(c, c.fs.dirs[st]);
      BudgetShrinks(c, active, st);
      WalkKids(c, sk, active + {st}, dev, level + 1, text, st, kids, k + 1)
      + [Event(FTS_DP, level, PostText(c, text, |kids|), st)]
  }

  /** The walk of some entries of directory i, whose file name is `text`. */
  ghost function WalkKids(c: Config, sk: int -> bool, active: set<Inode>, dev: int,
                          level: int, text: string, i: Inode, kids: seq<Kid>, k: int): seq<Event>
    requires c.batch >= 1 && text != []
    decreases Budget(c, active), |kids|, 0
  {
    if kids == [] then []
    else
      var (info, st) := KidStat(c, i, kids[0], level);
      var first := Visit(c, sk, active, dev, level, Join(text, kids[0].name), info, st, k);
      first + WalkKids(c, sk, active, dev, level, text, i, kids[1..], k + |first|)
  }

  /** The walk of the command-line arguments; each starts with nothing active, on its own device. */
  ghost function WalkRoots(c: Config, sk: int -> bool, roots: seq<string>, k: int): seq<Event>
    requires c.batch >= 1
  {
    if roots == [] then []
    else
      var (info, st) := RootStat(c, roots[0]);
      var first := Visit(c, sk, {}, st.dev, 0, roots[0], info, st, k);
      first + WalkRoots(c, sk, roots[1..], k + |first|)
  }
}
