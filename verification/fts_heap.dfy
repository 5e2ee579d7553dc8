/** The heap of FTSENTs behind a traversal, and how it represents the rest of a walk.

    Entries live in an explicit heap keyed by address, so that free(3) takes an entry away: whatever
    dereferences an address has to show that the entry is still there. */
module FtsHeap {
  import opened CStrings
  import opened FileTree
  import opened FtsWalk

  type Ptr = nat
  const NULL: Ptr := 0

  datatype Instr = FTS_NOINSTR | FTS_SKIP

  /** fts_dirp: no stream, or a descriptor with what readdir(3) has not returned yet. */
  datatype Dirp = NoStream | Stream(fd: int, unread: seq<DirEnt>)

  /** FTSENT.  fts_accpath is either the shared path buffer or the entry's own name;
      `statRequired` is the use fts_read makes of st_size while fts_info is FTS_NSOK. */
  datatype FTSENT = FTSENT(
    fts_cycle: Ptr,
    fts_parent: Ptr,
    fts_link: Ptr,
    fts_dirp: Dirp,
    accInPath: bool,
    fts_errno: int,
    fts_pathlen: nat,
    fts_level: int,
    fts_info: Info,
    fts_instr: Instr,
    fts_statp: Inode,
    statRequired: bool,
    fts_name: string)

  type Mem = map<Ptr, FTSENT>

  /** Which entries are live and in what role: from the level of the current entry outwards, the
      siblings still to visit and the directory (or the roots' parent) they belong to. */
  datatype Levels =
    | Roots(parent: Ptr, sibs: seq<Ptr>)
    | Below(dir: Ptr, text: string, sibs: seq<Ptr>, outer: Levels)
  {
    function Top(): Ptr { if Roots? then parent else dir }

    function Level(): nat { if Roots? then 0 else outer.Level() + 1 }

    ghost function Ptrs(): set<Ptr> {
      (set s | s in sibs) + {Top()} + (if Roots? then {} else outer.Ptrs())
    }
  }

  const Blank := FTSENT(NULL, NULL, NULL, NoStream, false, 0, 0, 0, FTS_INIT, FTS_NOINSTR, Inode(0, 0), false, "")

  function At(mem: Mem, p: Ptr): FTSENT { if p in mem then mem[p] else Blank }

  // ---------------------------------------------------------------- representation

  function HeadOf(sibs: seq<Ptr>): Ptr { if sibs == [] then NULL else sibs[0] }

  /** The entries `sibs` are chained by fts_link, in this order. */
  ghost predicate Chained(mem: Mem, sibs: seq<Ptr>) {
    sibs != [] ==> At(mem, sibs[0]).fts_link == HeadOf(sibs[1..]) && Chained(mem, sibs[1..])
  }

  ghost predicate NoDup(s: seq<Ptr>) { forall i, j | 0 <= i < j < |s| :: s[i] != s[j] }

  ghost predicate Listed(c: Config, i: Inode, name: string) {
    i in c.fs.dirs && exists e :: e in c.fs.dirs[i] && e.d_name == name
  }

  /** An entry of the innermost level. */
  ghost predicate Placed(e: FTSENT, ls: Levels) {
    e.fts_parent == ls.Top() && e.fts_level == ls.Level()
  }

  /** A command-line argument not yet visited: fts_open has stat'ed at most the first one. */
  ghost predicate RootPending(c: Config, e: FTSENT, cap: nat) {
    && NUL !in e.fts_name && |e.fts_name| + 1 <= cap && e.fts_instr == FTS_NOINSTR
    && (if e.fts_info == FTS_NSOK then e.statRequired && e.fts_errno == 0
        else (e.fts_info, e.fts_statp, e.fts_errno) == Classify(c, c.fs.at(e.fts_name), e.fts_name, 0))
  }

  /** An entry fts_build has made for directory i, not yet visited. */
  ghost predicate KidPending(c: Config, e: FTSENT, i: Inode, text: string, cap: nat) {
    && text != [] && Listed(c, i, e.fts_name) && ValidName(e.fts_name)
    && e.fts_pathlen == |Join(text, e.fts_name)| && e.fts_pathlen + 1 <= cap
    && e.accInPath == c.nochdir && e.fts_info == FTS_NSOK && e.fts_errno == 0 && e.fts_statp == Inode(0, 0)
  }

  ghost predicate Pending(c: Config, mem: Mem, cap: nat, s: Ptr, ls: Levels) {
    && s in mem && s != NULL && mem[s].fts_dirp == NoStream && Placed(mem[s], ls)
    && (if ls.Roots? then RootPending(c, mem[s], cap)
        else KidPending(c, mem[s], At(mem, ls.dir).fts_statp, ls.text, cap))
  }

  /** A directory that has been entered and not left. */
  ghost predicate Entered(c: Config, mem: Mem, cap: nat, d: Ptr, text: string, outer: Levels) {
    && d in mem && d != NULL && Placed(mem[d], outer)
    && mem[d].fts_info == FTS_D && mem[d].fts_errno == 0
    && NamedDir(c, mem[d].fts_statp, text, outer.Level()) && |text| == mem[d].fts_pathlen && |text| + 1 <= cap
    && mem[d].fts_statp !in Active(mem, outer)
    && mem[d].fts_statp !in c.fs.unreadable
    && (mem[d].fts_dirp.Stream? ==> forall e | e in mem[d].fts_dirp.unread :: e in c.fs.dirs[mem[d].fts_statp])
    && (outer.Below? ==> NamedBelow(c, mem[d].fts_name, text, At(mem, outer.dir).fts_statp, outer.text))
  }

  /** `text` names directory i. */
  ghost predicate NamedDir(c: Config, i: Inode, text: string, level: int) {
    text != [] && NUL !in text && i in c.fs.dirs && c.fs.at(text).IsDirectory(c.Follow(level), i)
  }

  /** `text` is the file name of the entry `name` of directory i. */
  ghost predicate NamedBelow(c: Config, name: string, text: string, i: Inode, outerText: string) {
    ValidName(name) && !IsDot(name) && outerText != [] && text == Join(outerText, name) && Listed(c, i, name)
  }

  /** The inodes of the directories entered and not left. */
  ghost function Active(mem: Mem, ls: Levels): set<Inode> {
    if ls.Roots? then {} else Active(mem, ls.outer) + {At(mem, ls.dir).fts_statp}
  }

  /** What the table of active directories has to hold. */
  ghost function Table(mem: Mem, ls: Levels): (table: map<Inode, Ptr>)
    ensures table.Keys == Active(mem, ls)
  {
    if ls.Roots? then map[] else Table(mem, ls.outer)[At(mem, ls.dir).fts_statp := ls.dir]
  }

  /** The entries of `ls`, each level chained by fts_link and hanging off its directory, and each
      directory chained to its own siblings. */
  ghost predicate Rep(c: Config, mem: Mem, cap: nat, ls: Levels) {
    && Chained(mem, ls.sibs) && NoDup(ls.sibs) && ls.Top() !in ls.sibs
    && (forall s | s in ls.sibs :: Pending(c, mem, cap, s, ls))
    && (match ls
        case Roots(parent, _) =>
          parent in mem && parent != NULL && mem[parent].fts_level == -1 && mem[parent].fts_dirp == NoStream
        case Below(dir, text, sibs, outer) =>
          && Entered(c, mem, cap, dir, text, outer)
          && At(mem, dir).fts_link == HeadOf(outer.sibs)
          && dir !in outer.Ptrs() && (forall s | s in sibs :: s !in outer.Ptrs())
          && Rep(c, mem, cap, outer))
  }

  /** The live entries are those of `ls` and the extra ones, and nothing else. */
  ghost predicate Heap(c: Config, mem: Mem, cap: nat, extra: set<Ptr>, ls: Levels) {
    Rep(c, mem, cap, ls) && mem.Keys == extra + ls.Ptrs() && extra !! ls.Ptrs() && NULL !in extra
  }

  /** The directories entered and not left, innermost first. */
  ghost function Dirs(mem: Mem, ls: Levels): seq<Inode> {
    if ls.Roots? then [] else [At(mem, ls.dir).fts_statp] + Dirs(mem, ls.outer)
  }

  ghost function StreamFd(d: Dirp): set<int> { if d.Stream? then {d.fd} else {} }

  /** The descriptors of the directory streams kept open between batches. */
  ghost function Streams(mem: Mem, ls: Levels): set<int> {
    if ls.Roots? then {} else StreamFd(At(mem, ls.dir).fts_dirp) + Streams(mem, ls.outer)
  }

  ghost predicate StreamsApart(mem: Mem, ls: Levels) {
    ls.Below? ==> StreamFd(At(mem, ls.dir).fts_dirp) !! Streams(mem, ls.outer) && StreamsApart(mem, ls.outer)
  }

  /** Every entered directory's file name is intact in the path buffer. */
  ghost predicate PathPrefixes(buffer: seq<char>, ls: Levels) {
    ls.Below? ==> ls.text <= buffer && |ls.text| < |buffer| && PathPrefixes(buffer, ls.outer)
  }

  // ---------------------------------------------------------------- the rest of the walk

  ghost function PendingKids(mem: Mem, sibs: seq<Ptr>): seq<Kid> {
    if sibs == [] then []
    else
      var e := At(mem, sibs[0]);
      (if e.fts_instr == FTS_SKIP then [] else [Kid(e.fts_name, e.statRequired)]) + PendingKids(mem, sibs[1..])
  }

  ghost function PendingRoots(mem: Mem, sibs: seq<Ptr>): seq<string> {
    if sibs == [] then [] else [At(mem, sibs[0]).fts_name] + PendingRoots(mem, sibs[1..])
  }

  ghost function Unread(c: Config, d: Dirp): seq<Kid> {
    if d.Stream? then Kids(c, d.unread) else []
  }

  /** The returns still to come once the current entry and everything below it is done. */
  ghost function Rest(c: Config, sk: int -> bool, mem: Mem, dev: int, ls: Levels, k: int): seq<Event>
    requires c.batch >= 1
    decreases ls
  {
    match ls
    case Roots(_, sibs) => WalkRoots(c, sk, PendingRoots(mem, sibs), k)
    case Below(dir, text, sibs, outer) =>
      if text == [] then []
      else RestBelow(c, sk, mem, dev, ls, PendingKids(mem, sibs) + Unread(c, At(mem, dir).fts_dirp), k)
  }

  /** The same with the innermost level's kids given: they are walked, their directory is returned
      in post-order, and the outer levels follow. */
  ghost function RestBelow(c: Config, sk: int -> bool, mem: Mem, dev: int, ls: Levels, kids: seq<Kid>,
                           k: int): seq<Event>
    requires c.batch >= 1 && ls.Below? && ls.text != []
    decreases ls, 0
  {
    var d := At(mem, ls.dir);
    var w := WalkKids(c, sk, Active(mem, ls), dev, ls.Level(), ls.text, d.fts_statp, kids, k);
    w + [Event(FTS_DP, ls.outer.Level(), ShownPost(c, d.fts_dirp, ls.text), d.fts_statp)]
    + Rest(c, sk, mem, dev, ls.outer, k + |w| + 1)
  }

  /** The file name that will be shown with a directory's post-order return. */
  ghost function ShownPost(c: Config, d: Dirp, text: string): string
    requires c.batch >= 1
  {
    if d.Stream? then PostText(c, text, |Unread(c, d)|) else text
  }

  // ---------------------------------------------------------------- frame

  ghost predicate Agree(mem: Mem, mem': Mem, ptrs: set<Ptr>) {
    forall q | q in ptrs && q in mem :: q in mem' && mem'[q] == mem[q]
  }

  lemma {:induction false} ChainedFrame(mem: Mem, mem': Mem, sibs: seq<Ptr>)
    requires Chained(mem, sibs)
    requires forall s | s in sibs :: s in mem && s in mem' && mem'[s] == mem[s]
    ensures Chained(mem', sibs)
    decreases |sibs|
  {
    if sibs == [] {
    } else {
      assert sibs[0] in sibs;
      ChainedFrame(mem, mem', sibs[1..]);
    }
  }

  lemma {:induction false} PendingFrame(mem: Mem, mem': Mem, sibs: seq<Ptr>)
    requires forall s | s in sibs :: s in mem && s in mem' && mem'[s] == mem[s]
    ensures PendingKids(mem', sibs) == PendingKids(mem, sibs)
    ensures PendingRoots(mem', sibs) == PendingRoots(mem, sibs)
    decreases |sibs|
  {
    if sibs == [] {
    } else {
      assert sibs[0] in sibs;
      PendingFrame(mem, mem', sibs[1..]);
    }
  }

  lemma {:induction false} RepPtrs(c: Config, mem: Mem, cap: nat, ls: Levels)
    requires Rep(c, mem, cap, ls)
    ensures ls.Ptrs() <= mem.Keys && NULL !in ls.Ptrs()
    decreases ls
  {
    if ls.Roots? {
    } else {
      RepPtrs(c, mem, cap, ls.outer);
    }
  }

  /** Only the entries in `ls` matter. */
  lemma {:induction false} ViewFrame(mem: Mem, mem': Mem, ls: Levels)
    requires ls.Ptrs() <= mem.Keys && Agree(mem, mem', ls.Ptrs())
    ensures Active(mem', ls) == Active(mem, ls) && Table(mem', ls) == Table(mem, ls)
    ensures Dirs(mem', ls) == Dirs(mem, ls) && Streams(mem', ls) == Streams(mem, ls)
    ensures StreamsApart(mem', ls) == StreamsApart(mem, ls)
    decreases ls
  {
    if ls.Roots? {
    } else {
      assert ls.dir in ls.Ptrs();
      ViewFrame(mem, mem', ls.outer);
    }
  }

  /** ... and a larger path buffer does no harm. */
  lemma {:induction false} RepFrame(c: Config, mem: Mem, mem': Mem, cap: nat, cap': nat, ls: Levels)
    requires Rep(c, mem, cap, ls) && Agree(mem, mem', ls.Ptrs()) && cap <= cap'
    ensures Rep(c, mem', cap', ls)
    decreases ls
  {
    hide Classify, NamedBelow, NamedDir, Listed, Join;
    RepPtrs(c, mem, cap, ls);
    ChainedFrame(mem, mem', ls.sibs);
    assert ls.Top() in ls.Ptrs();
    if ls.Roots? {
    } else {
      assert ls.outer.Top() in ls.outer.Ptrs();
      ViewFrame(mem, mem', ls.outer);
      RepFrame(c, mem, mem', cap, cap', ls.outer);
    }
  }

  lemma {:induction false} RestFrame(c: Config, sk: int -> bool, mem: Mem, mem': Mem, dev: int, ls: Levels, k: int)
    requires c.batch >= 1
    requires ls.Ptrs() <= mem.Keys && Agree(mem, mem', ls.Ptrs())
    ensures Rest(c, sk, mem', dev, ls, k) == Rest(c, sk, mem, dev, ls, k)
    decreases ls
  {
    hide WalkKids, WalkRoots, ShownPost, Unread, PendingKids, PendingRoots;
    PendingFrame(mem, mem', ls.sibs);
    if ls.Roots? {
    } else {
      assert ls.dir in ls.Ptrs();
      ViewFrame(mem, mem', ls);
      if ls.text != [] {
        var kids := PendingKids(mem, ls.sibs) + Unread(c, At(mem, ls.dir).fts_dirp);
        var w := WalkKids(c, sk, Active(mem, ls), dev, ls.Level(), ls.text, At(mem, ls.dir).fts_statp, kids, k);
        RestFrame(c, sk, mem, mem', dev, ls.outer, k + |w| + 1);
      }
    }
  }

  /** Nothing that is not in `ls` matters: not the extra entries' contents. */
  lemma HeapFrame(c: Config, mem: Mem, mem': Mem, cap: nat, cap': nat, extra: set<Ptr>, extra': set<Ptr>, ls: Levels)
    requires Heap(c, mem, cap, extra, ls) && cap <= cap'
    requires Agree(mem, mem', ls.Ptrs()) && mem'.Keys == extra' + ls.Ptrs() && extra' !! ls.Ptrs() && NULL !in extra'
    ensures Heap(c, mem', cap', extra', ls) && ls.Ptrs() <= mem.Keys && ls.Top() in mem
    ensures At(mem', ls.Top()) == At(mem, ls.Top())
    ensures Active(mem', ls) == Active(mem, ls) && Table(mem', ls) == Table(mem, ls)
    ensures Dirs(mem', ls) == Dirs(mem, ls) && Streams(mem', ls) == Streams(mem, ls)
    ensures StreamsApart(mem', ls) == StreamsApart(mem, ls)
  {
    hide Rep;
    RepFrame(c, mem, mem', cap, cap', ls);
    ViewFrame(mem, mem', ls);
    assert ls.Top() in ls.Ptrs();
  }

  lemma NoNull(c: Config, mem: Mem, cap: nat, extra: set<Ptr>, ls: Levels)
    requires Heap(c, mem, cap, extra, ls)
    ensures NULL !in mem && ls.Ptrs() <= mem.Keys && Rep(c, mem, cap, ls)
  {
    RepPtrs(c, mem, cap, ls);
  }

  lemma RestFrameAll(c: Config, mem: Mem, mem': Mem, dev: int, ls: Levels)
    requires c.batch >= 1
    requires ls.Ptrs() <= mem.Keys && Agree(mem, mem', ls.Ptrs())
    ensures forall sk, k :: Rest(c, sk, mem', dev, ls, k) == Rest(c, sk, mem, dev, ls, k)
  {
    hide Rest;
    forall sk, k ensures Rest(c, sk, mem', dev, ls, k) == Rest(c, sk, mem, dev, ls, k) {
      RestFrame(c, sk, mem, mem', dev, ls, k);
    }
  }

  // ---------------------------------------------------------------- what the representation means

  /** q is p or is reached from it by fts_parent, no further than the command-line arguments. */
  ghost predicate Above(mem: Mem, p: Ptr, q: Ptr)
    decreases At(mem, p).fts_level
  {
    || p == q
    || (At(mem, p).fts_level > 0 && At(mem, At(mem, p).fts_parent).fts_level < At(mem, p).fts_level
        && Above(mem, At(mem, p).fts_parent, q))
  }

  /** The table holds exactly the directories above an entry, each under its own inode. */
  lemma {:induction false} TableIsAbove(c: Config, mem: Mem, cap: nat, p: Ptr, ls: Levels)
    requires Rep(c, mem, cap, ls) && p in mem && Placed(mem[p], ls)
    ensures forall i | i in Table(mem, ls) ::
              var q := Table(mem, ls)[i];
              q in mem && mem[q].fts_info == FTS_D && mem[q].fts_statp == i && q != p && Above(mem, p, q)
    ensures forall q | Above(mem, p, q) && q != p ::
              q in mem && mem[q].fts_statp in Table(mem, ls) && Table(mem, ls)[mem[q].fts_statp] == q
    decreases ls
  {
    hide Chained, Pending, NamedDir, NamedBelow;
    if ls.Roots? {
    } else {
      TableIsAbove(c, mem, cap, ls.dir, ls.outer);
      assert mem[ls.dir].fts_level < mem[p].fts_level && mem[p].fts_level > 0;
      forall i | i in Table(mem, ls)
        ensures var q := Table(mem, ls)[i];
                q in mem && mem[q].fts_info == FTS_D && mem[q].fts_statp == i && q != p && Above(mem, p, q)
      {
        var q := Table(mem, ls)[i];
        if i != mem[ls.dir].fts_statp {
          assert i in Table(mem, ls.outer) && Above(mem, ls.dir, q);
          AboveLevel(mem, ls.dir, q);
        }
      }
    }
  }

  lemma {:induction false} AboveLevel(mem: Mem, p: Ptr, q: Ptr)
    requires Above(mem, p, q)
    ensures At(mem, q).fts_level <= At(mem, p).fts_level
    decreases At(mem, p).fts_level
  {
    if p == q {
    } else {
      AboveLevel(mem, At(mem, p).fts_parent, q);
    }
  }

  /** q is a directory above p, and its stream, open on fd, has not been read to its end. */
  ghost predicate OpenAbove(mem: Mem, p: Ptr, q: Ptr, fd: int) {
    q != p && Above(mem, p, q) && q in mem && mem[q].fts_dirp.Stream? && mem[q].fts_dirp.fd == fd
  }

  /** The directory streams left open are those of directories above the current entry. */
  lemma {:induction false} StreamsAreAbove(c: Config, mem: Mem, cap: nat, p: Ptr, ls: Levels, fd: int)
    requires Rep(c, mem, cap, ls) && p in mem && Placed(mem[p], ls)
    ensures fd in Streams(mem, ls) <==> exists q :: OpenAbove(mem, p, q, fd)
    decreases ls
  {
    hide Chained, Pending, NamedDir, NamedBelow;
    if ls.Roots? {
    } else {
      var d := ls.dir;
      StreamsAreAbove(c, mem, cap, d, ls.outer, fd);
      assert mem[d].fts_level < mem[p].fts_level && mem[p].fts_level > 0 && mem[p].fts_parent == d;
      if q :| OpenAbove(mem, d, q, fd) {
        AboveLevel(mem, d, q);
        assert OpenAbove(mem, p, q, fd);
      }
      if fd in StreamFd(mem[d].fts_dirp) { assert Above(mem, d, d) && OpenAbove(mem, p, d, fd); }
      if q :| OpenAbove(mem, p, q, fd) && q != d {
        assert OpenAbove(mem, d, q, fd);
      }
    }
  }

  /** The entries behind the current one, in the order fts_close takes. */
  ghost function Chain(ls: Levels): seq<Ptr> {
    ls.sibs + [ls.Top()] + (if ls.Roots? then [] else Chain(ls.outer))
  }

  /** Each entry of the chain is followed by its fts_link or, at the end of a level, its fts_parent. */
  ghost predicate Follows(mem: Mem, p: Ptr, chain: seq<Ptr>)
    decreases |chain|
  {
    if chain == [] then At(mem, p).fts_level == -1
    else
      && At(mem, p).fts_level >= 0
      && chain[0] == (if At(mem, p).fts_link != NULL then At(mem, p).fts_link else At(mem, p).fts_parent)
      && Follows(mem, chain[0], chain[1..])
  }

  lemma {:induction false} ChainFollows(c: Config, mem: Mem, cap: nat, p: Ptr, ls: Levels)
    requires Rep(c, mem, cap, ls) && p in mem && mem[p].fts_link == HeadOf(ls.sibs) && mem[p].fts_level >= 0
    requires ls.sibs == [] ==> mem[p].fts_parent == ls.Top()
    ensures Follows(mem, p, Chain(ls))
    decreases |Chain(ls)|
  {
    hide Entered, RootPending, KidPending;
    if ls.sibs != [] {
      var s, ls' := ls.sibs[0], ls.(sibs := ls.sibs[1..]);
      assert s in ls.sibs && Pending(c, mem, cap, s, ls);
      assert Chain(ls) == [s] + Chain(ls');
      RepTail(c, mem, cap, ls);
      ChainFollows(c, mem, cap, s, ls');
    } else if ls.Below? {
      assert Chain(ls) == [ls.dir] + Chain(ls.outer);
      EnteredPlaced(c, mem, cap, ls.dir, ls.text, ls.outer);
      ChainFollows(c, mem, cap, ls.dir, ls.outer);
    } else {
      assert Chain(ls) == [ls.parent];
    }
  }

  lemma EnteredPlaced(c: Config, mem: Mem, cap: nat, d: Ptr, text: string, outer: Levels)
    requires Entered(c, mem, cap, d, text, outer)
    ensures d in mem && Placed(mem[d], outer)
  {}

  lemma RepTail(c: Config, mem: Mem, cap: nat, ls: Levels)
    requires Rep(c, mem, cap, ls) && ls.sibs != []
    ensures Rep(c, mem, cap, ls.(sibs := ls.sibs[1..]))
  {
    hide Entered, RootPending, KidPending;
    var ls' := ls.(sibs := ls.sibs[1..]);
    forall q | q in ls'.sibs ensures Pending(c, mem, cap, q, ls') {
      assert Pending(c, mem, cap, q, ls);
    }
  }

  /** No entry is on the chain twice. */
  lemma {:induction false} ChainDistinct(c: Config, mem: Mem, cap: nat, ls: Levels)
    requires Rep(c, mem, cap, ls)
    ensures NoDup(Chain(ls)) && (forall q :: q in Chain(ls) <==> q in ls.Ptrs())
    decreases ls
  {
    hide Entered, Pending, Chained, NoDup;
    if ls.Below? {
      ChainDistinct(c, mem, cap, ls.outer);
      NoDupJoin(ls.sibs, ls.dir, Chain(ls.outer));
    } else {
      NoDupJoin(ls.sibs, ls.parent, []);
    }
  }

  lemma NoDupJoin(s: seq<Ptr>, p: Ptr, t: seq<Ptr>)
    requires NoDup(s) && p !in s && (t == [] || NoDup(t)) && p !in t && forall q | q in s :: q !in t
    ensures NoDup(s + [p] + t)
  {
    var all := s + [p] + t;
    forall i, j | 0 <= i < j < |all| ensures all[i] != all[j] {
      if i < |s| { assert all[i] in s; }
      if j > |s| { assert all[j] in t; }
    }
  }

  lemma NoDupNone()
    ensures NoDup([])
  {}
}
