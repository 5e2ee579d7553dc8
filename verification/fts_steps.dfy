/** The steps of fts_read on the heap of entries, and what each does to the rest of the walk. */
module FtsSteps {
  import opened CStrings
  import opened FileTree
  import opened FtsWalk
  import opened FtsHeap
  import opened FtsCwd
  import R = DescriptorRing

  /** The path buffer holds this file name. */
  ghost predicate Shown(buffer: seq<char>, text: string) {
    NUL !in text && text + [NUL] <= buffer
  }

  /** An entry not returned yet, whose file name `text` is in the path buffer.  i is the directory
      it was read from. */
  ghost predicate FirstTime(c: Config, e: FTSENT, i: Inode, text: string, cap: nat, ls: Levels) {
    && Placed(e, ls) && |text| == e.fts_pathlen && |text| + 1 <= cap
    && e.accInPath == (ls.Roots? || c.nochdir)
    && (if ls.Roots? then
          if e.fts_info == FTS_NSOK then e.statRequired && e.fts_errno == 0
          else (e.fts_info, e.fts_statp, e.fts_errno) == Classify(c, c.fs.at(text), text, 0)
        else
          && e.fts_info == FTS_NSOK && e.fts_errno == 0 && e.fts_statp == Inode(0, 0)
          && ls.text != [] && text == Join(ls.text, e.fts_name) && ValidName(e.fts_name) && Listed(c, i, e.fts_name))
  }

  /** A directory returned in pre-order. */
  ghost predicate InPreOrder(c: Config, e: FTSENT, i: Inode, text: string, ls: Levels) {
    && e.fts_errno == 0 && NamedDir(c, e.fts_statp, text, ls.Level()) && |text| == e.fts_pathlen
    && e.accInPath == (ls.Roots? || c.nochdir)
    && (ls.Below? ==> NamedBelow(c, e.fts_name, text, i, ls.text))
  }

  /** What stat'ing the entry will find, if it is to be stat'ed. */
  ghost function StatOf(c: Config, e: FTSENT, i: Inode, text: string, ls: Levels): (r: (Info, Inode))
    ensures r.0 != FTS_INIT && r.0 != FTS_DC
  {
    if ls.Roots? then RootStat(c, text) else KidStat(c, i, Kid(e.fts_name, e.statRequired), ls.Level())
  }

  /** The returns for entry p from its first one on, and the rest of the walk. */
  ghost function FirstVisit(c: Config, sk: int -> bool, mem: Mem, dev: int, p: Ptr, ls: Levels, text: string,
                            k: int): seq<Event>
    requires c.batch >= 1
  {
    var (info, st) := StatOf(c, At(mem, p), At(mem, ls.Top()).fts_statp, text, ls);
    var v := Visit(c, sk, Active(mem, ls), if ls.Roots? then st.dev else dev, ls.Level(), text, info, st, k);
    v + Rest(c, sk, mem, dev, ls, k + |v|)
  }

  /** The returns for entry p after its first one, at position j. */
  ghost function Own(c: Config, sk: int -> bool, mem: Mem, dev: int, p: Ptr, ls: Levels, text: string,
                     j: int): seq<Event>
    requires c.batch >= 1
  {
    var e := At(mem, p);
    if e.fts_info != FTS_D then []
    else AfterFirst(c, sk, Active(mem, ls), dev, ls.Level(), text, FTS_D, e.fts_statp, j)
  }

  // ---------------------------------------------------------------- check_for_dir

  /** The entry's access path, and where it comes from. */
  ghost predicate Reachable(c: Config, e: FTSENT, i: Inode, text: string, ls: Levels) {
    && e.accInPath == (ls.Roots? || c.nochdir)
    && (ls.Below? ==> ls.text != [] && text == Join(ls.text, e.fts_name) && Listed(c, i, e.fts_name))
  }

  /** The object an entry stands for: what its file name names, and what its directory lists. */
  ghost function NodeOf(c: Config, e: FTSENT, i: Inode, text: string, ls: Levels): Node {
    if ls.Roots? then c.fs.at(text) else c.fs.child(i, e.fts_name)
  }

  /** The access path of an entry leads to the object its directory lists, whether by the whole file
      name or by its last component relative to the virtual working directory. */
  lemma LookupFinds(c: Config, mem: Mem, cap: nat, fds: map<int, Inode>, cwd: int, ring: R.Ring,
                    e: FTSENT, text: string, accpath: string, ls: Levels)
    requires Static(c.fs) && c.Supported() && Rep(c, mem, cap, ls)
    requires Reachable(c, e, At(mem, ls.Top()).fts_statp, text, ls)
    requires Cwd(c, fds, cwd, ring, Dirs(mem, ls), Streams(mem, ls))
    requires accpath == if e.accInPath then text else e.fts_name
    ensures var node := NodeOf(c, e, At(mem, ls.Top()).fts_statp, text, ls);
            && (if cwd in fds then c.fs.child(fds[cwd], accpath) else c.fs.at(accpath)) == node == c.fs.at(text)
  {
    hide Join, PathPrefixes, Chained, Table, Active, Pending, StreamsApart;
    var i := At(mem, ls.Top()).fts_statp;
    if ls.Roots? {
      assert cwd == AT_FDCWD;
    } else {
      var named :| named in c.fs.dirs[i] && named.d_name == e.fts_name;
      assert c.fs.at(ls.text).IsDirectory(c.Follow(ls.outer.Level()), i);
      assert c.fs.at(Join(ls.text, named.d_name)) == c.fs.child(i, named.d_name);
      assert Dirs(mem, ls)[0] == i;
    }
  }

  /** fts_stat of that object gives what the walk expects of the entry. */
  lemma ClassifyFinds(c: Config, e: FTSENT, i: Inode, text: string, cap: nat, ls: Levels)
    requires Static(c.fs) && NUL !in text && FirstTime(c, e, i, text, cap, ls)
    requires NodeOf(c, e, i, text, ls) == c.fs.at(text)
    ensures var (info, st, errno) := Classify(c, NodeOf(c, e, i, text, ls), e.fts_name, e.fts_level);
            && (e.statRequired || ls.Roots? ==> (info, st) == StatOf(c, e, i, text, ls))
            && (info == FTS_D ==> InPreOrder(c, e.(fts_statp := st, fts_errno := 0), i, text, ls))
  {
    var f := c.Follow(ls.Level());
    var node := NodeOf(c, e, i, text, ls);
    assert text == "" ==> c.fs.at("").Stat(f).Err?;
    if node.Stat(f).Ok? && node.Stat(f).kind.Directory? {
      assert c.fs.at(text).IsDirectory(f, node.Stat(f).inode);
    }
  }

  /** What is returned for an entry from now on is its first return and what is its own after that. */
  lemma ArriveOwn(c: Config, sk: int -> bool, mem: Mem, mem': Mem, dev: int, dev': int,
                  p: Ptr, ls: Levels, text: string, info: Info, st: Inode, k: int)
    requires c.batch >= 1 && Active(mem', ls) == Active(mem, ls)
    requires At(mem', p).fts_info == (if info == FTS_D && st in Active(mem, ls) then FTS_DC else info)
    requires At(mem', p).fts_statp == st && dev' == (if info == FTS_D && ls.Roots? then st.dev else dev)
    ensures var e := At(mem', p);
            Visit(c, sk, Active(mem, ls), if ls.Roots? then st.dev else dev, ls.Level(), text, info, st, k)
            == [Event(e.fts_info, ls.Level(), text, e.fts_statp)] + Own(c, sk, mem', dev', p, ls, text, k)
  {
    hide AfterFirst, Active, Levels.Level;
    if info != FTS_D || st in Active(mem, ls) {
      AfterFirstNone(c, sk, Active(mem, ls), if ls.Roots? then st.dev else dev, ls.Level(), text, info, st, k);
    }
  }

  /** Returning an entry for the first time takes one event off the walk. */
  lemma Arrive(c: Config, sk: int -> bool, mem: Mem, mem': Mem, dev: int, dev': int,
               p: Ptr, ls: Levels, text: string, k: int)
    requires c.batch >= 1 && ls.Ptrs() <= mem.Keys && Agree(mem, mem', ls.Ptrs())
    requires var (info, st) := StatOf(c, At(mem, p), At(mem, ls.Top()).fts_statp, text, ls);
             && At(mem', p).fts_info == (if info == FTS_D && st in Active(mem, ls) then FTS_DC else info)
             && At(mem', p).fts_statp == st
             && dev' == (if info == FTS_D && ls.Roots? then st.dev else dev)
    ensures var e := At(mem', p);
            var own := Own(c, sk, mem', dev', p, ls, text, k);
            FirstVisit(c, sk, mem, dev, p, ls, text, k)
            == [Event(e.fts_info, ls.Level(), text, e.fts_statp)] + (own + Rest(c, sk, mem', dev', ls, k + 1 + |own|))
  {
    hide Visit, Own, StatOf, Rest, Levels.Ptrs, Active, Levels.Level;
    ViewFrame(mem, mem', ls);
    var (info, st) := StatOf(c, At(mem, p), At(mem, ls.Top()).fts_statp, text, ls);
    ArriveOwn(c, sk, mem, mem', dev, dev', p, ls, text, info, st, k);
    var own := Own(c, sk, mem', dev', p, ls, text, k);
    RestFrame(c, sk, mem, mem', dev, ls, k + 1 + |own|);
    RestDevice(c, sk, mem', dev, dev', ls, k + 1 + |own|);
    FirstOff(Event(At(mem', p).fts_info, ls.Level(), text, st), own, Rest(c, sk, mem', dev', ls, k + 1 + |own|));
  }

  lemma FirstOff(e: Event, own: seq<Event>, rest: seq<Event>)
    ensures ([e] + own) + rest == [e] + (own + rest) && |[e] + own| == 1 + |own|
  {
  }

  lemma AfterFirstNone(c: Config, sk: int -> bool, active: set<Inode>, dev: int, level: int, text: string, info: Info,
                       st: Inode, k: int)
    requires c.batch >= 1 && (info != FTS_D || st in active)
    ensures AfterFirst(c, sk, active, dev, level, text, info, st, k) == []
  {}

  /** The device only matters below a command-line argument. */
  lemma RestDevice(c: Config, sk: int -> bool, mem: Mem, dev: int, dev': int, ls: Levels, k: int)
    requires c.batch >= 1 && (ls.Roots? || dev == dev')
    ensures Rest(c, sk, mem, dev, ls, k) == Rest(c, sk, mem, dev', ls, k)
  {}

  /** An entry that is not stat'ed now is already what the walk expects. */
  lemma NotStated(c: Config, e: FTSENT, i: Inode, text: string, cap: nat, ls: Levels)
    requires Static(c.fs) && NUL !in text && FirstTime(c, e, i, text, cap, ls)
    requires !(e.fts_info == FTS_NSOK && e.statRequired)
    ensures (e.fts_info, e.fts_statp) == StatOf(c, e, i, text, ls)
    ensures e.fts_info == FTS_D ==> InPreOrder(c, e, i, text, ls)
  {
    if ls.Roots? {
      ClassifyFinds(c, e, i, text, cap, ls);
    }
  }

  lemma PlacedFirst(c: Config, e: FTSENT, i: Inode, text: string, cap: nat, ls: Levels)
    requires FirstTime(c, e, i, text, cap, ls)
    ensures Placed(e, ls) && e.fts_pathlen == |text|
  {}

  // ---------------------------------------------------------------- name

  /** Writing from position n on leaves the file names of directories no longer than n alone. */
  lemma {:induction false} PrefixesKept(c: Config, mem: Mem, cap: nat, buffer: seq<char>, buffer': seq<char>,
                                        ls: Levels, n: nat)
    requires Rep(c, mem, cap, ls) && PathPrefixes(buffer, ls)
    requires n <= |buffer| <= |buffer'| && buffer'[..n] == buffer[..n]
    requires ls.Below? ==> |ls.text| <= n
    ensures PathPrefixes(buffer', ls)
    decreases ls
  {
    hide Chained, Pending, Active, Listed, NamedDir, Join;
    if ls.Roots? {
    } else {
      assert ls.text <= buffer[..n];
      if ls.outer.Below? { JoinSize(ls.outer.text, mem[ls.dir].fts_name); }
      PrefixesKept(c, mem, cap, buffer, buffer', ls.outer, n);
    }
  }

  /** The name of a kid goes behind its directory's file name, which stays what it is. */
  lemma PutName(c: Config, mem: Mem, cap: nat, buffer: seq<char>, ls: Levels, name: string)
    requires Rep(c, mem, cap, ls) && PathPrefixes(buffer, ls) && ls.Below? && ls.text != []
    requires NUL !in name && |Join(ls.text, name)| + 1 <= |buffer|
    ensures var t := AppendAt(ls.text);
            && t + 2 + |name| <= |buffer|
            && var buffer' := buffer[..t] + ("/" + name + [NUL]) + buffer[t + 2 + |name|..];
            |buffer'| == |buffer| && PathPrefixes(buffer', ls) && Shown(buffer', Join(ls.text, name))
  {
    hide Chained, Pending, Active, Listed, Levels.Ptrs;
    JoinSize(ls.text, name);
    var t := AppendAt(ls.text);
    var buffer' := buffer[..t] + ("/" + name + [NUL]) + buffer[t + 2 + |name|..];
    assert buffer'[..t] == buffer[..t];
    assert ls.text[..t] == buffer[..t];
    assert ls.text <= buffer';
    assert Join(ls.text, name) + [NUL] <= buffer';
    if ls.outer.Below? { JoinSize(ls.outer.text, mem[ls.dir].fts_name); }
    PrefixesKept(c, mem, cap, buffer, buffer', ls.outer, t);
  }

  // ---------------------------------------------------------------- the next sibling

  function WithSibs(ls: Levels, sibs: seq<Ptr>): Levels { ls.(sibs := sibs) }

  /** `ls` without the first entry of its innermost level. */
  function Tail(ls: Levels): Levels
    requires ls.sibs != []
  {
    WithSibs(ls, ls.sibs[1..])
  }

  /** Taking the first entry off the innermost level. */
  lemma TakeFirst(c: Config, mem: Mem, cap: nat, extra: set<Ptr>, ls: Levels)
    requires Heap(c, mem, cap, extra, ls) && ls.sibs != []
    ensures var s := ls.sibs[0];
            && Heap(c, mem, cap, extra + {s}, Tail(ls)) && s !in extra
            && Pending(c, mem, cap, s, Tail(ls)) && mem[s].fts_link == HeadOf(Tail(ls).sibs)
    ensures Tail(ls).Top() == ls.Top() && Tail(ls).Level() == ls.Level()
    ensures Active(mem, Tail(ls)) == Active(mem, ls) && Table(mem, Tail(ls)) == Table(mem, ls)
    ensures Dirs(mem, Tail(ls)) == Dirs(mem, ls) && Streams(mem, Tail(ls)) == Streams(mem, ls)
    ensures StreamsApart(mem, Tail(ls)) == StreamsApart(mem, ls)
  {
    hide Entered, RootPending, KidPending;
    var s := ls.sibs[0];
    assert s in ls.sibs && Pending(c, mem, cap, s, ls);
    RepTail(c, mem, cap, ls);
    hide Pending, Rep;
    TailPtrs(ls);
  }

  lemma TailPtrs(ls: Levels)
    requires ls.sibs != [] && NoDup(ls.sibs) && ls.Top() !in ls.sibs
    requires ls.Below? ==> forall s | s in ls.sibs :: s !in ls.outer.Ptrs()
    ensures ls.Ptrs() == Tail(ls).Ptrs() + {ls.sibs[0]} && ls.sibs[0] !in Tail(ls).Ptrs()
  {
    var s := ls.sibs[0];
    assert s in ls.sibs;
    assert forall q :: q in ls.sibs <==> q == s || q in ls.sibs[1..];
    forall j | 0 <= j < |ls.sibs[1..]| ensures ls.sibs[1..][j] != s {
      assert ls.sibs[1..][j] == ls.sibs[j + 1];
    }
  }

  /** The walk of a level's kids starts with the first one. */
  lemma FirstOfKids(c: Config, sk: int -> bool, mem: Mem, dev: int, ls: Levels, kid: Kid, later: seq<Kid>, k: int)
    requires c.batch >= 1 && ls.Below? && ls.text != [] && ls.sibs != []
    ensures var (info, st) := KidStat(c, At(mem, ls.dir).fts_statp, kid, ls.Level());
            var v := Visit(c, sk, Active(mem, ls), dev, ls.Level(), Join(ls.text, kid.name), info, st, k);
            RestBelow(c, sk, mem, dev, ls, [kid] + later, k) == v + RestBelow(c, sk, mem, dev, Tail(ls), later, k + |v|)
  {
    hide Visit, AfterFirst, KidStat, RootStat, Unread, ShownPost, Join, Rest, Levels.Ptrs, WalkKids;
    WalkKidsCons(c, sk, Active(mem, ls), dev, ls.Level(), ls.text, At(mem, ls.dir).fts_statp, kid, later, k);
    assert Active(mem, ls) == Active(mem, Tail(ls));
  }

  lemma WalkKidsCons(c: Config, sk: int -> bool, active: set<Inode>, dev: int, level: int, text: string, i: Inode,
                     kid: Kid, later: seq<Kid>, k: int)
    requires c.batch >= 1 && text != []
    ensures var (info, st) := KidStat(c, i, kid, level);
            var v := Visit(c, sk, active, dev, level, Join(text, kid.name), info, st, k);
            WalkKids(c, sk, active, dev, level, text, i, [kid] + later, k)
            == v + WalkKids(c, sk, active, dev, level, text, i, later, k + |v|)
  {
    hide Visit, KidStat, Join;
    assert ([kid] + later)[1..] == later;
  }

  lemma WalkRootsCons(c: Config, sk: int -> bool, root: string, later: seq<string>, k: int)
    requires c.batch >= 1
    ensures var (info, st) := RootStat(c, root);
            var v := Visit(c, sk, {}, st.dev, 0, root, info, st, k);
            WalkRoots(c, sk, [root] + later, k) == v + WalkRoots(c, sk, later, k + |v|)
  {
    hide Visit, RootStat;
    assert ([root] + later)[1..] == later;
  }

  lemma RestRoots(c: Config, sk: int -> bool, mem: Mem, dev: int, ls: Levels, k: int)
    requires c.batch >= 1 && ls.Roots?
    ensures Rest(c, sk, mem, dev, ls, k) == WalkRoots(c, sk, PendingRoots(mem, ls.sibs), k)
    ensures Active(mem, ls) == {} && ls.Level() == 0
  {
    hide WalkRoots, PendingRoots;
  }

  lemma RootsCons(mem: Mem, sibs: seq<Ptr>)
    requires sibs != []
    ensures PendingRoots(mem, sibs) == [At(mem, sibs[0]).fts_name] + PendingRoots(mem, sibs[1..])
  {}

  /** The rest of the walk starts with the first pending command-line argument. */
  lemma FirstRoot(c: Config, sk: int -> bool, mem: Mem, dev: int, ls: Levels, k: int)
    requires c.batch >= 1 && ls.sibs != [] && ls.Roots?
    ensures Rest(c, sk, mem, dev, ls, k)
          == FirstVisit(c, sk, mem, dev, ls.sibs[0], Tail(ls), At(mem, ls.sibs[0]).fts_name, k)
  {
    hide Visit, RootStat, Rest, WalkRoots, PendingRoots, Levels.Ptrs, Active, Levels.Level;
    var root, later := At(mem, ls.sibs[0]).fts_name, PendingRoots(mem, ls.sibs[1..]);
    var (_, st) := RootStat(c, root);
    var v := Visit(c, sk, {}, st.dev, 0, root, RootStat(c, root).0, st, k);
    RestRoots(c, sk, mem, dev, ls, k);
    RootsCons(mem, ls.sibs);
    WalkRootsCons(c, sk, root, later, k);
    RestRoots(c, sk, mem, dev, Tail(ls), k + |v|);
  }

  lemma RestIs(c: Config, sk: int -> bool, mem: Mem, dev: int, ls: Levels, kids: seq<Kid>, k: int)
    requires c.batch >= 1 && ls.Below? && ls.text != []
    requires kids == PendingKids(mem, ls.sibs) + Unread(c, At(mem, ls.dir).fts_dirp)
    ensures Rest(c, sk, mem, dev, ls, k) == RestBelow(c, sk, mem, dev, ls, kids, k)
  {
    hide RestBelow, PendingKids, Unread;
  }

  lemma TailViews(mem: Mem, ls: Levels)
    requires ls.sibs != []
    ensures Active(mem, Tail(ls)) == Active(mem, ls) && Tail(ls).Level() == ls.Level() && Tail(ls).Top() == ls.Top()
  {}

  /** The rest of the walk starts with the first pending entry of a directory. */
  lemma FirstKid(c: Config, sk: int -> bool, mem: Mem, dev: int, ls: Levels, k: int)
    requires c.batch >= 1 && ls.sibs != [] && ls.Below? && ls.text != []
    requires At(mem, ls.sibs[0]).fts_instr != FTS_SKIP
    ensures var e := At(mem, ls.sibs[0]);
            Rest(c, sk, mem, dev, ls, k)
              == FirstVisit(c, sk, mem, dev, ls.sibs[0], Tail(ls), Join(ls.text, e.fts_name), k)
  {
    hide Visit, AfterFirst, WalkKids, WalkRoots, KidStat, RootStat, Unread, Join, RestBelow, Levels.Ptrs, Rest, Active;
    var e := At(mem, ls.sibs[0]);
    var kid := Kid(e.fts_name, e.statRequired);
    var later := PendingKids(mem, ls.sibs[1..]) + Unread(c, At(mem, ls.dir).fts_dirp);
    RestIs(c, sk, mem, dev, ls, [kid] + later, k);
    FirstOfKids(c, sk, mem, dev, ls, kid, later, k);
    TailViews(mem, ls);
    var (info, st) := KidStat(c, At(mem, ls.dir).fts_statp, kid, ls.Level());
    var v := Visit(c, sk, Active(mem, ls), dev, ls.Level(), Join(ls.text, kid.name), info, st, k);
    RestIs(c, sk, mem, dev, Tail(ls), later, k + |v|);
  }

  /** ... unless the client has skipped it. */
  lemma SkippedKid(c: Config, sk: int -> bool, mem: Mem, dev: int, ls: Levels, k: int)
    requires c.batch >= 1 && ls.sibs != [] && ls.Below? && ls.text != []
    requires At(mem, ls.sibs[0]).fts_instr == FTS_SKIP
    ensures Rest(c, sk, mem, dev, ls, k) == Rest(c, sk, mem, dev, Tail(ls), k)
  {
    hide WalkKids, WalkRoots, Unread, Levels.Ptrs, Rest, Active;
    var kids := PendingKids(mem, ls.sibs) + Unread(c, At(mem, ls.dir).fts_dirp);
    RestIs(c, sk, mem, dev, ls, kids, k);
    RestIs(c, sk, mem, dev, Tail(ls), kids, k);
    TailViews(mem, ls);
  }

  // ---------------------------------------------------------------- into a directory

  /** A directory whose stream has been opened becomes the innermost level. */
  lemma PushDir(c: Config, mem: Mem, mem': Mem, cap: nat, p: Ptr, text: string, ls: Levels, fd: int)
    requires Heap(c, mem, cap, {p}, ls) && Placed(mem[p], ls) && mem[p].fts_link == HeadOf(ls.sibs)
    requires InPreOrder(c, mem[p], At(mem, ls.Top()).fts_statp, text, ls) && |text| + 1 <= cap
    requires mem[p].fts_info == FTS_D && mem[p].fts_statp !in Active(mem, ls) && mem[p].fts_statp !in c.fs.unreadable
    requires mem' == mem[p := mem[p].(fts_dirp := Stream(fd, c.fs.dirs[mem[p].fts_statp]))]
    ensures var ls' := Below(p, text, [], ls);
            && Heap(c, mem', cap, {}, ls')
            && Table(mem', ls') == Table(mem, ls)[mem[p].fts_statp := p]
            && Dirs(mem', ls') == [mem[p].fts_statp] + Dirs(mem, ls)
            && Streams(mem', ls') == {fd} + Streams(mem, ls)
            && (StreamsApart(mem, ls) && fd !in Streams(mem, ls) ==> StreamsApart(mem', ls'))
            && Active(mem', ls') == Active(mem, ls) + {mem[p].fts_statp}
  {
    hide Join, Chained, Pending, Listed, Classify;
    var ls' := Below(p, text, [], ls);
    HeapFrame(c, mem, mem', cap, cap, {p}, {p}, ls);
    assert ls'.Ptrs() == {p} + ls.Ptrs();
    assert Entered(c, mem', cap, p, text, ls) by {
      hide NamedDir, NamedBelow, Rep, Active, Table, Dirs;
    }
    assert Chained(mem', []) by { ChainedNone(mem'); }
  }

  lemma PushPrefix(buffer: seq<char>, p: Ptr, text: string, ls: Levels)
    requires PathPrefixes(buffer, ls) && Shown(buffer, text)
    ensures PathPrefixes(buffer, Below(p, text, [], ls))
  {}

  lemma ChainedNone(mem: Mem)
    ensures Chained(mem, [])
  {}

  /** Does fts_read turn a directory in pre-order back at once? */
  predicate TurnedBack(c: Config, e: FTSENT, skip: bool, dev: int) {
    skip || (c.xdev && e.fts_statp.dev != dev)
  }

  /** What follows a directory's pre-order return is the walk of its level, once it is opened. */
  lemma DescendRest(c: Config, sk: int -> bool, mem: Mem, mem': Mem, dev: int, p: Ptr, text: string, ls: Levels,
                    fd: int, j: int)
    requires c.batch >= 1 && text != [] && p in mem && p !in ls.Ptrs() && ls.Ptrs() <= mem.Keys
    requires mem[p].fts_info == FTS_D && mem[p].fts_statp !in Active(mem, ls) && mem[p].fts_statp !in c.fs.unreadable
    requires mem[p].fts_statp in c.fs.dirs && !TurnedBack(c, mem[p], sk(j), dev)
    requires mem' == mem[p := mem[p].(fts_dirp := Stream(fd, c.fs.dirs[mem[p].fts_statp]))]
    ensures var own := Own(c, sk, mem, dev, p, ls, text, j);
            own + Rest(c, sk, mem, dev, ls, j + 1 + |own|) == Rest(c, sk, mem', dev, Below(p, text, [], ls), j + 1)
  {
    hide WalkKids, Rest, Levels.Ptrs, PostText, Kids;
    var st := mem[p].fts_statp;
    var ls' := Below(p, text, [], ls);
    var kids := Kids(c, c.fs.dirs[st]);
    ViewFrame(mem, mem', ls);
    assert Active(mem', ls') == Active(mem, ls) + {st};
    assert PendingKids(mem', []) + kids == kids;
    RestIs(c, sk, mem', dev, ls', kids, j + 1);
    var own := Own(c, sk, mem, dev, p, ls, text, j);
    RestFrame(c, sk, mem, mem', dev, ls, j + 1 + |own|);
  }

  /** A directory fts_read turns back, or cannot open, is returned once more and that is all. */
  lemma OwnShort(c: Config, sk: int -> bool, mem: Mem, dev: int, p: Ptr, text: string, ls: Levels, j: int)
    requires c.batch >= 1 && text != [] && p in mem
    requires mem[p].fts_info == FTS_D && mem[p].fts_statp !in Active(mem, ls) && mem[p].fts_statp in c.fs.dirs
    ensures TurnedBack(c, mem[p], sk(j), dev) ==>
              Own(c, sk, mem, dev, p, ls, text, j) == [Event(FTS_DP, ls.Level(), text, mem[p].fts_statp)]
    ensures !TurnedBack(c, mem[p], sk(j), dev) && mem[p].fts_statp in c.fs.unreadable ==>
              Own(c, sk, mem, dev, p, ls, text, j) == [Event(FTS_DNR, ls.Level(), text, mem[p].fts_statp)]
  {}

  /** The path of entered directories can be climbed by "..". */
  lemma {:induction false} DirsUpLinked(c: Config, mem: Mem, cap: nat, ls: Levels)
    requires Rep(c, mem, cap, ls) && DotDotLeadsBack(c.fs) && Static(c.fs) && !c.logical
    ensures UpLinked(c.fs, Dirs(mem, ls))
    decreases ls
  {
    hide Chained, Pending, Active, Join;
    if ls.Roots? {
    } else {
      DirsUpLinked(c, mem, cap, ls.outer);
      if ls.outer.Below? {
        var name := mem[ls.dir].fts_name;
        var i, j := mem[ls.outer.dir].fts_statp, mem[ls.dir].fts_statp;
        var e :| e in c.fs.dirs[i] && e.d_name == name;
        assert c.fs.at(ls.outer.text).IsDirectory(c.Follow(ls.outer.outer.Level()), i);
        assert c.fs.at(Join(ls.outer.text, e.d_name)) == c.fs.child(i, e.d_name);
        assert c.fs.child(i, e.d_name).IsDirectory(false, j);
      }
    }
  }

  // ---------------------------------------------------------------- reading a directory

  /** `d` is a later state of the directory stream `d0`. */
  ghost predicate Later(d0: Dirp, d: Dirp) {
    d.Stream? ==> d0.Stream? && d.fd == d0.fd && forall e | e in d.unread :: e in d0.unread
  }

  /** A later state of its stream leaves a directory entered. */
  lemma StaysEntered(c: Config, mem: Mem, mem': Mem, cap: nat, cap': nat, ls: Levels, d: Dirp)
    requires Rep(c, mem, cap, ls) && ls.Below? && cap <= cap' && Agree(mem, mem', ls.outer.Ptrs())
    requires ls.dir in mem' && mem'[ls.dir] == mem[ls.dir].(fts_dirp := d) && Later(mem[ls.dir].fts_dirp, d)
    requires ls.outer.Ptrs() <= mem.Keys
    ensures Entered(c, mem', cap', ls.dir, ls.text, ls.outer) && ls.dir in mem
  {
    hide Join, Listed, NamedDir, NamedBelow, Chained, NoDup, Pending, Active, Levels.Ptrs;
    ViewFrame(mem, mem', ls.outer);
    TopInPtrs(ls.outer);
  }

  lemma TopInPtrs(ls: Levels)
    ensures ls.Top() in ls.Ptrs()
  {}

  /** A change of the innermost level only: other siblings, and a later state of its stream. */
  lemma Relevel(c: Config, mem: Mem, mem': Mem, cap: nat, cap': nat, ls: Levels, ls': Levels, d: Dirp)
    requires Rep(c, mem, cap, ls) && ls.Below? && cap <= cap' && ls' == WithSibs(ls, ls'.sibs)
    requires Agree(mem, mem', ls.outer.Ptrs()) && ls.dir in mem' && mem'[ls.dir] == mem[ls.dir].(fts_dirp := d)
    requires Later(mem[ls.dir].fts_dirp, d)
    requires Chained(mem', ls'.sibs) && NoDup(ls'.sibs)
    requires forall s | s in ls'.sibs :: s != ls.dir && s !in ls.outer.Ptrs() && Pending(c, mem', cap', s, ls')
    ensures Rep(c, mem', cap', ls')
  {
    hide Entered, Chained, NoDup, Pending, Levels.Ptrs;
    RepPtrs(c, mem, cap, ls.outer);
    StaysEntered(c, mem, mem', cap, cap', ls, d);
    RepFrame(c, mem, mem', cap, cap', ls.outer);
  }

  /** ... and what it leaves as it was. */
  lemma RelevelViews(mem: Mem, mem': Mem, ls: Levels, ls': Levels, d: Dirp)
    requires ls.Below? && ls' == WithSibs(ls, ls'.sibs) && ls.Ptrs() <= mem.Keys
    requires Agree(mem, mem', ls.outer.Ptrs()) && ls.dir in mem' && mem'[ls.dir] == mem[ls.dir].(fts_dirp := d)
    requires Later(mem[ls.dir].fts_dirp, d)
    ensures Active(mem', ls') == Active(mem, ls) && Table(mem', ls') == Table(mem, ls)
    ensures Dirs(mem', ls') == Dirs(mem, ls)
    ensures Streams(mem', ls') == StreamFd(d) + Streams(mem, ls.outer)
    ensures StreamsApart(mem, ls) ==> StreamsApart(mem', ls')
  {
    ViewFrame(mem, mem', ls.outer);
  }

  /** readdir and closedir only touch the directory's own entry. */
  lemma StreamStep(c: Config, mem: Mem, mem': Mem, cap: nat, extra: set<Ptr>, ls: Levels, d: Dirp)
    requires Heap(c, mem, cap, extra, ls) && ls.Below? && Later(mem[ls.dir].fts_dirp, d)
    requires mem' == mem[ls.dir := mem[ls.dir].(fts_dirp := d)]
    ensures Heap(c, mem', cap, extra, ls)
    ensures Active(mem', ls) == Active(mem, ls) && Table(mem', ls) == Table(mem, ls) && Dirs(mem', ls) == Dirs(mem, ls)
    ensures Streams(mem', ls) == StreamFd(d) + Streams(mem, ls.outer)
    ensures StreamsApart(mem, ls) ==> StreamsApart(mem', ls)
    ensures PendingKids(mem', ls.sibs) == PendingKids(mem, ls.sibs)
  {
    hide Join, Listed, NamedDir, NamedBelow, KidPending, RootPending, NoDup;
    RepPtrs(c, mem, cap, ls);
    ChainedFrame(mem, mem', ls.sibs);
    PendingFrame(mem, mem', ls.sibs);
    Relevel(c, mem, mem', cap, cap, ls, ls, d);
    RelevelViews(mem, mem', ls, ls, d);
  }

  /** The entry of `ls` that fts_build's `tail` points to. */
  function LastOf(sibs: seq<Ptr>): Ptr { if sibs == [] then NULL else sibs[|sibs| - 1] }

  lemma {:induction false} ChainedAppend(mem: Mem, mem': Mem, sibs: seq<Ptr>, p: Ptr)
    requires Chained(mem, sibs) && NoDup(sibs) && p !in sibs && p in mem' && mem'[p].fts_link == NULL
    requires forall s | s in sibs ::
               s in mem && s in mem' && mem'[s] == if s == LastOf(sibs) then mem[s].(fts_link := p) else mem[s]
    ensures Chained(mem', sibs + [p])
    decreases |sibs|
  {
    if |sibs| == 1 {
      assert sibs + [p] == [sibs[0], p] && (sibs + [p])[1..] == [p] && [p][1..] == [];
    } else if |sibs| > 1 {
      assert (sibs + [p])[1..] == sibs[1..] + [p];
      assert sibs[0] in sibs && sibs[0] != LastOf(sibs);
      ChainedAppend(mem, mem', sibs[1..], p);
    } else {
      assert sibs + [p] == [p] && [p][1..] == [];
    }
  }

  lemma {:induction false} PendingAppend(mem: Mem, mem': Mem, sibs: seq<Ptr>, p: Ptr)
    requires forall s | s in sibs :: s in mem && s in mem' && mem'[s].(fts_link := mem[s].fts_link) == mem[s]
    requires p in mem' && mem'[p].fts_instr != FTS_SKIP
    ensures PendingKids(mem', sibs + [p]) == PendingKids(mem, sibs) + [Kid(mem'[p].fts_name, mem'[p].statRequired)]
    decreases |sibs|
  {
    if sibs == [] {
      assert [p][1..] == [];
      assert sibs + [p] == [p];
    } else {
      assert sibs[0] in sibs;
      var (e, e') := (At(mem, sibs[0]), At(mem', sibs[0]));
      assert e'.(fts_link := e.fts_link) == e;
      assert e'.fts_instr == e.fts_instr && e'.fts_name == e.fts_name && e'.statRequired == e.statRequired;
      PendingAppend(mem, mem', sibs[1..], p);
      PendingCons(mem', sibs[0], sibs[1..] + [p]);
      assert sibs + [p] == [sibs[0]] + (sibs[1..] + [p]);
    }
  }

  lemma PendingCons(mem: Mem, p: Ptr, rest: seq<Ptr>)
    ensures var e := At(mem, p);
            PendingKids(mem, [p] + rest)
            == (if e.fts_instr == FTS_SKIP then [] else [Kid(e.fts_name, e.statRequired)]) + PendingKids(mem, rest)
  {
    assert ([p] + rest)[1..] == rest;
  }

  /** The entry fts_build makes for one directory entry. */
  ghost predicate Built(c: Config, e: FTSENT, dp: DirEnt, ls: Levels, len: nat) {
    && e.fts_name == dp.d_name && e.fts_errno == 0 && e.fts_dirp == NoStream && e.fts_instr == FTS_NOINSTR
    && e.fts_level == ls.Level() && e.fts_parent == ls.Top() && e.fts_pathlen == len + |dp.d_name|
    && e.accInPath == c.nochdir && e.fts_info == FTS_NSOK && e.statRequired == KidOf(c, dp).statRequired
    && e.fts_statp == Inode(0, 0) && e.fts_link == NULL
  }

  lemma EnteredDir(c: Config, mem: Mem, cap: nat, ls: Levels)
    requires Rep(c, mem, cap, ls) && ls.Below?
    ensures ls.dir in mem && ls.dir !in ls.sibs && LastOf(ls.sibs) != ls.dir && LastOf(ls.sibs) !in ls.outer.Ptrs()
    ensures Later(mem[ls.dir].fts_dirp, mem[ls.dir].fts_dirp)
    ensures mem[ls.dir].fts_level + 1 == ls.Level()
    ensures ls.sibs != [] ==> LastOf(ls.sibs) in mem && LastOf(ls.sibs) != NULL
  {
    RepPtrs(c, mem, cap, ls.outer);
    if ls.sibs != [] { assert LastOf(ls.sibs) in ls.sibs; }
  }

  lemma BuiltFacts(c: Config, e: FTSENT, dp: DirEnt, ls: Levels, len: nat)
    requires Built(c, e, dp, ls, len)
    ensures e.fts_link == NULL && e.fts_instr != FTS_SKIP && Kid(e.fts_name, e.statRequired) == KidOf(c, dp)
  {}

  lemma KidsPending(c: Config, mem: Mem, mem': Mem, cap: nat, cap': nat, ls: Levels, p: Ptr, dp: DirEnt)
    requires Rep(c, mem, cap, ls) && ls.Below? && cap <= cap' && Static(c.fs) && p != NULL && p in mem'
    requires At(mem, ls.dir).fts_statp in c.fs.dirs && dp in c.fs.dirs[At(mem, ls.dir).fts_statp]
    requires At(mem', ls.dir).fts_statp == At(mem, ls.dir).fts_statp
    requires forall q | q in ls.sibs && q in mem :: q in mem' && mem'[q].(fts_link := mem[q].fts_link) == mem[q]
    requires ls.text != [] && Built(c, mem'[p], dp, ls, AppendAt(ls.text) + 1)
    requires AppendAt(ls.text) + 1 + |dp.d_name| + 1 <= cap'
    ensures forall s | s in ls.sibs + [p] :: Pending(c, mem', cap', s, WithSibs(ls, ls.sibs + [p]))
  {
    hide Entered, Chained, Levels.Ptrs;
    var ls' := WithSibs(ls, ls.sibs + [p]);
    JoinSize(ls.text, dp.d_name);
    assert Pending(c, mem', cap', p, ls');
    forall s | s in ls.sibs ensures Pending(c, mem', cap', s, ls') {
      assert Pending(c, mem, cap, s, ls);
    }
  }

  lemma AppendPtrs(ls: Levels, p: Ptr)
    requires ls.Below?
    ensures WithSibs(ls, ls.sibs + [p]).Ptrs() == ls.Ptrs() + {p}
  {
    var ls' := WithSibs(ls, ls.sibs + [p]);
    assert forall q :: q in ls'.sibs <==> q in ls.sibs || q == p;
  }

  /** fts_build's changes of the heap for one directory entry: the new entry, chained to the last. */
  ghost predicate Appended(mem: Mem, mem': Mem, ls: Levels, p: Ptr) {
    && p != NULL && p !in mem && p in mem' && mem'.Keys == mem.Keys + {p}
    && (forall q | q in mem :: mem'[q] == if q == LastOf(ls.sibs) then mem[q].(fts_link := p) else mem[q])
  }

  /** A new entry, linked behind the last one of the level if there is one. */
  lemma LinkedIsAppended(mem: Mem, alone: Mem, mem': Mem, ls: Levels, p: Ptr)
    requires p != NULL && p !in mem && p in alone && alone == mem[p := alone[p]] && NULL !in mem
    requires var tail := LastOf(ls.sibs);
             if tail == NULL then mem' == alone else tail in mem && mem' == alone[tail := alone[tail].(fts_link := p)]
    ensures Appended(mem, mem', ls, p) && mem'[p] == alone[p]
  {
    hide LastOf;
  }

  /** It goes to the end of the level. */
  lemma AddKidRep(c: Config, mem: Mem, mem': Mem, cap: nat, cap': nat, ls: Levels, p: Ptr, dp: DirEnt)
    requires Rep(c, mem, cap, ls) && ls.Below? && cap <= cap' && Static(c.fs) && Appended(mem, mem', ls, p)
    requires At(mem, ls.dir).fts_statp in c.fs.dirs && dp in c.fs.dirs[At(mem, ls.dir).fts_statp]
    requires ls.text != [] && Built(c, mem'[p], dp, ls, AppendAt(ls.text) + 1)
    requires AppendAt(ls.text) + 1 + |dp.d_name| + 1 <= cap'
    ensures Rep(c, mem', cap', WithSibs(ls, ls.sibs + [p]))
    ensures Agree(mem, mem', ls.outer.Ptrs()) && ls.dir in mem && ls.dir in mem' && mem'[ls.dir] == mem[ls.dir]
    ensures Later(mem[ls.dir].fts_dirp, mem[ls.dir].fts_dirp)
    ensures PendingKids(mem', ls.sibs + [p]) == PendingKids(mem, ls.sibs) + [KidOf(c, dp)]
  {
    hide Entered, Pending, Chained, PendingKids, Built, Active, Table, Dirs, Streams, StreamsApart, Join, Static;
    var ls' := WithSibs(ls, ls.sibs + [p]);
    RepPtrs(c, mem, cap, ls);
    EnteredDir(c, mem, cap, ls);
    BuiltFacts(c, mem'[p], dp, ls, AppendAt(ls.text) + 1);
    ChainedAppend(mem, mem', ls.sibs, p);
    PendingAppend(mem, mem', ls.sibs, p);
    KidsPending(c, mem, mem', cap, cap', ls, p, dp);
    Relevel(c, mem, mem', cap, cap', ls, ls', mem[ls.dir].fts_dirp);
  }

  lemma AddKid(c: Config, mem: Mem, mem': Mem, cap: nat, cap': nat, extra: set<Ptr>, ls: Levels, p: Ptr, dp: DirEnt)
    requires Heap(c, mem, cap, extra, ls) && ls.Below? && cap <= cap' && Static(c.fs) && Appended(mem, mem', ls, p)
    requires At(mem, ls.dir).fts_statp in c.fs.dirs && dp in c.fs.dirs[At(mem, ls.dir).fts_statp]
    requires ls.text != [] && Built(c, mem'[p], dp, ls, AppendAt(ls.text) + 1)
    requires AppendAt(ls.text) + 1 + |dp.d_name| + 1 <= cap'
    ensures var ls' := WithSibs(ls, ls.sibs + [p]);
            && Heap(c, mem', cap', extra, ls')
            && Active(mem', ls') == Active(mem, ls) && Table(mem', ls') == Table(mem, ls)
            && Dirs(mem', ls') == Dirs(mem, ls)
            && Streams(mem', ls') == Streams(mem, ls)
            && (StreamsApart(mem, ls) ==> StreamsApart(mem', ls'))
            && PendingKids(mem', ls'.sibs) == PendingKids(mem, ls.sibs) + [KidOf(c, dp)]
  {
    hide Rep, PendingKids, Built, Static, Levels.Ptrs, KidOf, AppendAt;
    AppendPtrs(ls, p);
    AddKidRep(c, mem, mem', cap, cap', ls, p, dp);
    RelevelViews(mem, mem', ls, WithSibs(ls, ls.sibs + [p]), mem[ls.dir].fts_dirp);
  }

  /** Writing behind a directory's file name keeps those of the directories around it. */
  lemma PrefixesAround(c: Config, mem: Mem, cap: nat, buffer: seq<char>, buffer': seq<char>, ls: Levels)
    requires Rep(c, mem, cap, ls) && PathPrefixes(buffer, ls) && ls.Below? && ls.text != []
    requires |buffer| <= |buffer'| && buffer'[..AppendAt(ls.text)] == buffer[..AppendAt(ls.text)]
    ensures PathPrefixes(buffer', ls.outer)
  {
    hide Chained, Pending, Active, Listed, NamedDir;
    if ls.outer.Below? { JoinSize(ls.outer.text, mem[ls.dir].fts_name); }
    PrefixesKept(c, mem, cap, buffer, buffer', ls.outer, AppendAt(ls.text));
  }

  /** ... and, unless it overwrites a trailing slash, its own. */
  lemma PrefixesBehind(c: Config, mem: Mem, cap: nat, buffer: seq<char>, buffer': seq<char>, ls: Levels)
    requires Rep(c, mem, cap, ls) && PathPrefixes(buffer, ls) && ls.Below? && ls.text != []
    requires |buffer| <= |buffer'| && buffer'[..AppendAt(ls.text)] == buffer[..AppendAt(ls.text)]
    requires buffer'[AppendAt(ls.text)] in {'/', buffer[AppendAt(ls.text)]} || AppendAt(ls.text) == |ls.text|
    ensures PathPrefixes(buffer', ls)
  {
    hide Rep;
    PrefixesAround(c, mem, cap, buffer, buffer', ls);
    assert ls.text[..AppendAt(ls.text)] == buffer[..AppendAt(ls.text)];
    assert ls.text <= buffer';
  }

  lemma PrefixesSibs(buffer: seq<char>, ls: Levels, sibs: seq<Ptr>)
    ensures PathPrefixes(buffer, WithSibs(ls, sibs)) == PathPrefixes(buffer, ls)
  {}

  /** What fts_build leaves alone: everything but its directory's stream and its own new entries. */
  ghost predicate Carried(mem: Mem, mem': Mem, ls: Levels, extra: set<Ptr>) {
    && ls.Below? && Agree(mem, mem', extra + ls.outer.Ptrs())
    && ls.dir in mem && ls.dir in mem' && mem'[ls.dir] == mem[ls.dir].(fts_dirp := mem'[ls.dir].fts_dirp)
  }

  lemma CarriedAppended(c: Config, mem0: Mem, mem: Mem, mem': Mem, cap: nat, ls0: Levels, ls: Levels, extra: set<Ptr>,
                        p: Ptr)
    requires Carried(mem0, mem, ls0, extra) && Appended(mem, mem', ls, p) && ls == WithSibs(ls0, ls.sibs)
    requires Heap(c, mem, cap, extra, ls)
    ensures Carried(mem0, mem', ls0, extra) && mem'[ls0.dir] == mem[ls0.dir]
  {
    hide Entered, Chained, Pending;
    RepPtrs(c, mem, cap, ls);
    if ls.sibs != [] { assert LastOf(ls.sibs) in ls.sibs; }
  }

  lemma CarriedSelf(c: Config, mem: Mem, cap: nat, ls: Levels, extra: set<Ptr>)
    requires Heap(c, mem, cap, extra, ls) && ls.Below?
    ensures Carried(mem, mem, ls, extra)
  {}

  lemma CarriedStream(c: Config, mem0: Mem, mem: Mem, mem': Mem, cap: nat, ls0: Levels, ls: Levels, extra: set<Ptr>,
                      d: Dirp)
    requires Carried(mem0, mem, ls0, extra) && Heap(c, mem, cap, extra, ls) && ls == WithSibs(ls0, ls.sibs)
    requires mem' == mem[ls0.dir := mem[ls0.dir].(fts_dirp := d)]
    ensures Carried(mem0, mem', ls0, extra)
  {
    hide Entered, Chained, Pending;
    assert ls0.dir in ls.Ptrs();
  }

  lemma UnreadListed(c: Config, mem: Mem, cap: nat, ls: Levels)
    requires Rep(c, mem, cap, ls) && ls.Below?
    ensures ls.dir in mem && mem[ls.dir].fts_statp in c.fs.dirs
    ensures mem[ls.dir].fts_dirp.Stream? ==>
              forall e | e in mem[ls.dir].fts_dirp.unread :: e in c.fs.dirs[mem[ls.dir].fts_statp]
  {}

  /** readdir takes one entry off what is unread. */
  lemma UnreadStep(c: Config, d: Dirp, pending: seq<Kid>)
    requires d.Stream? && d.unread != []
    ensures var dp, d' := d.unread[0], Stream(d.fd, d.unread[1..]);
            && (!c.seedot && IsDot(dp.d_name) ==> Unread(c, d) == Unread(c, d'))
            && (c.seedot || !IsDot(dp.d_name) ==>
                  pending + Unread(c, d) == (pending + [KidOf(c, dp)]) + Unread(c, d'))
  {
    hide KidOf;
  }

  lemma StreamParts(mem: Mem, ls: Levels)
    requires ls.Below? && At(mem, ls.dir).fts_dirp.Stream? && StreamsApart(mem, ls)
    ensures Streams(mem, ls) == Streams(mem, ls.outer) + {At(mem, ls.dir).fts_dirp.fd}
    ensures At(mem, ls.dir).fts_dirp.fd !in Streams(mem, ls.outer)
  {}

  lemma NothingPending(c: Config, mem: Mem, fd: int)
    ensures PendingKids(mem, []) == [] && Unread(c, NoStream) == [] && Unread(c, Stream(fd, [])) == []
  {}

  /** Whole batches leave the length of what is unread the same modulo the batch size, and a last,
      shorter batch that is not empty shows that the length is no multiple of it. */
  lemma ShownAcross(c: Config, text: string, d: Dirp, d': Dirp, n: nat)
    requires c.batch >= 1 && d.Stream? && 1 <= n <= c.batch && |Unread(c, d)| == n + |Unread(c, d')|
    requires d'.Stream? <==> n == c.batch
    ensures ShownPost(c, d', text) == ShownPost(c, d, text)
  {
    hide Kids;
    var m := |Unread(c, d')|;
    if d'.Stream? {
      assert (m + c.batch) % c.batch == m % c.batch by { ModPlus(m, c.batch); }
    } else {
      assert n % c.batch == n;
    }
  }

  lemma ModPlus(m: nat, b: nat)
    requires b >= 1
    ensures (m + b) % b == m % b
  {
    var d := (m + b) / b - m / b - 1;
    assert d * b == ((m + b) / b) * b - (m / b) * b - b;
    if d >= 1 { AtLeastOnce(d, b); } else if d <= -1 { AtLeastOnce(-d, b); }
  }

  lemma AtLeastOnce(d: int, b: nat)
    requires d >= 1
    ensures d * b >= b
  {
    assert d * b == (d - 1) * b + b;
  }

  /** Reading a batch does not change the rest of the walk. */
  lemma BuildRest(c: Config, sk: int -> bool, mem: Mem, mem': Mem, dev: int, ls: Levels, ls': Levels, extra: set<Ptr>,
                  k: int)
    requires c.batch >= 1 && Carried(mem, mem', ls, extra) && ls.Ptrs() <= mem.Keys && ls.text != []
    requires ls.sibs == [] && ls' == WithSibs(ls, ls'.sibs) && mem[ls.dir].fts_dirp.Stream?
    requires 1 <= |ls'.sibs| == |PendingKids(mem', ls'.sibs)| <= c.batch
    requires mem'[ls.dir].fts_dirp.Stream? <==> |ls'.sibs| == c.batch
    requires PendingKids(mem', ls'.sibs) + Unread(c, mem'[ls.dir].fts_dirp) == Unread(c, mem[ls.dir].fts_dirp)
    ensures Rest(c, sk, mem, dev, ls, k) == Rest(c, sk, mem', dev, ls', k)
  {
    hide Rest, WalkKids, Unread, ShownPost, PendingKids, Levels.Ptrs;
    var kids := Unread(c, mem[ls.dir].fts_dirp);
    NothingPending(c, mem, 0);
    assert [] + kids == kids;
    RestIs(c, sk, mem, dev, ls, kids, k);
    RestIs(c, sk, mem', dev, ls', kids, k);
    ShownAcross(c, ls.text, mem[ls.dir].fts_dirp, mem'[ls.dir].fts_dirp, |ls'.sibs|);
    OuterSame(c, sk, mem, mem', dev, ls, ls', kids, extra, k);
  }

  lemma OuterPtrs(ls: Levels, sibs: seq<Ptr>)
    requires ls.Below?
    ensures ls.outer.Ptrs() <= ls.Ptrs() && WithSibs(ls, sibs).Level() == ls.Level()
  {}

  lemma CarriedActive(mem: Mem, mem': Mem, ls: Levels, ls': Levels, extra: set<Ptr>)
    requires Carried(mem, mem', ls, extra) && ls.Ptrs() <= mem.Keys && ls' == WithSibs(ls, ls'.sibs)
    ensures Active(mem', ls') == Active(mem, ls) && ls'.Level() == ls.Level() && ls'.Below?
    ensures ls.outer.Ptrs() <= mem.Keys && Agree(mem, mem', ls.outer.Ptrs())
  {
    OuterPtrs(ls, ls'.sibs);
    hide Levels.Ptrs, Levels.Level;
    ViewFrame(mem, mem', ls.outer);
  }

  lemma BelowSame(c: Config, sk: int -> bool, mem: Mem, mem': Mem, dev: int, ls: Levels, ls': Levels, kids: seq<Kid>,
                  k: int)
    requires c.batch >= 1 && ls.Below? && ls.text != [] && ls' == WithSibs(ls, ls'.sibs)
    requires Active(mem', ls') == Active(mem, ls) && ls'.Level() == ls.Level()
    requires At(mem', ls.dir).fts_statp == At(mem, ls.dir).fts_statp
    requires ShownPost(c, At(mem, ls.dir).fts_dirp, ls.text) == ShownPost(c, At(mem', ls.dir).fts_dirp, ls.text)
    requires forall j :: Rest(c, sk, mem', dev, ls.outer, j) == Rest(c, sk, mem, dev, ls.outer, j)
    ensures RestBelow(c, sk, mem, dev, ls, kids, k) == RestBelow(c, sk, mem', dev, ls', kids, k)
  {
    hide Rest, WalkKids, ShownPost, Active, Levels.Level;
  }

  lemma OuterSame(c: Config, sk: int -> bool, mem: Mem, mem': Mem, dev: int, ls: Levels, ls': Levels, kids: seq<Kid>,
                  extra: set<Ptr>, k: int)
    requires c.batch >= 1 && Carried(mem, mem', ls, extra) && ls.Ptrs() <= mem.Keys && ls.text != []
    requires ls' == WithSibs(ls, ls'.sibs)
    requires ShownPost(c, mem[ls.dir].fts_dirp, ls.text) == ShownPost(c, mem'[ls.dir].fts_dirp, ls.text)
    ensures RestBelow(c, sk, mem, dev, ls, kids, k) == RestBelow(c, sk, mem', dev, ls', kids, k)
  {
    hide Rest, RestBelow, ShownPost, Levels.Ptrs, Levels.Level, Active;
    CarriedActive(mem, mem', ls, ls', extra);
    RestFrameAll(c, mem, mem', dev, ls.outer);
    BelowSame(c, sk, mem, mem', dev, ls, ls', kids, k);
  }

  /** A directory with nothing left to read is returned in post-order. */
  lemma BuildNone(c: Config, sk: int -> bool, mem: Mem, mem': Mem, dev: int, ls: Levels, extra: set<Ptr>, k: int)
    requires c.batch >= 1 && Carried(mem, mem', ls, extra) && ls.Ptrs() <= mem.Keys && ls.text != []
    requires ls.sibs == [] && Unread(c, mem[ls.dir].fts_dirp) == []
    ensures Rest(c, sk, mem, dev, ls, k)
         == [Event(FTS_DP, ls.outer.Level(), ShownPost(c, mem[ls.dir].fts_dirp, ls.text), mem[ls.dir].fts_statp)]
            + Rest(c, sk, mem', dev, ls.outer, k + 1)
  {
    hide Rest, Unread, ShownPost, PendingKids;
    NothingPending(c, mem, 0);
    RestIs(c, sk, mem, dev, ls, [], k);
    RestFrame(c, sk, mem, mem', dev, ls.outer, k + 1);
  }

  /** The slash fts_build writes, and the NUL it ends with. */
  lemma PutSlash(c: Config, mem: Mem, cap: nat, buffer: seq<char>, ls: Levels)
    requires Rep(c, mem, cap, ls) && PathPrefixes(buffer, ls) && ls.Below? && ls.text != []
    ensures AppendAt(ls.text) < |buffer|
    ensures PathPrefixes(buffer[..AppendAt(ls.text)] + "/" + buffer[AppendAt(ls.text) + 1..], ls)
  {
    hide Rep;
    AppendAtBounds(ls.text);
    PrefixesBehind(c, mem, cap, buffer, buffer[..AppendAt(ls.text)] + "/" + buffer[AppendAt(ls.text) + 1..], ls);
  }

  lemma PutNul(c: Config, mem: Mem, cap: nat, buffer: seq<char>, ls: Levels, len: nat)
    requires Rep(c, mem, cap, ls) && PathPrefixes(buffer, ls) && ls.Below? && ls.text != []
    requires len == AppendAt(ls.text) + 1 && c.batch >= 1
    ensures len <= |buffer| && PathPrefixes(buffer, ls.outer)
    ensures len < |buffer| ==> PathPrefixes(buffer[..len] + [NUL] + buffer[len + 1..], ls)
    ensures c.nochdir && NUL !in ls.text ==>
              var buffer' := buffer[..len - 1] + [NUL] + buffer[len..];
              PathPrefixes(buffer', ls.outer) && Shown(buffer', PostText(c, ls.text, 0))
  {
    hide Rep;
    AppendAtBounds(ls.text);
    if len < |buffer| {
      PrefixesKept(c, mem, cap, buffer, buffer[..len] + [NUL] + buffer[len + 1..], ls, len);
    }
    var buffer' := buffer[..len - 1] + [NUL] + buffer[len..];
    PrefixesAround(c, mem, cap, buffer, buffer', ls);
    assert ls.text[..len - 1] == buffer[..len - 1] == buffer'[..len - 1];
    if c.nochdir { assert PostText(c, ls.text, 0) == ls.text[..len - 1] by { PostTextZero(c, ls.text); } }
  }

  lemma PostTextZero(c: Config, text: string)
    requires c.batch >= 1 && text != []
    ensures c.nochdir ==> PostText(c, text, 0) == text[..AppendAt(text)]
    ensures !c.nochdir ==> PostText(c, text, 0) == text
  {}

  // ---------------------------------------------------------------- out of a directory

  /** A directory with nothing left below it leaves the levels and becomes the current entry. */
  lemma PopDir(c: Config, mem: Mem, cap: nat, extra: set<Ptr>, ls: Levels)
    requires Heap(c, mem, cap, extra, ls) && ls.Below? && ls.sibs == []
    ensures ls.dir in mem && ls.dir !in extra && ls.dir !in ls.outer.Ptrs()
    ensures Heap(c, mem, cap, extra + {ls.dir}, ls.outer)
    ensures var e := mem[ls.dir];
            && e.fts_link == HeadOf(ls.outer.sibs) && Placed(e, ls.outer) && e.fts_info == FTS_D && e.fts_errno == 0
            && e.fts_pathlen == |ls.text| < cap && NUL !in ls.text && e.fts_statp !in Active(mem, ls.outer)
            && Table(mem, ls) == Table(mem, ls.outer)[e.fts_statp := ls.dir]
            && Dirs(mem, ls) == [e.fts_statp] + Dirs(mem, ls.outer)
            && Streams(mem, ls) == StreamFd(e.fts_dirp) + Streams(mem, ls.outer)
    ensures StreamsApart(mem, ls) ==> StreamsApart(mem, ls.outer)
    ensures ls.outer.Below? ==> Dirs(mem, ls.outer) != [] && ls.outer.dir in mem
    ensures ls.outer.Below? ==> Dirs(mem, ls.outer)[0] == At(mem, ls.outer.dir).fts_statp
    ensures ls.outer.Below? ==> |ls.outer.text| <= |ls.text|
  {
    hide Chained, Pending;
    if ls.outer.Below? { JoinSize(ls.outer.text, mem[ls.dir].fts_name); }
    assert ls.Ptrs() == {ls.dir} + ls.outer.Ptrs();
    RepPtrs(c, mem, cap, ls.outer);
    assert ls.outer.Top() in ls.outer.Ptrs();
  }

  /** The path buffer shows `shown` once it is cut at the end of a directory's file name. */
  ghost predicate ShownWhenCut(buffer: seq<char>, text: string, shown: string) {
    |text| < |buffer| && Shown(buffer[|text| := NUL], shown)
  }

  lemma {:induction false} PendingAtMost(mem: Mem, sibs: seq<Ptr>)
    ensures |PendingKids(mem, sibs)| <= |sibs|
    decreases |sibs|
  {
    if sibs == [] {
    } else {
      PendingAtMost(mem, sibs[1..]);
    }
  }

  /** If as many kids are pending as there are entries, the client has skipped none. */
  lemma NoneSkipped(mem: Mem, sibs: seq<Ptr>)
    requires sibs != [] && |PendingKids(mem, sibs)| == |sibs|
    ensures At(mem, sibs[0]).fts_instr != FTS_SKIP
  {
    PendingAtMost(mem, sibs[1..]);
  }

  lemma FirstVisitFrame(c: Config, sk: int -> bool, mem: Mem, mem': Mem, dev: int, p: Ptr, ls: Levels, text: string,
                        k: int)
    requires c.batch >= 1 && ls.Ptrs() <= mem.Keys && Agree(mem, mem', ls.Ptrs()) && p in mem && p in mem'
    requires mem'[p] == mem[p]
    ensures FirstVisit(c, sk, mem', dev, p, ls, text, k) == FirstVisit(c, sk, mem, dev, p, ls, text, k)
  {
    hide Rest, Visit, StatOf, Levels.Ptrs, Active, Levels.Level;
    ViewFrame(mem, mem', ls);
    TopInPtrs(ls);
    var (info, st) := StatOf(c, mem[p], At(mem, ls.Top()).fts_statp, text, ls);
    var v := Visit(c, sk, Active(mem, ls), if ls.Roots? then st.dev else dev, ls.Level(), text, info, st, k);
    RestFrame(c, sk, mem, mem', dev, ls, k + |v|);
  }

  lemma HeadNotNull(c: Config, mem: Mem, cap: nat, extra: set<Ptr>, ls: Levels)
    requires Heap(c, mem, cap, extra, ls)
    ensures HeadOf(ls.sibs) == NULL <==> ls.sibs == []
    ensures ls.Top() in mem && ls.Ptrs() <= mem.Keys && NULL !in mem && (ls.Below? ==> ls.text != [])
    ensures ls.Roots? ==> mem[ls.Top()].fts_dirp == NoStream
    ensures mem[ls.Top()].fts_level == if ls.Roots? then -1 else ls.outer.Level()
  {
    RepPtrs(c, mem, cap, ls);
    assert ls.Top() in ls.Ptrs();
  }

  /** The end of a level that has nothing left to read. */
  lemma RestDone(c: Config, sk: int -> bool, mem: Mem, cap: nat, extra: set<Ptr>, dev: int, ls: Levels, k: int)
    requires c.batch >= 1 && Heap(c, mem, cap, extra, ls) && ls.sibs == []
    requires ls.Below? ==> At(mem, ls.dir).fts_dirp == NoStream
    ensures ls.Roots? ==> Rest(c, sk, mem, dev, ls, k) == []
    ensures ls.Below? ==>
              Rest(c, sk, mem, dev, ls, k)
              == [Event(FTS_DP, ls.outer.Level(), ls.text, At(mem, ls.dir).fts_statp)]
                + Rest(c, sk, mem, dev, ls.outer, k + 1)
  {
    HeadNotNull(c, mem, cap, extra, ls);
    hide WalkKids, Levels.Ptrs, Rep;
    if ls.Below? {
      hide Rest;
      CarriedSelf(c, mem, cap, ls, extra);
      BuildNone(c, sk, mem, mem, dev, ls, extra, k);
    }
  }

  /** A directory's file name will be shown whole once the buffer is cut behind it. */
  lemma CutShows(c: Config, mem: Mem, cap: nat, buffer: seq<char>, ls: Levels)
    requires Rep(c, mem, cap, ls) && PathPrefixes(buffer, ls) && ls.Below?
    ensures ShownWhenCut(buffer, ls.text, ls.text) && PathPrefixes(buffer, ls.outer)
    ensures ls.dir in mem && mem[ls.dir].fts_pathlen == |ls.text|
    ensures PathPrefixes(buffer[|ls.text| := NUL], ls)
  {
    var buffer' := buffer[|ls.text| := NUL];
    assert ls.text + [NUL] <= buffer';
    PrefixesKept(c, mem, cap, buffer, buffer', ls, |ls.text|);
  }

  // ---------------------------------------------------------------- command-line arguments

  /** strrchr (name, '/') as an index, -1 if there is no slash. */
  function LastSlash(name: string): (i: int)
    ensures -1 <= i < |name|
    ensures i >= 0 ==> name[i] == '/'
    ensures forall j | i < j < |name| :: name[j] != '/'
  {
    if name == [] then -1
    else if name[|name| - 1] == '/' then |name| - 1
    else LastSlash(name[..|name| - 1])
  }

  /** The fts_name that fts_load leaves in a command-line argument. */
  function BaseName(name: string): string {
    var cp := LastSlash(name);
    if cp >= 0 && (cp != 0 || |name| > 1) then name[cp + 1..] else name
  }

  /** fts_load does not change what is expected of an argument. */
  lemma FirstVisitRoot(c: Config, sk: int -> bool, mem: Mem, mem': Mem, dev: int, p: Ptr, ls: Levels, text: string,
                       k: int)
    requires c.batch >= 1 && ls.Roots? && ls.Ptrs() <= mem.Keys && Agree(mem, mem', ls.Ptrs())
    ensures FirstVisit(c, sk, mem', dev, p, ls, text, k) == FirstVisit(c, sk, mem, dev, p, ls, text, k)
  {
    hide Rest, Visit, RootStat;
    ViewFrame(mem, mem', ls);
    var (info, st) := RootStat(c, text);
    var v := Visit(c, sk, {}, st.dev, 0, text, info, st, k);
    RestFrame(c, sk, mem, mem', dev, ls, k + |v|);
  }

  /** Cutting the buffer at the end of the file name once more does not show more of it. */
  lemma CutAgain(c: Config, mem: Mem, cap: nat, extra: set<Ptr>, buffer: seq<char>, ls: Levels)
    requires Heap(c, mem, cap, extra, ls) && ls.Below? && ls.text != [] && c.batch >= 1 && |buffer| == cap
    requires Shown(buffer, PostText(c, ls.text, 0))
    ensures ShownWhenCut(buffer, ls.text, PostText(c, ls.text, 0))
  {
    hide Chained, Pending, NamedBelow, Active;
    var shown := PostText(c, ls.text, 0);
    PostTextZero(c, ls.text);
    AppendAtBounds(ls.text);
    assert shown + [NUL] <= buffer[|ls.text| := NUL];
  }

  // ---------------------------------------------------------------- fts_open

  lemma {:induction false} RootsAppend(mem: Mem, mem': Mem, sibs: seq<Ptr>, p: Ptr)
    requires forall s | s in sibs :: s in mem && s in mem' && mem'[s].(fts_link := mem[s].fts_link) == mem[s]
    requires p in mem'
    ensures PendingRoots(mem', sibs + [p]) == PendingRoots(mem, sibs) + [mem'[p].fts_name]
    decreases |sibs|
  {
    if sibs == [] {
      assert [p][1..] == [];
      assert sibs + [p] == [p];
    } else {
      assert (sibs + [p])[1..] == sibs[1..] + [p];
      assert sibs[0] in sibs;
      RootsAppend(mem, mem', sibs[1..], p);
    }
  }

  /** fts_open's list of command-line arguments grows at its end. */
  lemma AddRoot(c: Config, mem: Mem, mem': Mem, cap: nat, ls: Levels, p: Ptr)
    requires Heap(c, mem, cap, {}, ls) && ls.Roots? && Appended(mem, mem', ls, p)
    requires mem'[p].fts_link == NULL && mem'[p].fts_dirp == NoStream && Placed(mem'[p], ls)
    requires RootPending(c, mem'[p], cap)
    ensures var ls' := WithSibs(ls, ls.sibs + [p]);
            && Heap(c, mem', cap, {}, ls') && ls'.Top() == ls.Top()
            && PendingRoots(mem', ls'.sibs) == PendingRoots(mem, ls.sibs) + [mem'[p].fts_name]
  {
    hide Classify, Chained, PendingRoots;
    var ls' := WithSibs(ls, ls.sibs + [p]);
    RepPtrs(c, mem, cap, ls);
    RootTail(ls, p);
    ChainedAppend(mem, mem', ls.sibs, p);
    RootsAppend(mem, mem', ls.sibs, p);
    assert Pending(c, mem', cap, p, ls');
    forall s | s in ls.sibs ensures Pending(c, mem', cap, s, ls') {
      assert Pending(c, mem, cap, s, ls);
    }
  }

  lemma RootTail(ls: Levels, p: Ptr)
    requires ls.Roots? && ls.parent !in ls.sibs && NULL !in ls.Ptrs()
    ensures LastOf(ls.sibs) != ls.parent && WithSibs(ls, ls.sibs + [p]).Ptrs() == ls.Ptrs() + {p}
  {
    assert ls.parent in ls.Ptrs();
    if ls.sibs != [] { assert LastOf(ls.sibs) in ls.sibs; }
    assert forall q :: q in ls.sibs + [p] <==> q in ls.sibs || q == p;
  }

  /** How much of an argument fts_open keeps: all but one of several trailing slashes go, except
      that "//" stays. */
  function Trim(v: string, len: nat): (kept: nat)
    requires 1 <= len <= |v| && v[len - 1] == '/'
    ensures 1 <= kept <= len && (forall j | kept - 1 <= j < len :: v[j] == '/')
    ensures kept == 1 || v[kept - 2] != '/'
  {
    if 1 < len && v[len - 2] == '/' then Trim(v, len - 1) else len
  }

  function Argument(v: string, verbatim: bool): string {
    if !verbatim && 2 < |v| && v[|v| - 1] == '/' then v[..Trim(v, |v|)] else v
  }

  /** An argument that ends in two slashes, and is not "//", ends in one, unless it is to be kept verbatim. */
  lemma ArgumentIs(v: string, verbatim: bool)
    ensures var (name, n) := (Argument(v, verbatim), |v|);
            if verbatim || n <= 2 || v[n - 1] != '/' || v[n - 2] != '/' then name == v
            else
              && name != [] && name < v && name[|name| - 1] == '/' && (|name| == 1 || name[|name| - 2] != '/')
              && forall j | |name| <= j < n :: v[j] == '/'
  {
  }

  function Arguments(argv: seq<string>, verbatim: bool): (roots: seq<string>)
    ensures |roots| == |argv|
    ensures forall j | 0 <= j < |argv| :: roots[j] == Argument(argv[j], verbatim)
  {
    if argv == [] then []
    else Arguments(argv[..|argv| - 1], verbatim) + [Argument(argv[|argv| - 1], verbatim)]
  }

  lemma PendingNone(mem: Mem)
    ensures PendingRoots(mem, []) == []
  {}

  lemma OpenFacts(c: Config, mem: Mem, cap: nat, ls: Levels)
    requires Heap(c, mem, cap, {}, ls) && ls.Roots?
    ensures NULL !in mem && ls.parent in mem && ls.Level() == 0
    ensures HeadOf(ls.sibs) == NULL <==> ls.sibs == []
    ensures LastOf(ls.sibs) != NULL ==> LastOf(ls.sibs) in mem
  {
    HeadNotNull(c, mem, cap, {}, ls);
    if ls.sibs != [] { assert LastOf(ls.sibs) in ls.sibs; }
  }

  lemma ArgumentsNone(argv: seq<string>, verbatim: bool)
    ensures Arguments(argv[..0], verbatim) == []
  {}

  lemma ArgumentsStep(argv: seq<string>, verbatim: bool, i: nat)
    requires i < |argv|
    ensures Arguments(argv[..i + 1], verbatim) == Arguments(argv[..i], verbatim) + [Argument(argv[i], verbatim)]
    ensures NUL !in argv[i] ==> NUL !in Argument(argv[i], verbatim)
    ensures |Argument(argv[i], verbatim)| <= |argv[i]| && argv[i] in argv
  {
    assert argv[..i + 1][..i] == argv[..i];
  }

  lemma OnlyParent(c: Config, mem: Mem, cap: nat, parent: Ptr)
    requires mem.Keys == {parent} && parent != NULL && mem[parent].fts_level == -1 && mem[parent].fts_dirp == NoStream
    ensures Heap(c, mem, cap, {}, Roots(parent, []))
  {
    ChainedNone(mem);
  }

  /** The dummy entry before the list changes nothing. */
  lemma AddDummy(c: Config, mem: Mem, mem': Mem, cap: nat, cur: Ptr, ls: Levels)
    requires Heap(c, mem, cap, {}, ls) && ls.Roots? && cur !in mem && cur != NULL && mem' == mem[cur := At(mem', cur)]
    ensures Heap(c, mem', cap, {cur}, ls) && PendingRoots(mem', ls.sibs) == PendingRoots(mem, ls.sibs)
  {
    hide Rep;
    NoNull(c, mem, cap, {}, ls);
    HeapFrame(c, mem, mem', cap, cap, {}, {cur}, ls);
    PendingFrameRoots(mem, mem', ls);
  }

  lemma PendingFrameRoots(mem: Mem, mem': Mem, ls: Levels)
    requires ls.Roots? && ls.Ptrs() <= mem.Keys && Agree(mem, mem', ls.Ptrs())
    ensures PendingRoots(mem', ls.sibs) == PendingRoots(mem, ls.sibs)
  {
    PendingFrame(mem, mem', ls.sibs);
  }

  // ---------------------------------------------------------------- fts_close

  /** fts_close has reached p; what is left of the chain behind it is `left`, or nothing. */
  ghost predicate Closing(c: Config, mem: Mem, cap: nat, p: Ptr, left: Levels) {
    && p in mem
    && (if mem[p].fts_level < 0 then mem.Keys == {p}
        else
          && Heap(c, mem, cap, {p}, left) && mem[p].fts_link == HeadOf(left.sibs)
          && (left.sibs == [] ==> mem[p].fts_parent == left.Top()))
  }

  lemma CloseStep(c: Config, mem: Mem, cap: nat, p: Ptr, left: Levels) returns (left': Levels)
    requires Closing(c, mem, cap, p, left) && mem[p].fts_level >= 0
    ensures Closing(c, mem - {p}, cap, if mem[p].fts_link != NULL then mem[p].fts_link else mem[p].fts_parent, left')
  {
    hide Entered, RootPending, KidPending, Chained, Levels.Ptrs;
    HeadNotNull(c, mem, cap, {p}, left);
    HeapFrame(c, mem, mem - {p}, cap, cap, {p}, {}, left);
    if left.sibs != [] {
      TakeFirst(c, mem - {p}, cap, {}, left);
      left' := Tail(left);
      assert {} + {left.sibs[0]} == {left.sibs[0]};
    } else if left.Below? {
      PopDir(c, mem - {p}, cap, {}, left);
      left' := left.outer;
      assert {} + {left.dir} == {left.dir};
    } else {
      left' := left;
      LastPtr(left);
    }
  }

  lemma LastPtr(ls: Levels)
    requires ls.Roots? && ls.sibs == []
    ensures ls.Ptrs() == {ls.parent}
  {}

  // ---------------------------------------------------------------- fts_set on an entry not yet returned

  lemma {:induction false} ChainedSame(mem: Mem, mem': Mem, sibs: seq<Ptr>)
    requires Chained(mem, sibs)
    requires forall s | s in sibs :: s in mem && s in mem' && mem'[s].fts_link == mem[s].fts_link
    ensures Chained(mem', sibs)
    decreases |sibs|
  {
    if sibs == [] {
    } else {
      assert sibs[0] in sibs;
      ChainedSame(mem, mem', sibs[1..]);
    }
  }

  /** The kids of a level without the one that entry p stands for. */
  ghost function KidsWithout(mem: Mem, sibs: seq<Ptr>, p: Ptr): seq<Kid> {
    if sibs == [] then []
    else (if sibs[0] == p then [] else PendingKids(mem, sibs[..1])) + KidsWithout(mem, sibs[1..], p)
  }

  lemma {:induction false} SkipDropsKid(mem: Mem, mem': Mem, sibs: seq<Ptr>, p: Ptr)
    requires p in mem && mem' == mem[p := mem[p].(fts_instr := FTS_SKIP)]
    ensures PendingKids(mem', sibs) == KidsWithout(mem, sibs, p)
    decreases |sibs|
  {
    if sibs == [] {
    } else {
      SkipDropsKid(mem, mem', sibs[1..], p);
      assert sibs[..1][0] == sibs[0] && sibs[..1][1..] == [] && PendingKids(mem, sibs[..1][1..]) == [];
    }
  }

  lemma SkipKept(c: Config, mem: Mem, mem': Mem, cap: nat, extra: set<Ptr>, ls: Levels, p: Ptr)
    requires Heap(c, mem, cap, extra, ls) && ls.Below? && p in ls.sibs && p in mem
    requires mem' == mem[p := mem[p].(fts_instr := FTS_SKIP)]
    ensures Heap(c, mem', cap, extra, ls)
    ensures Active(mem', ls) == Active(mem, ls) && Table(mem', ls) == Table(mem, ls) && Dirs(mem', ls) == Dirs(mem, ls)
    ensures Streams(mem', ls) == Streams(mem, ls) && (StreamsApart(mem, ls) ==> StreamsApart(mem', ls))
    ensures ls.Top() in mem && At(mem', ls.Top()) == At(mem, ls.Top()) && p !in extra
  {
    hide Entered, RootPending, NoDup;
    RepPtrs(c, mem, cap, ls);
    ChainedSame(mem, mem', ls.sibs);
    var d := mem[ls.dir].fts_dirp;
    assert Later(d, d);
    forall s | s in ls.sibs ensures s != ls.dir && s !in ls.outer.Ptrs() && Pending(c, mem', cap, s, ls) {
      assert Pending(c, mem, cap, s, ls);
    }
    hide Pending, Chained;
    Relevel(c, mem, mem', cap, cap, ls, ls, d);
    RelevelViews(mem, mem', ls, ls, d);
  }

  /** What is left of the walk is the walk without the entry. */
  lemma SkipRest(c: Config, sk: int -> bool, mem: Mem, mem': Mem, cap: nat, extra: set<Ptr>, dev: int, ls: Levels,
                 p: Ptr, k: int)
    requires Heap(c, mem, cap, extra, ls) && ls.Below? && p in ls.sibs && p in mem && c.batch >= 1
    requires mem' == mem[p := mem[p].(fts_instr := FTS_SKIP)]
    ensures ls.text != []
    ensures Rest(c, sk, mem', dev, ls, k)
         == RestBelow(c, sk, mem, dev, ls, KidsWithout(mem, ls.sibs, p) + Unread(c, At(mem, ls.dir).fts_dirp), k)
  {
    hide Rest, RestBelow, Unread, PendingKids, KidsWithout, ShownPost, Levels.Ptrs, Entered, Chained, Pending, NoDup;
    HeadNotNull(c, mem, cap, extra, ls);
    RepPtrs(c, mem, cap, ls.outer);
    assert Carried(mem, mem', ls, {});
    var kids := KidsWithout(mem, ls.sibs, p) + Unread(c, At(mem, ls.dir).fts_dirp);
    SkipDropsKid(mem, mem', ls.sibs, p);
    RestIs(c, sk, mem', dev, ls, kids, k);
    OuterSame(c, sk, mem, mem', dev, ls, ls, kids, {}, k);
  }
}
