/** Nothing is missing from a walk, and nothing in it is anything else: a run of returns checked against what is
    due next, told from the hierarchy and the options alone. */
module FtsCoverage {
  import opened FileTree
  import opened FtsWalk
  import opened FtsLaws

  // ---------------------------------------------------------------- what a first return says

  /** The entries of a directory that are to be seen: without FTS_SEEDOT, "." and ".." are not. */
  function Visible(seedot: bool, entries: seq<DirEnt>): (visible: seq<DirEnt>) {
    if entries == [] then []
    else
      (if !seedot && (entries[0].d_name == "." || entries[0].d_name == "..") then [] else [entries[0]])
      + Visible(seedot, entries[1..])
  }

  /** Return e is for the object `node`, looked at with links followed or not: what kind it is, its inode, or why
      neither can be told.  `dot` is a "." or ".." listed in a directory. */
  predicate Says(followed: bool, node: Node, dot: bool, e: Event) {
    var found := node.Stat(followed);
    && (found.Ok? ==> e.st == found.inode)
    && (found.Ok? && found.kind == Directory ==> if dot then e.info == FTS_DOT else e.info in {FTS_D, FTS_DC})
    && (found.Ok? && found.kind == SymbolicLink ==> e.info == FTS_SL)
    && (found.Ok? && found.kind == RegularFile ==> e.info == FTS_F)
    && (found.Ok? && found.kind == OtherFile ==> e.info == FTS_DEFAULT)
    && (found.Err? ==>
          if followed && found.errno == ENOENT && node.nofollow.Ok?
          then e.info == FTS_SLNONE && e.st == node.nofollow.inode
          else e.info == FTS_NS && e.st == Inode(0, 0))
  }

  /** An entry that is not looked at: with FTS_NOSTAT, one whose type is known to be no directory, and no link if
      links are followed. */
  predicate Unstated(nostat: bool, logical: bool, t: EntryType) {
    nostat && t != DT_UNKNOWN && t != DT_DIR && (logical ==> t != DT_LNK)
  }

  /** Return e is for an entry of directory i. */
  predicate EntrySays(fs: Fs, logical: bool, nostat: bool, i: Inode, entry: DirEnt, e: Event) {
    if Unstated(nostat, logical, entry.d_type) then e.info == FTS_NSOK && e.st == Inode(0, 0)
    else Says(logical, fs.child(i, entry.d_name), entry.d_name == "." || entry.d_name == "..", e)
  }

  /** Return e is for a command-line argument. */
  predicate RootSays(fs: Fs, logical: bool, comfollow: bool, root: string, e: Event) {
    e.text == root && Says(logical || comfollow, fs.at(root), false, e)
  }

  /** The file name shown with the second return of a directory with n visible entries that was entered. */
  function LastText(nochdir: bool, batch: nat, text: string, n: nat): string
    requires batch >= 1
  {
    if nochdir && text != [] && text[|text| - 1] == '/' && n % batch == 0 then text[..|text| - 1] else text
  }

  predicate IsFirst(e: Event) { e.info != FTS_DP && e.info != FTS_DNR }

  /** The file names returned for the first time at a level. */
  ghost function Firsts(events: seq<Event>, level: int): seq<string> {
    if events == [] then []
    else (if IsFirst(events[0]) && events[0].level == level then [events[0].text] else []) + Firsts(events[1..], level)
  }

  // ---------------------------------------------------------------- a run against what is due

  /** What becomes of a directory after its first return: it is skipped or on a foreign device, it cannot be read,
      or its entries follow. */
  datatype Fate = Turned | Unreadable | Entered

  /** A directory that has been returned at position `at` and not again, and its entries still to be returned. */
  datatype Frame = Frame(at: int, dir: Event, fate: Fate, due: seq<DirEnt>)

  /** The arguments to come, the device of the last one, and the open directories, innermost last. */
  datatype Run = Run(roots: seq<string>, dev: int, open: seq<Frame>) {
    function Top(): Frame
      requires open != []
    {
      open[|open| - 1]
    }
  }

  function InodesOf(open: seq<Frame>): set<Inode> { set f | f in open :: f.dir.st }

  /** dev is the device of the command-line argument. */
  function FateOf(c: Config, sk: int -> bool, dev: int, d: Event, k: int): Fate {
    if sk(k) || (c.xdev && d.st.dev != dev) then Turned else if d.st in c.fs.unreadable then Unreadable else Entered
  }

  function Entries(c: Config, i: Inode): (entries: seq<DirEnt>) {
    if i in c.fs.dirs then Visible(c.seedot, c.fs.dirs[i]) else []
  }

  function Opens(c: Config, sk: int -> bool, dev: int, d: Event, k: int): Frame {
    var fate := FateOf(c, sk, dev, d, k);
    Frame(k, d, fate, if fate == Entered then Entries(c, d.st) else [])
  }

  /** A first return is the next entry of the innermost open directory, or the next argument; a second one is that of
      the innermost open directory, once all its entries have been returned. */
  ghost predicate Fits(c: Config, s: Run, e: Event)
    requires c.batch >= 1
  {
    if IsFirst(e) then
      && e.level == |s.open|
      && (if s.open == [] then s.roots != [] && RootSays(c.fs, c.logical, c.comfollow, s.roots[0], e)
          else
            var d := s.Top();
            && d.due != [] && d.dir.text != [] && e.text == Join(d.dir.text, d.due[0].d_name)
            && EntrySays(c.fs, c.logical, c.nostat, d.dir.st, d.due[0], e))
      && (e.info == FTS_D ==> e.st !in InodesOf(s.open)) && (e.info == FTS_DC ==> e.st in InodesOf(s.open))
    else
      s.open != [] && SecondSays(c, s.Top(), |s.open| - 1, e)
  }

  predicate SecondSays(c: Config, d: Frame, level: int, e: Event)
    requires c.batch >= 1
  {
    && d.due == [] && e.level == level && e.st == d.dir.st
    && e.info == (if d.fate == Unreadable then FTS_DNR else FTS_DP)
    && e.text == (if d.fate != Entered then d.dir.text
                  else LastText(c.nochdir, c.batch, d.dir.text, |Entries(c, d.dir.st)|))
  }

  /** A first return takes what was due. */
  function Taken(s: Run, dev: int): (s': Run)
    ensures |s'.open| == |s.open| && s'.dev == dev
  {
    if s.open == [] then Run(if s.roots == [] then [] else s.roots[1..], dev, [])
    else
      var d := s.Top();
      Run(s.roots, dev, s.open[..|s.open| - 1] + [d.(due := if d.due == [] then [] else d.due[1..])])
  }

  /** The run after return e at position k. */
  function After(c: Config, sk: int -> bool, s: Run, e: Event, k: int): Run {
    if IsFirst(e) then
      var t := Taken(s, if e.level == 0 then e.st.dev else s.dev);
      t.(open := t.open + if e.info == FTS_D then [Opens(c, sk, t.dev, e, k)] else [])
    else if s.open == [] then s
    else s.(open := s.open[..|s.open| - 1])
  }

  /** The returns from position k on are just what is due. */
  ghost predicate UsesUp(c: Config, sk: int -> bool, s: Run, events: seq<Event>, k: int)
    requires c.batch >= 1
    decreases |events|
  {
    if events == [] then s.open == [] && s.roots == []
    else Fits(c, s, events[0]) && UsesUp(c, sk, After(c, sk, s, events[0], k), events[1..], k + 1)
  }

  /** The run after m returns. */
  function RunAfter(c: Config, sk: int -> bool, s: Run, events: seq<Event>, m: nat): Run
    requires m <= |events|
  {
    if m == 0 then s else After(c, sk, RunAfter(c, sk, s, events, m - 1), events[m - 1], m - 1)
  }

  lemma OneStep(c: Config, sk: int -> bool, s: Run, e: Event, rest: seq<Event>, k: int)
    requires c.batch >= 1 && Fits(c, s, e) && UsesUp(c, sk, After(c, sk, s, e, k), rest, k + 1)
    ensures UsesUp(c, sk, s, [e] + rest, k)
  {
    hide After, Fits;
    assert ([e] + rest)[1..] == rest;
  }

  /** The second return of the innermost directory. */
  lemma AgainStep(c: Config, sk: int -> bool, s: Run, d: Frame, e: Event, rest: seq<Event>, k: int)
    requires c.batch >= 1 && !IsFirst(e) && SecondSays(c, d, |s.open|, e) && UsesUp(c, sk, s, rest, k + 1)
    ensures UsesUp(c, sk, s.(open := s.open + [d]), [e] + rest, k)
  {
    hide UsesUp, SecondSays;
    var t := s.(open := s.open + [d]);
    assert t.Top() == d && t.open[..|s.open|] == s.open;
    assert After(c, sk, t, e, k) == s;
    OneStep(c, sk, t, e, rest, k);
  }

  /** The first return of an entry. */
  function FirstOf(active: set<Inode>, level: int, text: string, info: Info, st: Inode): Event {
    Event(if info == FTS_D && st in active then FTS_DC else info, level, text, st)
  }

  /** An entry's returns are what is due, in front of anything that is due after it. */
  lemma {:induction false} VisitUsesUp(c: Config, sk: int -> bool, active: set<Inode>, dev: int, level: int,
                                       text: string, info: Info, st: Inode, k: int, s: Run, rest: seq<Event>)
    requires c.batch >= 1 && Static(c.fs) && level == |s.open| && active == InodesOf(s.open)
    requires info !in {FTS_DC, FTS_DP, FTS_DNR} && Fits(c, s, FirstOf(active, level, text, info, st))
    requires dev == if level == 0 then st.dev else s.dev
    requires info == FTS_D ==> st in c.fs.dirs && text != []
    requires var v := Visit(c, sk, active, dev, level, text, info, st, k);
             UsesUp(c, sk, Taken(s, dev), rest, k + |v|)
    ensures UsesUp(c, sk, s, Visit(c, sk, active, dev, level, text, info, st, k) + rest, k)
    decreases Budget(c, active), 0, 1
  {
    hide UsesUp, Visit, AfterFirst, Static, Taken, Opens, Fits, InodesOf, FateOf;
    var v := Visit(c, sk, active, dev, level, text, info, st, k);
    VisitHead(c, sk, active, dev, level, text, info, st, k);
    var e := FirstOf(active, level, text, info, st);
    if info != FTS_D || st in active {
      assert v == [e] && Taken(s, dev).open + [] == Taken(s, dev).open;
      OneStep(c, sk, s, e, rest, k);
    } else {
      TakenInodes(s, dev);
      if FateOf(c, sk, dev, e, k) == Entered {
        DirectoryUsesUp(c, sk, active, dev, level, text, st, k, Taken(s, dev), rest);
      } else {
        TurnedUsesUp(c, sk, active, dev, level, text, st, k, Taken(s, dev), rest);
      }
      assert v + rest == [e] + (v[1..] + rest);
      OneStep(c, sk, s, e, v[1..] + rest, k);
    }
  }

  lemma TakenInodes(s: Run, dev: int)
    ensures InodesOf(Taken(s, dev).open) == InodesOf(s.open)
  {
    if s.open != [] {
      var outer := s.open[..|s.open| - 1];
      assert s.open == outer + [s.Top()];
      OneMoreOpen(outer, s.Top());
      OneMoreOpen(outer, Taken(s, dev).Top());
    }
  }

  lemma VisitHead(c: Config, sk: int -> bool, active: set<Inode>, dev: int, level: int, text: string, info: Info,
                  st: Inode, k: int)
    requires c.batch >= 1
    ensures var v := Visit(c, sk, active, dev, level, text, info, st, k);
            v[0] == FirstOf(active, level, text, info, st) && (info != FTS_D || st in active ==> |v| == 1)
  {
    hide WalkKids, Kids, PostText;
  }

  /** Nothing is due below a directory that is turned back or cannot be read. */
  lemma TurnedUsesUp(c: Config, sk: int -> bool, active: set<Inode>, dev: int, level: int, text: string,
                     st: Inode, k: int, s: Run, rest: seq<Event>)
    requires c.batch >= 1 && level == |s.open| && st in c.fs.dirs && st !in active && text != []
    requires var e := Event(FTS_D, level, text, st); FateOf(c, sk, dev, e, k) != Entered
    requires var v := Visit(c, sk, active, dev, level, text, FTS_D, st, k); UsesUp(c, sk, s, rest, k + |v|)
    ensures var (v, e) := (Visit(c, sk, active, dev, level, text, FTS_D, st, k), Event(FTS_D, level, text, st));
            UsesUp(c, sk, s.(open := s.open + [Opens(c, sk, dev, e, k)]), v[1..] + rest, k + 1)
  {
    hide UsesUp, WalkKids, Kids, PostText, Entries;
    var v := Visit(c, sk, active, dev, level, text, FTS_D, st, k);
    assert v == [v[0], v[1]] && v[1..] == [v[1]];
    AgainStep(c, sk, s, Opens(c, sk, dev, Event(FTS_D, level, text, st), k), v[1], rest, k + 1);
  }

  lemma {:induction false} DirectoryUsesUp(c: Config, sk: int -> bool, active: set<Inode>, dev: int, level: int,
                                           text: string, st: Inode, k: int, s: Run, rest: seq<Event>)
    requires c.batch >= 1 && Static(c.fs) && level == |s.open| && active == InodesOf(s.open) && s.dev == dev
    requires st in c.fs.dirs && st !in active && text != []
    requires var e := Event(FTS_D, level, text, st); FateOf(c, sk, dev, e, k) == Entered
    requires var v := Visit(c, sk, active, dev, level, text, FTS_D, st, k); UsesUp(c, sk, s, rest, k + |v|)
    ensures var (v, e) := (Visit(c, sk, active, dev, level, text, FTS_D, st, k), Event(FTS_D, level, text, st));
            UsesUp(c, sk, s.(open := s.open + [Opens(c, sk, dev, e, k)]), v[1..] + rest, k + 1)
    decreases Budget(c, active), 0, 0
  {
    hide UsesUp, WalkKids, Kids, Visit, AfterFirst, Static, Visible, SecondSays, PostText, LastText, InodesOf, KidOf;
    var kids := Kids(c, c.fs.dirs[st]);
    var post := Event(FTS_DP, level, PostText(c, text, |kids|), st);
    var w := WalkKids(c, sk, active + {st}, dev, level + 1, text, st, kids, k + 1);
    var v := Visit(c, sk, active, dev, level, text, FTS_D, st, k);
    var f := Opens(c, sk, dev, Event(FTS_D, level, text, st), k);
    VisitParts(c, sk, active, dev, level, text, st, k);
    KidsVisible(c, c.fs.dirs[st]);
    assert v[1..] + rest == w + ([post] + rest);
    PostSays(c, f, level, |kids|);
    AgainStep(c, sk, s, f.(due := []), post, rest, k + 1 + |w|);
    BudgetShrinks(c, active, st);
    OneMoreOpen(s.open, f);
    KidsUsedUp(c, sk, active + {st}, dev, level + 1, text, st, kids, k + 1, s, f, [post] + rest);
  }

  lemma PostSays(c: Config, f: Frame, level: int, n: nat)
    requires c.batch >= 1 && f.fate == Entered && n == |Entries(c, f.dir.st)|
    ensures SecondSays(c, f.(due := []), level, Event(FTS_DP, level, PostText(c, f.dir.text, n), f.dir.st))
  {
    hide Entries;
  }

  lemma OneMoreOpen(open: seq<Frame>, f: Frame)
    ensures InodesOf(open + [f]) == InodesOf(open) + {f.dir.st}
  {}

  /** The visible entries are the ones fts_build keeps. */
  lemma {:induction false} KidsVisible(c: Config, entries: seq<DirEnt>)
    ensures var visible := Visible(c.seedot, entries);
            && |Kids(c, entries)| == |visible|
            && forall j | 0 <= j < |visible| :: Kids(c, entries)[j] == KidOf(c, visible[j])
  {
    if entries == [] {
    } else {
      KidsVisible(c, entries[1..]);
    }
  }

  /** The entries of directory f.dir, whose kids are these, are what is due. */
  lemma {:induction false} KidsUsedUp(c: Config, sk: int -> bool, active: set<Inode>, dev: int, level: int,
                                      text: string, i: Inode, kids: seq<Kid>, k: int, s: Run, f: Frame,
                                      rest: seq<Event>)
    requires c.batch >= 1 && Static(c.fs) && level == |s.open| + 1 && s.dev == dev
    requires active == InodesOf(s.open + [f]) && f.dir.text == text != [] && f.dir.st == i
    requires |kids| == |f.due| && forall j | 0 <= j < |kids| :: kids[j] == KidOf(c, f.due[j])
    requires var w := WalkKids(c, sk, active, dev, level, text, i, kids, k);
             UsesUp(c, sk, s.(open := s.open + [f.(due := [])]), rest, k + |w|)
    ensures UsesUp(c, sk, s.(open := s.open + [f]), WalkKids(c, sk, active, dev, level, text, i, kids, k) + rest, k)
    decreases Budget(c, active), |kids|, 2
  {
    hide UsesUp, Visit, AfterFirst, Join, KidStat, KidOf, EntrySays;
    var w := WalkKids(c, sk, active, dev, level, text, i, kids, k);
    if kids == [] {
      assert w + rest == rest && f.(due := []) == f;
    } else {
      var (info, st) := KidStat(c, i, kids[0], level);
      var t := Join(text, kids[0].name);
      var first := Visit(c, sk, active, dev, level, t, info, st, k);
      var w' := WalkKids(c, sk, active, dev, level, text, i, kids[1..], k + |first|);
      var f' := f.(due := f.due[1..]);
      assert w + rest == first + (w' + rest);
      SameInodes(s.open, f, f');
      KidsUsedUp(c, sk, active, dev, level, text, i, kids[1..], k + |first|, s, f', rest);
      KidStatFacts(c, i, kids[0], level, text);
      KidSays(c, i, f.due[0], active, level, t);
      var s' := s.(open := s.open + [f]);
      TakenTop(s, f);
      EntryFits(c, s, f, FirstOf(active, level, t, info, st), i, text);
      VisitUsesUp(c, sk, active, dev, level, t, info, st, k, s', w' + rest);
    }
  }

  lemma SameInodes(open: seq<Frame>, f: Frame, f': Frame)
    requires f.dir == f'.dir
    ensures InodesOf(open + [f]) == InodesOf(open + [f'])
  {
    OneMoreOpen(open, f);
    OneMoreOpen(open, f');
  }

  lemma TakenTop(s: Run, f: Frame)
    requires f.due != []
    ensures Taken(s.(open := s.open + [f]), s.dev) == s.(open := s.open + [f.(due := f.due[1..])])
  {
    assert (s.open + [f])[..|s.open|] == s.open;
  }

  lemma EntryFits(c: Config, s: Run, f: Frame, e: Event, i: Inode, text: string)
    requires c.batch >= 1 && f.due != [] && f.dir.text == text != [] && f.dir.st == i && IsFirst(e)
    requires e.level == |s.open| + 1 && e.text == Join(text, f.due[0].d_name)
    requires EntrySays(c.fs, c.logical, c.nostat, i, f.due[0], e)
    requires e.info == FTS_D ==> e.st !in InodesOf(s.open + [f])
    requires e.info == FTS_DC ==> e.st in InodesOf(s.open + [f])
    ensures Fits(c, s.(open := s.open + [f]), e)
  {
    hide EntrySays, InodesOf;
  }

  /** What the walk says of an entry is what there is. */
  lemma KidSays(c: Config, i: Inode, entry: DirEnt, active: set<Inode>, level: int, text: string)
    requires level > 0
    ensures var kid := KidOf(c, entry);
            var (info, st) := KidStat(c, i, kid, level);
            && kid.name == entry.d_name
            && EntrySays(c.fs, c.logical, c.nostat, i, entry, FirstOf(active, level, text, info, st))
  {}

  lemma RootOk(c: Config, root: string, active: set<Inode>)
    ensures var (info, st) := RootStat(c, root);
            RootSays(c.fs, c.logical, c.comfollow, root, FirstOf(active, 0, root, info, st))
  {}

  lemma {:induction false} WalkUsesUp(c: Config, sk: int -> bool, roots: seq<string>, dev: int, k: int)
    requires c.batch >= 1 && Static(c.fs)
    ensures UsesUp(c, sk, Run(roots, dev, []), WalkRoots(c, sk, roots, k), k)
    decreases |roots|
  {
    hide Visit, RootStat, After, Static, RootSays;
    if roots == [] {
    } else {
      var (info, st) := RootStat(c, roots[0]);
      var first := Visit(c, sk, {}, st.dev, 0, roots[0], info, st, k);
      WalkUsesUp(c, sk, roots[1..], st.dev, k + |first|);
      RootStatFacts(c, roots[0]);
      RootOk(c, roots[0], {});
      VisitUsesUp(c, sk, {}, st.dev, 0, roots[0], info, st, k, Run(roots, dev, []),
                  WalkRoots(c, sk, roots[1..], k + |first|));
    }
  }

  lemma RootStatFacts(c: Config, root: string)
    requires Static(c.fs)
    ensures var (info, st) := RootStat(c, root);
            info !in {FTS_DC, FTS_DP, FTS_DNR} && (info == FTS_D ==> st in c.fs.dirs && root != [])
  {
    if RootStat(c, root).0 == FTS_D {
      RootNamed(c, root);
      assert c.fs.at(root).IsDirectory(c.Follow(0), RootStat(c, root).1);
    }
  }

  // ---------------------------------------------------------------- consequences

  /** The file names of some entries of directory `text`. */
  ghost function EntryNames(text: string, entries: seq<DirEnt>): (names: seq<string>)
    ensures text != [] ==> |names| == |entries|
  {
    if text == [] || entries == [] then []
    else [Join(text, entries[0].d_name)] + EntryNames(text, entries[1..])
  }

  /** What is to be returned one level below the directory returned at position k.  dev is the device
      of the command-line argument it belongs to. */
  ghost function Todo(c: Config, sk: int -> bool, dev: int, d: Event, k: int): seq<string> {
    if sk(k) || (c.xdev && d.st.dev != dev) || d.st in c.fs.unreadable || d.st !in c.fs.dirs || d.text == [] then []
    else EntryNames(d.text, Visible(c.seedot, c.fs.dirs[d.st]))
  }

  ghost function Left(f: Frame): seq<string> { EntryNames(f.dir.text, f.due) }

  /** The device of the command-line argument of the last return. */
  function DevAfter(dev: int, e: Event): int { if e.level == 0 && IsFirst(e) then e.st.dev else dev }

  /** The device of the command-line argument that the return at position a belongs to. */
  ghost function DevAt(dev: int, events: seq<Event>, a: nat): int
    requires a < |events|
    decreases a
  {
    var dev' := DevAfter(dev, events[0]);
    if a == 0 then dev' else DevAt(dev', events[1..], a - 1)
  }

  /** What return e does to the names left at the levels above it. */
  lemma LeftChange(c: Config, sk: int -> bool, s: Run, e: Event, k: int, j: nat)
    requires c.batch >= 1 && Fits(c, s, e) && e.level > j && j < |s.open|
    ensures var open' := After(c, sk, s, e, k).open;
            && j < |open'|
            && Left(s.open[j]) == (if IsFirst(e) && e.level == j + 1 then [e.text] else []) + Left(open'[j])
  {
    hide Opens, EntrySays, InodesOf, Entries;
  }

  lemma FirstsStep(events: seq<Event>, b: nat, level: int)
    requires 0 < b <= |events|
    ensures var e := events[0];
            Firsts(events[..b], level)
              == (if IsFirst(e) && e.level == level then [e.text] else []) + Firsts(events[1..][..b - 1], level)
  {
    assert events[..b][1..] == events[1..][..b - 1];
  }

  /** From inside level j + 1 until its directory is returned again, the names left there are returned. */
  lemma {:induction false} LevelUsedUp(c: Config, sk: int -> bool, s: Run, events: seq<Event>, k: int, j: nat, b: nat)
    requires c.batch >= 1 && UsesUp(c, sk, s, events, k) && j < |s.open| && b < |events| && events[b].level == j
    requires !IsFirst(events[b]) && forall i | 0 <= i < b :: events[i].level > j
    ensures Firsts(events[..b], j + 1) == Left(s.open[j])
    decreases b
  {
    hide After, Left;
    var e := events[0];
    if b == 0 {
      Closed(c, s, e);
    } else {
      hide Fits;
      LeftChange(c, sk, s, e, k, j);
      FirstsStep(events, b, j + 1);
      LevelUsedUp(c, sk, After(c, sk, s, e, k), events[1..], k + 1, j, b - 1);
    }
  }

  lemma Closed(c: Config, s: Run, e: Event)
    requires c.batch >= 1 && Fits(c, s, e) && !IsFirst(e)
    ensures |s.open| == e.level + 1 && Left(s.Top()) == []
  {}

  /** In such a run, each directory's names are returned between its two returns. */
  lemma {:induction false} Covered(c: Config, sk: int -> bool, s: Run, events: seq<Event>, k: int, a: nat, b: nat)
    requires c.batch >= 1 && UsesUp(c, sk, s, events, k) && Matches(events, a, b) && events[a].info == FTS_D
    ensures Firsts(events[a + 1..b], events[a].level + 1) == Todo(c, sk, DevAt(s.dev, events, a), events[a], k + a)
    decreases a
  {
    hide Todo, Firsts, Again, After, Fits;
    if a == 0 {
      FirstCovered(c, sk, s, events, k, b);
    } else {
      assert events[1..][a..b - 1] == events[a + 1..b];
      AfterDev(c, sk, s, events[0], k);
      Covered(c, sk, After(c, sk, s, events[0], k), events[1..], k + 1, a - 1, b - 1);
    }
  }

  lemma AfterDev(c: Config, sk: int -> bool, s: Run, e: Event, k: int)
    ensures After(c, sk, s, e, k).dev == DevAfter(s.dev, e)
  {
    hide Opens;
  }

  lemma OpenedAfter(c: Config, sk: int -> bool, s: Run, e: Event, k: int)
    requires c.batch >= 1 && Fits(c, s, e) && e.info == FTS_D
    ensures var open' := After(c, sk, s, e, k).open;
            && |open'| == |s.open| + 1 && e.level == |s.open|
            && Left(open'[|s.open|]) == Todo(c, sk, DevAfter(s.dev, e), e, k)
  {
    hide EntrySays, RootSays, Visible, InodesOf;
  }

  lemma FirstCovered(c: Config, sk: int -> bool, s: Run, events: seq<Event>, k: int, b: nat)
    requires c.batch >= 1 && UsesUp(c, sk, s, events, k) && Matches(events, 0, b) && events[0].info == FTS_D
    ensures Firsts(events[1..b], events[0].level + 1) == Todo(c, sk, DevAfter(s.dev, events[0]), events[0], k)
  {
    hide Todo, Firsts, Again, After, Fits, Left;
    assert events[1..][b - 1] == events[b] && events[1..][..b - 1] == events[1..b];
    AgainLevel(events[0], events[b]);
    OpenedAfter(c, sk, s, events[0], k);
    LevelUsedUp(c, sk, After(c, sk, s, events[0], k), events[1..], k + 1, |s.open|, b - 1);
  }

  /** Every walk is complete: between the two returns of a directory, the first returns one level
      deeper are exactly its visible entries in readdir order, or nothing if the client has skipped
      it, it is on another device and FTS_XDEV is given, or it cannot be read. */
  lemma WalkCovered(c: Config, sk: int -> bool, roots: seq<string>, a: nat, b: nat)
    requires c.batch >= 1 && Static(c.fs)
    requires var walk := WalkRoots(c, sk, roots, 0); a < |walk| && walk[a].info == FTS_D && Matches(walk, a, b)
    ensures var walk := WalkRoots(c, sk, roots, 0);
            Firsts(walk[a + 1..b], walk[a].level + 1) == Todo(c, sk, DevAt(0, walk, a), walk[a], a)
  {
    hide Matches, UsesUp, Todo, Firsts;
    WalkUsesUp(c, sk, roots, 0, 0);
    Covered(c, sk, Run(roots, 0, []), WalkRoots(c, sk, roots, 0), 0, a, b);
  }
}
