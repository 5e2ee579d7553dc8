/** What the returns of a stream say, told from the hierarchy and from the bits given to fts_open: for every return,
    which file it is for, what is said of it, and when it comes. */
module FtsTold {
  import opened FileTree
  import opened FtsWalk
  import opened FtsCoverage
  import opened FtsLeaks

  /** The directory returned at position p has not been returned again before position a. */
  ghost predicate OpenAt(log: seq<Event>, p: int, a: int) {
    0 <= p < a <= |log| && log[p].info == FTS_D && forall q | p < q < a :: log[q].level > log[p].level
  }

  /** How many first returns there are at a level from position p on and before position a. */
  ghost function Count(log: seq<Event>, level: int, p: int, a: int): (n: nat)
    requires 0 <= p <= a <= |log|
    decreases a
  {
    if a == p then 0
    else Count(log, level, p, a - 1) + if IsFirst(log[a - 1]) && log[a - 1].level == level then 1 else 0
  }

  /** The command-line argument that the return at position p belongs to. */
  ghost function RootOf(log: seq<Event>, p: int): Event
    requires 0 <= p < |log|
    decreases p
  {
    if p == 0 || (log[p].level == 0 && IsFirst(log[p])) then log[p] else RootOf(log, p - 1)
  }

  /** The client has skipped the directory returned at position p, or FTS_XDEV keeps the walk out of it. */
  ghost predicate KeptOut(o: Options, skip: int -> bool, log: seq<Event>, p: int)
    requires 0 <= p < |log|
  {
    skip(p) || (o.xdev && log[p].st.dev != RootOf(log, p).st.dev)
  }

  ghost predicate EnteredAt(fs: Fs, o: Options, skip: int -> bool, log: seq<Event>, p: int)
    requires 0 <= p < |log|
  {
    !KeptOut(o, skip, log, p) && log[p].st !in fs.unreadable
  }

  /** The entries of a directory that are returned if it is entered: all, or with FTS_SEEDOT not set all but "."
      and "..". */
  function Listing(fs: Fs, o: Options, i: Inode): (entries: seq<DirEnt>) {
    if i in fs.dirs then Visible(o.seedot, fs.dirs[i]) else []
  }

  /** A first return at level 0: the next argument. */
  ghost predicate RootTold(fs: Fs, o: Options, args: seq<string>, log: seq<Event>, a: int)
    requires 0 <= a < |log|
  {
    var n := Count(log, 0, 0, a);
    log[a].level == 0 && n < |args| && RootSays(fs, o.logical, o.comfollow, args[n], log[a])
  }

  /** A first return below: the next entry of the directory returned at position p, which has been entered. */
  ghost predicate EntryTold(fs: Fs, o: Options, skip: int -> bool, log: seq<Event>, p: int, a: int)
    requires 0 <= a < |log|
  {
    && OpenAt(log, p, a) && log[p].level == log[a].level - 1 && EnteredAt(fs, o, skip, log, p)
    && var (d, entries, n) := (log[p], Listing(fs, o, log[p].st), Count(log, log[a].level, p, a));
       && n < |entries| && d.text != [] && log[a].text == Join(d.text, entries[n].d_name)
       && EntrySays(fs, o.logical, o.nostat, d.st, entries[n], log[a])
  }

  /** A directory is returned as FTS_DC iff it is one of the open ones. */
  ghost predicate CycleTold(log: seq<Event>, a: int)
    requires 0 <= a < |log|
  {
    && (log[a].info == FTS_D ==> forall p | OpenAt(log, p, a) :: log[p].st != log[a].st)
    && (log[a].info == FTS_DC ==> exists p :: OpenAt(log, p, a) && log[p].st == log[a].st)
  }

  /** The second return of the directory returned at position p: all its entries have been returned, if it has been
      entered, and none otherwise. */
  ghost predicate AgainTold(fs: Fs, o: Options, batch: nat, skip: int -> bool, log: seq<Event>, p: int, a: int)
    requires 0 <= a < |log| && batch >= 1
  {
    && OpenAt(log, p, a) && log[a].level == log[p].level && log[a].st == log[p].st
    && log[a].info == (if !KeptOut(o, skip, log, p) && log[p].st in fs.unreadable then FTS_DNR else FTS_DP)
    && var n := |Listing(fs, o, log[p].st)|;
       if EnteredAt(fs, o, skip, log, p) then
         && Count(log, log[p].level + 1, p, a) == n
         && log[a].text == LastText(o.logical || o.nochdir, batch, log[p].text, n)
       else Count(log, log[p].level + 1, p, a) == 0 && log[a].text == log[p].text
  }

  ghost predicate ReturnTold(fs: Fs, o: Options, batch: nat, args: seq<string>, skip: int -> bool, log: seq<Event>,
                             a: int)
    requires 0 <= a < |log| && batch >= 1
  {
    if IsFirst(log[a]) then
      (RootTold(fs, o, args, log, a) || exists p :: EntryTold(fs, o, skip, log, p, a)) && CycleTold(log, a)
    else exists p :: AgainTold(fs, o, batch, skip, log, p, a)
  }

  /** Every return is what the hierarchy, the options and the client's instructions make it. */
  ghost predicate Told(fs: Fs, o: Options, batch: nat, args: seq<string>, skip: int -> bool, log: seq<Event>)
    requires batch >= 1
  {
    forall a | 0 <= a < |log| :: ReturnTold(fs, o, batch, args, skip, log, a)
  }

  /** Nothing is left to be returned. */
  ghost predicate AllTold(args: seq<string>, log: seq<Event>) {
    Count(log, 0, 0, |log|) == |args| && forall p :: !OpenAt(log, p, |log|)
  }

  // ---------------------------------------------------------------- the run, by positions

  /** Frame f is that of the directory at level j. */
  ghost predicate FrameAt(c: Config, sk: int -> bool, log: seq<Event>, m: int, f: Frame, j: int) {
    && OpenAt(log, f.at, m) && f.dir == log[f.at] && f.dir.level == j
    && f.fate == FateOf(c, sk, RootOf(log, f.at).st.dev, f.dir, f.at)
    && var all := if f.fate == Entered then Entries(c, f.dir.st) else [];
       var n := Count(log, j + 1, f.at, m);
       n <= |all| && f.due == all[n..]
  }

  ghost predicate Framed(open: seq<Frame>, log: seq<Event>, p: int)
    requires 0 <= p < |log|
  {
    0 <= log[p].level < |open| && open[log[p].level].at == p
  }

  /** Run s is the one after m returns. */
  ghost predicate RunAt(c: Config, sk: int -> bool, args: seq<string>, log: seq<Event>, m: int, s: Run) {
    && 0 <= m <= |log| && Count(log, 0, 0, m) <= |args| && s.roots == args[Count(log, 0, 0, m)..]
    && (if m > 0 then s.dev == RootOf(log, m - 1).st.dev else s.open == [])
    && (forall j | 0 <= j < |s.open| :: FrameAt(c, sk, log, m, s.open[j], j))
    && (forall p | OpenAt(log, p, m) :: Framed(s.open, log, p))
  }

  lemma StartAt(c: Config, sk: int -> bool, args: seq<string>, log: seq<Event>)
    ensures RunAt(c, sk, args, log, 0, Run(args, 0, []))
  {}

  lemma FirstCounts(log: seq<Event>, level: int, p: int, m: int)
    requires 0 <= p <= m < |log|
    ensures Count(log, level, p, m + 1)
         == Count(log, level, p, m) + if IsFirst(log[m]) && log[m].level == level then 1 else 0
  {}

  /** A frame that e leaves alone, at a level above e's directory. */
  lemma FrameStays(c: Config, sk: int -> bool, log: seq<Event>, m: int, f: Frame, j: int)
    requires FrameAt(c, sk, log, m, f, j) && m < |log| && log[m].level > j
    requires !(IsFirst(log[m]) && log[m].level == j + 1)
    ensures FrameAt(c, sk, log, m + 1, f, j)
  {
    hide FateOf, Entries, RootOf;
    FirstCounts(log, j + 1, f.at, m);
  }

  lemma FrameTaken(c: Config, sk: int -> bool, log: seq<Event>, m: int, f: Frame, j: int)
    requires FrameAt(c, sk, log, m, f, j) && m < |log| && log[m].level == j + 1 && IsFirst(log[m]) && f.due != []
    ensures FrameAt(c, sk, log, m + 1, f.(due := f.due[1..]), j)
  {
    hide FateOf, Entries, RootOf;
    FirstCounts(log, j + 1, f.at, m);
  }

  lemma FrameOpens(c: Config, sk: int -> bool, log: seq<Event>, m: int)
    requires 0 <= m < |log| && log[m].info == FTS_D
    ensures var f := Opens(c, sk, RootOf(log, m).st.dev, log[m], m);
            f.at == m && FrameAt(c, sk, log, m + 1, f, log[m].level)
  {
    hide FateOf, Entries, RootOf;
    FirstCounts(log, log[m].level + 1, m, m);
  }

  /** Who is open after a first return. */
  lemma OpenAfterFirst(log: seq<Event>, m: int, p: int)
    requires 0 <= m < |log| && IsFirst(log[m]) && OpenAt(log, p, m + 1)
    ensures p == m || (OpenAt(log, p, m) && log[m].level > log[p].level)
  {}

  lemma RootAfter(log: seq<Event>, m: int, dev: int)
    requires 0 <= m < |log| && (m > 0 ==> dev == RootOf(log, m - 1).st.dev)
    requires m == 0 ==> log[m].level == 0 && IsFirst(log[m])
    ensures RootOf(log, m).st.dev == if log[m].level == 0 && IsFirst(log[m]) then log[m].st.dev else dev
  {}

  /** A first return: the run goes on. */
  lemma FirstRunAt(c: Config, sk: int -> bool, args: seq<string>, log: seq<Event>, m: int, s: Run)
    requires c.batch >= 1 && RunAt(c, sk, args, log, m, s) && m < |log| && Fits(c, s, log[m]) && IsFirst(log[m])
    ensures RunAt(c, sk, args, log, m + 1, After(c, sk, s, log[m], m))
  {
    hide FateOf, Entries, RootOf, EntrySays, RootSays, InodesOf, Opens, FrameAt;
    var e := log[m];
    var s' := After(c, sk, s, e, m);
    RootAfter(log, m, s.dev);
    FirstCounts(log, 0, 0, m);
    if e.info == FTS_D { FrameOpens(c, sk, log, m); }
    forall j | 0 <= j < |s'.open| ensures FrameAt(c, sk, log, m + 1, s'.open[j], j) {
      if j < |s.open| - 1 {
        FrameStays(c, sk, log, m, s.open[j], j);
      } else if j == |s.open| - 1 {
        FrameTaken(c, sk, log, m, s.open[j], j);
      }
    }
    forall p | OpenAt(log, p, m + 1) ensures Framed(s'.open, log, p) {
      OpenAfterFirst(log, m, p);
      if p < m { assert Framed(s.open, log, p); }
    }
  }

  /** A second return: the innermost directory is done. */
  lemma AgainRunAt(c: Config, sk: int -> bool, args: seq<string>, log: seq<Event>, m: int, s: Run)
    requires c.batch >= 1 && RunAt(c, sk, args, log, m, s) && m < |log| && Fits(c, s, log[m]) && !IsFirst(log[m])
    ensures RunAt(c, sk, args, log, m + 1, After(c, sk, s, log[m], m))
  {
    hide FateOf, Entries, RootOf, InodesOf, FrameAt, LastText;
    var e := log[m];
    var s' := After(c, sk, s, e, m);
    RootAfter(log, m, s.dev);
    FirstCounts(log, 0, 0, m);
    forall j | 0 <= j < |s'.open| ensures FrameAt(c, sk, log, m + 1, s'.open[j], j) {
      FrameStays(c, sk, log, m, s.open[j], j);
    }
    forall p | OpenAt(log, p, m + 1) ensures Framed(s'.open, log, p) {
      assert OpenAt(log, p, m) && e.level > log[p].level;
      assert Framed(s.open, log, p);
    }
  }

  /** What fits the run is what is told. */
  lemma FirstTold(fs: Fs, o: Options, batch: nat, args: seq<string>, sk: int -> bool, log: seq<Event>, m: int, s: Run)
    requires var c := o.Settle(fs, batch);
             batch >= 1 && RunAt(c, sk, args, log, m, s) && m < |log| && Fits(c, s, log[m]) && IsFirst(log[m])
    ensures ReturnTold(fs, o, batch, args, sk, log, m)
  {
    hide RootOf, EntrySays, RootSays, InodesOf, Visible;
    var c := o.Settle(fs, batch);
    CycleIs(c, sk, args, log, m, s);
    if s.open == [] {
      assert RootTold(fs, o, args, log, m);
    } else {
      var d := s.Top();
      assert FrameAt(c, sk, log, m, d, |s.open| - 1);
      assert EntryTold(fs, o, sk, log, d.at, m);
    }
  }

  lemma CycleIs(c: Config, sk: int -> bool, args: seq<string>, log: seq<Event>, m: int, s: Run)
    requires c.batch >= 1 && RunAt(c, sk, args, log, m, s) && m < |log| && Fits(c, s, log[m]) && IsFirst(log[m])
    ensures CycleTold(log, m)
  {
    hide RunAt, EntrySays, RootSays, InodesOf, OpenAt;
    OpenInodes(c, sk, args, log, m, s);
  }

  /** The inodes of the frames are those of the open directories. */
  lemma OpenInodes(c: Config, sk: int -> bool, args: seq<string>, log: seq<Event>, m: int, s: Run)
    requires RunAt(c, sk, args, log, m, s)
    ensures forall p | OpenAt(log, p, m) :: 0 <= p < |log| && log[p].st in InodesOf(s.open)
    ensures forall i | i in InodesOf(s.open) :: exists p :: OpenAt(log, p, m) && log[p].st == i
  {
    hide FrameAt, OpenAt, Count, RootOf;
    forall p | OpenAt(log, p, m) ensures 0 <= p < |log| && log[p].st in InodesOf(s.open) {
      OpenBounds(log, p, m);
      assert Framed(s.open, log, p);
      FrameFacts(c, sk, log, m, s.open[log[p].level], log[p].level);
      assert s.open[log[p].level] in s.open;
    }
    forall i | i in InodesOf(s.open) ensures exists p :: OpenAt(log, p, m) && log[p].st == i {
      var f :| f in s.open && f.dir.st == i;
      var j :| 0 <= j < |s.open| && s.open[j] == f;
      FrameFacts(c, sk, log, m, f, j);
      OpenBounds(log, f.at, m);
    }
  }

  lemma SecondTold(fs: Fs, o: Options, batch: nat, args: seq<string>, sk: int -> bool, log: seq<Event>, m: int, s: Run)
    requires var c := o.Settle(fs, batch);
             batch >= 1 && RunAt(c, sk, args, log, m, s) && m < |log| && Fits(c, s, log[m]) && !IsFirst(log[m])
    ensures ReturnTold(fs, o, batch, args, sk, log, m)
  {
    hide RootOf, Visible, LastText, FrameAt, AgainTold;
    var c := o.Settle(fs, batch);
    var d := s.Top();
    assert FrameAt(c, sk, log, m, d, |s.open| - 1);
    FrameTold(fs, o, batch, sk, log, m, d, |s.open| - 1);
  }

  lemma FrameTold(fs: Fs, o: Options, batch: nat, sk: int -> bool, log: seq<Event>, m: int, d: Frame, j: int)
    requires batch >= 1 && 0 <= m < |log|
    requires var c := o.Settle(fs, batch); FrameAt(c, sk, log, m, d, j) && SecondSays(c, d, j, log[m])
    ensures AgainTold(fs, o, batch, sk, log, d.at, m)
  {
    hide RootOf, Entries, Listing, LastText, Count, OpenAt, FateOf, KeptOut, FrameAt;
    FrameFacts(o.Settle(fs, batch), sk, log, m, d, j);
    OpenBounds(log, d.at, m);
    SameListing(fs, o, batch, d.dir.st);
    FateIs(fs, o, batch, sk, log, d.at);
  }

  lemma FrameFacts(c: Config, sk: int -> bool, log: seq<Event>, m: int, f: Frame, j: int)
    requires FrameAt(c, sk, log, m, f, j)
    ensures OpenAt(log, f.at, m) && f.dir == log[f.at] && f.dir.level == j
    ensures f.fate == FateOf(c, sk, RootOf(log, f.at).st.dev, f.dir, f.at)
    ensures |f.due| + Count(log, j + 1, f.at, m) == if f.fate == Entered then |Entries(c, f.dir.st)| else 0
  {
    hide RootOf, Entries, FateOf, Count;
  }

  lemma SameListing(fs: Fs, o: Options, batch: nat, i: Inode)
    ensures Entries(o.Settle(fs, batch), i) == Listing(fs, o, i)
  {
    hide Visible;
  }

  lemma FateIs(fs: Fs, o: Options, batch: nat, sk: int -> bool, log: seq<Event>, p: int)
    requires 0 <= p < |log|
    ensures var fate := FateOf(o.Settle(fs, batch), sk, RootOf(log, p).st.dev, log[p], p);
            && (fate == Turned <==> KeptOut(o, sk, log, p))
            && (fate == Unreadable <==> !KeptOut(o, sk, log, p) && log[p].st in fs.unreadable)
  {
    hide RootOf;
  }

  /** The run after m returns of a walk. */
  lemma {:induction false} RunOf(fs: Fs, o: Options, batch: nat, args: seq<string>, sk: int -> bool, walk: seq<Event>,
                                 m: int)
    requires var c := o.Settle(fs, batch);
             batch >= 1 && UsesUp(c, sk, Run(args, 0, []), walk, 0) && 0 <= m <= |walk|
    ensures var c := o.Settle(fs, batch);
            var s := RunAfter(c, sk, Run(args, 0, []), walk, m);
            RunAt(c, sk, args, walk, m, s) && UsesUp(c, sk, s, walk[m..], m)
    ensures forall a | 0 <= a < m :: ReturnTold(fs, o, batch, args, sk, walk, a)
    decreases m
  {
    hide RunAt, Fits, After, ReturnTold;
    var c := o.Settle(fs, batch);
    if m == 0 {
      StartAt(c, sk, args, walk);
      assert walk[0..] == walk;
    } else {
      RunOf(fs, o, batch, args, sk, walk, m - 1);
      var s1 := RunAfter(c, sk, Run(args, 0, []), walk, m - 1);
      assert walk[m - 1..][1..] == walk[m..] && walk[m - 1..][0] == walk[m - 1];
      if IsFirst(walk[m - 1]) {
        FirstRunAt(c, sk, args, walk, m - 1, s1);
        FirstTold(fs, o, batch, args, sk, walk, m - 1, s1);
      } else {
        AgainRunAt(c, sk, args, walk, m - 1, s1);
        SecondTold(fs, o, batch, args, sk, walk, m - 1, s1);
      }
    }
  }

  // ---------------------------------------------------------------- prefixes

  lemma {:induction false} CountPrefix(log: seq<Event>, m: int, level: int, p: int, a: int)
    requires 0 <= p <= a <= m <= |log|
    ensures Count(log[..m], level, p, a) == Count(log, level, p, a)
    decreases a
  {
    if a == p {
    } else {
      CountPrefix(log, m, level, p, a - 1);
    }
  }

  lemma {:induction false} RootPrefix(log: seq<Event>, m: int, p: int)
    requires 0 <= p < m <= |log|
    ensures RootOf(log[..m], p) == RootOf(log, p)
    decreases p
  {
    if p == 0 || (log[p].level == 0 && IsFirst(log[p])) {
    } else {
      RootPrefix(log, m, p - 1);
    }
  }

  lemma OpenPrefix(log: seq<Event>, m: int, p: int, a: int)
    requires 0 <= a <= m <= |log|
    ensures OpenAt(log[..m], p, a) <==> OpenAt(log, p, a)
  {
    var l := log[..m];
    if OpenAt(l, p, a) {
      forall q | p < q < a ensures log[q].level > log[p].level { assert l[q].level > l[p].level; }
    }
  }

  lemma TurnPrefix(o: Options, skip: int -> bool, log: seq<Event>, m: int, p: int)
    requires 0 <= p < m <= |log|
    ensures KeptOut(o, skip, log[..m], p) == KeptOut(o, skip, log, p)
  {
    hide RootOf;
    RootPrefix(log, m, p);
  }

  lemma CyclePrefix(log: seq<Event>, m: int, a: int)
    requires 0 <= a < m <= |log| && CycleTold(log, a)
    ensures CycleTold(log[..m], a)
  {
    hide OpenAt;
    forall p ensures OpenAt(log[..m], p, a) <==> OpenAt(log, p, a) { OpenPrefix(log, m, p, a); }
    forall p | OpenAt(log, p, a) ensures 0 <= p < a { OpenBounds(log, p, a); }
  }

  lemma OpenBounds(log: seq<Event>, p: int, a: int)
    requires OpenAt(log, p, a)
    ensures 0 <= p < a <= |log|
  {}

  lemma ToldPrefix(fs: Fs, o: Options, batch: nat, args: seq<string>, skip: int -> bool, log: seq<Event>, m: int,
                   a: int)
    requires batch >= 1 && 0 <= a < m <= |log| && ReturnTold(fs, o, batch, args, skip, log, a)
    ensures ReturnTold(fs, o, batch, args, skip, log[..m], a)
  {
    hide OpenAt, Count, RootOf, CycleTold, EntrySays, RootSays, Listing, LastText, KeptOut;
    var l := log[..m];
    if IsFirst(log[a]) {
      CyclePrefix(log, m, a);
      if RootTold(fs, o, args, log, a) {
        CountPrefix(log, m, 0, 0, a);
        assert RootTold(fs, o, args, l, a);
      } else {
        var p :| EntryTold(fs, o, skip, log, p, a);
        OpenBounds(log, p, a);
        OpenPrefix(log, m, p, a);
        TurnPrefix(o, skip, log, m, p);
        CountPrefix(log, m, log[a].level, p, a);
        assert EntryTold(fs, o, skip, l, p, a);
      }
    } else {
      var p :| AgainTold(fs, o, batch, skip, log, p, a);
      OpenBounds(log, p, a);
      OpenPrefix(log, m, p, a);
      TurnPrefix(o, skip, log, m, p);
      CountPrefix(log, m, log[p].level + 1, p, a);
      assert AgainTold(fs, o, batch, skip, l, p, a);
    }
  }

  /** Every walk, as far as it has been read: each return is told by the hierarchy, the bits given to fts_open, the
      arguments and the client's instructions, and a whole walk leaves nothing out. */
  lemma WalkTold(fs: Fs, o: Options, batch: nat, args: seq<string>, skip: int -> bool, m: nat)
    requires batch >= 1 && Static(fs) && m <= |WalkRoots(o.Settle(fs, batch), skip, args, 0)|
    ensures var walk := WalkRoots(o.Settle(fs, batch), skip, args, 0);
            Told(fs, o, batch, args, skip, walk[..m]) && (m == |walk| ==> AllTold(args, walk))
  {
    hide ReturnTold, UsesUp, RunAt, Static;
    var c := o.Settle(fs, batch);
    var walk := WalkRoots(c, skip, args, 0);
    WalkUsesUp(c, skip, args, 0, 0);
    RunOf(fs, o, batch, args, skip, walk, m);
    forall a | 0 <= a < m ensures ReturnTold(fs, o, batch, args, skip, walk[..m], a) {
      ToldPrefix(fs, o, batch, args, skip, walk, m, a);
    }
    if m == |walk| {
      assert walk[m..] == [];
      NothingLeft(c, skip, args, walk, RunAfter(c, skip, Run(args, 0, []), walk, m));
    }
  }

  /** Every return of a whole walk, and no more. */
  ghost predicate AllToldOf(fs: Fs, o: Options, batch: nat, args: seq<string>, skip: int -> bool, walk: seq<Event>)
    requires batch >= 1
  {
    Told(fs, o, batch, args, skip, walk) && AllTold(args, walk)
  }

  lemma WholeWalkTold(fs: Fs, o: Options, batch: nat, args: seq<string>, skip: int -> bool)
    requires batch >= 1 && Static(fs)
    ensures AllToldOf(fs, o, batch, args, skip, WalkRoots(o.Settle(fs, batch), skip, args, 0))
  {
    hide Told, AllTold, WalkRoots, Static;
    var walk := WalkRoots(o.Settle(fs, batch), skip, args, 0);
    WalkTold(fs, o, batch, args, skip, |walk|);
    assert walk[..|walk|] == walk;
  }

  lemma NothingLeft(c: Config, sk: int -> bool, args: seq<string>, walk: seq<Event>, s: Run)
    requires c.batch >= 1 && RunAt(c, sk, args, walk, |walk|, s) && UsesUp(c, sk, s, [], |walk|)
    ensures AllTold(args, walk)
  {
    hide Count, FrameAt;
  }

  // ---------------------------------------------------------------- beside the returns

  /** Why the object could not be looked at, or the directory not be read: fts_errno. */
  function Reason(fs: Fs, o: Options, e: Event): int {
    if e.info == FTS_NS then
      var found := fs.at(e.text).Stat(o.logical || (o.comfollow && e.level == 0));
      if found.Err? then found.errno else 0
    else if e.info == FTS_DNR && e.st in fs.unreadable then fs.unreadable[e.st]
    else 0
  }

  ghost predicate ErrnosTold(fs: Fs, o: Options, log: seq<Event>, errnos: seq<int>) {
    |errnos| == |log| && forall a | 0 <= a < |log| :: errnos[a] == Reason(fs, o, log[a])
  }

  /** Where fts_cwd_fd is at each return: with FTS_NOCHDIR or FTS_LOGICAL where the walk began, otherwise in the
      directory that lists the entry. */
  ghost predicate PlacesTold(o: Options, log: seq<Event>, places: seq<Place>) {
    |places| == |log| && forall a | 0 <= a < |log| :: PlaceTold(o, log, a, places[a])
  }

  ghost predicate PlaceTold(o: Options, log: seq<Event>, a: int, place: Place)
    requires 0 <= a < |log|
  {
    if o.logical || o.nochdir || log[a].level == 0 then place == Initial
    else exists p :: OpenAt(log, p, a) && log[p].level == log[a].level - 1 && place == In(log[p].st)
  }

  lemma PlacesAre(fs: Fs, o: Options, batch: nat, args: seq<string>, skip: int -> bool, m: nat, places: seq<Place>)
    requires batch >= 1 && Static(fs) && m <= |WalkRoots(o.Settle(fs, batch), skip, args, 0)| && |places| == m
    requires var walk := WalkRoots(o.Settle(fs, batch), skip, args, 0);
             forall a | 0 <= a < m :: places[a] == PlaceIn(o.Settle(fs, batch), walk[..a + 1])
    ensures PlacesTold(o, WalkRoots(o.Settle(fs, batch), skip, args, 0)[..m], places)
  {
    hide UsesUp, Static, PlaceIn, PlaceTold;
    var c := o.Settle(fs, batch);
    var walk := WalkRoots(c, skip, args, 0);
    WalkUsesUp(c, skip, args, 0, 0);
    forall a | 0 <= a < m ensures PlaceTold(o, walk[..m], a, places[a]) {
      OnePlace(fs, o, batch, args, skip, walk, m, a);
    }
  }

  lemma OnePlace(fs: Fs, o: Options, batch: nat, args: seq<string>, skip: int -> bool, walk: seq<Event>, m: nat, a: nat)
    requires var c := o.Settle(fs, batch); batch >= 1 && UsesUp(c, skip, Run(args, 0, []), walk, 0)
    requires a < m <= |walk|
    ensures PlaceTold(o, walk[..m], a, PlaceIn(o.Settle(fs, batch), walk[..a + 1]))
  {
    hide UsesUp, LogTiers, RunAt, ReturnTold;
    var c := o.Settle(fs, batch);
    if !c.nochdir && walk[a].level != 0 {
      var s := RunAfter(c, skip, Run(args, 0, []), walk, a + 1);
      RunOf(fs, o, batch, args, skip, walk, a + 1);
      LevelAtLeast(c, skip, args, walk, a);
      PlaceIs(c, skip, Run(args, 0, []), walk, a + 1);
      var f := s.open[walk[a].level - 1];
      FrameOf(c, skip, args, walk, a + 1, s, walk[a].level - 1);
      OpenPrefix(walk, m, f.at, a);
      assert walk[..m][f.at] == walk[f.at];
    }
  }

  lemma FrameOf(c: Config, sk: int -> bool, args: seq<string>, log: seq<Event>, m: int, s: Run, j: int)
    requires RunAt(c, sk, args, log, m, s) && 0 <= j < |s.open| && m >= 1 && log[m - 1].level == j + 1
    ensures var f := s.open[j]; OpenAt(log, f.at, m - 1) && f.dir == log[f.at] && f.dir.level == j
  {
    hide RootOf, Count;
    assert FrameAt(c, sk, log, m, s.open[j], j);
  }

  lemma LevelAtLeast(c: Config, sk: int -> bool, args: seq<string>, walk: seq<Event>, a: nat)
    requires c.batch >= 1 && UsesUp(c, sk, Run(args, 0, []), walk, 0) && a < |walk|
    ensures walk[a].level >= 0
  {
    hide Fits, After;
    TiersAre(c, sk, Run(args, 0, []), walk, a);
    var s := RunAfter(c, sk, Run(args, 0, []), walk, a);
    assert walk[a..][0] == walk[a] && Fits(c, s, walk[a]);
    LevelAfter(c, sk, s, walk[a], a);
    LevelFits(c, s, walk[a]);
  }

  lemma LevelFits(c: Config, s: Run, e: Event)
    requires c.batch >= 1 && Fits(c, s, e)
    ensures e.level >= 0
  {
    hide EntrySays, RootSays, InodesOf, LastText, Entries;
  }
}
