/** Which directory streams are open when so much of a walk has been returned: a directory is read in
    batches, and its stream is closed by the batch that comes to its end. */
module FtsLeaks {
  import opened FileTree
  import opened FtsWalk
  import opened FtsCoverage

  /** A directory that has been returned in pre-order and not again: how many visible entries it has, and how many
      of them have been returned. */
  datatype Opened = Opened(dir: Inode, visible: nat, returned: nat)

  function VisibleIn(fs: Fs, seedot: bool, i: Inode): nat {
    if i in fs.dirs then |Visible(seedot, fs.dirs[i])| else 0
  }

  /** One more entry of the innermost directory has been returned. */
  function Count(dirs: seq<Opened>): (r: seq<Opened>)
    ensures |r| == |dirs|
  {
    if dirs == [] then [] else dirs[..|dirs| - 1] + [dirs[|dirs| - 1].(returned := dirs[|dirs| - 1].returned + 1)]
  }

  function OpenAfter(fs: Fs, seedot: bool, dirs: seq<Opened>, e: Event): seq<Opened> {
    if IsFirst(e) then
      Count(dirs) + (if e.info == FTS_D then [Opened(e.st, VisibleIn(fs, seedot, e.st), 0)] else [])
    else if dirs == [] then []
    else dirs[..|dirs| - 1]
  }

  /** The open directories after some returns, the innermost last. */
  function OpenDirs(fs: Fs, seedot: bool, log: seq<Event>): seq<Opened> {
    if log == [] then [] else OpenAfter(fs, seedot, OpenDirs(fs, seedot, log[..|log| - 1]), log[|log| - 1])
  }

  /** The end of the batch that holds the r-th entry: the least multiple of b that is not below r. */
  function BatchEnd(b: nat, r: nat): (end: nat)
    requires b >= 1
    ensures r <= end < r + b
  {
    if r == 0 then 0
    else
      var end := BatchEnd(b, r - 1);
      if end >= r then end else end + b
  }

  /** It is a whole number of batches. */
  lemma {:induction false} Batches(b: nat, r: nat) returns (q: nat)
    requires b >= 1
    ensures BatchEnd(b, r) == q * b
  {
    if r == 0 {
      q := 0;
    } else {
      var q1 := Batches(b, r - 1);
      q := if BatchEnd(b, r - 1) >= r then q1 else q1 + 1;
      assert (q1 + 1) * b == q1 * b + b;
    }
  }

  /** An entry has been returned, and the batch that holds it is full: the end of the directory has not been seen. */
  predicate Unended(b: nat, d: Opened)
    requires b >= 1
  {
    d.returned >= 1 && BatchEnd(b, d.returned) <= d.visible
  }

  /** How many directories were left without their end being seen. */
  function LeftOpen(b: nat, dirs: seq<Opened>): (n: nat)
    requires b >= 1
  {
    if dirs == [] then 0 else LeftOpen(b, dirs[..|dirs| - 1]) + if Unended(b, dirs[|dirs| - 1]) then 1 else 0
  }

  // ---------------------------------------------------------------- what is in memory

  /** A directory that is being read: whether its stream is open, how many visible entries are unread, and how many
      have been read and not returned. */
  datatype Tier = Tier(dir: Inode, open: bool, unread: nat, pending: nat)

  /** A batch has been read where n visible entries were left, and its first one returned. */
  function Batch(b: nat, dir: Inode, n: nat): Tier
    requires b >= 1 && n >= 1
  {
    if n >= b then Tier(dir, true, n - b, b - 1) else Tier(dir, false, 0, n - 1)
  }

  /** Going on: in the batch, with the next one, or back up. */
  function Moved(b: nat, tiers: seq<Tier>): seq<Tier>
    requires b >= 1
  {
    if tiers == [] then []
    else
      var t := tiers[0];
      if t.pending > 0 then [t.(pending := t.pending - 1)] + tiers[1..]
      else if t.open && t.unread > 0 then [Batch(b, t.dir, t.unread)] + tiers[1..]
      else tiers[1..]
  }

  /** A directory with n visible entries is read and the walk goes down into it, or it does not. */
  function Inward(b: nat, down: bool, dir: Inode, n: nat, tiers: seq<Tier>): seq<Tier>
    requires b >= 1
  {
    if down && n >= 1 then [Batch(b, dir, n)] + tiers else tiers
  }

  /** One call of fts_read, when the last one returned this. */
  function Stepped(c: Config, info: Info, st: Inode, down: bool, tiers: seq<Tier>): seq<Tier>
    requires c.batch >= 1
  {
    if info != FTS_D then Moved(c.batch, tiers) else Inward(c.batch, down, st, VisibleIn(c.fs, c.seedot, st), tiers)
  }

  function LogTiers(c: Config, log: seq<Event>): seq<Tier>
    requires c.batch >= 1
  {
    if |log| <= 1 then []
    else
      var (d, e) := (log[|log| - 2], log[|log| - 1]);
      Stepped(c, d.info, d.st, e.level > d.level, LogTiers(c, log[..|log| - 1]))
  }

  lemma NothingReturned(c: Config)
    requires c.batch >= 1
    ensures LogTiers(c, []) == []
  {}

  // ---------------------------------------------------------------- one is the other

  function TierFor(b: nat, d: Opened): Tier
    requires b >= 1 && d.returned <= d.visible
  {
    var end := BatchEnd(b, d.returned);
    if end <= d.visible then Tier(d.dir, true, d.visible - end, end - d.returned)
    else Tier(d.dir, false, 0, d.visible - d.returned)
  }

  predicate Counted(dirs: seq<Opened>) { forall d | d in dirs :: d.returned <= d.visible }

  /** The innermost directory may not have been read yet. */
  function TiersFor(b: nat, dirs: seq<Opened>): (tiers: seq<Tier>)
    requires b >= 1 && Counted(dirs)
  {
    if dirs == [] then []
    else
      var d := dirs[|dirs| - 1];
      (if d.returned == 0 then [] else [TierFor(b, d)]) + TiersFor(b, dirs[..|dirs| - 1])
  }

  /** `open` holds the entries to come of the open directories: all of them if none has been returned, or nothing if
      the directory is not entered. */
  ghost predicate Agrees(dirs: seq<Opened>, open: seq<Frame>, entering: bool) {
    && |dirs| == |open| && Counted(dirs)
    && (forall j | 0 <= j < |dirs| ::
          && dirs[j].dir == open[j].dir.st
          && (|| |open[j].due| == dirs[j].visible - dirs[j].returned
              || (open[j].due == [] && dirs[j].returned == 0)))
    && (forall j | 0 <= j < |dirs| :: dirs[j].returned == 0 <==> entering && j == |dirs| - 1)
    && (entering ==> dirs != [])
  }

  /** The tier of one more entry. */
  lemma NextInDirectory(b: nat, d: Opened)
    requires b >= 1 && 1 <= d.returned < d.visible
    ensures Moved(b, [TierFor(b, d)]) == [TierFor(b, d.(returned := d.returned + 1))]
  {}

  lemma FirstInDirectory(b: nat, d: Opened)
    requires b >= 1 && d.returned == 0 < d.visible
    ensures TierFor(b, d.(returned := 1)) == Batch(b, d.dir, d.visible)
  {
    assert BatchEnd(b, 1) == b;
  }

  lemma NoneInDirectory(b: nat, d: Opened)
    requires b >= 1 && 1 <= d.returned == d.visible
    ensures Moved(b, [TierFor(b, d)]) == []
  {}

  lemma MovedInside(b: nat, t: Tier, tiers: seq<Tier>)
    requires b >= 1
    ensures Moved(b, [t] + tiers) == Moved(b, [t]) + tiers
  {
    assert ([t] + tiers)[1..] == tiers && [t][1..] == [];
  }

  lemma TiersPush(b: nat, dirs: seq<Opened>, d: Opened)
    requires b >= 1 && Counted(dirs) && d.returned <= d.visible
    ensures Counted(dirs + [d])
    ensures TiersFor(b, dirs + [d]) == (if d.returned == 0 then [] else [TierFor(b, d)]) + TiersFor(b, dirs)
  {
    assert (dirs + [d])[..|dirs|] == dirs;
  }

  lemma CountTiers(b: nat, dirs: seq<Opened>)
    requires b >= 1 && Counted(dirs) && dirs != [] && dirs[|dirs| - 1].returned < dirs[|dirs| - 1].visible
    ensures Counted(Count(dirs))
    ensures var top := dirs[|dirs| - 1];
            TiersFor(b, Count(dirs))
            == if top.returned == 0 then [Batch(b, top.dir, top.visible)] + TiersFor(b, dirs)
               else Moved(b, TiersFor(b, dirs))
  {
    hide TierFor, Batch, Moved, BatchEnd, TiersFor;
    var (outer, top) := (dirs[..|dirs| - 1], dirs[|dirs| - 1]);
    assert dirs == outer + [top];
    assert Counted(outer);
    TiersPush(b, outer, top);
    TiersPush(b, outer, top.(returned := top.returned + 1));
    if top.returned == 0 {
      FirstInDirectory(b, top);
    } else {
      NextInDirectory(b, top);
      MovedInside(b, TierFor(b, top), TiersFor(b, outer));
    }
  }

  /** A first return. */
  lemma FirstTiers(c: Config, dirs: seq<Opened>, s: Run, d: Event, e: Event)
    requires c.batch >= 1 && Fits(c, s, e) && IsFirst(e) && Agrees(dirs, s.open, d.info == FTS_D)
    requires d.info == FTS_D ==> d.level == |s.open| - 1 && IsOf(c, dirs, d)
    ensures Counted(OpenAfter(c.fs, c.seedot, dirs, e))
    ensures TiersFor(c.batch, OpenAfter(c.fs, c.seedot, dirs, e))
         == Stepped(c, d.info, d.st, e.level > d.level, TiersFor(c.batch, dirs))
  {
    hide VisibleIn, TierFor, Batch, BatchEnd, TiersFor, EntrySays, RootSays, InodesOf;
    if dirs == [] {
      NoTiers(c.batch);
    } else {
      CountTiers(c.batch, dirs);
    }
    if e.info == FTS_D {
      TiersPush(c.batch, Count(dirs), Opened(e.st, VisibleIn(c.fs, c.seedot, e.st), 0));
    } else {
      assert Count(dirs) + [] == Count(dirs);
    }
  }

  /** The innermost directory is the one returned last. */
  ghost predicate IsOf(c: Config, dirs: seq<Opened>, d: Event) {
    && dirs != []
    && dirs[|dirs| - 1].dir == d.st && dirs[|dirs| - 1].visible == VisibleIn(c.fs, c.seedot, d.st)
  }

  lemma NoTiers(b: nat)
    requires b >= 1
    ensures TiersFor(b, []) == [] && Moved(b, []) == []
  {}

  lemma FirstAgrees(c: Config, sk: int -> bool, dirs: seq<Opened>, s: Run, entering: bool, e: Event, k: int)
    requires c.batch >= 1 && Fits(c, s, e) && IsFirst(e) && Agrees(dirs, s.open, entering)
    ensures Agrees(OpenAfter(c.fs, c.seedot, dirs, e), After(c, sk, s, e, k).open, e.info == FTS_D)
  {
    hide Visible, EntrySays, RootSays, InodesOf, FateOf, Agrees, Opens, Entries, VisibleIn;
    var dev := if e.level == 0 then e.st.dev else s.dev;
    CountAgrees(c, dirs, s, entering, e, dev);
    if e.info == FTS_D {
      PushAgrees(c, sk, dev, Count(dirs), Taken(s, dev).open, e, k);
    } else {
      assert Count(dirs) + [] == Count(dirs) && Taken(s, dev).open + [] == Taken(s, dev).open;
    }
  }

  lemma CountAgrees(c: Config, dirs: seq<Opened>, s: Run, entering: bool, e: Event, dev: int)
    requires c.batch >= 1 && Fits(c, s, e) && IsFirst(e) && Agrees(dirs, s.open, entering)
    ensures Agrees(Count(dirs), Taken(s, dev).open, false)
  {
    hide EntrySays, RootSays, InodesOf;
  }

  lemma PushAgrees(c: Config, sk: int -> bool, dev: int, dirs: seq<Opened>, open: seq<Frame>, e: Event, k: int)
    requires Agrees(dirs, open, false)
    ensures Agrees(dirs + [Opened(e.st, VisibleIn(c.fs, c.seedot, e.st), 0)], open + [Opens(c, sk, dev, e, k)], true)
  {
    hide Visible, FateOf;
  }

  /** A second return. */
  lemma AgainTiers(c: Config, dirs: seq<Opened>, s: Run, d: Event, e: Event)
    requires c.batch >= 1 && Fits(c, s, e) && !IsFirst(e) && Agrees(dirs, s.open, d.info == FTS_D)
    requires d.info == FTS_D ==> d.level == |s.open| - 1
    ensures Counted(OpenAfter(c.fs, c.seedot, dirs, e))
    ensures TiersFor(c.batch, OpenAfter(c.fs, c.seedot, dirs, e))
         == Stepped(c, d.info, d.st, e.level > d.level, TiersFor(c.batch, dirs))
  {
    hide VisibleIn, TierFor, Batch, BatchEnd, TiersFor, Moved, Entries, LastText;
    var (outer, top) := (dirs[..|dirs| - 1], dirs[|dirs| - 1]);
    assert dirs == outer + [top] && Counted(outer);
    TiersPush(c.batch, outer, top);
    if top.returned > 0 {
      NoneInDirectory(c.batch, top);
      MovedInside(c.batch, TierFor(c.batch, top), TiersFor(c.batch, outer));
    }
  }

  lemma AgainAgrees(c: Config, sk: int -> bool, dirs: seq<Opened>, s: Run, entering: bool, e: Event, k: int)
    requires c.batch >= 1 && Fits(c, s, e) && !IsFirst(e) && Agrees(dirs, s.open, entering)
    ensures Agrees(OpenAfter(c.fs, c.seedot, dirs, e), After(c, sk, s, e, k).open, false)
  {
    hide Entries, LastText;
  }

  lemma NothingYet(b: nat)
    requires b >= 1
    ensures Agrees([], [], false) && TiersFor(b, []) == []
  {}

  /** The first return of all. */
  lemma FirstReturn(c: Config, sk: int -> bool, s: Run, e: Event)
    requires c.batch >= 1 && Fits(c, s, e) && Agrees([], s.open, false)
    ensures var (dirs, open') := (OpenAfter(c.fs, c.seedot, [], e), After(c, sk, s, e, 0).open);
            && Agrees(dirs, open', e.info == FTS_D) && TiersFor(c.batch, dirs) == []
            && (e.info == FTS_D ==> e.level == |open'| - 1 && IsOf(c, dirs, e))
  {
    hide VisibleIn, EntrySays, RootSays, InodesOf, Opens;
    FirstAgrees(c, sk, [], s, false, e, 0);
  }

  lemma StepAgrees(c: Config, sk: int -> bool, dirs: seq<Opened>, s: Run, d: Event, e: Event, k: int)
    requires c.batch >= 1 && Fits(c, s, e) && Agrees(dirs, s.open, d.info == FTS_D)
    requires d.info == FTS_D ==> d.level == |s.open| - 1 && IsOf(c, dirs, d)
    ensures var (dirs', open') := (OpenAfter(c.fs, c.seedot, dirs, e), After(c, sk, s, e, k).open);
            && Agrees(dirs', open', e.info == FTS_D)
            && TiersFor(c.batch, dirs') == Stepped(c, d.info, d.st, e.level > d.level, TiersFor(c.batch, dirs))
            && (e.info == FTS_D ==> e.level == |open'| - 1 && IsOf(c, dirs', e))
  {
    hide VisibleIn, TiersFor, Stepped, EntrySays, RootSays, InodesOf, Opens, SecondSays;
    if IsFirst(e) {
      FirstAgrees(c, sk, dirs, s, d.info == FTS_D, e, k);
      hide Agrees;
      FirstTiers(c, dirs, s, d, e);
    } else {
      AgainAgrees(c, sk, dirs, s, d.info == FTS_D, e, k);
      hide Agrees;
      AgainTiers(c, dirs, s, d, e);
    }
  }

  /** After m returns of a run that uses up everything: what is in memory is what the returns tell. */
  lemma {:induction false} TiersAre(c: Config, sk: int -> bool, s0: Run, walk: seq<Event>, m: nat)
    requires c.batch >= 1 && s0.open == [] && UsesUp(c, sk, s0, walk, 0) && m <= |walk|
    ensures UsesUp(c, sk, RunAfter(c, sk, s0, walk, m), walk[m..], m)
    ensures var (s, dirs) := (RunAfter(c, sk, s0, walk, m), OpenDirs(c.fs, c.seedot, walk[..m]));
            && Agrees(dirs, s.open, m > 0 && walk[m - 1].info == FTS_D)
            && (m > 0 && walk[m - 1].info == FTS_D ==>
                  walk[m - 1].level == |s.open| - 1 && IsOf(c, dirs, walk[m - 1]))
            && LogTiers(c, walk[..m]) == TiersFor(c.batch, dirs)
    decreases m
  {
    hide Fits, After, Stepped, OpenAfter, Agrees, TiersFor, IsOf;
    if m == 0 {
      assert walk[0..] == walk && walk[..0] == [];
      NothingYet(c.batch);
    } else {
      TiersAre(c, sk, s0, walk, m - 1);
      var s1 := RunAfter(c, sk, s0, walk, m - 1);
      var (dirs, e) := (OpenDirs(c.fs, c.seedot, walk[..m - 1]), walk[m - 1]);
      assert walk[..m][..m - 1] == walk[..m - 1] && walk[m - 1..][1..] == walk[m..];
      if m == 1 {
        assert walk[..0] == [];
        FirstReturn(c, sk, s1, e);
      } else {
        StepAgrees(c, sk, dirs, s1, walk[m - 2], e, m - 1);
      }
    }
  }

  function CountOpen(tiers: seq<Tier>): nat {
    if tiers == [] then 0 else (if tiers[0].open then 1 else 0) + CountOpen(tiers[1..])
  }

  lemma {:induction false} LeftOpenIs(b: nat, dirs: seq<Opened>)
    requires b >= 1 && Counted(dirs)
    ensures CountOpen(TiersFor(b, dirs)) == LeftOpen(b, dirs)
    decreases |dirs|
  {
    if dirs == [] {
    } else {
      var (outer, top) := (dirs[..|dirs| - 1], dirs[|dirs| - 1]);
      LeftOpenIs(b, outer);
      var tiers := TiersFor(b, outer);
      assert ([TierFor(b, top)] + tiers)[1..] == tiers && [] + tiers == tiers;
    }
  }

  lemma {:induction false} NoneLeftOpen(b: nat, dirs: seq<Opened>)
    requires b >= 1
    ensures LeftOpen(b, dirs) == 0 <==> forall d | d in dirs :: !Unended(b, d)
    decreases |dirs|
  {
    hide Unended;
    if dirs == [] {
    } else {
      var (outer, top) := (dirs[..|dirs| - 1], dirs[|dirs| - 1]);
      assert dirs == outer + [top];
      NoneLeftOpen(b, outer);
    }
  }

  /** After m returns of a walk: the streams that are open are those of the open directories whose end has not been
      seen, and after the last return there is none. */
  lemma OpenStreams(c: Config, sk: int -> bool, roots: seq<string>, m: nat)
    requires c.batch >= 1 && Static(c.fs) && m <= |WalkRoots(c, sk, roots, 0)|
    ensures var walk := WalkRoots(c, sk, roots, 0);
            && CountOpen(LogTiers(c, walk[..m])) == LeftOpen(c.batch, OpenDirs(c.fs, c.seedot, walk[..m]))
            && (m == |walk| ==> OpenDirs(c.fs, c.seedot, walk[..m]) == [])
  {
    hide WalkRoots, UsesUp, TiersFor, OpenDirs, LogTiers, CountOpen, LeftOpen, Static;
    var walk := WalkRoots(c, sk, roots, 0);
    WalkUsesUp(c, sk, roots, 0, 0);
    TiersAre(c, sk, Run(roots, 0, []), walk, m);
    LeftOpenIs(c.batch, OpenDirs(c.fs, c.seedot, walk[..m]));
    if m == |walk| {
      assert walk[m..] == [];
      AllUsedUp(c, sk, RunAfter(c, sk, Run(roots, 0, []), walk, m), m);
    }
  }

  /** What fts_accpath is relative to: where the walk began, or a directory. */
  datatype Place = Initial | In(dir: Inode)

  /** For the entry returned last. */
  function PlaceIn(c: Config, log: seq<Event>): Place
    requires c.batch >= 1
  {
    if c.nochdir || log == [] || log[|log| - 1].level == 0 || LogTiers(c, log) == [] then Initial
    else In(LogTiers(c, log)[0].dir)
  }

  /** It is the innermost directory that is open around the entry. */
  lemma PlaceIs(c: Config, sk: int -> bool, s0: Run, walk: seq<Event>, m: nat)
    requires c.batch >= 1 && s0.open == [] && UsesUp(c, sk, s0, walk, 0) && 1 <= m <= |walk|
    requires !c.nochdir && walk[m - 1].level > 0
    ensures var (s, level) := (RunAfter(c, sk, s0, walk, m), walk[m - 1].level);
            level <= |s.open| && PlaceIn(c, walk[..m]) == In(s.open[level - 1].dir.st)
  {
    hide TierFor, OpenDirs, LogTiers, Fits, After, EntrySays, RootSays;
    TiersAre(c, sk, s0, walk, m);
    TiersAre(c, sk, s0, walk, m - 1);
    var s1 := RunAfter(c, sk, s0, walk, m - 1);
    assert walk[m - 1..][0] == walk[m - 1] && Fits(c, s1, walk[m - 1]);
    LevelAfter(c, sk, s1, walk[m - 1], m - 1);
    TopTier(c.batch, OpenDirs(c.fs, c.seedot, walk[..m]), walk[m - 1].level, walk[m - 1].info == FTS_D);
  }

  lemma LevelAfter(c: Config, sk: int -> bool, s: Run, e: Event, k: int)
    requires c.batch >= 1 && Fits(c, s, e)
    ensures |After(c, sk, s, e, k).open| == e.level + if e.info == FTS_D then 1 else 0
  {
    hide EntrySays, RootSays, InodesOf, Opens, LastText, Entries;
  }

  lemma TopTier(b: nat, dirs: seq<Opened>, level: int, entering: bool)
    requires b >= 1 && Counted(dirs) && level > 0 && |dirs| == level + if entering then 1 else 0
    requires forall j | 0 <= j < |dirs| :: dirs[j].returned == 0 <==> entering && j == |dirs| - 1
    ensures TiersFor(b, dirs) != [] && TiersFor(b, dirs)[0].dir == dirs[level - 1].dir
  {
    if entering {
      var outer := dirs[..|dirs| - 1];
      assert TiersFor(b, dirs) == [] + TiersFor(b, outer);
      assert outer[|outer| - 1] == dirs[level - 1];
    }
  }

  lemma AllUsedUp(c: Config, sk: int -> bool, s: Run, k: int)
    requires c.batch >= 1 && UsesUp(c, sk, s, [], k)
    ensures s.open == []
  {}
}
