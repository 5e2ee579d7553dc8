/** What a client can rely on in the sequence of returns, whatever the hierarchy and whatever it
    answers: the laws every walk obeys, stated on the sequence alone. */
module FtsLaws {
  import opened CStrings
  import opened FileTree
  import opened FtsWalk

  ghost function Inodes(open: seq<Event>): set<Inode> { set e | e in open :: e.st }

  /** The file name of a return that is not a post-order one: an argument, or the name of an entry
      of the innermost open directory behind that directory's file name. */
  ghost predicate Named(c: Config, open: seq<Event>, e: Event) {
    open != [] ==>
      var d := open[|open| - 1];
      d.text != [] && exists name :: Lists(c, d.st, name) && e.text == Join(d.text, name)
  }

  ghost predicate Lists(c: Config, i: Inode, name: string) {
    i in c.fs.dirs && exists ent :: ent in c.fs.dirs[i] && ent.d_name == name
  }

  /** Is the directory returned at position k not to be descended into?  fts_dev is the device of the
      command-line argument it belongs to. */
  ghost predicate Closed(c: Config, sk: int -> bool, open: seq<Event>, e: Event, k: int) {
    sk(k) || (c.xdev && e.st.dev != if open == [] then e.st.dev else open[0].st.dev)
  }

  /** The laws for the returns from position k on, with the directories in `open` returned in
      pre-order and not yet again:
      every directory in pre-order is inside the open ones, is none of them, and is returned again,
      at its level and after everything inside it - at once if it is closed to the walk;
      an FTS_DC return is one of the open directories again;
      everything else is inside the open directories. */
  ghost predicate Lawful(c: Config, sk: int -> bool, open: seq<Event>, events: seq<Event>, k: int)
    decreases |events|
  {
    if events == [] then open == []
    else
      var e := events[0];
      if e.info == FTS_D then
        && e.level == |open| && e.st !in Inodes(open) && e.st in c.fs.dirs && Named(c, open, e)
        && (Closed(c, sk, open, e, k) ==> |events| > 1 && events[1] == e.(info := FTS_DP))
        && Lawful(c, sk, open + [e], events[1..], k + 1)
      else if e.info == FTS_DP || e.info == FTS_DNR then
        && open != [] && Again(open[|open| - 1], e)
        && Lawful(c, sk, open[..|open| - 1], events[1..], k + 1)
      else
        && e.level == |open| && Named(c, open, e) && e.info != FTS_ERR && e.info != FTS_INIT
        && (e.info == FTS_DC ==> e.st in Inodes(open))
        && Lawful(c, sk, open, events[1..], k + 1)
  }

  /** The second return of directory d.  Its file name may have lost a trailing slash. */
  ghost predicate Again(d: Event, e: Event) {
    && e.level == d.level && e.st == d.st
    && (e.text == d.text || (e.info == FTS_DP && e.text + "/" == d.text))
  }

  /** An entry's returns obey the laws in front of anything that does. */
  lemma {:induction false} VisitLawful(c: Config, sk: int -> bool, active: set<Inode>, dev: int, level: int,
                                       text: string,
                                       info: Info, st: Inode, k: int, open: seq<Event>, rest: seq<Event>)
    requires Static(c.fs) && c.batch >= 1 && level == |open| && active == Inodes(open)
    requires info !in {FTS_DC, FTS_DP, FTS_DNR, FTS_ERR, FTS_INIT}
    requires dev == if open == [] then st.dev else open[0].st.dev
    requires info == FTS_D ==> st in c.fs.dirs && text != []
    requires Named(c, open, Event(info, level, text, st))
    requires var v := Visit(c, sk, active, dev, level, text, info, st, k); Lawful(c, sk, open, rest, k + |v|)
    ensures Lawful(c, sk, open, Visit(c, sk, active, dev, level, text, info, st, k) + rest, k)
    decreases Budget(c, active), 0, 1
  {
    if info != FTS_D || st in active {
      LeafLawful(c, sk, active, dev, level, text, info, st, k, open, rest);
    } else if Closed(c, sk, open, Event(info, level, text, st), k) || st in c.fs.unreadable {
      ShortLawful(c, sk, active, dev, level, text, st, k, open, rest);
    } else {
      DirectoryLawful(c, sk, active, dev, level, text, st, k, open, rest);
    }
  }

  lemma LeafLawful(c: Config, sk: int -> bool, active: set<Inode>, dev: int, level: int, text: string,
                   info: Info, st: Inode, k: int, open: seq<Event>, rest: seq<Event>)
    requires c.batch >= 1 && level == |open| && active == Inodes(open)
    requires info !in {FTS_DC, FTS_DP, FTS_DNR, FTS_ERR, FTS_INIT}
    requires info != FTS_D || st in active
    requires Named(c, open, Event(info, level, text, st))
    requires var v := Visit(c, sk, active, dev, level, text, info, st, k); Lawful(c, sk, open, rest, k + |v|)
    ensures Lawful(c, sk, open, Visit(c, sk, active, dev, level, text, info, st, k) + rest, k)
  {
    hide Closed, Again, Join, Lists;
    var v := Visit(c, sk, active, dev, level, text, info, st, k);
    assert v == [v[0]] && (v + rest)[1..] == rest;
    NamedSame(c, open, Event(info, level, text, st), v[0]);
  }

  lemma ShortLawful(c: Config, sk: int -> bool, active: set<Inode>, dev: int, level: int, text: string,
                    st: Inode, k: int, open: seq<Event>, rest: seq<Event>)
    requires c.batch >= 1 && level == |open| && active == Inodes(open) && st in c.fs.dirs && st !in active && text != []
    requires dev == if open == [] then st.dev else open[0].st.dev
    requires var e := Event(FTS_D, level, text, st);
             (Closed(c, sk, open, e, k) || st in c.fs.unreadable) && Named(c, open, e)
    requires var v := Visit(c, sk, active, dev, level, text, FTS_D, st, k); Lawful(c, sk, open, rest, k + |v|)
    ensures Lawful(c, sk, open, Visit(c, sk, active, dev, level, text, FTS_D, st, k) + rest, k)
  {
    hide Named, Kids, WalkKids;
    var v := Visit(c, sk, active, dev, level, text, FTS_D, st, k);
    var e := Event(FTS_D, level, text, st);
    assert v == [e, v[1]] && Again(e, v[1]) && (Closed(c, sk, open, e, k) ==> v[1].info == FTS_DP)
           && v[1].info in {FTS_DP, FTS_DNR};
    assert (open + [e])[..|open|] == open;
    var all := v + rest;
    assert all[1..][1..] == rest && all[1..][0] == v[1];
    assert Lawful(c, sk, open + [e], all[1..], k + 1);
  }

  lemma NamedSame(c: Config, open: seq<Event>, e: Event, e': Event)
    requires Named(c, open, e) && e.text == e'.text
    ensures Named(c, open, e')
  {}

  lemma Regrouped(e: Event, w: seq<Event>, post: Event, rest: seq<Event>)
    ensures ([e] + w + [post]) + rest == [e] + (w + ([post] + rest))
  {
  }

  lemma InodesGrow(open: seq<Event>, e: Event)
    ensures Inodes(open + [e]) == Inodes(open) + {e.st}
  {
  }

  lemma {:induction false} DirectoryLawful(c: Config, sk: int -> bool, active: set<Inode>, dev: int, level: int,
                                           text: string,
                                           st: Inode, k: int, open: seq<Event>, rest: seq<Event>)
    requires c.batch >= 1 && level == |open| && active == Inodes(open) && st in c.fs.dirs && st !in active && text != []
    requires dev == if open == [] then st.dev else open[0].st.dev
    requires var e := Event(FTS_D, level, text, st);
             && !Closed(c, sk, open, e, k) && st !in c.fs.unreadable && Named(c, open, e) && Static(c.fs)
    requires var v := Visit(c, sk, active, dev, level, text, FTS_D, st, k); Lawful(c, sk, open, rest, k + |v|)
    ensures Lawful(c, sk, open, Visit(c, sk, active, dev, level, text, FTS_D, st, k) + rest, k)
    decreases Budget(c, active), 0, 0
  {
    hide Lawful, WalkKids, Kids, Named, Closed, PostText, Visit, AfterFirst, Static, Inodes;
    var e := Event(FTS_D, level, text, st);
    var open' := open + [e];
    var kids := Kids(c, c.fs.dirs[st]);
    BudgetShrinks(c, active, st);
    ClosedIs(c, sk, open, dev, e, k);
    VisitParts(c, sk, active, dev, level, text, st, k);
    var w := WalkKids(c, sk, active + {st}, dev, level + 1, text, st, kids, k + 1);
    var post := Event(FTS_DP, level, PostText(c, text, |kids|), st);
    Regrouped(e, w, post, rest);
    InodesGrow(open, e);
    PostLawful(c, sk, open, e, post, |kids|, rest, k + 1 + |w|);
    KidsListed(c, c.fs.dirs[st]);
    KidsLawful(c, sk, active + {st}, dev, level + 1, text, st, kids, k + 1, open', [post] + rest);
    PreLawful(c, sk, open, e, w + ([post] + rest), k);
  }

  lemma VisitParts(c: Config, sk: int -> bool, active: set<Inode>, dev: int, level: int, text: string, st: Inode,
                   k: int)
    requires c.batch >= 1 && st in c.fs.dirs && st !in active && text != [] && st !in c.fs.unreadable
    requires !sk(k) && !(c.xdev && st.dev != dev)
    ensures var kids := Kids(c, c.fs.dirs[st]);
            Visit(c, sk, active, dev, level, text, FTS_D, st, k)
            == [Event(FTS_D, level, text, st)]
               + WalkKids(c, sk, active + {st}, dev, level + 1, text, st, kids, k + 1)
               + [Event(FTS_DP, level, PostText(c, text, |kids|), st)]
  {
    hide WalkKids, Kids;
  }

  lemma ClosedIs(c: Config, sk: int -> bool, open: seq<Event>, dev: int, e: Event, k: int)
    requires dev == if open == [] then e.st.dev else open[0].st.dev
    ensures Closed(c, sk, open, e, k) == (sk(k) || (c.xdev && e.st.dev != dev))
  {}

  lemma PreLawful(c: Config, sk: int -> bool, open: seq<Event>, e: Event, rest: seq<Event>, k: int)
    requires e.info == FTS_D && e.level == |open| && e.st !in Inodes(open) && e.st in c.fs.dirs && Named(c, open, e)
    requires !Closed(c, sk, open, e, k)
    requires Lawful(c, sk, open + [e], rest, k + 1)
    ensures Lawful(c, sk, open, [e] + rest, k)
  {
    hide Named, Closed;
    assert ([e] + rest)[1..] == rest;
  }

  lemma PostLawful(c: Config, sk: int -> bool, open: seq<Event>, e: Event, post: Event, n: nat, rest: seq<Event>,
                   k: int)
    requires c.batch >= 1 && post == Event(FTS_DP, e.level, PostText(c, e.text, n), e.st)
    requires Lawful(c, sk, open, rest, k + 1)
    ensures Lawful(c, sk, open + [e], [post] + rest, k)
  {
    hide Named, Closed;
    var open' := open + [e];
    assert ([post] + rest)[1..] == rest && open'[..|open'| - 1] == open;
    assert Again(e, post);
  }

  /** The kids of a directory are entries of it. */
  lemma {:induction false} KidsListed(c: Config, entries: seq<DirEnt>)
    ensures forall kid | kid in Kids(c, entries) :: exists e :: e in entries && e.d_name == kid.name
  {
    if entries == [] {
    } else {
      KidsListed(c, entries[1..]);
      forall kid | kid in Kids(c, entries) ensures exists e :: e in entries && e.d_name == kid.name {
        if kid in Kids(c, entries[1..]) {
          var e :| e in entries[1..] && e.d_name == kid.name;
          assert e in entries;
        } else {
          assert entries[0] in entries && entries[0].d_name == kid.name;
        }
      }
    }
  }

  lemma NamedKid(c: Config, open: seq<Event>, i: Inode, text: string, name: string, e: Event)
    requires open != [] && open[|open| - 1].st == i && open[|open| - 1].text == text != [] && Lists(c, i, name)
    requires e.text == Join(text, name)
    ensures Named(c, open, e)
  {}

  lemma KidStatFacts(c: Config, i: Inode, kid: Kid, level: int, text: string)
    requires Static(c.fs) && text != []
    ensures var (info, st) := KidStat(c, i, kid, level);
            && info !in {FTS_DC, FTS_DP, FTS_DNR, FTS_ERR, FTS_INIT}
            && (info == FTS_D ==> st in c.fs.dirs && Join(text, kid.name) != [])
  {
    if kid.statRequired && KidStat(c, i, kid, level).0 == FTS_D {
      assert c.fs.child(i, kid.name).IsDirectory(c.Follow(level), KidStat(c, i, kid, level).1);
    }
  }

  lemma {:induction false} KidsLawful(c: Config, sk: int -> bool, active: set<Inode>, dev: int, level: int,
                                      text: string,
                                      i: Inode, kids: seq<Kid>, k: int, open: seq<Event>, rest: seq<Event>)
    requires c.batch >= 1 && level == |open| && active == Inodes(open) && open != [] && Static(c.fs)
    requires open[|open| - 1].st == i && open[|open| - 1].text == text != [] && i in c.fs.dirs && dev == open[0].st.dev
    requires forall kid | kid in kids :: Lists(c, i, kid.name)
    requires var w := WalkKids(c, sk, active, dev, level, text, i, kids, k); Lawful(c, sk, open, rest, k + |w|)
    ensures Lawful(c, sk, open, WalkKids(c, sk, active, dev, level, text, i, kids, k) + rest, k)
    decreases Budget(c, active), |kids|, 2
  {
    hide Lawful, Visit, AfterFirst, Closed, Named;
    var w := WalkKids(c, sk, active, dev, level, text, i, kids, k);
    if kids == [] {
      assert w + rest == rest;
    } else {
      var (info, st) := KidStat(c, i, kids[0], level);
      var first := Visit(c, sk, active, dev, level, Join(text, kids[0].name), info, st, k);
      var w' := WalkKids(c, sk, active, dev, level, text, i, kids[1..], k + |first|);
      assert w + rest == first + (w' + rest);
      KidsLawful(c, sk, active, dev, level, text, i, kids[1..], k + |first|, open, rest);
      NamedKid(c, open, i, text, kids[0].name, Event(info, level, Join(text, kids[0].name), st));
      KidStatFacts(c, i, kids[0], level, text);
      VisitLawful(c, sk, active, dev, level, Join(text, kids[0].name), info, st, k, open, w' + rest);
    }
  }

  /** Every walk obeys the laws, for every client. */
  lemma {:induction false} WalkLawful(c: Config, sk: int -> bool, roots: seq<string>, k: int)
    requires c.batch >= 1 && Static(c.fs)
    ensures Lawful(c, sk, [], WalkRoots(c, sk, roots, k), k)
    decreases |roots|
  {
    hide Visit, Classify, Named, Closed, Again;
    if roots == [] {
    } else {
      var (info, st) := RootStat(c, roots[0]);
      var first := Visit(c, sk, {}, st.dev, 0, roots[0], info, st, k);
      WalkLawful(c, sk, roots[1..], k + |first|);
      VisitLawful(c, sk, {}, st.dev, 0, roots[0], info, st, k, [], WalkRoots(c, sk, roots[1..], k + |first|));
    }
  }

  // ---------------------------------------------------------------- consequences

  ghost predicate Stacked(open: seq<Event>) {
    forall j | 0 <= j < |open| :: open[j].level == j && open[j].info == FTS_D
  }

  /** An open directory is returned again, and until then only what is inside it is returned. */
  lemma {:induction false} Reopened(c: Config, sk: int -> bool, open: seq<Event>, events: seq<Event>, k: int, j: nat)
    returns (b: nat)
    requires Lawful(c, sk, open, events, k) && Stacked(open) && j < |open|
    ensures b < |events| && events[b].info in {FTS_DP, FTS_DNR} && Again(open[j], events[b])
    ensures forall i | 0 <= i < b :: events[i].level > j
    decreases |events|
  {
    hide Named, Closed, Again, Inodes;
    var e := events[0];
    if e.info in {FTS_DP, FTS_DNR} && j == |open| - 1 {
      b := 0;
    } else {
      assert e.level > j by { AgainLevel(open[|open| - 1], e); }
      var open' := if e.info == FTS_D then open + [e] else if e.info in {FTS_DP, FTS_DNR} then open[..|open| - 1]
        else open;
      b := Reopened(c, sk, open', events[1..], k + 1, j);
      b := b + 1;
    }
  }

  lemma AgainLevel(d: Event, e: Event)
    ensures Again(d, e) ==> e.level == d.level
  {}

  /** The open directories after the first return. */
  lemma OpenAfter(c: Config, sk: int -> bool, open: seq<Event>, events: seq<Event>, k: int) returns (open': seq<Event>)
    requires Lawful(c, sk, open, events, k) && Stacked(open) && events != []
    ensures Lawful(c, sk, open', events[1..], k + 1) && Stacked(open')
  {
    hide Named, Again, Inodes, Closed;
    var e := events[0];
    open' := if e.info == FTS_D then open + [e] else if e.info in {FTS_DP, FTS_DNR} then open[..|open| - 1] else open;
  }

  lemma FirstBracketed(c: Config, sk: int -> bool, open: seq<Event>, events: seq<Event>, k: int) returns (b: nat)
    requires Lawful(c, sk, open, events, k) && Stacked(open) && events != [] && events[0].info == FTS_D
    ensures 0 < b < |events| && events[b].info in {FTS_DP, FTS_DNR} && Again(events[0], events[b])
    ensures forall i | 0 < i < b :: events[i].level > events[0].level
    ensures sk(k) ==> b == 1 && events[b].info == FTS_DP
  {
    hide Named, Again, Inodes;
    b := Reopened(c, sk, open + [events[0]], events[1..], k + 1, |open|);
    b := b + 1;
  }

  /** Every pre-order return is matched: by a later return of the same directory at the same level,
      with only deeper returns in between. */
  lemma {:induction false} Bracketed(c: Config, sk: int -> bool, open: seq<Event>, events: seq<Event>, k: int, a: nat)
    returns (b: nat)
    requires Lawful(c, sk, open, events, k) && Stacked(open) && a < |events| && events[a].info == FTS_D
    ensures a < b < |events| && events[b].info in {FTS_DP, FTS_DNR} && Again(events[a], events[b])
    ensures forall i | a < i < b :: events[i].level > events[a].level
    ensures sk(k + a) ==> b == a + 1 && events[b].info == FTS_DP
    decreases |events|
  {
    hide Again, Lawful, Stacked;
    if a == 0 {
      b := FirstBracketed(c, sk, open, events, k);
    } else {
      var open' := OpenAfter(c, sk, open, events, k);
      b := Bracketed(c, sk, open', events[1..], k + 1, a - 1);
      b := b + 1;
    }
  }

  /** The open directories are distinct and exist. */
  ghost predicate Slim(c: Config, open: seq<Event>) {
    |open| == |Inodes(open)| && Inodes(open) <= c.fs.dirs.Keys
  }

  lemma SlimPush(c: Config, open: seq<Event>, e: Event)
    requires Slim(c, open) && e.st !in Inodes(open) && e.st in c.fs.dirs
    ensures Slim(c, open + [e])
  {
    assert Inodes(open + [e]) == Inodes(open) + {e.st};
  }

  lemma SlimPop(c: Config, open: seq<Event>)
    requires Slim(c, open) && open != []
    ensures Slim(c, open[..|open| - 1])
  {
    var open' := open[..|open| - 1];
    assert open == open' + [open[|open| - 1]];
    assert Inodes(open) == Inodes(open') + {open[|open| - 1].st};
    InodesAtMost(open');
  }

  lemma SlimBound(c: Config, open: seq<Event>)
    requires Slim(c, open)
    ensures |open| <= |c.fs.dirs|
  {
    assert c.fs.dirs.Keys == Inodes(open) + (c.fs.dirs.Keys - Inodes(open));
  }

  lemma {:induction false} InodesAtMost(open: seq<Event>)
    ensures |Inodes(open)| <= |open|
  {
    if open == [] {
    } else {
      var open' := open[..|open| - 1];
      InodesAtMost(open');
      assert open == open' + [open[|open| - 1]];
      assert Inodes(open) == Inodes(open') + {open[|open| - 1].st};
    }
  }

  /** A walk is never deeper than there are directories: cycles are cut. */
  lemma {:induction false} DepthBounded(c: Config, sk: int -> bool, open: seq<Event>, events: seq<Event>, k: int,
                                        a: nat)
    requires Lawful(c, sk, open, events, k) && a < |events| && Slim(c, open) && Stacked(open)
    ensures events[a].level <= |c.fs.dirs|
    decreases |events|
  {
    hide Named, Closed, Slim, Inodes;
    var e := events[0];
    SlimBound(c, open);
    if a == 0 && open != [] { AgainLevel(open[|open| - 1], e); }
    if a == 0 {
    } else {
      if e.info == FTS_D {
        SlimPush(c, open, e);
        DepthBounded(c, sk, open + [e], events[1..], k + 1, a - 1);
      } else if e.info in {FTS_DP, FTS_DNR} {
        SlimPop(c, open);
        DepthBounded(c, sk, open[..|open| - 1], events[1..], k + 1, a - 1);
      } else {
        DepthBounded(c, sk, open, events[1..], k + 1, a - 1);
      }
    }
  }

  // ---------------------------------------------------------------- batches do not show

  ghost predicate BatchHidden(c: Config, text: string) {
    c.nochdir && text != [] ==> text[|text| - 1] != '/'
  }

  lemma {:induction false} KidsBatch(c: Config, b: nat, entries: seq<DirEnt>)
    ensures Kids(c.(batch := b), entries) == Kids(c, entries)
  {
    if entries == [] {
    } else {
      KidsBatch(c, b, entries[1..]);
    }
  }

  lemma {:induction false} VisitBatch(c: Config, b: nat, sk: int -> bool, active: set<Inode>, dev: int, level: int,
                                      text: string,
                                      info: Info, st: Inode, k: int)
    requires c.batch >= 1 && b >= 1 && BatchHidden(c, text) && Static(c.fs)
    ensures Visit(c.(batch := b), sk, active, dev, level, text, info, st, k)
          == Visit(c, sk, active, dev, level, text, info, st, k)
    decreases Budget(c, active), 0, 1
  {
    if info == FTS_D && st !in active && st in c.fs.dirs && text != [] && !(sk(k) || (c.xdev && st.dev != dev))
      && st !in c.fs.unreadable {
      var c' := c.(batch := b);
      var kids := Kids(c, c.fs.dirs[st]);
      KidsBatch(c, b, c.fs.dirs[st]);
      BudgetShrinks(c, active, st);
      KidsListed(c, c.fs.dirs[st]);
      VisitParts(c, sk, active, dev, level, text, st, k);
      VisitParts(c', sk, active, dev, level, text, st, k);
      KidsWalkBatch(c, b, sk, active + {st}, dev, level + 1, text, st, kids, k + 1);
    }
  }

  lemma {:induction false} KidsWalkBatch(c: Config, b: nat, sk: int -> bool, active: set<Inode>, dev: int, level: int,
                                         text: string,
                                         i: Inode, kids: seq<Kid>, k: int)
    requires c.batch >= 1 && b >= 1 && text != [] && Static(c.fs)
    requires forall kid | kid in kids :: Lists(c, i, kid.name)
    ensures WalkKids(c.(batch := b), sk, active, dev, level, text, i, kids, k)
          == WalkKids(c, sk, active, dev, level, text, i, kids, k)
    decreases Budget(c, active), |kids|, 2
  {
    hide Visit;
    if kids == [] {
    } else {
      var (info, st) := KidStat(c, i, kids[0], level);
      var t := Join(text, kids[0].name);
      assert Lists(c, i, kids[0].name);
      JoinSize(text, kids[0].name);
      VisitBatch(c, b, sk, active, dev, level, t, info, st, k);
      var first := Visit(c, sk, active, dev, level, t, info, st, k);
      KidsWalkBatch(c, b, sk, active, dev, level, text, i, kids[1..], k + |first|);
    }
  }

  /** Unless FTS_NOCHDIR meets an argument that ends in a slash, the batch size cannot be told from
      what is returned. */
  lemma {:induction false} BatchesInvisible(c: Config, b: nat, sk: int -> bool, roots: seq<string>, k: int)
    requires c.batch >= 1 && b >= 1 && Static(c.fs) && forall root | root in roots :: BatchHidden(c, root)
    ensures WalkRoots(c.(batch := b), sk, roots, k) == WalkRoots(c, sk, roots, k)
    decreases |roots|
  {
    hide Visit;
    if roots == [] {
    } else {
      var (info, st) := RootStat(c, roots[0]);
      VisitBatch(c, b, sk, {}, st.dev, 0, roots[0], info, st, k);
      var first := Visit(c, sk, {}, st.dev, 0, roots[0], info, st, k);
      BatchesInvisible(c, b, sk, roots[1..], k + |first|);
    }
  }

  /** Is the argument returned at position k entered? */
  ghost predicate Enters(c: Config, sk: int -> bool, root: string, k: int) {
    var (info, st) := RootStat(c, root);
    info == FTS_D && root != [] && st in c.fs.dirs && st !in c.fs.unreadable && !sk(k)
  }

  /** An argument that is entered and ends in a slash keeps it with both batch sizes or with neither:
      it loses it when its visible entries fill the batches. */
  ghost predicate SlashAlike(c: Config, b: nat, sk: int -> bool, root: string, k: int)
    requires c.batch >= 1 && b >= 1
  {
    Enters(c, sk, root, k) && c.nochdir && root[|root| - 1] == '/' ==>
      var n := |Kids(c, c.fs.dirs[RootStat(c, root).1])|;
      (n % c.batch == 0 <==> n % b == 0)
  }

  /** The same for every argument, each at the position of its first return. */
  ghost predicate SlashesAlike(c: Config, b: nat, sk: int -> bool, roots: seq<string>, k: int)
    requires c.batch >= 1 && b >= 1
  {
    roots != [] ==>
      && SlashAlike(c, b, sk, roots[0], k)
      && SlashesAlike(c, b, sk, roots[1..], k + |VisitRoot(c, sk, roots[0], k)|)
  }

  ghost function VisitRoot(c: Config, sk: int -> bool, root: string, k: int): seq<Event>
    requires c.batch >= 1
  {
    var (info, st) := RootStat(c, root);
    Visit(c, sk, {}, st.dev, 0, root, info, st, k)
  }

  lemma EnteredBatch(c: Config, b: nat, sk: int -> bool, root: string, k: int)
    requires c.batch >= 1 && b >= 1 && Static(c.fs) && Enters(c, sk, root, k)
    ensures var (v, v') := (VisitRoot(c, sk, root, k), VisitRoot(c.(batch := b), sk, root, k));
            |v| == |v'| && (v == v' <==> SlashAlike(c, b, sk, root, k))
  {
    hide Visit, WalkKids, Kids;
    var c' := c.(batch := b);
    var (info, st) := RootStat(c, root);
    var kids := Kids(c, c.fs.dirs[st]);
    KidsBatch(c, b, c.fs.dirs[st]);
    KidsListed(c, c.fs.dirs[st]);
    VisitParts(c, sk, {}, st.dev, 0, root, st, k);
    VisitParts(c', sk, {}, st.dev, 0, root, st, k);
    KidsWalkBatch(c, b, sk, {} + {st}, st.dev, 1, root, st, kids, k + 1);
    var w := WalkKids(c, sk, {} + {st}, st.dev, 1, root, st, kids, k + 1);
    var (e, p, p') := (Event(FTS_D, 0, root, st), PostText(c, root, |kids|), PostText(c', root, |kids|));
    LastDiffers([e] + w, Event(FTS_DP, 0, p, st), Event(FTS_DP, 0, p', st));
    assert |root[..|root| - 1]| != |root|;
  }

  lemma NotEnteredBatch(c: Config, b: nat, sk: int -> bool, root: string, k: int)
    requires c.batch >= 1 && b >= 1 && !Enters(c, sk, root, k)
    ensures VisitRoot(c.(batch := b), sk, root, k) == VisitRoot(c, sk, root, k)
  {
    hide WalkKids, Kids, PostText;
    var c' := c.(batch := b);
    assert RootStat(c', root) == RootStat(c, root);
    hide RootStat;
    var (info, st) := RootStat(c, root);
    assert AfterFirst(c', sk, {}, st.dev, 0, root, info, st, k) == AfterFirst(c, sk, {}, st.dev, 0, root, info, st, k);
  }

  lemma Splits(v: seq<Event>, v': seq<Event>, w: seq<Event>, w': seq<Event>)
    requires |v| == |v'|
    ensures v + w == v' + w' <==> v == v' && w == w'
  {
    if v + w == v' + w' {
      assert v == (v + w)[..|v|] && v' == (v' + w')[..|v|] && w == (v + w)[|v|..] && w' == (v' + w')[|v|..];
    }
  }

  /** When it can: two batch sizes give the same returns iff every argument that is entered and ends
      in a slash keeps it with both or loses it with both. */
  lemma {:induction false} BatchShowsIff(c: Config, b: nat, sk: int -> bool, roots: seq<string>, k: int)
    requires c.batch >= 1 && b >= 1 && Static(c.fs)
    ensures WalkRoots(c.(batch := b), sk, roots, k) == WalkRoots(c, sk, roots, k) <==> SlashesAlike(c, b, sk, roots, k)
    decreases |roots|
  {
    hide Visit, Enters, SlashAlike, Classify, Static;
    if roots == [] {
    } else {
      var (v, v') := (VisitRoot(c, sk, roots[0], k), VisitRoot(c.(batch := b), sk, roots[0], k));
      if Enters(c, sk, roots[0], k) {
        EnteredBatch(c, b, sk, roots[0], k);
      } else {
        NotEnteredBatch(c, b, sk, roots[0], k);
        NotEnteredAlike(c, b, sk, roots[0], k);
      }
      BatchShowsIff(c, b, sk, roots[1..], k + |v|);
      Splits(v, v', WalkRoots(c, sk, roots[1..], k + |v|), WalkRoots(c.(batch := b), sk, roots[1..], k + |v|));
    }
  }

  /** The walk of "d/", a directory with one file, shows whether batches hold one entry or two. */
  lemma BatchShows(c: Config, sk: int -> bool)
    requires c.fs == OneFile() && c.logical && c.nochdir && c.batch == 1 && !sk(0)
    ensures Static(c.fs) && WalkRoots(c.(batch := 2), sk, ["d/"], 0) != WalkRoots(c, sk, ["d/"], 0)
  {
    OneFileStatic();
    var entries := c.fs.dirs[Inode(0, 1)];
    assert RootStat(c, "d/") == (FTS_D, Inode(0, 1)) && Enters(c, sk, "d/", 0);
    assert Kids(c, entries) == [KidOf(c, entries[0])] by { assert entries[1..] == []; }
    BatchShowsIff(c, 2, sk, ["d/"], 0);
  }

  lemma NotEnteredAlike(c: Config, b: nat, sk: int -> bool, root: string, k: int)
    requires c.batch >= 1 && b >= 1 && !Enters(c, sk, root, k)
    ensures SlashAlike(c, b, sk, root, k)
  {}

  lemma OneRoot(c: Config, sk: int -> bool, root: string, k: int)
    requires c.batch >= 1
    ensures var (info, st) := RootStat(c, root);
            WalkRoots(c, sk, [root], k) == Visit(c, sk, {}, st.dev, 0, root, info, st, k)
  {
    hide Visit;
    assert [root][1..] == [];
  }

  /** The first two returns for a readable directory argument that is not empty. */
  lemma FirstTwo(c: Config, sk: int -> bool, root: string)
    requires c.batch >= 1 && Static(c.fs) && !sk(0)
    requires var (info, st) := RootStat(c, root);
             info == FTS_D && st in c.fs.dirs && st !in c.fs.unreadable && Kids(c, c.fs.dirs[st]) != []
    ensures var walk, st := WalkRoots(c, sk, [root], 0), RootStat(c, root).1;
            |walk| >= 2 && walk[0] == Event(FTS_D, 0, root, st) && walk[1].level == 1
  {
    var st := RootStat(c, root).1;
    var kids := Kids(c, c.fs.dirs[st]);
    RootNamed(c, root);
    hide Kids, RootStat, KidStat, AfterFirst, Join;
    OneRoot(c, sk, root, 0);
    VisitParts(c, sk, {}, st.dev, 0, root, st, 0);
    assert WalkKids(c, sk, {} + {st}, st.dev, 1, root, st, kids, 1)[0].level == 1;
  }

  /** A directory argument has a name. */
  lemma RootNamed(c: Config, root: string)
    requires Static(c.fs) && RootStat(c, root).0 == FTS_D
    ensures root != []
  {
    assert c.fs.at("").Stat(c.Follow(0)).Err?;
  }

  lemma LastDiffers(w: seq<Event>, e: Event, e': Event)
    ensures w + [e] == w + [e'] <==> e == e'
  {
    assert (w + [e])[|w|] == e && (w + [e'])[|w|] == e';
  }

  /** The walk of any arguments, with any client: it is bracketed, and never deeper than the number
      of directories there are. */
  lemma WalkBracketed(c: Config, sk: int -> bool, roots: seq<string>)
    requires c.batch >= 1 && Static(c.fs)
    ensures var walk := WalkRoots(c, sk, roots, 0);
            && (forall a | 0 <= a < |walk| :: walk[a].level <= |c.fs.dirs|)
            && (forall a | 0 <= a < |walk| && walk[a].info == FTS_D ::
                  exists b: nat :: Matches(walk, a, b) && (sk(a) ==> b == a + 1 && walk[b].info == FTS_DP))
  {
    var walk := WalkRoots(c, sk, roots, 0);
    WalkLawful(c, sk, roots, 0);
    forall a | 0 <= a < |walk| ensures walk[a].level <= |c.fs.dirs| {
      DepthBounded(c, sk, [], walk, 0, a);
    }
    forall a | 0 <= a < |walk| && walk[a].info == FTS_D
      ensures exists b: nat :: Matches(walk, a, b) && (sk(a) ==> b == a + 1 && walk[b].info == FTS_DP)
    {
      var b := Bracketed(c, sk, [], walk, 0, a);
      assert Matches(walk, a, b);
    }
  }

  /** The return at b is the second one of the directory returned at a. */
  ghost predicate Matches(walk: seq<Event>, a: nat, b: nat) {
    && a < b < |walk| && walk[b].info in {FTS_DP, FTS_DNR} && Again(walk[a], walk[b])
    && forall i | a < i < b :: walk[i].level > walk[a].level
  }

  /** There is only one. */
  lemma MatchIsUnique(walk: seq<Event>, a: nat, b: nat, b': nat)
    requires Matches(walk, a, b) && Matches(walk, a, b')
    ensures b == b'
  {}
}
