/** The directories that are being read, as the heap of entries has them. */
module FtsTiers {
  import opened FileTree
  import opened FtsWalk
  import opened FtsHeap
  import opened FtsLeaks
  import opened FtsSteps

  ghost function TierAt(c: Config, mem: Mem, ls: Levels): Tier
    requires ls.Below?
  {
    var d := At(mem, ls.dir);
    Tier(d.fts_statp, d.fts_dirp.Stream?, |Unread(c, d.fts_dirp)|, |PendingKids(mem, ls.sibs)|)
  }

  /** Innermost first. */
  ghost function Tiers(c: Config, mem: Mem, ls: Levels): (tiers: seq<Tier>)
    ensures ls.Roots? ==> tiers == []
  {
    if ls.Roots? then [] else [TierAt(c, mem, ls)] + Tiers(c, mem, ls.outer)
  }

  lemma {:induction false} TiersFrame(c: Config, mem: Mem, mem': Mem, ls: Levels)
    requires ls.Ptrs() <= mem.Keys && Agree(mem, mem', ls.Ptrs())
    ensures Tiers(c, mem', ls) == Tiers(c, mem, ls)
    decreases ls
  {
    hide Unread, PendingKids;
    if ls.Roots? {
    } else {
      assert ls.dir in ls.Ptrs();
      PendingFrame(mem, mem', ls.sibs);
      TiersFrame(c, mem, mem', ls.outer);
    }
  }

  /** Each open stream has its own descriptor. */
  lemma {:induction false} StreamCount(c: Config, mem: Mem, ls: Levels)
    requires StreamsApart(mem, ls)
    ensures |Streams(mem, ls)| == CountOpen(Tiers(c, mem, ls))
    decreases ls
  {
    hide Unread, PendingKids;
    if ls.Roots? {
    } else {
      StreamCount(c, mem, ls.outer);
      var (t, tiers) := (TierAt(c, mem, ls), Tiers(c, mem, ls.outer));
      assert ([t] + tiers)[1..] == tiers;
      if t.open {
        assert |StreamFd(At(mem, ls.dir).fts_dirp) + Streams(mem, ls.outer)| == 1 + |Streams(mem, ls.outer)|;
      }
    }
  }

  lemma TailPtrsIn(ls: Levels)
    requires ls.sibs != []
    ensures Tail(ls).Ptrs() <= ls.Ptrs()
  {}

  lemma OuterPtrsIn(ls: Levels)
    requires ls.Below?
    ensures ls.outer.Ptrs() <= ls.Ptrs()
  {}

  lemma NoTiersAtTop(c: Config, mem: Mem, ls: Levels)
    requires c.batch >= 1 && ls.Roots?
    ensures Tiers(c, mem, ls) == [] == Moved(c.batch, [])
  {}

  lemma OneDown(ls: Levels)
    requires ls.Below?
    ensures ls.Level() == ls.outer.Level() + 1
  {}

  /** The first entry of the level has been taken. */
  lemma TakenTiers(c: Config, mem: Mem, mem': Mem, ls: Levels)
    requires c.batch >= 1 && ls.sibs != [] && ls.Ptrs() <= mem.Keys && Agree(mem, mem', Tail(ls).Ptrs())
    ensures ls.Roots? || At(mem, ls.sibs[0]).fts_instr != FTS_SKIP ==>
              Tiers(c, mem', Tail(ls)) == Moved(c.batch, Tiers(c, mem, ls))
    ensures ls.Below? && At(mem, ls.sibs[0]).fts_instr == FTS_SKIP ==> Tiers(c, mem', Tail(ls)) == Tiers(c, mem, ls)
  {
    hide Unread, Levels.Ptrs;
    TailPtrsIn(ls);
    TiersFrame(c, mem, mem', Tail(ls));
    if ls.Below? {
      var tiers := Tiers(c, mem, ls.outer);
      assert ([TierAt(c, mem, ls)] + tiers)[1..] == tiers;
    }
  }

  /** A batch has been read and its first entry taken. */
  lemma BuiltTiers(c: Config, mem0: Mem, mem: Mem, mem': Mem, ls0: Levels, ls: Levels, extra: set<Ptr>)
    requires c.batch >= 1 && Carried(mem0, mem, ls0, extra) && ls0.Ptrs() <= mem0.Keys && ls == WithSibs(ls0, ls.sibs)
    requires ls.Ptrs() <= mem.Keys && 1 <= |ls.sibs| == |PendingKids(mem, ls.sibs)| <= c.batch
    requires PendingKids(mem, ls.sibs) + Unread(c, mem[ls.dir].fts_dirp) == Unread(c, mem0[ls.dir].fts_dirp)
    requires mem[ls.dir].fts_dirp.Stream? <==> |ls.sibs| == c.batch
    requires Agree(mem, mem', Tail(ls).Ptrs())
    ensures var n := |Unread(c, mem0[ls.dir].fts_dirp)|;
            && n >= 1
            && Tiers(c, mem', Tail(ls)) == [Batch(c.batch, mem0[ls.dir].fts_statp, n)] + Tiers(c, mem0, ls0.outer)
  {
    hide Unread, Levels.Ptrs, PendingKids;
    TailPtrsIn(ls);
    OuterPtrsIn(ls0);
    TiersFrame(c, mem, mem', Tail(ls));
    TiersFrame(c, mem0, mem, ls0.outer);
    NothingUnread(c, mem[ls.dir].fts_dirp);
    OneLess(mem, ls.sibs);
    assert TierAt(c, mem, Tail(ls)) == Batch(c.batch, mem0[ls.dir].fts_statp, |Unread(c, mem0[ls.dir].fts_dirp)|);
  }

  lemma NothingUnread(c: Config, d: Dirp)
    ensures d == NoStream ==> Unread(c, d) == []
  {}

  lemma OneLess(mem: Mem, sibs: seq<Ptr>)
    requires sibs != [] && |PendingKids(mem, sibs)| == |sibs|
    ensures |PendingKids(mem, sibs[1..])| == |sibs| - 1
  {
    NoneSkipped(mem, sibs);
  }

  /** A level that has nothing left is gone. */
  lemma ClosedTiers(c: Config, mem: Mem, mem': Mem, ls: Levels)
    requires c.batch >= 1 && ls.Below? && ls.sibs == [] && ls.Ptrs() <= mem.Keys && Agree(mem, mem', ls.outer.Ptrs())
    requires Unread(c, At(mem, ls.dir).fts_dirp) == []
    ensures Tiers(c, mem', ls.outer) == Moved(c.batch, Tiers(c, mem, ls)) == Tiers(c, mem, ls.outer)
  {
    hide Unread, Levels.Ptrs;
    OuterPtrsIn(ls);
    TiersFrame(c, mem, mem', ls.outer);
    var tiers := Tiers(c, mem, ls.outer);
    assert ([TierAt(c, mem, ls)] + tiers)[1..] == tiers;
  }

  /** At the end of a batch the next one is read. */
  lemma NextBatchTiers(c: Config, mem: Mem, ls: Levels)
    requires c.batch >= 1 && ls.Below? && ls.sibs == [] && At(mem, ls.dir).fts_dirp.Stream?
    requires |Unread(c, At(mem, ls.dir).fts_dirp)| >= 1
    ensures Moved(c.batch, Tiers(c, mem, ls))
         == [Batch(c.batch, At(mem, ls.dir).fts_statp, |Unread(c, At(mem, ls.dir).fts_dirp)|)]
            + Tiers(c, mem, ls.outer)
  {
    hide Unread;
    var tiers := Tiers(c, mem, ls.outer);
    assert ([TierAt(c, mem, ls)] + tiers)[1..] == tiers;
  }
}
