/** The virtual working directory of FTS_CWDFD: fts_cwd_fd, the ring of parent descriptors, and the
    table of open descriptors they have to account for. */
module FtsCwd {
  import opened CStrings
  import opened FileTree
  import opened FtsWalk
  import opened DescriptorRing

  const AT_FDCWD := -100

  /** The descriptors that fts_cwd_fd and the ring hold. */
  ghost function Held(cwd: int, items: seq<int>): set<int> {
    (set fd | fd in items && fd >= 0) + (if cwd >= 0 then {cwd} else {})
  }

  /** The j-th ring item stands for the (j+1)-th directory out from the working directory; the
      outermost one is the directory the traversal was started in. */
  ghost predicate StandsFor(fds: map<int, Inode>, fd: int, dirs: seq<Inode>, j: nat) {
    if j + 1 < |dirs| then fd >= 0 && fd in fds && fds[fd] == dirs[j + 1] else fd == AT_FDCWD
  }

  ghost predicate RingStandsFor(fds: map<int, Inode>, cwd: int, items: seq<int>, dirs: seq<Inode>) {
    && |items| <= |dirs|
    && (forall j: nat | j < |items| :: items[j] != cwd && StandsFor(fds, items[j], dirs, j))
    && (forall i, j | 0 <= i < j < |items| :: items[i] != items[j])
  }

  /** `dirs` is the path of directories from the working directory out to the one the traversal was
      started in (excluded), and every open descriptor is held exactly once: by fts_cwd_fd, by the
      ring, or by a directory stream. */
  ghost predicate Cwd(c: Config, fds: map<int, Inode>, cwd: int, ring: Ring, dirs: seq<Inode>, streams: set<int>) {
    && ring.Valid() && ring.ir_default_val == -1
    && (if c.nochdir || dirs == [] then cwd == AT_FDCWD && ring.Items() == []
        else cwd >= 0 && cwd in fds && fds[cwd] == dirs[0] && RingStandsFor(fds, cwd, ring.Items(), dirs))
    && (forall fd | fd in streams :: fd >= 0)
    && Held(cwd, ring.Items()) !! streams && fds.Keys == Held(cwd, ring.Items()) + streams
  }

  /** Each directory of the path is the ".." of the one inside it. */
  ghost predicate UpLinked(fs: Fs, dirs: seq<Inode>) {
    forall j | 0 <= j && j + 1 < |dirs| :: fs.child(dirs[j], "..").IsDirectory(false, dirs[j + 1])
  }

  function CloseIfOpen(fds: map<int, Inode>, fd: int): map<int, Inode> {
    if fd >= 0 then fds - {fd} else fds
  }

  /** cwd_advance_fd one level down, onto a descriptor held by nothing else. */
  lemma Down(c: Config, fds: map<int, Inode>, cwd: int, ring: Ring, dirs: seq<Inode>, streams: set<int>, fd: int)
    requires Cwd(c, fds, cwd, ring, dirs, streams + {fd}) && !c.nochdir
    requires fd >= 0 && fd !in streams
    ensures cwd != fd && fd in fds
    ensures var (ring', displaced) := Push(ring, cwd);
            && (displaced >= 0 ==> displaced in fds && displaced != fd)
            && Cwd(c, CloseIfOpen(fds, displaced), fd, ring', [fds[fd]] + dirs, streams)
  {
    hide Push, Ring.Items, Ring.Valid;
    PushIsBoundedPush(ring, cwd);
    var (ring', displaced) := Push(ring, cwd);
    var items, items' := ring.Items(), ring'.Items();
    var fds' := CloseIfOpen(fds, displaced);
    var dirs' := [fds[fd]] + dirs;
    assert fd !in Held(cwd, items);
    if |items| == I_RING_SIZE {
      assert displaced == items[3];
      assert StandsFor(fds, items[3], dirs, 3);
    }
    forall j: nat | j < |items'| ensures items'[j] != fd && StandsFor(fds', items'[j], dirs', j) {
      if j > 0 {
        assert items'[j] == items[j - 1];
        assert StandsFor(fds, items[j - 1], dirs, j - 1);
        if |items| == I_RING_SIZE { assert items[j - 1] != items[3]; }
      }
    }
    DownHeld(cwd, fd, items, items', displaced);
  }

  /** What the descent does to the descriptors held. */
  lemma DownHeld(cwd: int, fd: int, items: seq<int>, items': seq<int>, displaced: int)
    requires forall i, j | 0 <= i < j < |items| :: items[i] != items[j]
    requires cwd >= 0 ==> cwd !in items
    requires |items| < I_RING_SIZE ==> items' == [cwd] + items && displaced == -1
    requires |items| >= I_RING_SIZE ==> items' == [cwd] + items[..|items| - 1] && displaced == items[|items| - 1]
    ensures Held(fd, items') == Held(cwd, items) - {displaced} + (if fd >= 0 then {fd} else {})
  {
    forall f | f >= 0 ensures f in items' <==> f == cwd || (f in items && f != displaced) {
      if f in items {
        var i :| 0 <= i < |items| && items[i] == f;
        if i + 1 < |items'| { assert items'[i + 1] == f; }
      }
      if f in items' {
        var i :| 0 <= i < |items'| && items'[i] == f;
        if i > 0 { assert items[i - 1] == f; }
      }
    }
  }

  /** cwd_advance_fd one level up, onto a descriptor of the directory outside: one popped from the
      ring, or else one opened for this. */
  lemma Up(c: Config, fds: map<int, Inode>, cwd: int, ring: Ring, dirs: seq<Inode>, streams: set<int>)
    requires Cwd(c, fds, cwd, ring, dirs, streams) && !c.nochdir && |dirs| >= 2
    ensures cwd >= 0 && cwd in fds
    ensures !ring.ir_empty ==>
              var (ring', top) := Pop(ring);
              && top >= 0 && top != cwd && top in fds && fds[top] == dirs[1]
              && Cwd(c, fds - {cwd}, top, ring', dirs[1..], streams)
    ensures ring.ir_empty ==>
              forall fd | fd >= 0 && fd !in fds ::
                Cwd(c, fds[fd := dirs[1]] - {cwd}, fd, ring, dirs[1..], streams)
  {
    hide Push, Pop, Ring.Items, Ring.Valid, Ring.Slot;
    var items := ring.Items();
    if !ring.ir_empty {
      PopIsStackPop(ring);
      var (ring', top) := Pop(ring);
      var items' := ring'.Items();
      assert items[0] == top && StandsFor(fds, items[0], dirs, 0);
      var fds' := fds - {cwd};
      forall j: nat | j < |items'| ensures items'[j] != top && StandsFor(fds', items'[j], dirs[1..], j) {
        assert items'[j] == items[j + 1] && StandsFor(fds, items[j + 1], dirs, j + 1);
      }
      forall i, j | 0 <= i < j < |items'| ensures items'[i] != items'[j] {
        assert items'[i] == items[i + 1] && items'[j] == items[j + 1];
      }
      UpHeld(cwd, top, items, items');
    }
  }

  lemma UpHeld(cwd: int, top: int, items: seq<int>, items': seq<int>)
    requires items == [top] + items' && top >= 0 && top != cwd && cwd !in items
    ensures Held(top, items') == Held(cwd, items) - {cwd}
  {
    forall f ensures f in items <==> f == top || f in items' {
      if f in items' {
        var i :| 0 <= i < |items'| && items'[i] == f;
        assert items[i + 1] == f;
      }
    }
  }

  /** The open descriptors are the streams' and, each once, those among `items`. */
  ghost predicate Gathered(fds: map<int, Inode>, items: seq<int>, streams: set<int>) {
    && (forall fd | fd in items && fd >= 0 :: fd in fds)
    && (forall i, j | 0 <= i < j < |items| && items[i] >= 0 :: items[i] != items[j])
    && fds.Keys == Held(AT_FDCWD, items) + streams && streams !! Held(AT_FDCWD, items)
  }

  /** cwd_advance_fd back to AT_FDCWD: whatever was held is then on the ring, or closed. */
  lemma BackToStart(c: Config, fds: map<int, Inode>, cwd: int, ring: Ring, dirs: seq<Inode>, streams: set<int>)
    requires Cwd(c, fds, cwd, ring, dirs, streams) && !c.nochdir
    ensures var (ring', displaced) := Push(ring, cwd);
            && ring'.Valid() && ring'.ir_default_val == -1
            && (displaced >= 0 ==> displaced in fds)
            && Gathered(CloseIfOpen(fds, displaced), ring'.Items(), streams)
  {
    hide Push, Pop, Ring.Items, Ring.Valid, Ring.Slot;
    PushIsBoundedPush(ring, cwd);
    var (ring', displaced) := Push(ring, cwd);
    var items, items' := ring.Items(), ring'.Items();
    if dirs == [] {
      assert items' == [AT_FDCWD];
    } else {
      assert forall j: nat | j < |items| :: items[j] != cwd && StandsFor(fds, items[j], dirs, j);
      DownHeld(cwd, AT_FDCWD, items, items', displaced);
    }
  }

  /** One step of emptying the ring. */
  lemma Clear(fds: map<int, Inode>, ring: Ring, streams: set<int>)
    requires ring.Valid() && !ring.ir_empty && Gathered(fds, ring.Items(), streams)
    ensures var (ring', top) := Pop(ring);
            && ring'.Valid() && ring'.ir_default_val == ring.ir_default_val && |ring'.Items()| < |ring.Items()|
            && (top >= 0 ==> top in fds)
            && Gathered(CloseIfOpen(fds, top), ring'.Items(), streams)
  {
    hide Push, Pop, Ring.Items, Ring.Valid, Ring.Slot;
    PopIsStackPop(ring);
    var (ring', top) := Pop(ring);
    var items, items' := ring.Items(), ring'.Items();
    assert items[0] == top;
    assert items == [top] + items';
    Taken(top, items');
    forall i, j | 0 <= i < j < |items'| && items'[i] >= 0 ensures items'[i] != items'[j] {
      assert items'[i] == items[i + 1] && items'[j] == items[j + 1];
    }
    forall i | 0 <= i < |items'| ensures top < 0 || items'[i] != top { assert items'[i] == items[i + 1]; }
  }

  lemma Taken(top: int, items: seq<int>)
    ensures forall fd :: fd in [top] + items <==> fd == top || fd in items
    ensures Held(AT_FDCWD, [top] + items) == Held(AT_FDCWD, items) + if top >= 0 then {top} else {}
  {
    forall fd ensures fd in [top] + items <==> fd == top || fd in items {}
  }

  lemma GatheredNone(fds: map<int, Inode>, items: seq<int>, streams: set<int>)
    requires items == [] && Gathered(fds, items, streams)
    ensures fds.Keys == streams
  {}

  /** Opening a descriptor for a directory stream. */
  lemma OpenForStream(c: Config, fds: map<int, Inode>, cwd: int, ring: Ring, dirs: seq<Inode>, streams: set<int>,
                      fd: int, i: Inode)
    requires Cwd(c, fds, cwd, ring, dirs, streams) && fd >= 0 && fd !in fds
    ensures Cwd(c, fds[fd := i], cwd, ring, dirs, streams + {fd}) && fd !in streams
  {
    hide Ring.Items, Ring.Valid, Held;
    var items := ring.Items();
    if !c.nochdir && dirs != [] {
      forall j: nat | j < |items| ensures StandsFor(fds[fd := i], items[j], dirs, j) {
        assert StandsFor(fds, items[j], dirs, j);
      }
    }
    assert Held(cwd, items) + (streams + {fd}) == (Held(cwd, items) + streams) + {fd};
  }

  /** Closing one. */
  lemma CloseStream(c: Config, fds: map<int, Inode>, cwd: int, ring: Ring, dirs: seq<Inode>, streams: set<int>, fd: int)
    requires Cwd(c, fds, cwd, ring, dirs, streams + {fd}) && fd !in streams
    ensures fd in fds && Cwd(c, fds - {fd}, cwd, ring, dirs, streams)
  {
    hide Ring.Items, Ring.Valid;
    var items := ring.Items();
    assert fd !in Held(cwd, items);
    if !c.nochdir && dirs != [] {
      forall j: nat | j < |items| ensures StandsFor(fds - {fd}, items[j], dirs, j) {
        assert StandsFor(fds, items[j], dirs, j);
      }
    }
  }

  lemma OpenForStreamAll(c: Config, fds: map<int, Inode>, cwd: int, ring: Ring, dirs: seq<Inode>, streams: set<int>,
                         i: Inode)
    requires Cwd(c, fds, cwd, ring, dirs, streams)
    ensures forall fd | fd >= 0 && fd !in fds :: Cwd(c, fds[fd := i], cwd, ring, dirs, streams + {fd}) && fd !in streams
  {
    hide Cwd;
    forall fd | fd >= 0 && fd !in fds
      ensures Cwd(c, fds[fd := i], cwd, ring, dirs, streams + {fd}) && fd !in streams
    {
      OpenForStream(c, fds, cwd, ring, dirs, streams, fd, i);
    }
  }

  /** At the end, fts_cwd_fd is closed and the rest is on the ring. */
  lemma BeforeClosing(c: Config, fds: map<int, Inode>, cwd: int, ring: Ring, dirs: seq<Inode>, streams: set<int>)
    requires Cwd(c, fds, cwd, ring, dirs, streams) && c.nochdir != c.cwdfd
    ensures cwd >= 0 ==> c.cwdfd && cwd in fds
    ensures ring.Valid() && Gathered(CloseIfOpen(fds, cwd), ring.Items(), streams)
  {
    hide Ring.Items, Ring.Valid;
    var items := ring.Items();
    if !c.nochdir && dirs != [] {
      assert forall j: nat | j < |items| :: StandsFor(fds, items[j], dirs, j);
      assert cwd !in items;
    }
    assert Held(AT_FDCWD, items) == Held(cwd, items) - {cwd};
  }
}
