/** The FTS stream: fts_open, fts_read with its helpers, fts_set and fts_close. */
module Fts {
  import opened CStrings
  import opened FileTree
  import opened FtsWalk
  import opened FtsHeap
  import opened FtsCwd
  import opened FtsSteps
  import opened FtsLeaks
  import opened FtsTiers
  import FtsLaws
  import Cov = FtsCoverage
  import opened FtsTold
  import R = DescriptorRing

  const FTS_AGAIN := 1
  const FTS_FOLLOW := 2
  const FTS_NOINSTR_CODE := 3
  const FTS_SKIP_CODE := 4

  class FTS {
    const c: Config                     // the hierarchy, the options and the batch size
    var mem: Mem                        // the FTSENTs obtained from malloc and not freed
    var fds: map<int, Inode>            // the open descriptors and the directories they denote
    var fts_cur: Ptr
    var fts_dev: int
    var fts_path: seq<char>             // the path buffer, fts_pathlen bytes
    var fts_cycle: map<Inode, Ptr>      // the table of active directories
    var fts_cwd_fd: int
    var fts_fd_ring: R.Ring

    ghost var ls: Levels                // what the live entries represent
    ghost var text: string              // the file name of fts_cur

    /** The stream fts_open allocates, before anything else is. */
    constructor (c: Config)
      ensures this.c == c && mem == map[] && fds == map[] && fts_path == [] && fts_cur == NULL
      ensures fts_cwd_fd == AT_FDCWD && fts_fd_ring == R.Init(-1) && fts_cycle == map[]
    {
      this.c := c;
      mem, fds, fts_path, fts_cur := map[], map[], [], NULL;
      fts_cwd_fd, fts_fd_ring, fts_cycle := AT_FDCWD, R.Init(-1), map[];
      ls, text := Roots(NULL, []), "";
    }

    // ------------------------------------------------------------ descriptors

    method OpenFd(i: Inode) returns (fd: int)
      modifies this`fds
      ensures fd >= 0 && fd !in old(fds) && fds == old(fds)[fd := i]
    {
      FreshNat(set f | f in fds && f >= 0);
      var n: nat :| n !in fds;
      fd := n;
      fds := fds[fd := i];
    }

    method CloseFd(fd: int)
      requires fd in fds
      modifies this`fds
      ensures fds == old(fds) - {fd}
    {
      fds := fds - {fd};
    }

    /** cwd_advance_fd; its own fts_assert is the first precondition. */
    method CwdAdvanceFd(fd: int, chdir_down_one: bool)
      requires fts_cwd_fd != fd || fts_cwd_fd == AT_FDCWD
      requires fts_fd_ring.Valid() && !c.nochdir
      requires chdir_down_one ==>
                 var displaced := R.Push(fts_fd_ring, fts_cwd_fd).1; displaced >= 0 ==> displaced in fds
      requires !chdir_down_one && fts_cwd_fd >= 0 ==> fts_cwd_fd in fds
      modifies this`fts_cwd_fd, this`fts_fd_ring, this`fds
      ensures fts_cwd_fd == fd
      ensures chdir_down_one ==>
                var (ring, displaced) := R.Push(old(fts_fd_ring), old(fts_cwd_fd));
                fts_fd_ring == ring && fds == CloseIfOpen(old(fds), displaced)
      ensures !chdir_down_one ==>
                fts_fd_ring == old(fts_fd_ring) && fds == CloseIfOpen(old(fds), old(fts_cwd_fd))
    {
      hide R.Push;
      var previous := fts_cwd_fd;
      if chdir_down_one {
        var (ring, displaced) := R.Push(fts_fd_ring, previous);
        fts_fd_ring := ring;
        if displaced >= 0 {
          CloseFd(displaced);
        }
      } else if !c.nochdir {
        if previous >= 0 {
          CloseFd(previous);
        }
      }
      fts_cwd_fd := fd;
    }

    /** fts_safe_changedir, for its two uses: down into the directory open on `fd`, or up by "..".
        `dirs` and `streams` are the path before the call and the descriptors of directory streams. */
    method FtsSafeChangedir(p: Ptr, fd: int, dotdot: bool, ghost dirs: seq<Inode>, ghost streams: set<int>)
      requires p in mem && dotdot == (fd < 0)
      requires !c.nochdir && !dotdot ==> fd !in streams
      requires Cwd(c, fds, fts_cwd_fd, fts_fd_ring, dirs, if c.nochdir || dotdot then streams else streams + {fd})
      requires !c.nochdir && dotdot ==>
                 |dirs| >= 2 && c.fs.child(dirs[0], "..").IsDirectory(false, dirs[1]) && mem[p].fts_statp == dirs[1]
      modifies this`fts_cwd_fd, this`fts_fd_ring, this`fds
      ensures !c.nochdir && !dotdot ==>
                && fd in old(fds)
                && Cwd(c, fds, fts_cwd_fd, fts_fd_ring, [old(fds)[fd]] + dirs, streams)
      ensures !c.nochdir && dotdot ==> Cwd(c, fds, fts_cwd_fd, fts_fd_ring, dirs[1..], streams)
      ensures c.nochdir ==> fds == old(fds) && fts_cwd_fd == old(fts_cwd_fd) && fts_fd_ring == old(fts_fd_ring)
    {
      hide R.Push, R.Pop, R.Ring.Items, R.Ring.Valid, RingStandsFor, Held;
      if c.nochdir {
        return;
      }
      var newfd := fd;
      if dotdot {
        Up(c, fds, fts_cwd_fd, fts_fd_ring, dirs, streams);
      } else {
        Down(c, fds, fts_cwd_fd, fts_fd_ring, dirs, streams, fd);
      }
      if dotdot && !fts_fd_ring.ir_empty {
        var (ring, parent_fd) := R.Pop(fts_fd_ring);
        fts_fd_ring := ring;
        newfd := parent_fd;
      } else if dotdot {
        // diropen (sp, ".."), with the check that it is the directory fts_read came through
        assert c.fs.child(fds[fts_cwd_fd], "..").Stat(false).inode == mem[p].fts_statp;
        newfd := OpenFd(c.fs.child(fds[fts_cwd_fd], "..").Stat(false).inode);
      }
      CwdAdvanceFd(newfd, !dotdot);
    }

    /** fd_ring_clear. */
    method FdRingClear(ghost streams: set<int>)
      requires fts_fd_ring.Valid() && Gathered(fds, fts_fd_ring.Items(), streams)
      modifies this`fts_fd_ring, this`fds
      ensures fts_fd_ring.Valid() && fts_fd_ring.Items() == []
      ensures fts_fd_ring.ir_default_val == old(fts_fd_ring).ir_default_val
      ensures fds.Keys == streams
    {
      hide R.Pop, R.Ring.Items, R.Ring.Valid, R.Ring.Slot, Gathered;
      while !fts_fd_ring.ir_empty
        invariant fts_fd_ring.Valid() && fts_fd_ring.ir_default_val == old(fts_fd_ring).ir_default_val
        invariant Gathered(fds, fts_fd_ring.Items(), streams)
        decreases |fts_fd_ring.Items()|
      {
        Clear(fds, fts_fd_ring, streams);
        var (ring, fd) := R.Pop(fts_fd_ring);
        fts_fd_ring := ring;
        if fd >= 0 {
          CloseFd(fd);
        }
      }
      GatheredNone(fds, fts_fd_ring.Items(), streams);
    }

    /** restore_initial_cwd. */
    method RestoreInitialCwd(ghost dirs: seq<Inode>, ghost streams: set<int>)
      requires Cwd(c, fds, fts_cwd_fd, fts_fd_ring, dirs, streams)
      modifies this`fts_cwd_fd, this`fts_fd_ring, this`fds
      ensures Cwd(c, fds, fts_cwd_fd, fts_fd_ring, [], streams)
    {
      hide R.Push, R.Pop, R.Ring.Items, R.Ring.Valid, R.Ring.Slot;
      if !c.nochdir {
        BackToStart(c, fds, fts_cwd_fd, fts_fd_ring, dirs, streams);
        CwdAdvanceFd(AT_FDCWD, true);
      } else {
        assert fts_fd_ring.Items() == [];
      }
      FdRingClear(streams);
    }

    /** fd_ring_check, run by every LEAVE_DIR: its fts_assert never fires. */
    method FdRingCheck(ghost dirs: seq<Inode>, ghost streams: set<int>)
      requires Cwd(c, fds, fts_cwd_fd, fts_fd_ring, dirs, streams)
      requires !c.nochdir ==> UpLinked(c.fs, dirs)
    {
      hide R.Pop, R.Ring.Items, R.Ring.Valid, R.Ring.Slot, Held;
      var fd_w := fts_fd_ring;
      var dot := if fts_cwd_fd in fds then fds[fts_cwd_fd] else Inode(-1, 0);
      ghost var items := fts_fd_ring.Items();
      ghost var n := 0;
      while !fd_w.ir_empty
        invariant fd_w.Valid() && n <= |items| && fd_w.Items() == items[n..]
        invariant n < |items| ==> dot == dirs[n]
        decreases |fd_w.Items()|
      {
        R.PopIsStackPop(fd_w);
        var (ring, fd) := R.Pop(fd_w);
        assert fd == items[n] && StandsFor(fds, items[n], dirs, n);
        fd_w := ring;
        if 0 <= fd {
          var parent := c.fs.child(dot, "..").Stat(false);
          assert parent.Ok? && parent.inode == fds[fd];
          dot := parent.inode;
        }
        n := n + 1;
      }
    }

    // ------------------------------------------------------------ the table of active directories

    /** enter_dir. */
    method EnterDir(ent: Ptr)
      requires ent in mem
      modifies this`fts_cycle, this`mem
      ensures old(mem[ent].fts_statp) !in old(fts_cycle) ==>
                mem == old(mem) && fts_cycle == old(fts_cycle)[old(mem[ent].fts_statp) := ent]
      ensures old(mem[ent].fts_statp) in old(fts_cycle) ==>
                && fts_cycle == old(fts_cycle)
                && mem == old(mem)[ent := old(mem[ent]).(fts_cycle := fts_cycle[old(mem[ent].fts_statp)],
                                                         fts_info := FTS_DC)]
    {
      var st := mem[ent].fts_statp;
      if st in fts_cycle {
        mem := mem[ent := mem[ent].(fts_cycle := fts_cycle[st], fts_info := FTS_DC)];
      } else {
        fts_cycle := fts_cycle[st := ent];
      }
    }

    /** LEAVE_DIR.  The first precondition is that leave_dir does not abort. */
    method LeaveDir(ent: Ptr, ghost dirs: seq<Inode>, ghost streams: set<int>)
      requires ent in mem && mem[ent].fts_statp in fts_cycle
      requires Cwd(c, fds, fts_cwd_fd, fts_fd_ring, dirs, streams)
      requires !c.nochdir ==> UpLinked(c.fs, dirs)
      modifies this`fts_cycle
      ensures fts_cycle == old(fts_cycle) - {mem[ent].fts_statp}
    {
      fts_cycle := fts_cycle - {mem[ent].fts_statp};
      FdRingCheck(dirs, streams);
    }

    // ------------------------------------------------------------ entries

    /** fts_alloc; the members it does not set hold anything. */
    method FtsAlloc(name: string) returns (p: Ptr)
      modifies this`mem
      ensures p != NULL && p !in old(mem) && p in mem && mem == old(mem)[p := mem[p]]
      ensures mem[p].fts_name == name && mem[p].fts_errno == 0
      ensures mem[p].fts_dirp == NoStream && mem[p].fts_instr == FTS_NOINSTR
    {
      FreshNat(set q: int | q in mem.Keys + {NULL});
      p :| p != NULL && p !in mem;
      var uninitialized: FTSENT := *;
      mem := mem[p := uninitialized.(fts_name := name, fts_errno := 0, fts_dirp := NoStream, fts_instr := FTS_NOINSTR)];
    }

    method Free(p: Ptr)
      requires p in mem
      modifies this`mem
      ensures mem == old(mem) - {p}
    {
      mem := mem - {p};
    }

    /** The object that fstatat (fts_cwd_fd, p->fts_accpath) is about. */
    function Lookup(p: Ptr): Node
      requires p in mem
      reads this
    {
      var accpath := if mem[p].accInPath then CString(fts_path) else mem[p].fts_name;
      if fts_cwd_fd in fds then c.fs.child(fds[fts_cwd_fd], accpath) else c.fs.at(accpath)
    }

    /** fts_stat. */
    method FtsStat(p: Ptr) returns (info: Info)
      requires p in mem
      modifies this`mem
      ensures var (i, st, e) := Classify(c, old(Lookup(p)), old(mem[p].fts_name), old(mem[p].fts_level));
              && info == i
              && mem == old(mem)[p := old(mem[p]).(fts_statp := st,
                                                   fts_errno := if i == FTS_NS then e else old(mem[p].fts_errno))]
    {
      var (i, st, e) := Classify(c, Lookup(p), mem[p].fts_name, mem[p].fts_level);
      info := i;
      mem := mem[p := mem[p].(fts_statp := st)];
      if i == FTS_NS {
        mem := mem[p := mem[p].(fts_errno := e)];
      }
    }

    // ------------------------------------------------------------ the path buffer

    /** memmove or memcpy into the path buffer: never past its end. */
    method Store(off: nat, s: seq<char>)
      requires off + |s| <= |fts_path|
      modifies this`fts_path
      ensures fts_path == old(fts_path)[..off] + s + old(fts_path)[off + |s|..]
    {
      fts_path := fts_path[..off] + s + fts_path[off + |s|..];
    }

    /** fts_palloc: realloc keeps what is there. */
    method FtsPalloc(more: nat)
      modifies this`fts_path
      ensures |fts_path| == |old(fts_path)| + more + 256 && old(fts_path) <= fts_path
    {
      var uninitialized: seq<char> := *;
      fts_path := fts_path
        + seq(more + 256, i requires 0 <= i => if i < |uninitialized| then uninitialized[i] else NUL);
    }

    /** The macro NAPPEND. */
    function NAppend(p: Ptr): nat
      requires p in mem && 0 < mem[p].fts_pathlen <= |fts_path|
      reads this
    {
      if fts_path[mem[p].fts_pathlen - 1] == '/' then mem[p].fts_pathlen - 1 else mem[p].fts_pathlen
    }

    // ------------------------------------------------------------ invariant

    ghost predicate Environment()
      reads this
    {
      c.Supported() && Static(c.fs) && (c.cwdfd ==> DotDotLeadsBack(c.fs))
    }

    /** Everything but the current entry's own state: the live entries are the current one and those
        of `ls`, every ancestor's file name is in the buffer, and the descriptors are where they belong. */
    ghost predicate Around()
      reads this
    {
      && Environment() && fts_cur != NULL
      && Heap(c, mem, |fts_path|, {fts_cur}, ls) && StreamsApart(mem, ls) && PathPrefixes(fts_path, ls)
      && Cwd(c, fds, fts_cwd_fd, fts_fd_ring, Dirs(mem, ls), Streams(mem, ls))
      && mem[fts_cur].fts_link == HeadOf(ls.sibs) && mem[fts_cur].fts_dirp == NoStream
    }

    /** The current entry is about to be returned for the first time, its file name in the buffer. */
    ghost predicate Loaded()
      reads this
    {
      && Around() && fts_cycle == Table(mem, ls)
      && FirstTime(c, mem[fts_cur], At(mem, ls.Top()).fts_statp, text, |fts_path|, ls) && Shown(fts_path, text)
    }

    /** The invariant at every return of fts_read (and of fts_open). */
    ghost predicate Valid()
      reads this
    {
      if fts_cur == NULL then
        && Environment() && mem == map[] && fts_cycle == map[]
        && Cwd(c, fds, fts_cwd_fd, fts_fd_ring, [], {})
      else
        && Around()
        && (mem[fts_cur].fts_info == FTS_INIT ==> ls.Roots? && ls.sibs != [] && mem[fts_cur].fts_level == 1)
        && (mem[fts_cur].fts_info != FTS_INIT ==> Placed(mem[fts_cur], ls))
        && (mem[fts_cur].fts_info == FTS_D ==>
              && InPreOrder(c, mem[fts_cur], At(mem, ls.Top()).fts_statp, text, ls)
              && mem[fts_cur].fts_statp !in Active(mem, ls) && Shown(fts_path, text)
              && fts_cycle == Table(mem, ls)[mem[fts_cur].fts_statp := fts_cur])
        && (mem[fts_cur].fts_info != FTS_D ==> fts_cycle == Table(mem, ls))
        && (mem[fts_cur].fts_info == FTS_DC ==>
              mem[fts_cur].fts_statp in fts_cycle && mem[fts_cur].fts_cycle == fts_cycle[mem[fts_cur].fts_statp])
    }

    /** What the client sees in the entry fts_read has just returned. */
    function Returned(): Event
      requires fts_cur in mem
      reads this
    {
      Event(mem[fts_cur].fts_info, mem[fts_cur].fts_level, CString(fts_path), mem[fts_cur].fts_statp)
    }

    /** Except in post-order, fts_pathlen is the length of the file name in the path buffer.  fts_errno tells why the
        object could not be looked at or its directory not be read. */
    ghost predicate Sized()
      reads this
    {
      && fts_cur in mem && (mem[fts_cur].fts_info != FTS_DP ==> mem[fts_cur].fts_pathlen == |CString(fts_path)|)
      && mem[fts_cur].fts_errno == ErrnoOf(c, Returned()) && mem[fts_cur].fts_info != FTS_INIT
    }

    /** The returns still to come, if k have been made. */
    ghost function Remaining(sk: int -> bool, k: int): seq<Event>
      requires c.batch >= 1
      reads this
    {
      if fts_cur == NULL then []
      else
        var first := Own(c, sk, mem, fts_dev, fts_cur, ls, text, k - 1);
        first + Rest(c, sk, mem, fts_dev, ls, k + |first|)
    }

    /** The current entry has just been taken off its level and has not been returned. */
    ghost predicate Arrived()
      reads this
    {
      Around() && fts_cycle == Table(mem, ls) && Pending(c, mem, |fts_path|, fts_cur, ls)
    }

    /** The current entry is a directory that is done with but still in the table. */
    ghost predicate Leaving()
      reads this
    {
      && Around() && Placed(mem[fts_cur], ls)
      && mem[fts_cur].fts_info !in {FTS_INIT, FTS_D, FTS_DC}
      && mem[fts_cur].fts_statp !in Active(mem, ls)
      && fts_cycle == Table(mem, ls)[mem[fts_cur].fts_statp := fts_cur]
    }

    /** The innermost level's directory stream is open and the level has no entry in memory. */
    ghost predicate Reading(extra: set<Ptr>)
      reads this
    {
      && Environment() && ls.Below? && ls.sibs == [] && ls.text != [] && ls.dir == fts_cur
      && Heap(c, mem, |fts_path|, extra, ls) && StreamsApart(mem, ls) && PathPrefixes(fts_path, ls)
      && Cwd(c, fds, fts_cwd_fd, fts_fd_ring, Dirs(mem, ls), Streams(mem, ls))
      && fts_cycle == Table(mem, ls) && At(mem, fts_cur).fts_dirp.Stream? && Shown(fts_path, ls.text)
    }

    /** fts_build is filling the innermost level from its directory's stream; `len` is the length of
        the directory's file name with one slash. */
    ghost predicate Filling(extra: set<Ptr>, len: nat)
      reads this
    {
      && Environment() && ls.Below? && ls.text != [] && ls.dir == fts_cur && fts_cur in mem
      && Heap(c, mem, |fts_path|, extra, ls) && StreamsApart(mem, ls) && PathPrefixes(fts_path, ls)
      && Cwd(c, fds, fts_cwd_fd, fts_fd_ring, Dirs(mem, ls), Streams(mem, ls))
      && fts_cycle == Table(mem, ls)
      && len == AppendAt(ls.text) + 1 <= |fts_path| && (c.nochdir ==> fts_path[len - 1] == '/')
    }

    /** fts_build has read a batch: the heap, the table and the descriptors are in order again. */
    ghost predicate Read(extra: set<Ptr>)
      reads this
    {
      && Environment() && ls.Below? && ls.text != [] && ls.dir == fts_cur && fts_cur in mem
      && Heap(c, mem, |fts_path|, extra, ls) && StreamsApart(mem, ls)
      && Cwd(c, fds, fts_cwd_fd, fts_fd_ring, Dirs(mem, ls), Streams(mem, ls))
      && fts_cycle == Table(mem, ls)
      && (if ls.sibs != [] then PathPrefixes(fts_path, ls)
          else
            && PathPrefixes(fts_path, ls.outer) && Shown(fts_path, PostText(c, ls.text, 0))
            && mem[fts_cur].fts_dirp == NoStream)
    }

    /** tmp is the last entry of its level, and its directory's stream, if any, has ended. */
    ghost predicate Exhausted(tmp: Ptr, shown: string)
      reads this
    {
      && Environment() && tmp in mem && mem[tmp].fts_parent == ls.Top() && ls.sibs == []
      && Heap(c, mem, |fts_path|, {tmp}, ls) && StreamsApart(mem, ls) && fts_cycle == Table(mem, ls)
      && Cwd(c, fds, fts_cwd_fd, fts_fd_ring, Dirs(mem, ls), Streams(mem, ls))
      && (ls.Below? ==>
            && At(mem, ls.dir).fts_dirp == NoStream
            && PathPrefixes(fts_path, ls.outer) && ShownWhenCut(fts_path, ls.text, shown))
    }

    // ------------------------------------------------------------ fts_read, label by label

    /** check_for_dir, first part: a deferred stat. */
    method StatIfRequired()
      requires Loaded()
      modifies this`mem
      ensures fts_cur in mem && mem == old(mem)[fts_cur := mem[fts_cur]]
      ensures var e, i := mem[fts_cur], At(old(mem), ls.Top()).fts_statp;
              && e == old(mem[fts_cur]).(fts_info := e.fts_info, fts_statp := e.fts_statp, fts_errno := e.fts_errno)
              && (e.fts_info, e.fts_statp) == StatOf(c, old(mem[fts_cur]), i, text, ls)
              && e.fts_errno == ErrnoOf(c, Event(e.fts_info, e.fts_level, text, e.fts_statp))
              && (e.fts_info == FTS_D ==> InPreOrder(c, e, i, text, ls))
    {
      hide Rep, Table, Active, Dirs, Streams, StreamsApart, PathPrefixes, Cwd, Static, CString;
      hide Classify, StatOf, NodeOf, ErrnoOf;
      var p := fts_cur;
      ghost var i := At(mem, ls.Top()).fts_statp;
      if mem[p].fts_info == FTS_NSOK && mem[p].statRequired {
        CStringReads(text, fts_path);
        LookupFinds(c, mem, |fts_path|, fds, fts_cwd_fd, fts_fd_ring, mem[p], text,
                    if mem[p].accInPath then text else mem[p].fts_name, ls);
        ClassifyFinds(c, mem[p], i, text, |fts_path|, ls);
        ErrnoFinds(c, c.fs.at(text), mem[p].fts_name, mem[p].fts_level, text);
        var info := FtsStat(p);
        mem := mem[p := mem[p].(fts_info := info)];
      } else {
        NotStated(c, mem[p], i, text, |fts_path|, ls);
        ErrnoStays(c, mem[p], i, text, |fts_path|, ls);
      }
    }

    /** check_for_dir, second part: a directory is entered, and a command-line one sets fts_dev. */
    method EnterIfDirectory()
      requires fts_cur in mem
      modifies this`mem, this`fts_cycle, this`fts_dev
      ensures fts_cur in mem && mem == old(mem)[fts_cur := mem[fts_cur]]
      ensures var e := old(mem[fts_cur]);
              var cyclic := e.fts_statp in old(fts_cycle);
              && mem[fts_cur] == (if e.fts_info != FTS_D || !cyclic then e
                                  else e.(fts_cycle := old(fts_cycle)[e.fts_statp], fts_info := FTS_DC))
              && fts_cycle
                 == (if e.fts_info == FTS_D && !cyclic then old(fts_cycle)[e.fts_statp := fts_cur] else old(fts_cycle))
              && fts_dev == (if e.fts_info == FTS_D && e.fts_level == 0 then e.fts_statp.dev else old(fts_dev))
    {
      var p := fts_cur;
      if mem[p].fts_info == FTS_D {
        if mem[p].fts_level == 0 {
          fts_dev := mem[p].fts_statp.dev;
        }
        EnterDir(p);
      }
    }

    /** check_for_dir. */
    method CheckForDir(ghost sk: int -> bool, ghost k: int) returns (r: Ptr)
      requires Loaded()
      modifies this`mem, this`fts_cycle, this`fts_dev
      ensures Valid() && r == fts_cur != NULL && fts_cur in mem
      ensures Sized()
      ensures old(FirstVisit(c, sk, mem, fts_dev, fts_cur, ls, text, k)) == [Returned()] + Remaining(sk, k + 1)
      ensures mem == old(mem)[fts_cur := mem[fts_cur]] && mem[fts_cur].fts_info != FTS_INIT && Placed(mem[fts_cur], ls)
    {
      hide Rep, Rest, Table, Active, Dirs, Streams, StreamsApart, PathPrefixes, Cwd, Static, CString;
      hide AfterFirst, Visit, WalkKids, Classify, InPreOrder, FirstVisit, Own, StatOf, FirstTime, Levels.Ptrs, Held;
      hide DotDotLeadsBack, ErrnoOf;
      var p := fts_cur;
      ghost var mem0, dev0 := mem, fts_dev;
      PlacedFirst(c, mem[p], At(mem, ls.Top()).fts_statp, text, |fts_path|, ls);
      StatIfRequired();
      EnterIfDirectory();
      CStringReads(text, fts_path);
      SameErrno(c, ls.Level(), text, mem[p].fts_statp);
      HeapFrame(c, mem0, mem, |fts_path|, |fts_path|, {p}, {p}, ls);
      Arrive(c, sk, mem0, mem, dev0, fts_dev, p, ls, text, k);
      r := p;
    }

    /** name. */
    method Name(ghost sk: int -> bool, ghost k: int) returns (r: Ptr)
      requires Arrived() && ls.Below? && ls.text != []
      modifies this`fts_path, this`text, this`mem, this`fts_cycle, this`fts_dev
      ensures Valid() && r == fts_cur != NULL && fts_cur in mem
      ensures Sized()
      ensures old(FirstVisit(c, sk, mem, fts_dev, fts_cur, ls, Join(ls.text, mem[fts_cur].fts_name), k))
            == [Returned()] + Remaining(sk, k + 1)
      ensures mem == old(mem)[fts_cur := mem[fts_cur]] && mem[fts_cur].fts_info != FTS_INIT && Placed(mem[fts_cur], ls)
    {
      hide Rest, Table, Active, Dirs, Streams, StreamsApart, Cwd, Static, CString, DotDotLeadsBack;
      hide AfterFirst, Visit, FirstVisit, StatOf, Listed, NamedDir, NamedBelow, Chained, Levels.Ptrs;
      var p := fts_cur;
      var t := NAppend(mem[p].fts_parent);
      PutName(c, mem, |fts_path|, fts_path, ls, mem[p].fts_name);
      Store(t, "/" + mem[p].fts_name + [NUL]);
      text := Join(ls.text, mem[p].fts_name);
      r := CheckForDir(sk, k);
    }

    /** LEAVE_DIR for a directory that has just been put in post-order. */
    method Leave()
      requires Leaving()
      modifies this`fts_cycle
      ensures Valid()
    {
      hide Rep, Table, Active, Dirs, Streams, StreamsApart, PathPrefixes, Static, DotDotLeadsBack, Levels.Ptrs;
      if !c.nochdir {
        DirsUpLinked(c, mem, |fts_path|, ls);
      }
      LeaveDir(fts_cur, Dirs(mem, ls), Streams(mem, ls));
      assert Table(mem, ls)[mem[fts_cur].fts_statp := fts_cur] - {mem[fts_cur].fts_statp} == Table(mem, ls);
    }

    // ------------------------------------------------------------ fts_build

    /** fts_build with FTS_TIGHT_CYCLE_CHECK looks at a directory again after opening it. */
    method BuildRecheck(dir_fd: int, ghost dirs: seq<Inode>, ghost streams: set<int>)
      requires fts_cur in mem && dir_fd in fds && fds[dir_fd] == mem[fts_cur].fts_statp
      requires mem[fts_cur].fts_statp in fts_cycle && fts_cycle[mem[fts_cur].fts_statp] == fts_cur
      requires Cwd(c, fds, fts_cwd_fd, fts_fd_ring, dirs, streams)
      requires !c.nochdir ==> UpLinked(c.fs, dirs)
      modifies this`fts_cycle, this`mem
      ensures mem == old(mem) && fts_cycle == old(fts_cycle)
    {
      hide Cwd;
      if c.tight {
        LeaveDir(fts_cur, dirs, streams);
        mem := mem[fts_cur := mem[fts_cur].(fts_statp := fds[dir_fd])];
        EnterDir(fts_cur);
      }
    }

    /** opendirat on the access path of the current directory. */
    method OpenDirAt() returns (fd: int)
      requires Valid() && fts_cur != NULL && mem[fts_cur].fts_info == FTS_D
      modifies this`fds
      ensures (fd < 0) == (mem[fts_cur].fts_statp in c.fs.unreadable)
      ensures fd < 0 ==> fds == old(fds)
      ensures fd >= 0 ==> fd !in old(fds) && fds == old(fds)[fd := mem[fts_cur].fts_statp]
    {
      hide Rep, Table, Active, Dirs, Streams, StreamsApart, PathPrefixes, Static, DotDotLeadsBack, Levels.Ptrs;
      hide CString, Cwd, Join;
      CStringReads(text, fts_path);
      LookupFinds(c, mem, |fts_path|, fds, fts_cwd_fd, fts_fd_ring, mem[fts_cur], text,
                  if mem[fts_cur].accInPath then text else mem[fts_cur].fts_name, ls);
      var found := Lookup(fts_cur).Stat(c.Follow(mem[fts_cur].fts_level));
      assert found == Ok(Directory, mem[fts_cur].fts_statp);
      if found.inode in c.fs.unreadable {
        return -1;
      }
      fd := OpenFd(found.inode);
    }

    /** fts_build, when opendir fails. */
    method BuildUnreadable()
      requires Valid() && fts_cur != NULL && mem[fts_cur].fts_info == FTS_D && mem[fts_cur].fts_statp in c.fs.unreadable
      modifies this`mem
      ensures Leaving() && mem[fts_cur].fts_info == FTS_DNR
      ensures mem == old(mem)[fts_cur := old(mem[fts_cur]).(fts_info := FTS_DNR,
                                                            fts_errno := c.fs.unreadable[old(mem[fts_cur]).fts_statp])]
    {
      hide Rep, Table, Active, Dirs, Streams, StreamsApart, PathPrefixes, Static, DotDotLeadsBack, Levels.Ptrs;
      hide CString, Cwd, Join;
      ghost var mem0 := mem;
      mem := mem[fts_cur := mem[fts_cur].(fts_info := FTS_DNR, fts_errno := c.fs.unreadable[mem[fts_cur].fts_statp])];
      HeapFrame(c, mem0, mem, |fts_path|, |fts_path|, {fts_cur}, {fts_cur}, ls);
    }

    /** opendirat has opened the current directory on fd. */
    ghost predicate Opened(fd: int)
      reads this
    {
      && Environment() && fts_cur in mem && fd in fds && fd >= 0 && fd !in Streams(mem, ls)
      && Heap(c, mem, |fts_path|, {fts_cur}, ls) && StreamsApart(mem, ls) && PathPrefixes(fts_path, ls)
      && Cwd(c, fds, fts_cwd_fd, fts_fd_ring, Dirs(mem, ls), Streams(mem, ls) + {fd})
      && var e := mem[fts_cur];
         && e.fts_link == HeadOf(ls.sibs) && Placed(e, ls) && e.fts_info == FTS_D && fds[fd] == e.fts_statp
         && InPreOrder(c, e, At(mem, ls.Top()).fts_statp, text, ls)
         && e.fts_statp !in Active(mem, ls) && e.fts_statp !in c.fs.unreadable
         && Shown(fts_path, text) && fts_cycle == Table(mem, ls)[e.fts_statp := fts_cur]
    }

    /** fts_build, opening: opendir, the second look of FTS_TIGHT_CYCLE_CHECK, and the descent. */
    method BuildOpen() returns (ok: bool)
      requires Valid() && fts_cur != NULL && mem[fts_cur].fts_info == FTS_D
      modifies this`mem, this`fds, this`fts_cycle, this`fts_cwd_fd, this`fts_fd_ring, this`ls
      ensures ok == (old(mem[fts_cur]).fts_statp !in c.fs.unreadable)
      ensures !ok ==>
                && Leaving() && ls == old(ls) && mem[fts_cur].fts_info == FTS_DNR
                && var e := old(mem[fts_cur]);
                   mem == old(mem)[fts_cur := e.(fts_info := FTS_DNR, fts_errno := c.fs.unreadable[e.fts_statp])]
      ensures ok ==>
                && Reading({}) && ls == Below(fts_cur, text, [], old(ls))
                && mem == old(mem)[fts_cur := old(mem[fts_cur]).(fts_dirp := mem[fts_cur].fts_dirp)]
                && mem[fts_cur].fts_dirp.Stream?
                && mem[fts_cur].fts_dirp.unread == c.fs.dirs[old(mem[fts_cur]).fts_statp]
    {
      hide Rep, Table, Active, Dirs, Streams, StreamsApart, PathPrefixes, Static, DotDotLeadsBack, Levels.Ptrs;
      hide CString, Cwd, Join;
      hide InPreOrder, Shown, Reading;
      OpenForStreamAll(c, fds, fts_cwd_fd, fts_fd_ring, Dirs(mem, ls), Streams(mem, ls), mem[fts_cur].fts_statp);
      var fd := OpenDirAt();
      if fd < 0 {
        BuildUnreadable();
        return false;
      }
      BuildOpened(fd);
      ok := true;
    }

    /** fts_build, after opendir. */
    method BuildOpened(fd: int)
      requires Opened(fd)
      modifies this`mem, this`fds, this`fts_cycle, this`fts_cwd_fd, this`fts_fd_ring, this`ls
      ensures Reading({}) && ls == Below(fts_cur, text, [], old(ls)) && old(mem[fts_cur]).fts_statp in c.fs.dirs
      ensures mem
            == old(mem)[fts_cur := old(mem[fts_cur]).(fts_dirp := Stream(fd, c.fs.dirs[old(mem[fts_cur]).fts_statp]))]
    {
      hide Rep, Table, Active, Dirs, Streams, StreamsApart, PathPrefixes, Static, DotDotLeadsBack, Levels.Ptrs, Cwd;
      hide Join;
      hide NamedBelow, Chained, NoDup, Held, UpLinked, Above;
      var p := fts_cur;
      ghost var mem0, dirs, streams := mem, Dirs(mem, ls), Streams(mem, ls);
      if !c.nochdir { DirsUpLinked(c, mem, |fts_path|, ls); }
      mem := mem[p := mem[p].(fts_dirp := Stream(fd, c.fs.dirs[mem[p].fts_statp]))];
      PushDir(c, mem0, mem, |fts_path|, p, text, ls, fd);
      PushPrefix(fts_path, p, text, ls);
      BuildRecheck(fd, dirs, streams + {fd});
      BuildDescend(fd, dirs, streams);
      assert streams + {fd} == {fd} + streams;
      ls := Below(p, text, [], ls);
    }

    /** fts_build, the descent: FTS_CWDFD works on a duplicate of the stream's descriptor. */
    method BuildDescend(fd: int, ghost dirs: seq<Inode>, ghost streams: set<int>)
      requires fts_cur in mem && fd >= 0 && fd in fds && fd !in streams && c.Supported()
      requires Cwd(c, fds, fts_cwd_fd, fts_fd_ring, dirs, streams + {fd})
      modifies this`fds, this`fts_cwd_fd, this`fts_fd_ring
      ensures Cwd(c, fds, fts_cwd_fd, fts_fd_ring, [old(fds)[fd]] + dirs, streams + {fd})
    {
      hide R.Push, R.Pop, R.Ring.Items, R.Ring.Valid, R.Ring.Slot, Held;
      var dir_fd := fd;
      if c.cwdfd {
        OpenForStreamAll(c, fds, fts_cwd_fd, fts_fd_ring, dirs, streams + {fd}, fds[fd]);
        dir_fd := OpenFd(fds[fd]);
      }
      FtsSafeChangedir(fts_cur, dir_fd, false, dirs, streams + {fd});
    }

    /** fts_build, one directory entry: allocation, and room for its name in the path buffer. */
    method BuildAlloc(dp: DirEnt, len: nat, maxlen: nat) returns (p: Ptr, maxlen': nat)
      requires maxlen + len == |fts_path|
      modifies this`mem, this`fts_path
      ensures p != NULL && p !in old(mem) && p in mem && mem == old(mem)[p := mem[p]]
      ensures mem[p].fts_name == dp.d_name && mem[p].fts_errno == 0 && mem[p].accInPath == c.nochdir
      ensures mem[p].fts_dirp == NoStream && mem[p].fts_instr == FTS_NOINSTR
      ensures |old(fts_path)| <= |fts_path| == maxlen' + len && |dp.d_name| < maxlen'
      ensures fts_path[..len] == old(fts_path)[..len]
    {
      p := FtsAlloc(dp.d_name);
      maxlen' := maxlen;
      if |dp.d_name| >= maxlen {
        FtsPalloc(|dp.d_name| + len + 1);
        maxlen' := |fts_path| - len;
      }
      mem := mem[p := mem[p].(accInPath := c.nochdir)];
      if c.nochdir {
        Store(len, dp.d_name + [NUL]);
      }
    }

    /** fts_build, one directory entry: its members, and the link from the one before it. */
    method BuildFill(p: Ptr, dp: DirEnt, len: nat, tail: Ptr)
      requires p in mem && fts_cur in mem && p != fts_cur && tail != p && (tail != NULL ==> tail in mem) && NULL !in mem
      modifies this`mem
      ensures mem.Keys == old(mem).Keys
      ensures mem[p] == old(mem)[p].(fts_level := old(mem[fts_cur].fts_level) + 1, fts_parent := fts_cur,
                                     fts_pathlen := len + |dp.d_name|, fts_info := FTS_NSOK,
                                     statRequired := KidOf(c, dp).statRequired, fts_statp := Inode(0, 0),
                                     fts_link := NULL)
      ensures forall q | q in mem && q != p ::
                mem[q] == if q == tail then old(mem)[q].(fts_link := p) else old(mem)[q]
    {
      mem := mem[p := mem[p].(fts_level := mem[fts_cur].fts_level + 1, fts_parent := fts_cur,
                              fts_pathlen := len + |dp.d_name|)];
      var skipStat := c.nostat && dp.d_type != DT_UNKNOWN && dp.d_type != DT_DIR && (!c.logical || dp.d_type != DT_LNK);
      mem := mem[p := mem[p].(fts_info := FTS_NSOK, statRequired := !skipStat, fts_statp := Inode(0, 0),
                              fts_link := NULL)];
      if tail != NULL {
        mem := mem[tail := mem[tail].(fts_link := p)];
      }
    }

    /** fts_build, one directory entry, without what it means. */
    method BuildMake(dp: DirEnt, len: nat, maxlen: nat, tail: Ptr) returns (p: Ptr, maxlen': nat)
      requires maxlen + len == |fts_path| && NULL !in mem && fts_cur in mem && ls.Top() == fts_cur
      requires tail == LastOf(ls.sibs) && (tail != NULL ==> tail in mem) && tail != fts_cur
      requires mem[fts_cur].fts_level + 1 == ls.Level()
      modifies this`mem, this`fts_path
      ensures Appended(old(mem), mem, ls, p) && Built(c, mem[p], dp, ls, len)
      ensures |old(fts_path)| <= |fts_path| == maxlen' + len && |dp.d_name| < maxlen'
      ensures fts_path[..len] == old(fts_path)[..len]
    {
      hide Levels.Level, Levels.Ptrs;
      p, maxlen' := BuildAlloc(dp, len, maxlen);
      BuildFill(p, dp, len, tail);
    }

    /** fts_build, one directory entry. */
    method BuildEntry(dp: DirEnt, len: nat, maxlen: nat, tail: Ptr, ghost extra: set<Ptr>)
      returns (p: Ptr, maxlen': nat)
      requires Filling(extra, len) && maxlen + len == |fts_path| && tail == LastOf(ls.sibs)
      requires mem[fts_cur].fts_statp in c.fs.dirs && dp in c.fs.dirs[mem[fts_cur].fts_statp]
      modifies this`mem, this`fts_path, this`ls
      ensures Filling(extra, len) && maxlen' + len == |fts_path| && maxlen' >= 1
      ensures ls == WithSibs(old(ls), old(ls).sibs + [p]) && Appended(old(mem), mem, old(ls), p)
      ensures PendingKids(mem, ls.sibs) == PendingKids(old(mem), old(ls).sibs) + [KidOf(c, dp)]
    {
      hide Rep, Table, Active, Dirs, Streams, StreamsApart, PathPrefixes, Static, DotDotLeadsBack, Levels.Ptrs, Cwd;
      hide PendingKids, AppendAt;
      hide Heap, KidOf, Built;
      ghost var mem0, path0 := mem, fts_path;
      NoNull(c, mem0, |path0|, extra, ls);
      EnteredDir(c, mem0, |path0|, ls);
      p, maxlen' := BuildMake(dp, len, maxlen, tail);
      assert fts_path[len - 1] == fts_path[..len][len - 1] == path0[len - 1];
      AppendAtBounds(ls.text);
      PrefixesKept(c, mem0, |path0|, path0, fts_path, ls, len);
      PrefixesSibs(fts_path, ls, ls.sibs + [p]);
      AddKid(c, mem0, mem, |path0|, |fts_path|, extra, ls, p, dp);
      ls := WithSibs(ls, ls.sibs + [p]);
    }

    /** readdir, and closedir at the end of the directory. */
    method BuildNext(len: nat, ghost extra: set<Ptr>) returns (eof: bool, dp: DirEnt)
      requires Filling(extra, len) && mem[fts_cur].fts_dirp.Stream?
      modifies this`mem, this`fds
      ensures Filling(extra, len) && PendingKids(mem, ls.sibs) == PendingKids(old(mem), ls.sibs)
      ensures mem == old(mem)[fts_cur := old(mem[fts_cur]).(fts_dirp := mem[fts_cur].fts_dirp)]
      ensures eof ==> old(mem[fts_cur].fts_dirp.unread) == [] && mem[fts_cur].fts_dirp == NoStream
      ensures !eof ==>
                var d := old(mem[fts_cur].fts_dirp);
                && d.unread != [] && dp == d.unread[0] && mem[fts_cur].fts_dirp == Stream(d.fd, d.unread[1..])
                && mem[fts_cur].fts_statp in c.fs.dirs && dp in c.fs.dirs[mem[fts_cur].fts_statp]
    {
      hide Rep, Table, Active, Dirs, PathPrefixes, Static, DotDotLeadsBack, Levels.Ptrs, Cwd, PendingKids, AppendAt;
      hide Heap;
      ghost var mem0 := mem;
      var d := mem[fts_cur].fts_dirp;
      NoNull(c, mem, |fts_path|, extra, ls);
      UnreadListed(c, mem, |fts_path|, ls);
      eof := d.unread == [];
      dp := DirEnt("", DT_UNKNOWN);
      if eof {
        mem := mem[fts_cur := mem[fts_cur].(fts_dirp := NoStream)];
        StreamParts(mem0, ls);
        CloseStream(c, fds, fts_cwd_fd, fts_fd_ring, Dirs(mem0, ls), Streams(mem0, ls.outer), d.fd);
        CloseFd(d.fd);
      } else {
        dp := d.unread[0];
        mem := mem[fts_cur := mem[fts_cur].(fts_dirp := Stream(d.fd, d.unread[1..]))];
      }
      StreamStep(c, mem0, mem, |fts_path|, extra, ls, mem[fts_cur].fts_dirp);
      assert Streams(mem, ls) == if eof then Streams(mem0, ls.outer) else Streams(mem0, ls) by {
        StreamParts(mem0, ls);
        assert {d.fd} + Streams(mem0, ls.outer) == Streams(mem0, ls.outer) + {d.fd};
      }
    }

    /** fts_build, the readdir loop. */
    method BuildLoop(len: nat, ghost extra: set<Ptr>) returns (head: Ptr, nitems: nat)
      requires Filling(extra, len) && ls.sibs == [] && mem[fts_cur].fts_dirp.Stream?
      modifies this`mem, this`fds, this`fts_path, this`ls
      ensures Filling(extra, len) && ls == WithSibs(old(ls), ls.sibs) && Carried(old(mem), mem, old(ls), extra)
      ensures head == HeadOf(ls.sibs) && nitems == |ls.sibs| == |PendingKids(mem, ls.sibs)| <= c.batch
      ensures PendingKids(mem, ls.sibs) + Unread(c, mem[fts_cur].fts_dirp) == Unread(c, old(mem[fts_cur].fts_dirp))
      ensures mem[fts_cur].fts_dirp.Stream? <==> nitems == c.batch
      ensures mem[fts_cur].fts_dirp.Stream? ==> mem[fts_cur].fts_dirp.fd == old(mem[fts_cur].fts_dirp.fd)
      ensures if ls.sibs == [] then fts_path == old(fts_path) else len < |fts_path|
    {
      hide Filling, Carried, KidOf, Unread, Kids, Heap, PendingKids;
      ghost var mem0, ls0, path0 := mem, ls, fts_path;
      FillingFacts(extra, len);
      CarriedSelf(c, mem, |fts_path|, ls, extra);
      NothingPending(c, mem, mem[fts_cur].fts_dirp.fd);
      var maxlen := |fts_path| - len;
      head, nitems := NULL, 0;
      var tail := NULL;
      while mem[fts_cur].fts_dirp.Stream?
        invariant Filling(extra, len) && maxlen + len == |fts_path| && fts_cur in mem && ls0.dir == fts_cur
        invariant ls == WithSibs(ls0, ls.sibs) && Carried(mem0, mem, ls0, extra)
        invariant head == HeadOf(ls.sibs) && tail == LastOf(ls.sibs)
        invariant nitems == |ls.sibs| == |PendingKids(mem, ls.sibs)| < c.batch
        invariant head == NULL <==> ls.sibs == []
        invariant ls.sibs != [] ==> maxlen >= 1
        invariant PendingKids(mem, ls.sibs) + Unread(c, mem[fts_cur].fts_dirp) == Unread(c, mem0[fts_cur].fts_dirp)
        invariant mem[fts_cur].fts_dirp.Stream? && mem[fts_cur].fts_dirp.fd == mem0[fts_cur].fts_dirp.fd
        invariant ls.sibs == [] ==> fts_path == path0
        decreases |mem[fts_cur].fts_dirp.unread|
      {
        ghost var mem1 := mem;
        FillingFacts(extra, len);
        var eof, dp := BuildNext(len, extra);
        CarriedStream(c, mem0, mem1, mem, |fts_path|, ls0, ls, extra, mem[fts_cur].fts_dirp);
        if eof {
          NothingPending(c, mem, mem1[fts_cur].fts_dirp.fd);
          break;
        }
        UnreadStep(c, mem1[fts_cur].fts_dirp, PendingKids(mem, ls.sibs));
        if !c.seedot && IsDot(dp.d_name) {
          continue;
        }
        ghost var mem2, ls2, cap2 := mem, ls, |fts_path|;
        FillingFacts(extra, len);
        var p;
        p, maxlen := BuildEntry(dp, len, maxlen, tail, extra);
        CarriedAppended(c, mem0, mem2, mem, cap2, ls0, ls2, extra, p);
        if head == NULL {
          head := p;
        }
        tail := p;
        nitems := nitems + 1;
        if c.batch <= nitems {
          break;
        }
      }
    }

    /** fts_build from the length computations to the end of the list. */
    method BuildRead(ghost extra: set<Ptr>) returns (head: Ptr, nitems: nat)
      requires Reading(extra)
      modifies this`mem, this`fds, this`fts_path, this`ls
      ensures Read(extra) && ls == WithSibs(old(ls), ls.sibs) && Carried(old(mem), mem, old(ls), extra)
      ensures head == HeadOf(ls.sibs) && nitems == |ls.sibs| == |PendingKids(mem, ls.sibs)| <= c.batch
      ensures PendingKids(mem, ls.sibs) + Unread(c, mem[fts_cur].fts_dirp) == Unread(c, old(At(mem, fts_cur).fts_dirp))
      ensures mem[fts_cur].fts_dirp.Stream? <==> nitems == c.batch
    {
      hide Rep, Table, Active, Dirs, PathPrefixes, Static, DotDotLeadsBack, Levels.Ptrs, Cwd, PendingKids, AppendAt;
      hide Heap, Streams, StreamsApart, Unread;
      NoNull(c, mem, |fts_path|, extra, ls);
      var len := BuildLength(extra);
      ghost var path0 := fts_path;
      head, nitems := BuildLoop(len, extra);
      NoNull(c, mem, |fts_path|, extra, ls);
      PutNul(c, mem, |fts_path|, fts_path, ls, len);
      PrefixesSibs(fts_path, ls, []);
      PostTextZero(c, ls.text);
      if c.nochdir {
        var cp := if len == |fts_path| || nitems == 0 then len - 1 else len;
        Store(cp, [NUL]);
      }
    }

    /** fts_build: the length of the directory's file name with one slash, put in the buffer with FTS_NOCHDIR. */
    method BuildLength(ghost extra: set<Ptr>) returns (len: nat)
      requires Reading(extra)
      modifies this`fts_path
      ensures Filling(extra, len) && (!c.nochdir ==> fts_path == old(fts_path))
    {
      hide Table, Active, Dirs, Static, DotDotLeadsBack, Levels.Ptrs, Cwd, Streams, StreamsApart, Chained, Pending;
      hide NamedBelow;
      PutSlash(c, mem, |fts_path|, fts_path, ls);
      len := NAppend(fts_cur);
      if c.nochdir {
        Store(len, "/");
      }
      len := len + 1;
    }

    lemma FillingFacts(extra: set<Ptr>, len: nat)
      requires Filling(extra, len)
      ensures c.batch >= 1 && ls.Below? && ls.text != [] && ls.dir == fts_cur && fts_cur in mem && len <= |fts_path|
      ensures Heap(c, mem, |fts_path|, extra, ls)
    {}

    // ------------------------------------------------------------ fts_read: up and down

    /** Back to the directory that holds p: with p a command-line argument, to where the walk began. */
    method GoUp(p: Ptr, ghost streams: set<int>)
      requires ls.Below? && p == ls.dir && ls.sibs == [] && Environment()
      requires (exists extra :: Heap(c, mem, |fts_path|, extra, ls))
      requires Cwd(c, fds, fts_cwd_fd, fts_fd_ring, Dirs(mem, ls), streams)
      modifies this`fds, this`fts_cwd_fd, this`fts_fd_ring
      ensures Cwd(c, fds, fts_cwd_fd, fts_fd_ring, Dirs(mem, ls.outer), streams)
    {
      hide Rep, Table, Active, PathPrefixes, Static, DotDotLeadsBack, Levels.Ptrs, Streams, StreamsApart, Held;
      hide R.Push, R.Pop, R.Ring.Items, R.Ring.Valid, R.Ring.Slot;
      ghost var extra :| Heap(c, mem, |fts_path|, extra, ls);
      ghost var dirs := Dirs(mem, ls);
      PopDir(c, mem, |fts_path|, extra, ls);
      if !c.nochdir { DirsUpLinked(c, mem, |fts_path|, ls); }
      if mem[p].fts_level == 0 {
        RestoreInitialCwd(dirs, streams);
      } else {
        FtsSafeChangedir(mem[p].fts_parent, -1, true, dirs, streams);
      }
    }

    /** cd_dot_dot at the end of the command-line arguments: the last two entries go. */
    method Finish(tmp: Ptr, ghost shown: string)
      requires Exhausted(tmp, shown) && ls.Roots?
      modifies this`mem, this`fts_cur
      ensures Valid() && fts_cur == NULL
    {
      hide Static, DotDotLeadsBack, Cwd, Chained, Pending;
      var p := mem[tmp].fts_parent;
      fts_cur := p;
      Free(tmp);
      Free(p);
      assert mem == map[];
      fts_cur := NULL;
    }

    /** Everything below the directory fts_cur is done, and the working directory is around it. */
    ghost predicate Emptied(shown: string)
      reads this
    {
      && Environment() && ls.Below? && ls.sibs == [] && fts_cur == ls.dir && fts_cur in mem
      && mem[fts_cur].fts_dirp == NoStream
      && Heap(c, mem, |fts_path|, {}, ls) && StreamsApart(mem, ls) && fts_cycle == Table(mem, ls)
      && Cwd(c, fds, fts_cwd_fd, fts_fd_ring, Dirs(mem, ls.outer), Streams(mem, ls.outer))
      && PathPrefixes(fts_path, ls.outer) && Shown(fts_path, shown)
    }

    /** The post-order return of a directory. */
    method PostOrder(ghost shown: string, ghost sk: int -> bool, ghost k: int)
      requires Emptied(shown)
      modifies this`mem, this`fts_cycle, this`ls
      ensures Valid() && fts_cur != NULL && fts_cur in mem
      ensures Sized()
      ensures Returned() == Event(FTS_DP, old(ls).outer.Level(), shown, At(old(mem), old(ls).dir).fts_statp)
      ensures ls == old(ls).outer && Agree(old(mem), mem, ls.Ptrs())
      ensures Remaining(sk, k + 1) == Rest(c, sk, old(mem), fts_dev, old(ls).outer, k + 1)
    {
      hide Rep, Table, Active, PathPrefixes, Static, DotDotLeadsBack, Streams, StreamsApart, Cwd, Rest, Dirs;
      hide Levels.Ptrs, CString, Levels.Level;
      var p := fts_cur;
      ghost var mem0, outer := mem, ls.outer;
      PopDir(c, mem, |fts_path|, {}, ls);
      CStringReads(shown, fts_path);
      mem := mem[p := mem[p].(fts_info := if mem[p].fts_errno != 0 then FTS_ERR else FTS_DP)];
      ls := outer;
      assert {} + {p} == {p};
      HeapFrame(c, mem0, mem, |fts_path|, |fts_path|, {p}, {p}, outer);
      Leave();
      RestFrame(c, sk, mem0, mem, fts_dev, outer, k + 1);
    }

    /** cd_dot_dot below a directory: back to it, and back up in the hierarchy. */
    method Ascend(tmp: Ptr, ghost shown: string)
      requires Exhausted(tmp, shown) && ls.Below?
      modifies this`mem, this`fds, this`fts_cwd_fd, this`fts_fd_ring, this`fts_path, this`fts_cur
      ensures Emptied(shown) && Agree(old(mem), mem, ls.outer.Ptrs()) && mem[ls.dir] == At(old(mem), ls.dir)
    {
      hide Rep, Table, Active, PathPrefixes, Static, DotDotLeadsBack, Streams, StreamsApart, Cwd, Rest, Dirs;
      hide Levels.Ptrs, CString, Levels.Level;
      hide Chained, NoDup, Pending, Held, UpLinked, Above, Join, NamedBelow, NamedDir;
      ghost var mem0, cap, path0 := mem, |fts_path|, fts_path;
      var p := mem[tmp].fts_parent;
      fts_cur := p;
      NoNull(c, mem, cap, {tmp}, ls);
      HeapFrame(c, mem, mem - {tmp}, cap, cap, {tmp}, {}, ls);
      Free(tmp);
      PopDir(c, mem, cap, {}, ls);
      Store(mem[p].fts_pathlen, [NUL]);
      assert fts_path == path0[|ls.text| := NUL];
      GoUp(p, Streams(mem, ls));
      NoNull(c, mem, cap, {} + {p}, ls.outer);
      PrefixesKept(c, mem, cap, path0, fts_path, ls.outer, |ls.text|);
      assert {} + Streams(mem, ls.outer) == Streams(mem, ls.outer);
    }

    /** fts_build with nothing to return: back up, and post-order. */
    method BuildEmpty(ghost sk: int -> bool, ghost k: int)
      requires Read({}) && ls.sibs == []
      modifies this`mem, this`fds, this`fts_cwd_fd, this`fts_fd_ring, this`fts_cycle, this`ls
      ensures Valid() && fts_cur != NULL && fts_cur in mem
      ensures Sized()
      ensures Returned()
            == Event(FTS_DP, old(ls).outer.Level(), PostText(c, old(ls).text, 0), At(old(mem), old(ls).dir).fts_statp)
      ensures ls == old(ls).outer && Agree(old(mem), mem, ls.Ptrs())
      ensures Remaining(sk, k + 1) == Rest(c, sk, old(mem), fts_dev, old(ls).outer, k + 1)
    {
      hide Rep, Table, Active, PathPrefixes, Static, DotDotLeadsBack, Streams, StreamsApart, Cwd, Rest, Dirs;
      hide Levels.Ptrs, CString, Levels.Level, PostText;
      PopDir(c, mem, |fts_path|, {}, ls);
      GoUp(fts_cur, Streams(mem, ls));
      assert {} + Streams(mem, ls.outer) == Streams(mem, ls.outer);
      PostOrder(PostText(c, ls.text, 0), sk, k);
    }

    /** fts_read for a directory in pre-order that cannot be opened. */
    method ReturnUnreadable(ghost mem0: Mem, ghost sk: int -> bool, ghost k: int)
      requires Leaving() && Shown(fts_path, text) && mem[fts_cur].fts_info == FTS_DNR && fts_cur in mem0
      requires mem0[fts_cur].fts_pathlen == |text|
      requires mem0[fts_cur].fts_statp in c.fs.unreadable
      requires mem == mem0[fts_cur := mem0[fts_cur].(fts_info := FTS_DNR,
                                                      fts_errno := c.fs.unreadable[mem0[fts_cur].fts_statp])]
      modifies this`fts_cycle
      ensures Valid() && fts_cur != NULL && fts_cur in mem
      ensures Sized()
      ensures [Event(FTS_DNR, ls.Level(), text, mem0[fts_cur].fts_statp)] + Rest(c, sk, mem0, fts_dev, ls, k + 1)
           == [Returned()] + Remaining(sk, k + 1)
    {
      hide Rep, Table, Active, PathPrefixes, Static, DotDotLeadsBack, Streams, StreamsApart, Cwd, Rest, Dirs;
      hide Levels.Ptrs, CString, Levels.Level;
      NoNull(c, mem, |fts_path|, {fts_cur}, ls);
      CStringReads(text, fts_path);
      Leave();
      RestFrame(c, sk, mem, mem0, fts_dev, ls, k + 1);
    }

    /** fts_read when fts_build has returned a list: the entry before it, if any, goes, and the first
        entry of the list is next. */
    method TakeBuilt(tmp: Ptr, head: Ptr)
      requires Read(Only(tmp)) && ls.sibs != [] && head == HeadOf(ls.sibs)
      modifies this`mem, this`fts_cur, this`ls
      ensures Arrived() && ls == Tail(old(ls)) && ls.Below? && ls.text != [] && fts_cur == head
      ensures head in old(mem) && head in mem && mem == old(mem) - Only(tmp) && mem[head] == old(mem)[head]
      ensures ls.Ptrs() <= mem.Keys && Agree(old(mem), mem, ls.Ptrs()) && head !in ls.Ptrs()
      ensures ls.Top() != head && At(mem, ls.Top()) == old(At(mem, ls.Top()))
    {
      hide Rep, Table, Active, Static, DotDotLeadsBack, Streams, StreamsApart, Cwd, Rest, Dirs, Levels.Ptrs;
      hide RootPending, KidPending;
      ghost var mem0, ls0, cap := mem, ls, |fts_path|;
      NoNull(c, mem, cap, Only(tmp), ls);
      if tmp != NULL {
        Free(tmp);
      }
      HeapFrame(c, mem0, mem, cap, cap, Only(tmp), {}, ls0);
      TakeFirst(c, mem, cap, {}, ls0);
      fts_cur := head;
      ls := Tail(ls);
      assert {} + {head} == {head};
      NoNull(c, mem, cap, {head}, ls);
      TopInPtrs(ls);
    }

    /** fts_read has gone down into directory p, which has n visible entries: the first of them is
        current, and p's stream has been read to its end iff they do not fill a batch. */
    ghost predicate Inside(p: Ptr, outer: Levels, n: nat)
      reads this
    {
      && ls.Below? && ls.dir == p && ls.outer == outer && n >= 1
      && fts_cur in mem && mem[fts_cur].fts_parent == p && mem[fts_cur].fts_info != FTS_INIT
      && (At(mem, p).fts_dirp.Stream? <==> n >= c.batch)
    }

    /** fts_read, from a batch fts_build has just read to the return of its first entry. */
    method ReturnBuilt(tmp: Ptr, head: Ptr, ghost sk: int -> bool, ghost k: int) returns (r: Ptr)
      requires Read(Only(tmp)) && ls.sibs != [] && head == HeadOf(ls.sibs) && |PendingKids(mem, ls.sibs)| == |ls.sibs|
      modifies this`mem, this`fts_cur, this`ls, this`fts_path, this`text, this`fts_cycle, this`fts_dev
      ensures Valid() && r == fts_cur != NULL && fts_cur in mem
      ensures Sized()
      ensures old(Rest(c, sk, mem, fts_dev, ls, k)) == [Returned()] + Remaining(sk, k + 1)
      ensures Agree(old(mem), mem, ls.Ptrs())
      ensures ls == Tail(old(ls)) && mem[fts_cur].fts_info != FTS_INIT && Placed(mem[fts_cur], ls)
      ensures At(mem, ls.Top()) == old(At(mem, ls.Top()))
    {
      hide Rep, Table, Active, Static, DotDotLeadsBack, Streams, StreamsApart, Cwd, Rest, Dirs, Levels.Ptrs;
      hide FirstVisit, PendingKids;
      hide Heap, PathPrefixes, Pending, Levels.Level, Valid;
      ghost var mem0, ls0 := mem, ls;
      NoneSkipped(mem, ls.sibs);
      TakeBuilt(tmp, head);
      FirstKid(c, sk, mem0, fts_dev, ls0, k);
      FirstVisitFrame(c, sk, mem0, mem, fts_dev, head, ls, Join(ls.text, mem[head].fts_name), k);
      r := Name(sk, k);
    }

    /** What the invariant says of a directory in pre-order that is not turned back. */
    lemma PreOrderFacts(sk: int -> bool, k: int)
      requires Valid() && fts_cur != NULL && mem[fts_cur].fts_info == FTS_D
      requires !TurnedBack(c, mem[fts_cur], sk(k - 1), fts_dev)
      ensures c.batch >= 1 && fts_cur in mem && text != [] && fts_cur !in ls.Ptrs() && ls.Ptrs() <= mem.Keys
      ensures var e := mem[fts_cur];
              && e.fts_statp !in Active(mem, ls) && e.fts_statp in c.fs.dirs
              && Shown(fts_path, text) && e.fts_pathlen == |text| && e.fts_level == ls.Level()
      ensures var own := Own(c, sk, mem, fts_dev, fts_cur, ls, text, k - 1);
              Remaining(sk, k) == own + Rest(c, sk, mem, fts_dev, ls, k + |own|)
      ensures mem[fts_cur].fts_statp in c.fs.unreadable ==>
                Remaining(sk, k)
                == [Event(FTS_DNR, ls.Level(), text, mem[fts_cur].fts_statp)] + Rest(c, sk, mem, fts_dev, ls, k + 1)
    {
      hide Rep, Table, Active, PathPrefixes, Static, DotDotLeadsBack, Streams, StreamsApart, Cwd, Rest, Dirs;
      hide Levels.Ptrs, CString;
      hide Own, TurnedBack, Levels.Level;
      NoNull(c, mem, |fts_path|, {fts_cur}, ls);
      OwnShort(c, sk, mem, fts_dev, fts_cur, text, ls, k - 1);
    }

    /** A directory in pre-order that is not turned back: its first entry, or its post-order return. */
    method Descend(ghost sk: int -> bool, ghost k: int) returns (r: Ptr)
      requires Valid() && fts_cur != NULL && mem[fts_cur].fts_info == FTS_D
      requires !TurnedBack(c, mem[fts_cur], sk(k - 1), fts_dev)
      modifies this
      ensures Valid() && r == fts_cur != NULL && fts_cur in mem
      ensures Sized()
      ensures old(Remaining(sk, k)) == [Returned()] + Remaining(sk, k + 1)
      ensures mem[fts_cur].fts_level > old(mem[fts_cur]).fts_level ==>
                && old(mem[fts_cur]).fts_statp in c.fs.dirs
                && Inside(old(fts_cur), old(ls), |Kids(c, c.fs.dirs[old(mem[fts_cur]).fts_statp])|)
      ensures c.batch >= 1
      ensures Tiers(c, mem, ls) == Inward(c.batch, mem[fts_cur].fts_level > old(mem[fts_cur]).fts_level,
                                          old(mem[fts_cur]).fts_statp,
                                          VisibleIn(c.fs, c.seedot, old(mem[fts_cur]).fts_statp),
                                          old(Tiers(c, mem, ls)))
    {
      hide Rest, Levels.Ptrs, CString, Levels.Level, Own, TurnedBack, Active, Kids, Valid, Leaving, Reading;
      hide Remaining, Sized, Returned, Tiers;
      ghost var mem0, ls0, p := mem, ls, fts_cur;
      PreOrderFacts(sk, k);
      Cov.KidsVisible(c, c.fs.dirs[mem[p].fts_statp]);
      var ok := BuildOpen();
      if !ok {
        ReturnUnreadable(mem0, sk, k);
        TiersFrame(c, mem0, mem, ls);
        return fts_cur;
      }
      DescendRest(c, sk, mem0, mem, fts_dev, p, text, ls0, mem[p].fts_dirp.fd, k - 1);
      TiersFrame(c, mem0, mem, ls0);
      r := DescendInto(sk, k);
    }

    /** The directory fts_cur has been opened. */
    method DescendInto(ghost sk: int -> bool, ghost k: int) returns (r: Ptr)
      requires Reading({})
      modifies this
      ensures Valid() && r == fts_cur != NULL && fts_cur in mem
      ensures Sized()
      ensures old(Rest(c, sk, mem, fts_dev, ls, k)) == [Returned()] + Remaining(sk, k + 1)
      ensures mem[fts_cur].fts_level > old(ls).outer.Level() ==>
                Inside(old(fts_cur), old(ls).outer, |Unread(c, old(At(mem, fts_cur).fts_dirp))|)
      ensures c.batch >= 1 && old(ls).Below?
      ensures Tiers(c, mem, ls) == Inward(c.batch, mem[fts_cur].fts_level > old(ls).outer.Level(),
                                          old(At(mem, fts_cur)).fts_statp, |Unread(c, old(At(mem, fts_cur).fts_dirp))|,
                                          old(Tiers(c, mem, ls.outer)))
    {
      hide Rep, Table, Active, PathPrefixes, Static, DotDotLeadsBack, Streams, StreamsApart, Cwd, Rest, Dirs;
      hide Levels.Ptrs, CString, Levels.Level, PostText;
      hide Heap, Unread, PendingKids, Valid, Tiers, Remaining, Sized;
      ghost var mem1, ls1 := mem, ls;
      NoNull(c, mem, |fts_path|, {}, ls);
      NothingPending(c, mem, 0);
      var head, nitems := BuildRead({});
      NothingPending(c, mem, 0);
      if nitems == 0 {
        BuildNone(c, sk, mem1, mem, fts_dev, ls1, {}, k);
        ghost var mem2 := mem;
        BuildEmpty(sk, k);
        OuterPtrsIn(ls1);
        TiersFrame(c, mem1, mem2, ls1.outer);
        TiersFrame(c, mem2, mem, ls1.outer);
        r := fts_cur;
      } else {
        BuildRest(c, sk, mem1, mem, fts_dev, ls1, ls, {}, k);
        ghost var mem2, ls2 := mem, ls;
        NoNull(c, mem, |fts_path|, {}, ls);
        assert Only(NULL) == {};
        OneDown(Tail(ls));
        r := ReturnBuilt(NULL, head, sk, k);
        BuiltTiers(c, mem1, mem2, mem, ls1, ls2, {});
      }
    }

    // ------------------------------------------------------------ fts_read: the next entry

    /** fts_load. */
    method FtsLoad(p: Ptr)
      requires p in mem && |mem[p].fts_name| + 1 <= |fts_path|
      modifies this`mem, this`fts_path
      ensures fts_path == old(mem[p].fts_name) + [NUL] + old(fts_path)[|old(mem[p].fts_name)| + 1..]
      ensures mem == old(mem)[p := old(mem[p]).(fts_pathlen := |old(mem[p].fts_name)|, accInPath := true,
                                                fts_name := BaseName(old(mem[p].fts_name)))]
    {
      var name := mem[p].fts_name;
      mem := mem[p := mem[p].(fts_pathlen := |name|)];
      Store(0, name + [NUL]);
      mem := mem[p := mem[p].(fts_name := BaseName(name), accInPath := true)];
    }

    /** fts_read for the next command-line argument. */
    method NextRoot(ghost sk: int -> bool, ghost k: int) returns (r: Ptr)
      requires Arrived() && ls.Roots?
      modifies this
      ensures Valid() && r == fts_cur != NULL && fts_cur in mem
      ensures Sized() && ls == old(ls)
      ensures old(FirstVisit(c, sk, mem, fts_dev, fts_cur, ls, mem[fts_cur].fts_name, k))
            == [Returned()] + Remaining(sk, k + 1)
    {
      hide Rep, Active, Static, DotDotLeadsBack, StreamsApart, Cwd, Rest, Levels.Ptrs, CString, Classify, Visit;
      var p := fts_cur;
      ghost var mem0, cap := mem, |fts_path|;
      RestoreInitialCwd(Dirs(mem, ls), Streams(mem, ls));
      fts_cycle := map[];  // free_dir and setup_dir
      text := mem[p].fts_name;
      FtsLoad(p);
      HeapFrame(c, mem0, mem, cap, cap, {p}, {p}, ls);
      FirstVisitRoot(c, sk, mem0, mem, fts_dev, p, ls, text, k);
      r := CheckForDir(sk, k);
    }

    /** The entry behind the current one becomes the current one. */
    method TakeNext(p: Ptr)
      requires Valid() && fts_cur != NULL && mem[fts_cur].fts_info != FTS_D && p == mem[fts_cur].fts_link != NULL
      modifies this`mem, this`fts_cur, this`ls
      ensures old(ls).sibs != [] && fts_cur == p == old(ls).sibs[0] && ls == Tail(old(ls)) && p in old(mem) && p in mem
      ensures mem[p] == old(mem)[p] && Agree(old(mem), mem, ls.Ptrs()) && p !in ls.Ptrs()
      ensures Arrived() && mem == old(mem) - {old(fts_cur)} && ls.Ptrs() <= mem.Keys
      ensures (mem[p].fts_level == 0) == ls.Roots? == old(ls).Roots?
    {
      hide Rep, Table, Active, Static, DotDotLeadsBack, Streams, StreamsApart, Cwd, Dirs, Levels.Ptrs, RootPending;
      hide KidPending;
      ghost var mem0, ls0, cap := mem, ls, |fts_path|;
      var tmp := fts_cur;
      HeadNotNull(c, mem, cap, {tmp}, ls);
      fts_cur := p;
      Free(tmp);
      HeapFrame(c, mem0, mem, cap, cap, {tmp}, {}, ls0);
      TakeFirst(c, mem, cap, {}, ls0);
      ls := Tail(ls);
      assert {} + {p} == {p};
      NoNull(c, mem, cap, {p}, ls);
      PrefixesSibs(fts_path, ls0, ls.sibs);
    }

    /** cd_dot_dot. */
    method CdDotDot(tmp: Ptr, ghost shown: string, ghost sk: int -> bool, ghost k: int) returns (r: Ptr)
      requires Exhausted(tmp, shown)
      modifies this
      ensures Valid() && r == fts_cur
      ensures r != NULL ==> Sized()
      ensures old(ls).Roots? ==> r == NULL
      ensures old(ls).Below? ==>
                && fts_cur != NULL && fts_cur in mem && ls == old(ls).outer && Agree(old(mem), mem, ls.Ptrs())
                && [Event(FTS_DP, old(ls).outer.Level(), shown, At(old(mem), old(ls).dir).fts_statp)]
                     + Rest(c, sk, old(mem), old(fts_dev), old(ls).outer, k + 1)
                   == [Returned()] + Remaining(sk, k + 1)
    {
      hide Rep, Table, Active, PathPrefixes, Static, DotDotLeadsBack, Streams, StreamsApart, Cwd, Rest, Dirs;
      hide Levels.Ptrs, CString, Levels.Level, Valid, Heap;
      HeadNotNull(c, mem, |fts_path|, {tmp}, ls);
      if mem[mem[tmp].fts_parent].fts_level == -1 {
        Finish(tmp, shown);
      } else {
        ghost var mem0 := mem;
        OuterPtrs(ls, ls.sibs);
        Ascend(tmp, shown);
        RestFrame(c, sk, mem0, mem, fts_dev, ls.outer, k + 1);
        PostOrder(shown, sk, k);
      }
      r := fts_cur;
    }

    /** fts_read at the end of a batch, back to the directory: ready to read on. */
    method ResumeReading(tmp: Ptr)
      requires Valid() && fts_cur == tmp != NULL && mem[tmp].fts_info != FTS_D && ls.sibs == [] && ls.Below?
      requires At(mem, ls.dir).fts_dirp.Stream?
      modifies this`fts_cur, this`fts_path
      ensures Reading({tmp}) && tmp in mem && mem[tmp].fts_parent == ls.Top()
    {
      hide Rep, Table, Active, PathPrefixes, Static, DotDotLeadsBack, Streams, StreamsApart, Cwd, Dirs, Levels.Ptrs;
      var p := mem[tmp].fts_parent;
      fts_cur := p;
      HeadNotNull(c, mem, |fts_path|, {tmp}, ls);
      CutShows(c, mem, |fts_path|, fts_path, ls);
      ghost var path0 := fts_path;
      Store(mem[p].fts_pathlen, [NUL]);
      assert fts_path == path0[|ls.text| := NUL];
    }

    /** fts_read at the end of a batch: the next one, or cd_dot_dot. */
    method NextBatch(ghost sk: int -> bool, ghost k: int) returns (r: Ptr)
      requires Valid() && fts_cur != NULL && mem[fts_cur].fts_info != FTS_D && ls.sibs == [] && ls.Below?
      requires At(mem, ls.dir).fts_dirp.Stream?
      modifies this
      ensures Valid() && r == fts_cur != NULL && fts_cur in mem
      ensures Sized()
      ensures old(Rest(c, sk, mem, fts_dev, ls, k)) == [Returned()] + Remaining(sk, k + 1)
      ensures c.batch >= 1 && Tiers(c, mem, ls) == Moved(c.batch, old(Tiers(c, mem, ls)))
    {
      hide Rep, Table, Active, PathPrefixes, Static, DotDotLeadsBack, Streams, StreamsApart, Cwd, Rest, Dirs;
      hide Levels.Ptrs, CString, Levels.Level, PostText;
      hide Unread, PendingKids, Valid, Heap, Tiers, Moved, Returned, Remaining, Sized;
      var tmp := fts_cur;
      ResumeReading(tmp);
      ghost var mem1, ls1 := mem, ls;
      NoNull(c, mem, |fts_path|, {tmp}, ls);
      NothingPending(c, mem, 0);
      var head, nitems := BuildRead({tmp});
      NothingPending(c, mem, 0);
      if nitems == 0 {
        BuildNone(c, sk, mem1, mem, fts_dev, ls1, {tmp}, k);
        assert Exhausted(tmp, PostText(c, ls.text, 0)) by { CutAgain(c, mem, |fts_path|, {tmp}, fts_path, ls); }
        ghost var mem2 := mem;
        r := CdDotDot(tmp, PostText(c, ls.text, 0), sk, k);
        OuterPtrsIn(ls1);
        TiersFrame(c, mem1, mem2, ls1.outer);
        ClosedTiers(c, mem1, mem, ls1);
      } else {
        BuildRest(c, sk, mem1, mem, fts_dev, ls1, ls, {tmp}, k);
        ghost var mem2, ls2 := mem, ls;
        NoNull(c, mem, |fts_path|, {tmp}, ls);
        r := ReturnBuilt(tmp, head, sk, k);
        BuiltTiers(c, mem1, mem2, mem, ls1, ls2, {tmp});
        NextBatchTiers(c, mem1, ls1);
      }
    }

    /** fts_read past the last entry of a level whose stream, if any, has ended. */
    method NextUp(ghost sk: int -> bool, ghost k: int) returns (r: Ptr)
      requires Valid() && fts_cur != NULL && mem[fts_cur].fts_info != FTS_D && ls.sibs == []
      requires ls.Below? ==> At(mem, ls.dir).fts_dirp == NoStream
      modifies this
      ensures Valid() && r == fts_cur && (r != NULL ==> fts_cur in mem)
      ensures r != NULL ==> Sized()
      ensures c.batch >= 1 && (r != NULL ==> Tiers(c, mem, ls) == Moved(c.batch, old(Tiers(c, mem, ls))))
      ensures old(Rest(c, sk, mem, fts_dev, ls, k)) == if r == NULL then [] else [Returned()] + Remaining(sk, k + 1)
    {
      hide Rep, Table, Active, PathPrefixes, Static, DotDotLeadsBack, Streams, StreamsApart, Cwd, Rest, Dirs;
      hide Levels.Ptrs, CString, Levels.Level, Tiers, Moved;
      var tmp := fts_cur;
      ghost var shown := if ls.Below? then ls.text else "";
      RestDone(c, sk, mem, |fts_path|, {tmp}, fts_dev, ls, k);
      if ls.Below? { CutShows(c, mem, |fts_path|, fts_path, ls); }
      assert Exhausted(tmp, shown);
      hide Heap, Valid;
      ghost var mem0, ls0 := mem, ls;
      r := CdDotDot(tmp, shown, sk, k);
      if r != NULL { ClosedTiers(c, mem0, mem, ls0); }
    }

    lemma LevelFacts()
      requires Valid() && fts_cur != NULL && mem[fts_cur].fts_info != FTS_D
      ensures fts_cur in mem && c.batch >= 1 && ls.Top() in mem && (ls.Below? ==> ls.text != [] && ls.dir in mem)
      ensures ls.Ptrs() <= mem.Keys
      ensures mem[fts_cur].fts_link == NULL <==> ls.sibs == []
      ensures ls.sibs == [] ==> mem[fts_cur].fts_parent == ls.Top()
      ensures ls.Roots? ==> mem[ls.Top()].fts_dirp == NoStream
    {
      hide Rep, Table, Active, PathPrefixes, Static, DotDotLeadsBack, Streams, StreamsApart, Cwd, Dirs, Levels.Ptrs;
      HeadNotNull(c, mem, |fts_path|, {fts_cur}, ls);
    }

    /** An entry the client has skipped can be passed over like one that has been returned. */
    lemma SkippedIsDone()
      requires Arrived() && ls.Below?
      ensures Valid() && mem[fts_cur].fts_info != FTS_D
    {
      hide Rep, Table, Active, PathPrefixes, Static, DotDotLeadsBack, Streams, StreamsApart, Cwd, Dirs, Levels.Ptrs;
    }

    /** next, for an entry with a sibling p: it is returned, unless the client has skipped it. */
    method NextSibling(p: Ptr, ghost sk: int -> bool, ghost k: int) returns (returned: bool)
      requires Valid() && fts_cur != NULL && fts_cur in mem && mem[fts_cur].fts_info != FTS_D
      requires p == mem[fts_cur].fts_link != NULL
      modifies this
      ensures Valid() && fts_cur != NULL && fts_cur in mem
      ensures returned ==> Sized()
      ensures returned ==> old(Rest(c, sk, mem, fts_dev, ls, k)) == [Returned()] + Remaining(sk, k + 1)
      ensures c.batch >= 1
      ensures Tiers(c, mem, ls) == if returned then Moved(c.batch, old(Tiers(c, mem, ls))) else old(Tiers(c, mem, ls))
      ensures !returned ==>
                && mem[fts_cur].fts_info != FTS_D && |mem| < |old(mem)|
                && Rest(c, sk, mem, fts_dev, ls, k) == old(Rest(c, sk, mem, fts_dev, ls, k))
    {
      hide Rep, Table, Active, PathPrefixes, Static, DotDotLeadsBack, Streams, StreamsApart, Cwd, Rest, Dirs;
      hide Levels.Ptrs, CString, Levels.Level;
      hide RootPending, KidPending, FirstVisit, Valid, Heap, Pending, Tiers, Moved, Returned, Remaining, Sized;
      ghost var mem0, ls0 := mem, ls;
      LevelFacts();
      Smaller(mem, fts_cur);
      TakeNext(p);
      if mem[p].fts_level == 0 {
        FirstRoot(c, sk, mem0, fts_dev, ls0, k);
        FirstVisitFrame(c, sk, mem0, mem, fts_dev, p, ls, mem[p].fts_name, k);
        var _ := NextRoot(sk, k);
        NoTiersAtTop(c, mem0, ls0);
        NoTiersAtTop(c, mem, ls);
        return true;
      }
      if mem[p].fts_instr != FTS_SKIP {
        FirstKid(c, sk, mem0, fts_dev, ls0, k);
        FirstVisitFrame(c, sk, mem0, mem, fts_dev, p, ls, Join(ls.text, mem[p].fts_name), k);
        var _ := Name(sk, k);
        TakenTiers(c, mem0, mem, ls0);
        return true;
      }
      SkippedKid(c, sk, mem0, fts_dev, ls0, k);
      RestFrame(c, sk, mem0, mem, fts_dev, ls, k);
      SkippedIsDone();
      TakenTiers(c, mem0, mem, ls0);
      return false;
    }

    /** next. */
    method Next(ghost sk: int -> bool, ghost k: int) returns (r: Ptr)
      requires Valid() && fts_cur != NULL && mem[fts_cur].fts_info != FTS_D
      modifies this
      ensures Valid() && r == fts_cur && (r != NULL ==> fts_cur in mem)
      ensures r != NULL ==> Sized()
      ensures c.batch >= 1 && (r != NULL ==> Tiers(c, mem, ls) == Moved(c.batch, old(Tiers(c, mem, ls))))
      ensures old(Rest(c, sk, mem, fts_dev, ls, k)) == if r == NULL then [] else [Returned()] + Remaining(sk, k + 1)
    {
      hide Rest, Levels.Ptrs, CString, Levels.Level, Valid, Remaining, Tiers, Moved;
      LevelFacts();
      ghost var rest, tiers := Rest(c, sk, mem, fts_dev, ls, k), Tiers(c, mem, ls);
      while true
        invariant Valid() && fts_cur != NULL && fts_cur in mem && mem[fts_cur].fts_info != FTS_D && c.batch >= 1
        invariant Rest(c, sk, mem, fts_dev, ls, k) == rest && Tiers(c, mem, ls) == tiers
        decreases |mem|
      {
        var tmp := fts_cur;
        LevelFacts();
        if mem[tmp].fts_link == NULL && mem[mem[tmp].fts_parent].fts_dirp.Stream? {
          r := NextBatch(sk, k);
          return;
        }
        var p := mem[tmp].fts_link;
        if p == NULL {
          r := NextUp(sk, k);
          return;
        }
        var returned := NextSibling(p, sk, k);
        if returned {
          return fts_cur;
        }
      }
    }

    // ------------------------------------------------------------ what the invariant says

    /** The table holds exactly the directories entered and not left, under their own inodes: the
        current entry, if it is one, and those above it.  An FTS_DC entry points to one of them. */
    lemma ActiveDirectories()
      requires Valid() && fts_cur != NULL && mem[fts_cur].fts_info != FTS_INIT
      ensures forall i | i in fts_cycle ::
                var q := fts_cycle[i];
                q in mem && mem[q].fts_info == FTS_D && mem[q].fts_statp == i && Above(mem, fts_cur, q)
      ensures forall q | Above(mem, fts_cur, q) && At(mem, q).fts_info == FTS_D ::
                q in mem && mem[q].fts_statp in fts_cycle && fts_cycle[mem[q].fts_statp] == q
      ensures forall q | Above(mem, fts_cur, q) && q != fts_cur :: At(mem, q).fts_info == FTS_D
      ensures mem[fts_cur].fts_info == FTS_DC ==>
                var q := mem[fts_cur].fts_cycle;
                q != fts_cur && q in mem && mem[q].fts_statp == mem[fts_cur].fts_statp && Above(mem, fts_cur, q)
    {
      hide Rep, Static, DotDotLeadsBack, Cwd, PathPrefixes, StreamsApart, Streams, Dirs, Table, Levels.Ptrs, CString;
      TableIsAbove(c, mem, |fts_path|, fts_cur, ls);
    }

    /** The live entries are exactly the current one and those that fts_close will reach from it,
        each of which is reached once. */
    lemma LiveEntries()
      requires Valid() && fts_cur != NULL
      ensures Follows(mem, fts_cur, Chain(ls)) && NoDup([fts_cur] + Chain(ls))
      ensures forall q :: q in mem <==> q in [fts_cur] + Chain(ls)
    {
      hide Rep, Static, DotDotLeadsBack, Cwd, PathPrefixes, StreamsApart, Streams, Dirs, Table, Levels.Ptrs;
      hide CString, Follows, NoDup, InPreOrder, Shown, Active;
      HeadNotNull(c, mem, |fts_path|, {fts_cur}, ls);
      ChainFollows(c, mem, |fts_path|, fts_cur, ls);
      ChainDistinct(c, mem, |fts_path|, ls);
      NoDupNone();
      NoDupJoin([], fts_cur, Chain(ls));
      assert [] + [fts_cur] + Chain(ls) == [fts_cur] + Chain(ls);
    }

    /** With FTS_CWDFD, fts_cwd_fd is open on the directory that holds the current entry (or is
        AT_FDCWD for a command-line argument). */
    lemma WorkingDirectory()
      requires Valid() && fts_cur != NULL && mem[fts_cur].fts_info != FTS_INIT && c.cwdfd
      ensures mem[fts_cur].fts_level == 0 ==> fts_cwd_fd == AT_FDCWD
      ensures mem[fts_cur].fts_level > 0 ==>
                fts_cwd_fd in fds && mem[fts_cur].fts_parent in mem
                  && fds[fts_cwd_fd] == mem[mem[fts_cur].fts_parent].fts_statp
    {
      hide Rep, Static, DotDotLeadsBack, PathPrefixes, StreamsApart, Streams, Table, Levels.Ptrs, CString;
      hide R.Ring.Items, R.Ring.Valid;
      HeadNotNull(c, mem, |fts_path|, {fts_cur}, ls);
    }

    /** Every open descriptor is in one place: fts_cwd_fd, one slot of the ring, or the stream of one
        entered directory. */
    lemma Descriptors()
      requires Valid() && fts_cur != NULL
      ensures forall fd ::
                fd in fds <==> fd >= 0 && (fd == fts_cwd_fd || fd in fts_fd_ring.Items() || fd in Streams(mem, ls))
      ensures forall fd | fd in Streams(mem, ls) :: fd != fts_cwd_fd && fd !in fts_fd_ring.Items()
      ensures fts_cwd_fd >= 0 ==> fts_cwd_fd !in fts_fd_ring.Items()
      ensures forall i, j | 0 <= i < j < |fts_fd_ring.Items()| :: fts_fd_ring.Items()[i] != fts_fd_ring.Items()[j]
    {
      hide Rep, Static, DotDotLeadsBack, PathPrefixes, StreamsApart, Streams, Table, Levels.Ptrs, CString;
      hide R.Ring.Items, R.Ring.Valid, Dirs;
      ghost var items := fts_fd_ring.Items();
      assert forall fd :: fd in Held(fts_cwd_fd, items) <==> fd >= 0 && (fd == fts_cwd_fd || fd in items);
    }

    // ------------------------------------------------------------ fts_open

    /** fts_maxarglen. */
    static method FtsMaxArgLen(argv: seq<string>) returns (max: nat)
      ensures forall v | v in argv :: |v| < max
      ensures max == 1 || exists v :: v in argv && |v| + 1 == max
    {
      max := 0;
      for i := 0 to |argv|
        invariant forall j | 0 <= j < i :: |argv[j]| <= max
        invariant max == 0 || exists j :: 0 <= j < i && |argv[j]| == max
      {
        if |argv[i]| > max {
          max := |argv[i]|;
        }
      }
      max := max + 1;
    }

    /** fts_open, the entry of one command-line argument; `first` is the one that is stat'ed at once. */
    method RootAlloc(name: string, parent: Ptr, first: bool) returns (p: Ptr)
      requires fds == map[]
      modifies this`mem
      ensures p != NULL && p !in old(mem) && p in mem && mem == old(mem)[p := mem[p]]
      ensures mem[p].fts_link == NULL && mem[p].fts_dirp == NoStream
      ensures mem[p].fts_parent == parent && mem[p].fts_level == 0 && mem[p].fts_name == name
      ensures NUL !in name && |name| + 1 <= |fts_path| ==> RootPending(c, mem[p], |fts_path|)
    {
      hide Classify, CString;
      p := FtsAlloc(name);
      mem := mem[p := mem[p].(fts_level := 0, fts_parent := parent, accInPath := false)];
      if first {
        var info := FtsStat(p);
        mem := mem[p := mem[p].(fts_info := info)];
      } else {
        mem := mem[p := mem[p].(fts_info := FTS_NSOK, statRequired := true)];
      }
      mem := mem[p := mem[p].(fts_link := NULL)];
    }

    /** fts_open, one command-line argument: allocated and linked. */
    method OpenRoot(name: string, parent: Ptr, tail: Ptr, first: bool) returns (p: Ptr)
      requires NULL !in mem && (tail != NULL ==> tail in mem) && fds == map[]
      requires ls.Roots? && tail == LastOf(ls.sibs)
      modifies this`mem
      ensures Appended(old(mem), mem, ls, p) && mem[p].fts_link == NULL && mem[p].fts_dirp == NoStream
      ensures mem[p].fts_parent == parent && mem[p].fts_level == 0 && mem[p].fts_name == name
      ensures NUL !in name && |name| + 1 <= |fts_path| ==> RootPending(c, mem[p], |fts_path|)
    {
      hide RootPending, LastOf, Appended;
      p := RootAlloc(name, parent, first);
      ghost var alone := mem;
      if tail != NULL {
        mem := mem[tail := mem[tail].(fts_link := p)];
      }
      LinkedIsAppended(old(mem), alone, mem, ls, p);
    }

    /** fts_open: all but one of several trailing slashes go, except that "//" stays. */
    static method TrimArgument(v: string, verbatim: bool) returns (name: string)
      ensures name == Argument(v, verbatim)
    {
      var len := |v|;
      if !verbatim && 2 < len && v[len - 1] == '/' {
        while 1 < len && v[len - 2] == '/'
          invariant 1 <= len <= |v| && v[len - 1] == '/' && Trim(v, len) == Trim(v, |v|)
        {
          len := len - 1;
        }
      }
      name := v[..len];
    }

    /** fts_open, the list of command-line arguments. */
    method OpenRoots(argv: seq<string>, verbatim: bool, parent: Ptr) returns (root: Ptr)
      requires c.Supported() && fds == map[] && ls == Roots(parent, []) && Heap(c, mem, |fts_path|, {}, ls)
      requires forall v | v in argv :: NUL !in v && |v| + 1 <= |fts_path|
      modifies this`mem, this`ls
      ensures ls.Roots? && ls.parent == parent && Heap(c, mem, |fts_path|, {}, ls) && root == HeadOf(ls.sibs)
      ensures |ls.sibs| == |argv|
      ensures PendingRoots(mem, ls.sibs) == Arguments(argv, verbatim)
    {
      hide Rep, Levels.Ptrs, RootPending, PendingRoots, Chained, Trim, Heap, Argument, Arguments, Appended;
      PendingNone(mem);
      root := NULL;
      var tmp := NULL;
      ArgumentsNone(argv, verbatim);
      for i := 0 to |argv|
        invariant ls.Roots? && ls.parent == parent && Heap(c, mem, |fts_path|, {}, ls) && |ls.sibs| == i
        invariant root == HeadOf(ls.sibs) && tmp == LastOf(ls.sibs)
        invariant PendingRoots(mem, ls.sibs) == Arguments(argv[..i], verbatim)
      {
        ghost var mem0, ls0 := mem, ls;
        OpenFacts(c, mem, |fts_path|, ls);
        ArgumentsStep(argv, verbatim, i);
        var name := TrimArgument(argv[i], verbatim);
        var p := OpenRoot(name, parent, tmp, i == 0);
        AddRoot(c, mem0, mem, |fts_path|, ls0, p);
        ls := WithSibs(ls, ls.sibs + [p]);
        if root == NULL {
          root := p;
        }
        tmp := p;
      }
      assert argv[..|argv|] == argv;
    }

    // ------------------------------------------------------------ the interface

    /** Writing fts_instr of the current entry. */
    method SetInstr(instr: Instr)
      requires Valid() && fts_cur != NULL
      modifies this`mem
      ensures Valid() && fts_cur in mem && mem == old(mem)[fts_cur := old(mem[fts_cur]).(fts_instr := instr)]
      ensures Tiers(c, mem, ls) == old(Tiers(c, mem, ls))
      ensures forall sk, k :: Remaining(sk, k) == old(Remaining(sk, k))
    {
      hide Rep, Table, Active, PathPrefixes, Static, DotDotLeadsBack, Streams, StreamsApart, Cwd, Rest, Dirs;
      hide Levels.Ptrs, AfterFirst, CString, Tiers;
      ghost var mem0 := mem;
      NoNull(c, mem, |fts_path|, {fts_cur}, ls);
      mem := mem[fts_cur := mem[fts_cur].(fts_instr := instr)];
      HeapFrame(c, mem0, mem, |fts_path|, |fts_path|, {fts_cur}, {fts_cur}, ls);
      TiersFrame(c, mem0, mem, ls);
      RestFrameAll(c, mem0, mem, fts_dev, ls);
    }

    /** A directory the client has skipped, or that is on another device: straight to post-order. */
    method TurnBack(ghost sk: int -> bool, ghost k: int)
      requires Valid() && fts_cur != NULL && mem[fts_cur].fts_info == FTS_D
      requires TurnedBack(c, mem[fts_cur], sk(k - 1), fts_dev)
      modifies this`mem, this`fts_cycle
      ensures Valid() && fts_cur in mem && old(Remaining(sk, k)) == [Returned()] + Remaining(sk, k + 1)
      ensures Tiers(c, mem, ls) == old(Tiers(c, mem, ls))
      ensures Sized() && mem[fts_cur].fts_level == old(mem[fts_cur].fts_level)
    {
      hide Rep, Table, Active, PathPrefixes, Static, DotDotLeadsBack, Streams, StreamsApart, Cwd, Rest, Dirs;
      hide Levels.Ptrs, AfterFirst, CString, TurnedBack, Tiers, ErrnoOf;
      hide Join, Chained, NoDup, Above, Held;
      ghost var mem0 := mem;
      NoNull(c, mem, |fts_path|, {fts_cur}, ls);
      OwnShort(c, sk, mem, fts_dev, fts_cur, text, ls, k - 1);
      CStringReads(text, fts_path);
      mem := mem[fts_cur := mem[fts_cur].(fts_info := FTS_DP)];
      HeapFrame(c, mem0, mem, |fts_path|, |fts_path|, {fts_cur}, {fts_cur}, ls);
      NoErrno(c, Returned());
      Leave();
      TiersFrame(c, mem0, mem, ls);
      RestFrame(c, sk, mem0, mem, fts_dev, ls, k + 1);
    }

    /** fts_set, for the entry fts_read has just returned.  FTS_AGAIN and FTS_FOLLOW are not modelled. */
    method FtsSet(p: Ptr, instr: int) returns (error: int)
      requires Valid() && fts_cur != NULL && p == fts_cur && instr != FTS_AGAIN && instr != FTS_FOLLOW
      modifies this`mem
      ensures Valid() && p in mem
      ensures instr in {0, FTS_NOINSTR_CODE, FTS_SKIP_CODE} ==>
                && error == 0
                && mem == old(mem)[p := old(mem[p]).(fts_instr := if instr == FTS_SKIP_CODE then FTS_SKIP
                                                                  else FTS_NOINSTR)]
      ensures instr !in {0, FTS_NOINSTR_CODE, FTS_SKIP_CODE} ==> error == 1 && mem == old(mem)
      ensures Tiers(c, mem, ls) == old(Tiers(c, mem, ls))
      ensures forall sk, k :: Remaining(sk, k) == old(Remaining(sk, k))
    {
      hide Valid, Remaining, Tiers;
      CurrentFacts(i => false, 0);
      if instr != 0 && instr != FTS_NOINSTR_CODE && instr != FTS_SKIP_CODE {
        return 1;
      }
      SetInstr(if instr == FTS_SKIP_CODE then FTS_SKIP else FTS_NOINSTR);
      return 0;
    }

    /** fts_set (sp, p, FTS_SKIP) for an entry p that has not been returned: it never will be. */
    method FtsSkip(p: Ptr)
      requires Valid() && fts_cur != NULL && ls.Below? && p in ls.sibs
      modifies this`mem
      ensures Valid() && p in old(mem) && mem == old(mem)[p := old(mem)[p].(fts_instr := FTS_SKIP)]
      ensures PendingKids(mem, ls.sibs) == KidsWithout(old(mem), ls.sibs, p)
      ensures ls.text != [] && c.batch >= 1
      ensures forall sk, k ::
                var first := Own(c, sk, old(mem), fts_dev, fts_cur, ls, text, k - 1);
                var kids := KidsWithout(old(mem), ls.sibs, p) + Unread(c, At(old(mem), ls.dir).fts_dirp);
                Remaining(sk, k) == first + RestBelow(c, sk, old(mem), fts_dev, ls, kids, k + |first|)
    {
      hide Rest, RestBelow, AfterFirst, PendingKids, KidsWithout, Unread, ShownPost, Levels.Level;
      hide Rep, Table, Active, PathPrefixes, Static, DotDotLeadsBack, Streams, StreamsApart, Cwd, Dirs, CString;
      hide NamedBelow, NamedDir;
      ghost var mem0 := mem;
      NoNull(c, mem, |fts_path|, {fts_cur}, ls);
      assert p in ls.Ptrs();
      mem := mem[p := mem[p].(fts_instr := FTS_SKIP)];
      SkipKept(c, mem0, mem, |fts_path|, {fts_cur}, ls, p);
      SkipDropsKid(mem0, mem, ls.sibs, p);
      SkipRestAll(mem0, {fts_cur}, p);
    }

    lemma SkipRestAll(mem0: Mem, extra: set<Ptr>, p: Ptr)
      requires Heap(c, mem0, |fts_path|, extra, ls) && ls.Below? && p in ls.sibs && p in mem0 && c.batch >= 1
      requires mem == mem0[p := mem0[p].(fts_instr := FTS_SKIP)]
      ensures ls.text != []
      ensures forall sk, k ::
                var kids := KidsWithout(mem0, ls.sibs, p) + Unread(c, At(mem0, ls.dir).fts_dirp);
                Rest(c, sk, mem, fts_dev, ls, k) == RestBelow(c, sk, mem0, fts_dev, ls, kids, k)
    {
      hide Rest, RestBelow, KidsWithout, Unread, Heap;
      HeadNotNull(c, mem0, |fts_path|, extra, ls);
      forall sk, k
        ensures var kids := KidsWithout(mem0, ls.sibs, p) + Unread(c, At(mem0, ls.dir).fts_dirp);
                Rest(c, sk, mem, fts_dev, ls, k) == RestBelow(c, sk, mem0, fts_dev, ls, kids, k)
      {
        SkipRest(c, sk, mem0, mem, |fts_path|, extra, fts_dev, ls, p, k);
      }
    }

    /** fts_read.  sk and k say what the client's instructions are and how many entries have been
        returned; the instruction for the current entry is in its fts_instr. */
    method FtsRead(ghost sk: int -> bool, ghost k: int) returns (r: Ptr)
      requires Valid() && (At(mem, fts_cur).fts_info == FTS_D ==> (At(mem, fts_cur).fts_instr == FTS_SKIP) == sk(k - 1))
      modifies this
      ensures Valid() && r == fts_cur && (r != NULL ==> fts_cur in mem)
      ensures r != NULL ==> Sized()
      ensures old(Remaining(sk, k)) == if r == NULL then [] else [Returned()] + Remaining(sk, k + 1)
      ensures var e := old(At(mem, fts_cur));
              c.batch >= 1 && (r != NULL ==>
                Tiers(c, mem, ls)
                == Stepped(c, e.fts_info, e.fts_statp, mem[r].fts_level > e.fts_level, old(Tiers(c, mem, ls))))
      ensures var e := old(At(mem, fts_cur));
              e.fts_info == FTS_D && r != NULL && mem[r].fts_level > e.fts_level ==>
                e.fts_statp in c.fs.dirs && Inside(old(fts_cur), old(ls), |Kids(c, c.fs.dirs[e.fts_statp])|)
    {
      hide Valid, Remaining, Inside, Kids, Returned, Sized, Tiers, Moved, VisibleIn;
      if fts_cur == NULL {
        EndFacts(sk, k);
        return NULL;
      }
      CurrentFacts(sk, k);
      var instr := mem[fts_cur].fts_instr;
      SetInstr(FTS_NOINSTR);
      if mem[fts_cur].fts_info == FTS_D {
        if instr == FTS_SKIP || (c.xdev && mem[fts_cur].fts_statp.dev != fts_dev) {
          TurnBack(sk, k);
          return fts_cur;
        }
        r := Descend(sk, k);
        return;
      }
      CurrentFacts(sk, k);
      r := Next(sk, k);
    }

    lemma EndFacts(sk: int -> bool, k: int)
      requires Valid() && fts_cur == NULL
      ensures c.batch >= 1 && Remaining(sk, k) == []
    {}

    lemma CurrentFacts(sk: int -> bool, k: int)
      requires Valid() && fts_cur != NULL
      ensures c.batch >= 1 && fts_cur in mem
      ensures mem[fts_cur].fts_info != FTS_D ==> Remaining(sk, k) == Rest(c, sk, mem, fts_dev, ls, k)
    {}

    /** fts_open, after the options are settled: the list of arguments. */
    method OpenList(argv: seq<string>, verbatim: bool) returns (root: Ptr)
      requires c.Supported() && mem == map[] && fds == map[] && fts_path == [] && (forall v | v in argv :: NUL !in v)
      modifies this`fts_path, this`mem, this`ls
      ensures ls.Roots? && Heap(c, mem, |fts_path|, {}, ls) && root == HeadOf(ls.sibs) && |ls.sibs| == |argv|
      ensures PendingRoots(mem, ls.sibs) == Arguments(argv, verbatim)
    {
      hide Heap, PendingRoots, Arguments;
      var max := FtsMaxArgLen(argv);
      FtsPalloc(if max > MAXPATHLEN then max else MAXPATHLEN);
      var parent := FtsAlloc("");
      mem := mem[parent := mem[parent].(fts_level := -1)];
      ls := Roots(parent, []);
      OnlyParent(c, mem, |fts_path|, parent);
      root := OpenRoots(argv, verbatim, parent);
    }

    /** fts_open: the list of arguments and the dummy entry before it. */
    method Open(argv: seq<string>, verbatim: bool)
      requires Environment() && mem == map[] && fds == map[] && fts_path == []
      requires fts_cwd_fd == AT_FDCWD && fts_fd_ring == R.Init(-1) && argv != [] && (forall v | v in argv :: NUL !in v)
      modifies this
      ensures Valid() && fts_cur != NULL && At(mem, fts_cur).fts_info == FTS_INIT
      ensures forall sk :: Remaining(sk, 0) == WalkRoots(c, sk, Arguments(argv, verbatim), 0)
    {
      hide Rep, Static, DotDotLeadsBack, Levels.Ptrs, PendingRoots, WalkRoots, Arguments, Heap;
      var root := OpenList(argv, verbatim);
      OpenFacts(c, mem, |fts_path|, ls);
      NoNull(c, mem, |fts_path|, {}, ls);
      ghost var mem0 := mem;
      var cur := FtsAlloc("");
      mem := mem[cur := mem[cur].(fts_link := root, fts_info := FTS_INIT, fts_level := 1)];
      fts_cycle := map[];
      fts_fd_ring := R.Init(-1);
      fts_cur := cur;
      AddDummy(c, mem0, mem, |fts_path|, cur, ls);
    }

    // ------------------------------------------------------------ fts_close

    /** fts_close: the walk along fts_link or fts_parent that frees every live entry. */
    method FreeAll()
      requires Valid() && fts_cur != NULL
      modifies this`mem
      ensures mem == map[]
    {
      hide Rep, Table, Active, PathPrefixes, Static, DotDotLeadsBack, Streams, StreamsApart, Cwd, Dirs, Levels.Ptrs;
      hide Pending;
      var p: Ptr := fts_cur;
      ghost var left := ls;
      HeadNotNull(c, mem, |fts_path|, {p}, ls);
      while mem[p].fts_level >= 0
        invariant Closing(c, mem, |fts_path|, p, left)
        decreases |mem|
      {
        Smaller(mem, p);
        left := CloseStep(c, mem, |fts_path|, p, left);
        var freep := p;
        p := if mem[p].fts_link != NULL then mem[p].fts_link else mem[p].fts_parent;
        Free(freep);
      }
      Free(p);
    }

    lemma AtStart()
      requires Valid() && fts_cur != NULL && At(mem, fts_cur).fts_info == FTS_INIT
      ensures ls.Roots? && c.batch >= 1
    {}

    /** What fts_accpath is relative to: fts_cwd_fd. */
    function Place(): Place
      reads this
    {
      if fts_cwd_fd in fds then In(fds[fts_cwd_fd]) else Initial
    }

    /** fts_errno and fts_cwd_fd, told by the returns. */
    lemma Beside(fs: Fs, options: Options, batch: nat, log: seq<Event>)
      requires Valid() && fts_cur != NULL && fts_cur in mem && mem[fts_cur].fts_info != FTS_INIT && Sized()
      requires c == options.Settle(fs, batch) && c.batch >= 1
      requires Tiers(c, mem, ls) == LogTiers(c, log + [Returned()])
      ensures mem[fts_cur].fts_errno == Reason(fs, options, Returned())
      ensures Place() == PlaceIn(c, log + [Returned()])
    {
      hide Rep, Static, DotDotLeadsBack, PathPrefixes, StreamsApart, Streams, Table, Levels.Ptrs, CString, LogTiers;
      hide R.Ring.Items, R.Ring.Valid, Unread, PendingKids, Active;
      HeadNotNull(c, mem, |fts_path|, {fts_cur}, ls);
    }

    lemma ReturnedIs()
      requires Sized()
      ensures fts_cur in mem && mem[fts_cur].fts_info != FTS_INIT
      ensures var e := mem[fts_cur];
              (e.fts_info, e.fts_level, e.fts_statp) == (Returned().info, Returned().level, Returned().st)
    {}

    lemma CountStreams()
      requires Valid()
      ensures fts_cur != NULL ==> |Streams(mem, ls)| == CountOpen(Tiers(c, mem, ls))
    {
      if fts_cur != NULL { StreamCount(c, mem, ls); }
    }

    lemma StreamsLeft()
      requires Valid()
      ensures fts_cur != NULL && At(mem, fts_cur).fts_info == FTS_INIT ==> Streams(mem, ls) == {}
      ensures fts_cur != NULL && At(mem, fts_cur).fts_info != FTS_INIT ==>
                forall fd :: fd in Streams(mem, ls) <==> exists q :: OpenAbove(mem, fts_cur, q, fd)
    {
      hide Rep, Static, DotDotLeadsBack, Cwd, PathPrefixes, StreamsApart, Dirs, Table, Levels.Ptrs, CString;
      if fts_cur != NULL && At(mem, fts_cur).fts_info != FTS_INIT {
        hide Streams;
        forall fd ensures fd in Streams(mem, ls) <==> exists q :: OpenAbove(mem, fts_cur, q, fd) {
          StreamsAreAbove(c, mem, |fts_path|, fts_cur, ls, fd);
        }
      }
    }

    lemma TopLevel()
      requires Valid() && fts_cur != NULL && mem[fts_cur].fts_info != FTS_INIT && mem[fts_cur].fts_level == 0
      ensures ls.Roots?
    {
      hide Rep, Static, DotDotLeadsBack, Cwd, PathPrefixes, StreamsApart, Streams, Dirs, Table, Levels.Ptrs, CString;
    }

    lemma InsideArgument(p: Ptr, outer: Levels, n: nat)
      requires Inside(p, outer, n) && outer.Roots?
      ensures Streams(mem, ls) != {} <==> n >= c.batch
    {
      assert Streams(mem, outer) == {};
      if n >= c.batch { assert At(mem, p).fts_dirp.fd in Streams(mem, ls); }
    }

    /** fts_close.  It closes no directory stream: the streams above the current entry whose end
        fts_read has not reached stay open, and no other descriptor does. */
    method FtsClose()
      requires Valid()
      modifies this
      ensures mem == map[] && fds.Keys == (if old(fts_cur) == NULL then {} else old(Streams(mem, ls)))
      ensures var (mem0, p) := (old(mem), old(fts_cur));
              if p == NULL || At(mem0, p).fts_info == FTS_INIT then fds == map[]
              else forall fd :: fd in fds <==> exists q :: OpenAbove(mem0, p, q, fd)
    {
      StreamsLeft();
      hide Rep, Table, Active, PathPrefixes, Static, DotDotLeadsBack, Streams, StreamsApart, Dirs, Levels.Ptrs, Held;
      hide R.Pop, R.Push, R.Ring.Items, R.Ring.Valid, R.Ring.Slot;
      ghost var dirs := if fts_cur == NULL then [] else Dirs(mem, ls);
      ghost var streams := if fts_cur == NULL then {} else Streams(mem, ls);
      if fts_cur != NULL {
        FreeAll();
      }
      BeforeClosing(c, fds, fts_cwd_fd, fts_fd_ring, dirs, streams);
      if c.cwdfd {
        if 0 <= fts_cwd_fd {
          CloseFd(fts_cwd_fd);
        }
      }
      FdRingClear(streams);
      fts_cycle := map[];  // free_dir
    }
  }

  function ErrnoOf(c: Config, e: Event): int {
    if e.info == FTS_NS then
      var found := c.fs.at(e.text).Stat(c.logical || (c.comfollow && e.level == 0));
      if found.Err? then found.errno else 0
    else if e.info == FTS_DNR && e.st in c.fs.unreadable then c.fs.unreadable[e.st]
    else 0
  }

  lemma NoErrno(c: Config, e: Event)
    requires e.info != FTS_NS && e.info != FTS_DNR
    ensures ErrnoOf(c, e) == 0
  {}

  lemma SameErrno(c: Config, level: int, text: string, st: Inode)
    ensures ErrnoOf(c, Event(FTS_D, level, text, st)) == 0 == ErrnoOf(c, Event(FTS_DC, level, text, st))
  {}

  lemma ErrnoFinds(c: Config, node: Node, name: string, level: int, text: string)
    requires node == c.fs.at(text)
    ensures var (info, st, e) := Classify(c, node, name, level);
            ErrnoOf(c, Event(info, level, text, st)) == if info == FTS_NS then e else 0
  {}

  lemma ErrnoStays(c: Config, e: FTSENT, i: Inode, text: string, cap: nat, ls: Levels)
    requires FirstTime(c, e, i, text, cap, ls) && !(e.fts_info == FTS_NSOK && e.statRequired)
    ensures e.fts_errno == ErrnoOf(c, Event(e.fts_info, e.fts_level, text, e.fts_statp))
  {}

  const MAXPATHLEN := 1024

  /** fts_open. */
  method FtsOpen(fs: Fs, argv: seq<string>, options: Options, batch: nat) returns (sp: FTS?)
    requires !options.Refused() ==> options.Modelled(fs, batch) && argv != [] && forall v | v in argv :: NUL !in v
    ensures sp == null <==> options.Refused()
    ensures sp == null <==>
              options.others || (options.nochdir && options.cwdfd) || (!options.logical && !options.physical)
    ensures sp != null ==>
              && fresh(sp) && sp.c == options.Settle(fs, batch) && sp.Valid()
              && sp.fts_cur != NULL && At(sp.mem, sp.fts_cur).fts_info == FTS_INIT
              && forall sk :: sp.Remaining(sk, 0) == WalkRoots(sp.c, sk, Arguments(argv, options.verbatim), 0)
    ensures sp != null ==>
              forall sk :: AllToldOf(fs, options, batch, Arguments(argv, options.verbatim), sk, sp.Remaining(sk, 0))
  {
    hide FTS.Valid, FTS.Remaining, WalkRoots, Static, DotDotLeadsBack, Arguments, AllToldOf;
    if options.others || (options.nochdir && options.cwdfd) || !(options.logical || options.physical) {
      return null;
    }
    sp := new FTS(options.Settle(fs, batch));
    sp.Open(argv, options.verbatim);
    forall sk
      ensures AllToldOf(fs, options, batch, Arguments(argv, options.verbatim), sk,
                        WalkRoots(sp.c, sk, Arguments(argv, options.verbatim), 0))
    {
      WholeWalkTold(fs, options, batch, Arguments(argv, options.verbatim), sk);
    }
  }

  /** A client that reads up to `limit` entries, answers the k-th with FTS_SKIP when skip(k), and
      closes the stream: it sees exactly the recursive walk, or the beginning of it, which is what the
      hierarchy and the bits it gave to fts_open make it; fts_errno and the place of fts_cwd_fd at each
      return are told, too, and no entry stays allocated.  One descriptor stays open for each directory
      it was inside of and whose last batch was full, and none once the walk has been read to its end. */
  method Traverse(fs: Fs, argv: seq<string>, options: Options, batch: nat, skip: int -> bool, limit: nat)
    returns (log: seq<Event>, errnos: seq<int>, places: seq<Place>, entries: Mem, leaked: set<int>)
    requires !options.Refused() && options.Modelled(fs, batch) && argv != [] && forall v | v in argv :: NUL !in v
    ensures var args := Arguments(argv, options.verbatim);
            var walk := WalkRoots(options.Settle(fs, batch), skip, args, 0);
            && log == (if |walk| <= limit then walk else walk[..limit])
            && Told(fs, options, batch, args, skip, log) && (|walk| <= limit ==> AllTold(args, log))
            && (|walk| <= limit ==> leaked == {})
    ensures ErrnosTold(fs, options, log, errnos) && PlacesTold(options, log, places)
    ensures entries == map[] && |leaked| == LeftOpen(batch, OpenDirs(fs, options.seedot, log))
    ensures leaked == {} <==> forall d | d in OpenDirs(fs, options.seedot, log) :: !Unended(batch, d)
  {
    hide FTS.Valid, FTS.Remaining, WalkRoots, Static, DotDotLeadsBack, Arguments, CString, Streams;
    hide Tiers, LogTiers, OpenDirs, LeftOpen, CountOpen, Unended, PlacesIn, Told, AllTold, PlacesTold, ErrnosTold;
    var sp := FtsOpen(fs, argv, options, batch);
    ghost var args := Arguments(argv, options.verbatim);
    ghost var walk := WalkRoots(sp.c, skip, args, 0);
    log, errnos, places := ReadUpTo(sp, fs, options, batch, skip, limit, walk);
    WalkTells(fs, options, batch, args, skip, log, places);
    sp.CountStreams();
    sp.FtsClose();
    entries, leaked := sp.mem, sp.fds.Keys;
  }

  /** The reading part, on a stream just opened. */
  method ReadUpTo(sp: FTS, ghost fs: Fs, ghost options: Options, ghost batch: nat, skip: int -> bool, limit: nat,
                  ghost walk: seq<Event>)
    returns (log: seq<Event>, errnos: seq<int>, places: seq<Place>)
    requires sp.Valid() && sp.fts_cur != NULL && At(sp.mem, sp.fts_cur).fts_info == FTS_INIT
    requires sp.c == options.Settle(fs, batch) && walk == sp.Remaining(skip, 0)
    modifies sp
    ensures sp.Valid() && log == (if |walk| <= limit then walk else walk[..limit])
    ensures ErrnosTold(fs, options, log, errnos) && PlacesIn(sp.c, log, places)
    ensures sp.fts_cur == NULL ==> log == walk
    ensures sp.fts_cur != NULL ==> Tiers(sp.c, sp.mem, sp.ls) == LogTiers(sp.c, log)
  {
    hide FTS.Valid, FTS.Remaining, FTS.Sized, FTS.Place, FTS.Inside, FTS.Returned;
    hide Tiers, LogTiers, Stepped, PlaceIn, PlacesIn, Reason, ErrnosTold, LastReturned;
    log, errnos, places := [], [], [];
    ghost var rest := walk;
    sp.AtStart();
    NothingReturned(sp.c);
    NoneYet(fs, options, sp.c, At(sp.mem, sp.fts_cur));
    NoTiersAtTop(sp.c, sp.mem, sp.ls);
    while |log| < limit
      invariant sp.Valid() && sp.fts_cur != NULL
      invariant rest == sp.Remaining(skip, |log|) && log + rest == walk && |log| <= limit
      invariant At(sp.mem, sp.fts_cur).fts_info == FTS_D ==>
                  (At(sp.mem, sp.fts_cur).fts_instr == FTS_SKIP) == skip(|log| - 1)
      invariant LastReturned(log, At(sp.mem, sp.fts_cur)) && Tiers(sp.c, sp.mem, sp.ls) == LogTiers(sp.c, log)
      invariant ErrnosTold(fs, options, log, errnos) && PlacesIn(sp.c, log, places)
      decreases limit - |log|
    {
      ghost var e := At(sp.mem, sp.fts_cur);
      var r := sp.FtsRead(skip, |log|);
      if r == NULL {
        break;
      }
      var next, errno, place := sp.Returned(), sp.mem[r].fts_errno, sp.Place();
      OneMore(log, next, rest, sp.Remaining(skip, |log| + 1));
      sp.ReturnedIs();
      TiersFollow(sp.c, log, e, next);
      sp.Beside(fs, options, batch, log);
      OneMoreBeside(fs, options, sp.c, log, next, errnos, errno, places, place);
      rest := sp.Remaining(skip, |log| + 1);
      log, errnos, places := log + [next], errnos + [errno], places + [place];
      var _ := sp.FtsSet(r, if skip(|log| - 1) then FTS_SKIP_CODE else FTS_NOINSTR_CODE);
      LastIs(log, next, At(sp.mem, r));
    }
  }

  lemma LastIs(log: seq<Event>, e: Event, ent: FTSENT)
    requires log != [] && log[|log| - 1] == e && (ent.fts_info, ent.fts_level, ent.fts_statp) == (e.info, e.level, e.st)
    ensures LastReturned(log, ent)
  {}

  lemma NoneYet(fs: Fs, options: Options, c: Config, e: FTSENT)
    requires c.batch >= 1 && e.fts_info == FTS_INIT
    ensures ErrnosTold(fs, options, [], []) && PlacesIn(c, [], []) && LastReturned([], e)
  {}

  /** What the returns of a whole stream, or of its beginning, tell. */
  lemma WalkTells(fs: Fs, options: Options, batch: nat, args: seq<string>, skip: int -> bool, log: seq<Event>,
                  places: seq<Place>)
    requires batch >= 1 && Static(fs)
    requires var c := options.Settle(fs, batch);
             log <= WalkRoots(c, skip, args, 0) && PlacesIn(c, log, places)
    ensures var c := options.Settle(fs, batch);
            && Told(fs, options, batch, args, skip, log) && PlacesTold(options, log, places)
            && CountOpen(LogTiers(c, log)) == LeftOpen(batch, OpenDirs(fs, options.seedot, log))
            && (LeftOpen(batch, OpenDirs(fs, options.seedot, log)) == 0
                <==> forall d | d in OpenDirs(fs, options.seedot, log) :: !Unended(batch, d))
            && (log == WalkRoots(c, skip, args, 0) ==>
                  AllTold(args, log) && LeftOpen(batch, OpenDirs(fs, options.seedot, log)) == 0)
  {
    hide WalkRoots, Static, LogTiers, OpenDirs, CountOpen, Unended, PlaceIn, Told, AllTold, PlacesTold;
    var c := options.Settle(fs, batch);
    var walk := WalkRoots(c, skip, args, 0);
    assert log == walk[..|log|];
    OpenStreams(c, skip, args, |log|);
    NoneLeftOpen(batch, OpenDirs(fs, options.seedot, log));
    WalkTold(fs, options, batch, args, skip, |log|);
    PlacesInWalk(c, walk, log, places);
    PlacesAre(fs, options, batch, args, skip, |log|, places);
  }

  ghost predicate PlacesIn(c: Config, log: seq<Event>, places: seq<Place>)
    requires c.batch >= 1
  {
    |places| == |log| && forall a | 0 <= a < |log| :: places[a] == PlaceIn(c, log[..a + 1])
  }

  lemma OneMoreBeside(fs: Fs, options: Options, c: Config, log: seq<Event>, e: Event, errnos: seq<int>, errno: int,
                      places: seq<Place>, place: Place)
    requires c.batch >= 1 && PlacesIn(c, log, places) && place == PlaceIn(c, log + [e])
    requires ErrnosTold(fs, options, log, errnos) && errno == Reason(fs, options, e)
    ensures PlacesIn(c, log + [e], places + [place]) && ErrnosTold(fs, options, log + [e], errnos + [errno])
  {
    hide PlaceIn, Reason;
    forall a | 0 <= a < |log + [e]| ensures (places + [place])[a] == PlaceIn(c, (log + [e])[..a + 1]) {
      if a < |log| {
        assert (log + [e])[..a + 1] == log[..a + 1];
      } else {
        assert (log + [e])[..a + 1] == log + [e];
      }
    }
  }

  lemma PlacesInWalk(c: Config, walk: seq<Event>, log: seq<Event>, places: seq<Place>)
    requires c.batch >= 1 && PlacesIn(c, log, places) && log <= walk
    ensures forall a | 0 <= a < |log| :: places[a] == PlaceIn(c, walk[..a + 1])
  {
    hide PlaceIn;
    forall a | 0 <= a < |log| ensures places[a] == PlaceIn(c, walk[..a + 1]) {
      assert walk[..a + 1] == log[..a + 1];
    }
  }

  /** e is the entry returned last, or the dummy one. */
  ghost predicate LastReturned(log: seq<Event>, e: FTSENT) {
    if log == [] then e.fts_info == FTS_INIT
    else (e.fts_info, e.fts_level, e.fts_statp)
         == (log[|log| - 1].info, log[|log| - 1].level, log[|log| - 1].st)
  }

  lemma TiersFollow(c: Config, log: seq<Event>, e: FTSENT, next: Event)
    requires c.batch >= 1 && LastReturned(log, e)
    ensures LogTiers(c, log + [next])
         == Stepped(c, e.fts_info, e.fts_statp, next.level > e.fts_level, LogTiers(c, log))
  {
    assert (log + [next])[..|log|] == log;
  }

  /** A client that reads a directory and its first entry and closes the stream then: a descriptor
      leaks iff the visible entries fill a batch, even if there is nothing behind them. */
  method CloseInside(fs: Fs, root: string, options: Options, batch: nat) returns (leaked: set<int>)
    requires !options.Refused() && options.Modelled(fs, batch) && NUL !in root
    requires var c, text := options.Settle(fs, batch), Argument(root, options.verbatim);
             var (info, st) := RootStat(c, text);
             info == FTS_D && st in fs.dirs && st !in fs.unreadable && Kids(c, fs.dirs[st]) != []
    ensures var c, text := options.Settle(fs, batch), Argument(root, options.verbatim);
            leaked != {} <==> |Kids(c, fs.dirs[RootStat(c, text).1])| >= batch
  {
    hide FTS.Valid, FTS.Remaining, WalkRoots, Static, DotDotLeadsBack, Arguments, Argument, Kids, RootStat;
    hide FTS.Inside, FTS.Sized, Streams;
    var sp := FtsOpen(fs, [root], options, batch);
    ghost var text, noSkip := Argument(root, options.verbatim), (k: int) => false;
    FtsLaws.FirstTwo(sp.c, noSkip, text);
    ArgumentsOne(root, options.verbatim);
    ghost var walk := WalkRoots(sp.c, noSkip, [text], 0);
    var p := sp.FtsRead(noSkip, 0);
    assert sp.Returned() == walk[0];
    sp.TopLevel();
    ghost var ls := sp.ls;
    var _ := sp.FtsSet(p, FTS_NOINSTR_CODE);
    var _ := sp.FtsRead(noSkip, 1);
    assert sp.Returned() == walk[1];
    sp.InsideArgument(p, ls, |Kids(sp.c, fs.dirs[RootStat(sp.c, text).1])|);
    sp.FtsClose();
    leaked := sp.fds.Keys;
  }

  lemma ArgumentsOne(v: string, verbatim: bool)
    ensures Arguments([v], verbatim) == [Argument(v, verbatim)]
  {
    assert [v][..0] == [];
  }

  /** A leak with nothing unread: the one entry of the directory is the whole first batch. */
  method LeakOfAll() returns (leaked: set<int>)
    ensures leaked != {}
  {
    OneFileStatic();
    var options := Options(false, true, true, false, false, false, false, false, false, false, false);
    var c := options.Settle(OneFile(), 1);
    var entries := c.fs.dirs[Inode(0, 1)];
    assert Kids(c, entries) == [KidOf(c, entries[0])] by { assert entries[1..] == []; }
    leaked := CloseInside(OneFile(), "d", options, 1);
  }

  lemma OneMore(log: seq<Event>, e: Event, rest: seq<Event>, rest': seq<Event>)
    requires rest == [e] + rest'
    ensures log + rest == (log + [e]) + rest'
  {
  }

  lemma Smaller(mem: Mem, p: Ptr)
    requires p in mem
    ensures |mem - {p}| < |mem|
  {
    assert (mem - {p}).Keys == mem.Keys - {p};
  }

  function Only(p: Ptr): set<Ptr> { if p == NULL then {} else {p} }

  lemma FreshNat(s: set<int>)
    ensures exists n: nat :: n !in s
  {
    var bound := Bound(s);
    assert bound !in s;
  }

  ghost function Bound(s: set<int>): (b: nat)
    ensures forall n | n in s :: n < b
  {
    if exists x :: x in s then
      var x :| x in s;
      var b := Bound(s - {x});
      assert forall n | n in s :: n == x || n in s - {x};
      if x < b then b else x + 1
    else 0
  }
}
