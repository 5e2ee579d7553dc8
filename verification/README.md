# Models of yalibct's algorithms

yalibct is a collection of conformance tests for C libraries. Most of it is harness, but several of its
headers hold algorithms of their own. This project models those algorithms in Dafny and proves what they do.

* **FTS** (`fts*.dfy`) - the file tree walker of gnulib. `fts_file_tree.dfy` is a static hierarchy of (device,
  inode) nodes with named, ordered edges, links and unreadable directories; `fts_walk.dfy` is the recursive
  walk of it that `fts_read` is meant to return. `fts.dfy` has the walker itself: a class with the fields of
  FTS, entries in an explicit heap from which they are freed, one path buffer, batched `readdir`, the active
  directory table and the ring of descriptors (`fts_ring.dfy`, `fts_cwd.dfy`). `fts_heap.dfy` says what the
  heap, the buffer and the table represent, `fts_steps.dfy` how each step changes that, `fts_laws.dfy`
  what a client can rely on, `fts_coverage.dfy` and `fts_told.dfy` what the returns say, told from the hierarchy and
  the options alone, and `fts_leaks.dfy` and `fts_tiers.dfy` which directory streams are open when so much has been
  returned. The main results are `Fts.Traverse` and the
  four lemmas of `Fts.FTS`.
* **cmocka** (`cmocka_*.dfy`, `doubly_linked.dfy`) - the glob matcher, the repeated replacement in a buffer, and
  the nested circular lists of values that mocked functions return, again in an explicit heap.
* **LTP result log** (`result_log.dfy`) - the reporter in cygwin.h that buffers results and prints ranges.
* **ATF** (`atf_map.dfy`, `atf_path.dfy`) - the list with two sentinels and the map on top of it; growable
  strings and paths.
* **Smaller algorithms** - literals of blobs (`quote_blob.dfy`), `memchr_inv` (`memchr_inv.dfy`), allocation with a
  hidden way back (`alignalloc.dfy`), bit tricks (`bit_tricks.dfy`, `bit_count64.dfy`) and carries (`carry_chain.dfy`).

Conventions. Where the source allocates and frees linked cells, the heap is a finite map from addresses to
cells, so that a use of a freed cell, a second free and a leak are errors or provable absences. Ghost
parameters named `sk` or `skip` are the client's FTS_SKIP answers, by position. `int` and `nat` are unbounded;
where the width of an integer matters it is written out (`memchr_inv.dfy`, `alignalloc.dfy`, `bit_tricks.dfy`,
`bit_count64.dfy`, `carry_chain.dfy`).

Where the code does not do what it is documented or meant to do, the model follows the code:

* `c_strmatch` reads two or more stars at the end of a pattern as "at least one character"
  (`CmockaMatch.CompleteIff`, `CmockaMatch.EmptyRefused`).
* `c_strreplace` does not end for a pattern that is replaced by itself (`CmockaReplace.EndsIff`,
  `CmockaReplace.NeverEnds`).
* `remove_always_return_values_from_list` removes every spent value, its comment says the first; the two agree
  iff at most one is spent (`CmockaLists.DropsFirstSpentIff`, `CmockaLists.TwoSpent`).
* With FTS_NOCHDIR, the post-order file name of an argument that ends in a slash may lack it, depending on the
  batch size (`FtsLaws.BatchShowsIff`, `FtsLaws.BatchShows`, `FtsLaws.BatchesInvisible`).
* `fts_close` does not close the streams of directories whose end `fts_read` has not reached, even if all their
  entries have been read (`Fts.FTS.FtsClose`, `Fts.Traverse`, `Fts.CloseInside`, `Fts.LeakOfAll`).
* The file of a result that prints no line stays set, if no other file is named, until a line is printed that is
  not the buffered line flushed out by a different result; `tst_flush` prints the buffered line with it. The
  file of a note with a range above 1 goes with the warning about the range, not with the note. When a file goes
  with a line not its own, in each mode, is `ResultLog.StraysIff` for a run of results and `ResultLog.ReportAll` for
  one that also has broken cases and flushes; examples are `ResultLog.StraysInVerbose`, `ResultLog.StraysInNopass`
  and `ResultLog.StraysPastBuffered`, and `ResultLog.StraysInCondense` is the condition in CONDENSE.
* `tst_brk` does not look at TOUTPUT: before the first result its warning about a wrong type is printed even with
  DISCARD (`ResultLog.DiscardSilentIff`, `ResultLog.DiscardSpeaks`).
* `atf_fs_path_append_fmt` gives "//x" on the root and a trailing slash for the argument "/"
  (`AtfPath.AppendIs`, `AtfPath.AppendSpoils`).
* `memchr_inv` ignores bytes when their number of words does not fit an unsigned int (`MemchrInv.AgreesIff`,
  `MemchrInv.LastByteUnseen`).
* With a borrow in, `psnip_builtin_subc` reports the wrong borrow when the first operand is the second or one more
  (`CarryChain.SubcIs`, `CarryChain.SubcMisses`).

## Model

| member | source | states |
|---|---|---|
| Fts.Traverse | include/test-lib/portable-symbols/fts_read.h:1127-1377 | Whole runs: for every static hierarchy, argument list, option set of the two modelled modes, batch size, client that answers with FTS_SKIP as it likes, and moment of closing, the entries returned are the recursive walk of the arguments, or its beginning, and Told: each return is the next argument or the next entry of the innermost entered directory, with what a look at it from there says under the bits given, or that directory again; fts_errno and the place of fts_cwd_fd at each return are told, too. Afterwards no entry is allocated, and exactly as many descriptors are open as there are directories between their two returns of which an entry has been returned and whose batch with that entry is full; none is open iff there is no such directory, and so after a complete run. With FTS_CWDFD the hierarchy is one where .. leads back to the directory that lists the entry (DotDotLeadsBack) |
| FtsTold.WalkTold | include/test-lib/portable-symbols/fts_read.h:1127-1377 | What a walk is, without the recursion: in terms of the hierarchy, the bits given to fts_open, the arguments and the client's instructions, every return is told by the ones before it, and after a whole walk nothing is left. First returns below an argument are the listed entries of an entered directory in order, all with FTS_SEEDOT and all but . and .. without; a directory is entered unless it is skipped, foreign under FTS_XDEV, unreadable or already open; links are followed with FTS_LOGICAL, and in arguments with FTS_COMFOLLOW; FTS_NSOK is returned with FTS_NOSTAT alone, for what is known to be no directory |
| FtsTold.PlacesAre | include/test-lib/portable-symbols/fts_open.h:105-112 | fts_cwd_fd is where the walk began with FTS_NOCHDIR or FTS_LOGICAL, and otherwise the directory that lists the entry returned |
| FtsCoverage.KidSays | include/test-lib/portable-symbols/internal/gnulib/fts-common.h:72-116 | fts_stat of an entry, in terms of what stat or lstat finds: FTS_D or FTS_DC for a directory, FTS_DOT for a listed . or .., FTS_SL for a link not followed, FTS_F, FTS_DEFAULT, FTS_SLNONE for a followed link without target, FTS_NS for any other failure; the inode with each of them |
| FtsCoverage.RootOk | include/test-lib/portable-symbols/internal/gnulib/fts-common.h:72-116 | The same for an argument, where . and .. are directories and FTS_COMFOLLOW follows links |
| FtsCoverage.KidsVisible | include/test-lib/portable-symbols/fts_read.h:926-1001 | The entries kept by fts_build are the visible ones, each to be stat'ed as KidOf has it |
| FtsWalk.BudgetShrinks | include/test-lib/portable-symbols/fts_read.h:342-389 | What bounds the depth of every walk, cycles or not: entering a directory that is not active leaves fewer inactive ones |
| FtsLaws.WalkLawful | include/test-lib/portable-symbols/fts_read.h:1172-1186 | Every walk obeys the laws of a bracketed traversal: a pre-order directory lies in the open ones and is none of them, an FTS_DC one is one of them, every other entry is in the innermost; a directory that the client skips or that is on a foreign device under FTS_XDEV is returned again at once, with nothing below it |
| FtsLaws.Bracketed | include/test-lib/portable-symbols/fts_read.h:1368-1376 | Every FTS_D return has a later FTS_DP or FTS_DNR return of the same directory at the same level, and only deeper ones in between |
| FtsLaws.MatchIsUnique | include/test-lib/portable-symbols/fts_read.h:1368-1376 | There is only one such return |
| FtsLaws.WalkBracketed | include/test-lib/portable-symbols/fts_read.h:1127-1377 | Both hold for the walk of any arguments, and no return is deeper than the number of directories there are |
| FtsLaws.DepthBounded | include/test-lib/portable-symbols/fts_read.h:342-389 | The exact cycle check bounds the level of every return by the number of directories |
| FtsLaws.BatchesInvisible | include/test-lib/portable-symbols/fts_read.h:825-832 | Unless FTS_NOCHDIR meets an argument that ends in a slash, the walk does not depend on FTS_MAX_READDIR_ENTRIES |
| FtsLaws.BatchShowsIff | include/test-lib/portable-symbols/fts_read.h:1059-1063 | For any arguments, two batch sizes give the same returns iff every argument that is entered keeps its trailing slash with both or loses it with both: with FTS_NOCHDIR it is lost in post-order when the number of visible entries is a multiple of the batch size |
| FtsLaws.BatchShows | include/test-lib/portable-symbols/fts_read.h:1059-1063 | A directory with one file as the argument d/: batches of 1 and of 2 give different walks |
| FtsCoverage.WalkCovered | include/test-lib/portable-symbols/fts_read.h:906-1046 | Nothing is missing: between the two returns of a directory, the first returns one level deeper are exactly its visible entries in readdir order, and none at all if it is skipped, foreign or unreadable |
| FtsCoverage.WalkUsesUp | include/test-lib/portable-symbols/fts_read.h:1127-1377 | The walk as a run with the open directories on a stack: every return fits what is due on top of it, and in the end nothing is due |
| Fts.FtsOpen | include/test-lib/portable-symbols/fts_open.h:72-262 | Null exactly for unknown bits, FTS_NOCHDIR with FTS_CWDFD, or neither of FTS_LOGICAL and FTS_PHYSICAL; otherwise a valid stream whose remaining walk, for every client, is that of all arguments and told by the bits given |
| Fts.FTS.Open | include/test-lib/portable-symbols/fts_open.h:147-254 | The root list, the dummy current entry and the path buffer that fts_open leaves stand for the walk of the arguments in their order |
| Fts.FTS.OpenRoots | include/test-lib/portable-symbols/fts_open.h:180-226 | The loop over the arguments links one entry per argument at the end of the list, only the first of them stat'ed |
| Fts.FTS.FtsRead | include/test-lib/portable-symbols/fts_read.h:1127-1377 | One call returns the first event of the remaining walk and leaves the rest, or NULL at the end of it; the invariant of the stream is kept, so no freed entry is touched, no assertion or abort is reached; when it goes down, the stream of the directory is at its end iff the visible entries do not fill a batch; the open streams and unread entries of all levels step as Stepped says |
| Fts.FTS.FtsMaxArgLen | include/test-lib/portable-symbols/fts_open.h:60-70 | One more than the length of the longest argument |
| Fts.FTS.TrimArgument | include/test-lib/portable-symbols/fts_open.h:185-193 | The argument without its trailing slashes but one; a lone // keeps both |
| FtsSteps.ArgumentIs | include/test-lib/portable-symbols/fts_open.h:185-193 | Unless it is kept verbatim, an argument that ends in two slashes, // excepted, loses slashes until it ends in one; any other stays as it is |
| Fts.FTS.FtsStat | include/test-lib/portable-symbols/internal/gnulib/fts-common.h:72-116 | The entry gets the inode, and its error number only with FTS_NS; nothing else changes |
| Fts.FTS.FtsPalloc | include/test-lib/portable-symbols/internal/gnulib/fts-common.h:207-237 | The buffer grows by more than asked for and keeps what it holds |
| Fts.FTS.FtsSet | include/test-lib/portable-symbols/fts_set.h:65-75 | The accepted instructions are recorded in the entry, others refused, and the remaining walk is the same |
| Fts.FTS.FtsSkip | include/test-lib/portable-symbols/fts_set.h:65-75 | FTS_SKIP on an entry that has been read and not yet returned changes its instruction alone, and what remains is the walk without it |
| Fts.FTS.FtsClose | include/test-lib/portable-symbols/fts_close.h:57-119 | Frees every live entry; the descriptors still open are exactly those of the streams of directories above fts_cur on the fts_parent chain whose end of directory has not been reached |
| FtsHeap.StreamsAreAbove | include/test-lib/portable-symbols/fts_read.h:906-1046 | The open streams are those of the directories on the parent chain of the current entry |
| Fts.CloseInside | include/test-lib/portable-symbols/fts_close.h:57-119 | Reading a directory and its first entry and closing then leaks a descriptor iff the visible entries fill a batch |
| Fts.LeakOfAll | include/test-lib/portable-symbols/fts_close.h:57-119 | A leak with nothing unread: one file, batches of one |
| FtsLeaks.OpenStreams | include/test-lib/portable-symbols/fts_read.h:906-1046 | After any number of returns of a walk, the streams that a client of fts_read leaves open are those of the open directories of which an entry has been returned and whose batch of that entry is full; after the last return no directory is open |
| FtsLeaks.TiersAre | include/test-lib/portable-symbols/fts_read.h:1238-1253 | What has been returned tells, for each open directory, whether its stream is open, how many visible entries are unread and how many are read and not returned, as one call after another leaves them |
| FtsTiers.StreamCount | include/test-lib/portable-symbols/fts_read.h:906-1046 | The descriptors of open streams in the heap of entries are as many as the levels whose stream is open |
| Fts.FTS.FreeAll | include/test-lib/portable-symbols/fts_close.h:68-75 | The loop of fts_close, in any valid state |
| Fts.FTS.TurnBack | include/test-lib/portable-symbols/fts_read.h:1174-1186 | A skipped or foreign directory is returned a second time, and the walk goes on behind it |
| Fts.FTS.Descend | include/test-lib/portable-symbols/fts_read.h:1207-1230 | Reading a directory returns its first entry, or the directory again if it is empty or cannot be read |
| Fts.FTS.BuildOpen | include/test-lib/portable-symbols/fts_read.h:774-881 | Opening a directory and descending keeps the table, the descriptor invariant and the entries; failure is FTS_DNR and leaves all else alone |
| Fts.FTS.BuildUnreadable | include/test-lib/portable-symbols/fts_read.h:778-784 | The entry becomes FTS_DNR with the error of opendir, and nothing else changes |
| Fts.FTS.BuildRecheck | include/test-lib/portable-symbols/fts_read.h:787-822 | With FTS_TIGHT_CYCLE_CHECK the directory is taken out of the active table and put back after it is opened, and the table is the same |
| Fts.FTS.BuildLoop | include/test-lib/portable-symbols/fts_read.h:906-1046 | The entries made by one batch are the next visible ones of the stream in their order, at most FTS_MAX_READDIR_ENTRIES; the path buffer grows before any write that would pass its end |
| Fts.FTS.BuildEntry | include/test-lib/portable-symbols/fts_read.h:926-1025 | One directory entry: its name is written inside the buffer, its length recorded, and it is linked last |
| Fts.FTS.BuildRead | include/test-lib/portable-symbols/fts_read.h:883-1063 | The reading part of fts_build: directory prefix, batch, and the restored file name of the directory |
| Fts.FTS.Next | include/test-lib/portable-symbols/fts_read.h:1232-1338 | Moving on, by the next entry of the level, the next batch, the next argument or the parent, returns the first of the remaining events |
| Fts.FTS.NextBatch | include/test-lib/portable-symbols/fts_read.h:1238-1253 | At the end of a batch the directory is current again and the rest of its stream is read; the walk goes on with its next entry |
| Fts.FTS.NextSibling | include/test-lib/portable-symbols/fts_read.h:1255-1292 | The entry left is freed; the next one becomes current, or is passed over if it is marked FTS_SKIP |
| Fts.FTS.NextRoot | include/test-lib/portable-symbols/fts_read.h:1264-1273 | Between arguments the initial working directory is restored and nothing is active |
| Fts.FTS.FtsLoad | include/test-lib/portable-symbols/fts_read.h:1103-1125 | The path buffer holds the argument, within its bounds, and its length is fts_pathlen |
| Fts.FTS.Name | include/test-lib/portable-symbols/fts_read.h:1294-1296 | The file name is the parent's, less one trailing slash, then a slash and the name; nothing is written past the buffer |
| Fts.FTS.CheckForDir | include/test-lib/portable-symbols/fts_read.h:1297-1321 | A deferred stat is made, the device of an argument recorded, a directory entered: what is returned is the event the walk has there |
| Fts.FTS.CdDotDot | include/test-lib/portable-symbols/fts_read.h:1323-1376 | Going up frees the entry left and returns the parent in post-order, or frees the root's parent and ends the walk |
| Fts.FTS.EnterDir | include/test-lib/portable-symbols/fts_read.h:342-389 | A directory that is active makes an FTS_DC entry that points to the active one; otherwise the table grows by it |
| Fts.FTS.LeaveDir | include/test-lib/portable-symbols/fts_read.h:155-177 | The directory leaves the table. It requires what makes its abort unreachable, that the directory is there, and the assertion of the ring check it runs (lines 95-152) is proved |
| Fts.FTS.CwdAdvanceFd | include/test-lib/portable-symbols/fts_read.h:188-211 | The descriptor left is kept on the ring going down and closed going up; one displaced from a full ring is closed |
| Fts.FTS.FtsSafeChangedir | include/test-lib/portable-symbols/fts_read.h:222-306 | Down, the new directory is current; up, its parent is, through the ring or by opening .. , and every descriptor is accounted for |
| Fts.FTS.FdRingClear | include/test-lib/portable-symbols/internal/gnulib/fts-common.h:353-364 | Every descriptor on the ring is closed once, no other |
| Fts.FTS.RestoreInitialCwd | include/test-lib/portable-symbols/fts_read.h:699-705 | Back at the start nothing but the directory streams is open |
| Fts.FTS.ActiveDirectories | include/test-lib/portable-symbols/fts_read.h:342-389 | At every return the active table has exactly the directories entered and not left, each mapped to the entry itself or to an ancestor of it |
| Fts.FTS.LiveEntries | include/test-lib/portable-symbols/fts_close.h:68-75 | At every return the live entries are exactly those on the link-or-parent path from fts_cur, each of them once |
| Fts.FTS.WorkingDirectory | include/test-lib/portable-symbols/fts_read.h:1351-1366 | With FTS_CWDFD, at every return fts_cwd_fd is the directory that contains the entry returned |
| Fts.FTS.Descriptors | include/test-lib/portable-symbols/fts_read.h:188-211 | At every return the open descriptors are exactly the current one, those on the ring and those of the open streams, no two the same |
| FtsHeap.TableIsAbove | include/test-lib/portable-symbols/fts_read.h:342-389 | The entries in the active table lie on the parent chain of the current one |
| FtsHeap.ChainFollows | include/test-lib/portable-symbols/fts_close.h:68-75 | The link-or-parent walk visits the levels of the stack in order |
| FtsHeap.ChainDistinct | include/test-lib/portable-symbols/fts_close.h:68-75 | It visits no entry twice |
| FtsCwd.Down | include/test-lib/portable-symbols/fts_read.h:195-210 | Advancing into a directory keeps the descriptor invariant: what the ring has displaced is closed, all else stands for the directories above |
| FtsCwd.Up | include/test-lib/portable-symbols/fts_read.h:241-295 | Going up by the ring gives the descriptor of the parent directory |
| FtsCwd.BackToStart | include/test-lib/portable-symbols/fts_read.h:699-705 | Closing the current descriptor leaves what the ring holds, ready to be cleared |
| FileTree.JoinSize | include/test-lib/portable-symbols/fts_read.h:140-142 | The length of a joined file name, which fts_build's fts_pathlen must be |
| FileTree.JoinIs | include/test-lib/portable-symbols/fts_read.h:140-142 | A file name below a directory: one slash between the two, which may be the directory's own last one |
| DescriptorRing.PushIsBoundedPush | include/test-lib/portable-symbols/internal/gnulib/i_ring_push.h:24-35 | The ring is a bounded stack: a push puts the value on top and, when full, returns the oldest |
| DescriptorRing.PopIsStackPop | include/test-lib/portable-symbols/internal/gnulib/i_ring_pop.h:25-38 | A pop returns the value pushed last and leaves the others in order |
| CmockaMatch.CStrMatchPointers | include/test-deps/cmocka.h:449-505 | Null pointers match nothing; otherwise the result is the glob match of the effective pattern |
| CmockaMatch.CStrMatch | include/test-deps/cmocka.h:449-505 | The backtracking matcher decides exactly the glob semantics of the pattern in which two or more stars at the end are read as ?* |
| CmockaMatch.Sound | include/test-deps/cmocka.h:449-505 | What it accepts, the glob accepts, for every pattern |
| CmockaMatch.CompleteIff | include/test-deps/cmocka.h:449-505 | It agrees with the glob on all strings iff the pattern does not end in two stars |
| CmockaMatch.StarsAtEnd | include/test-deps/cmocka.h:467-485 | With two or more stars at the end, it accepts iff a proper prefix of the string matches what stands before them |
| CmockaMatch.EmptyRefused | include/test-deps/cmocka.h:449-505 | The pattern ** refuses the empty string, which its glob matches |
| CmockaReplace.Strstr | include/test-deps/cmocka.h:1643-1646 | The first occurrence, or none |
| CmockaReplace.CStrReplace | include/test-deps/cmocka.h:1635-1672 | Buffer and result are those of the rounds of replacement: terminated within src_len throughout, nothing written behind it, -1 iff there was nothing to replace or room ran out, and 0 only when no occurrence remains |
| CmockaReplace.Round | include/test-deps/cmocka.h:1648-1668 | memmove and memcpy of one round make the text with its first occurrence replaced |
| CmockaReplace.StepReplaces | include/test-deps/cmocka.h:1648-1668 | A pattern that does not occur earlier is replaced where it stands, and nothing else changes |
| CmockaReplace.StepDecreases | include/test-deps/cmocka.h:1648-1669 | What every round makes smaller: the text, the room left, or the rank of the text from above or below |
| CmockaReplace.EndsIff | include/test-deps/cmocka.h:1648-1669 | The loop ends for exactly the arguments whose pattern and replacement differ, that do not occur, or that fail the overflow check |
| CmockaReplace.NeverEnds | include/test-deps/cmocka.h:1648-1669 | "a" replaced by itself in a buffer of 100 characters: no number of rounds is the last |
| CmockaReplace.OutcomeIsRounds | include/test-deps/cmocka.h:1648-1669 | The text left is that of the round which stops |
| CmockaLists.Mocks.ListRemove | include/test-deps/cmocka.h:829-840 | The neighbours are joined, the list is the rest in its order, and the node still holds its value |
| CmockaLists.Mocks.ListRemoveFree | include/test-deps/cmocka.h:943-949 | A node and all that is below it are freed, and no other cell |
| CmockaLists.Mocks.CleanUp | include/test-deps/cmocka.h:1137-1154 | free_value and free_symbol_map_value free exactly the cells below the node, at any depth |
| CmockaLists.Mocks.ListFree | include/test-deps/cmocka.h:1127-1135 | Frees every cell of a list once, and leaves it empty |
| CmockaLists.Mocks.RemoveAlwaysReturnValues | include/test-deps/cmocka.h:958-994 | In memory, the lists become the pruned ones at every depth, well formed, with exactly the cells of what was pruned freed; what they hold, name by name, is what they held less each leading spent value |
| CmockaLists.Mocks.PruneSymbol | include/test-deps/cmocka.h:975-987 | The list of one symbol loses its first value if that is spent, or is pruned recursively |
| CmockaLists.PruneDropsSpent | include/test-deps/cmocka.h:958-994 | What pruning is: of each innermost list, under the names that lead to it, the leading value with refcount below -1 goes; all others stay in order; the map is empty afterwards iff nothing else was in it |
| CmockaLists.NoneEmpty | include/test-deps/cmocka.h:989-991 | No symbol without values is left |
| CmockaLists.PruneIsPart | include/test-deps/cmocka.h:958-994 | What is left is a part of the cells there were, still used once each |
| CmockaLists.Mocks.CheckForLeftoverValues | include/test-deps/cmocka.h:1000-1038 | Returns the number of symbols with values, and reports each with its remaining values, at any depth |
| CmockaLists.LeftoversTell | include/test-deps/cmocka.h:1000-1038 | What is printed, read back: every value of every innermost list, in order, under its own symbol's name |
| CmockaLists.Mocks.PrintDeclared | include/test-deps/cmocka.h:1067-1085 | Returns the length of the list and reports every element, by the location its node holds |
| CmockaLists.Mocks.RemoveAlwaysReturnValuesFromList | include/test-deps/cmocka.h:1040-1058 | All spent values leave the list, not only the first as its comment has it; the others stay in order |
| CmockaLists.DropsFirstSpentIff | include/test-deps/cmocka.h:1040-1058 | The list left is the one the comment promises, without its first spent value, iff at most one value is spent |
| CmockaLists.TwoSpent | include/test-deps/cmocka.h:1040-1058 | Two spent values: the comment keeps the second, the code removes both |
| CmockaLists.Mocks.HasLeftoverValues | include/test-deps/cmocka.h:1087-1112 | True iff one of the three pruned lists is not empty, which is how it leaves them |
| CmockaLists.Mocks.TeardownTesting | include/test-deps/cmocka.h:1159-1171 | All three lists are empty, and each of their cells is freed once |
| DoublyLinked.RingCloses | include/test-deps/cmocka.h:834-835 | After the two assignments the circle without the node is closed, next and prev inverse |
| ResultLog.Reporter.Print | include/test-deps/cygwin.h:721-803 | The line printed, or none, by the mode; a file is printed with the line and forgotten |
| ResultLog.Reporter.Condense | include/test-deps/cygwin.h:919-968 | The buffered line and the printed ones, together, gain exactly the new cases; equal results are merged |
| ResultLog.Reporter.PrintPending | include/test-deps/cygwin.h:940-941 | Printing the buffered result keeps what the reader will know |
| ResultLog.Reporter.PrintEach | include/test-deps/cygwin.h:1061-1065 | VERBOSE prints a line for each case that does not pass |
| ResultLog.Reporter.Res | include/test-deps/cygwin.h:977-1079 | Every mode, range and type: the cases submitted grow by the range, the output with the buffer tells of all of them what the mode shows, notes are printed at once; the lines printed, each with the file that its own result brought, are ResEntries, and they carry their own files iff nothing strays |
| ResultLog.Reporter.Flush | include/test-deps/cygwin.h:1085-1102 | The output tells of the cases all that the mode shows; in CONDENSE the printed ranges expand to exactly the submitted cases from 1 to Tst_count, and neighbouring lines differ unless a file or an earlier flush parts them; outside CONDENSE the buffered line is printed with whatever file is set |
| ResultLog.Reporter.Told | include/test-deps/cygwin.h:892-911 | With nothing buffered, by the value of TOUTPUT: CONDENSE tells of every case with its file, DISCARD of none, NOPASS of the failed and broken ones, and anything else, or nothing, of those that do not pass, each on its own line |
| ResultLog.Reporter.Exit | include/test-deps/cygwin.h:1111-1129 | Nonzero iff a failed, broken or warning result was seen |
| ResultLog.Reporter.Brk | include/test-deps/cygwin.h:1135-1186 | Every case up to TST_TOTAL is covered: the first ones by the given result, FAIL, BROK, CONF and RETR with their own type and others as BROK, the rest as CONF or RETR if that was given and BROK otherwise, with the text for it; the lines carry their own files iff StraysInBrk finds no stray, and the file and the buffered type left behind are BrkTally's |
| ResultLog.ResRight | include/test-deps/cygwin.h:977-1079 | In every mode, the lines that one result prints carry their own files iff no file was left over by another one and printed now |
| ResultLog.ReportAll | include/test-deps/cygwin.h:977-1102 | For any run of results, broken cases and flushes, flushed at its end, and any value of TOUTPUT: the cases submitted are those of the run, the output tells of them what TOUTPUT asks for, and the notes printed are those of the run that it lets through; with DISCARD nothing is printed iff no warning of tst_brk comes early; every line is printed with the file of its own result iff the run has none of the strays that mode, total, types, ranges and files determine |
| ResultLog.DiscardSilentIff | include/test-deps/cygwin.h:1154-1160 | With DISCARD a note is printed iff tst_brk is given a type that is not its own before tst_res has looked at TOUTPUT |
| ResultLog.DiscardSpeaks | include/test-deps/cygwin.h:1154-1160 | A first tst_brk with TPASS prints its warning |
| ResultLog.StraysInVerbose | include/test-deps/cygwin.h:1061-1065 | VERBOSE: the file of a case that passes goes with the next line |
| ResultLog.StraysInNopass | include/test-deps/cygwin.h:1096-1100 | NOPASS: the file of information that is not printed goes with the earlier buffered case |
| ResultLog.StraysIff | include/test-deps/cygwin.h:977-1102 | For a run of results, in each mode and in closed form: a file strays iff a note with a range above 1 has one, or a result that has no line leaves one set, and a later result's line, or the last case's line at the flush, takes it |
| ResultLog.StraysPastBuffered | include/test-deps/cygwin.h:938-944 | NOPASS: a buffered failure flushed out by another one is printed without the file set in between, and the other one's line takes it |
| ResultLog.VerboseRun | include/test-deps/cygwin.h:1061-1065 | That run, in the reporter: case 2 is printed with the file of case 1 |
| ResultLog.NopassRun | include/test-deps/cygwin.h:1096-1100 | That run, in the reporter: case 1 is printed with the file of the information after it |
| ResultLog.StraysInCondense | include/test-deps/cygwin.h:977-1079 | CONDENSE: a file goes astray iff a note has both a file and a range above 1 |
| ResultLog.CondenseShowsAll | include/test-deps/cygwin.h:920-968 | Nothing is hidden in CONDENSE |
| ResultLog.ViewAppends | include/test-deps/cygwin.h:747-749 | What a mode shows of more cases is what it shows of each part |
| ResultLog.Extend | include/test-deps/cygwin.h:930-932 | Merging a result into the buffered line adds its cases to that line's, without gap or overlap |
| ResultLog.Fails | include/test-deps/cygwin.h:1128-1128 | The exit value without TRETR, TINFO and TCONF |
| AtfMap.Map.constructor | include/test-deps/atf.h:1701-1741 | An empty map: two sentinels, linked to each other |
| AtfMap.Map.Find | include/test-deps/atf.h:1164-1182 | The element of the key, or the end of the map iff the key is not in it |
| AtfMap.Map.Insert | include/test-deps/atf.h:1315-1351 | The map gains the binding as an insertion-ordered map does; an owned old value is freed, nothing else changes, no block is lost |
| AtfMap.Map.ListAppend | include/test-deps/atf.h:1291-1309 | The new entry is linked before the end sentinel, and m_size counts it |
| AtfMap.Map.ListFini | include/test-deps/atf.h:1743-1761 | Frees m_size + 2 entries, each once, and the managed objects |
| AtfMap.Map.Fini | include/test-deps/atf.h:1763-1778 | Every block of the map is freed once, and nothing else |
| AtfMap.Map.ToCharpp | include/test-deps/atf.h:1647-1680 | Keys and values in turn and a null pointer, in an array of just that size |
| AtfMap.InitCharpp | include/test-deps/atf.h:1780-1814 | The map of the pairs, inserted in order; it fails iff a value is missing, and then nothing is left allocated |
| AtfMap.RoundTrip | include/test-deps/atf.h:1780-1814 | Reading back a written map gives the same bindings in the same order |
| AtfMap.PutMeans | include/test-deps/atf.h:1315-1351 | Insertion updates the finite map, keeps keys distinct, and keeps their order |
| AtfMap.RunOfInsertions | include/test-deps/atf.h:1315-1351 | After any run of insertions every key is where it was first inserted, with the last value |
| AtfMap.PutAllSame | include/test-deps/atf.h:1780-1814 | Bindings survive their own insertion iff their keys are distinct |
| AtfMap.AppendedIsList | include/test-deps/atf.h:1269-1285 | m_next and m_prev stay inverse along the whole list |
| AtfMap.NotGone | include/test-deps/atf.h:1743-1761 | No entry or object is freed twice |
| AtfPath.Dynstr.RfindCh | include/test-deps/atf.h:565-574 | The last position of a character, or none |
| AtfPath.Dynstr.Resize | include/test-deps/atf.h:610-631 | The text is the same in a bigger buffer |
| AtfPath.Dynstr.PrependOrAppend | include/test-deps/atf.h:633-668 | The text with the addition before or behind it, terminated within a buffer that grows only if it must, and then to just the size |
| AtfPath.Dynstr.Formatted | include/test-deps/atf.h:481-522 | The buffer is doubled until text and NUL fit |
| AtfPath.Dynstr.Raw | include/test-deps/atf.h:2132-2157 | The text up to the first NUL |
| AtfPath.InitSubstr | include/test-deps/atf.h:2159-2170 | The part of the text, with both ends cut to it |
| AtfPath.Normalize | include/test-deps/atf.h:2043-2074 | The loop over strtok_r makes the normal form |
| AtfPath.NormalKeeps | include/test-deps/atf.h:2043-2074 | Normalisation keeps components and absoluteness, and it is idempotent |
| AtfPath.NormalIsCanonical | include/test-deps/atf.h:2043-2074 | Its result has no empty component and no slash at the end but in the root |
| AtfPath.CanonicalIff | include/test-deps/atf.h:2043-2074 | The canonical paths are exactly those it leaves alone |
| AtfPath.BranchPath | include/test-deps/atf.h:2176-2195 | The branch of the path |
| AtfPath.LeafName | include/test-deps/atf.h:2587-2606 | The leaf of the path |
| AtfPath.BranchAndLeaf | include/test-deps/atf.h:2176-2195 | On canonical paths but the root: the branch is canonical, and . if there is no slash; the leaf is the last component, and together they make the path |
| AtfPath.BranchAndLeafAre | include/test-deps/atf.h:2176-2195 | Of any text: without a slash the branch is . and the leaf the text; otherwise they are what stands before and behind the last slash, with / for nothing before it |
| AtfPath.PathAppend | include/test-deps/atf.h:2526-2547 | The path with the normalised argument behind it |
| AtfPath.AppendIs | include/test-deps/atf.h:2526-2547 | The components are those of both; the result is canonical iff neither the path nor the argument is the root |
| AtfPath.AppendSpoils | include/test-deps/atf.h:2526-2547 | The root with x gives //x, and a with the root gives a/ |
| AtfPath.AppendLeaf | include/test-deps/atf.h:2587-2606 | Appending the leaf to the branch gives the path iff its last slash is not its first character and there is one |
| QuoteBlob.SupportQuoteBlob | include/test-deps/glibc/support_quote_blob_main.h:19-85 | The literal of the blob, which reads back as the blob, and is the blob itself if no byte needs an escape |
| QuoteBlob.RoundTrip | include/test-deps/glibc/support_quote_blob_main.h:26-81 | Reading the literal by the rules of section 6.4.4.4 of ISO/IEC 9899:2011 gives back the blob |
| QuoteBlob.Embeds | include/test-deps/glibc/support_quote_blob_main.h:63-78 | The literal reads the same whatever follows it: nothing in it ends it, and a digit behind an octal escape is not taken for part of it |
| QuoteBlob.Injective | include/test-deps/glibc/support_quote_blob_main.h:26-81 | Different blobs have different literals |
| QuoteBlob.ShortestSpelling | include/test-deps/glibc/support_quote_blob_main.h:26-81 | Of all printable spellings of a byte that are read as it whatever follows, in string literals and character constants, the one written is the shortest, and the only one of its length |
| QuoteBlob.QuoteSpells | include/test-deps/glibc/support_quote_blob_main.h:26-81 | It is one of them |
| QuoteBlob.PlainBlob | include/test-deps/glibc/support_quote_blob_main.h:79-79 | A blob of bytes that need no escape is its own literal |
| QuoteBlob.Printable | include/test-deps/glibc/support_quote_blob_main.h:26-81 | Every character is printable ASCII, and there are at most four for a byte |
| MemchrInv.CheckBytes8 | include/test-lib/portable-symbols/memchr_inv.h:30-39 | The first byte that differs, in any range |
| MemchrInv.RealMemchrInv | include/test-lib/portable-symbols/memchr_inv.h:41-80 | The first byte that differs among those looked at, for every address, content and length; words are read at aligned addresses inside the buffer |
| MemchrInv.PackIsSpread | include/test-lib/portable-symbols/memchr_inv.h:50-56 | A word is the spread value iff all its bytes are the value |
| MemchrInv.AgreesIff | include/test-lib/portable-symbols/memchr_inv.h:70-79 | All bytes are looked at, whatever the content, iff the number of words fits an unsigned int |
| MemchrInv.Overlooked | include/test-lib/portable-symbols/memchr_inv.h:70-79 | What is not looked at is a whole number of 2^35 bytes, and what is looked at is less than that behind the aligned address |
| MemchrInv.LastByteUnseen | include/test-lib/portable-symbols/memchr_inv.h:70-79 | One byte behind 2^35 that differ from none: one byte is looked at, and the last, which differs, is not found |
| MemchrInv.AgreesFor | include/test-lib/portable-symbols/memchr_inv.h:70-79 | For one buffer the answer is right iff the byte sought is among those looked at |
| Alignalloc.AlignDownIs | include/test-lib/portable-symbols/alignalloc.h:35-40 | The greatest multiple of a power of two that is not above the address |
| Alignalloc.SlotIs | include/test-lib/portable-symbols/alignalloc.h:46-57 | The pointer slot is aligned, below the last header byte, and within UCHAR_MAX of the storage |
| Alignalloc.Memory.AlignAlloc | include/test-lib/portable-symbols/alignalloc.h:66-94 | Null exactly on overflow or if malloc fails; otherwise aligned storage that lies in the block with its header below it, and no byte outside the header has changed |
| Alignalloc.Memory.AlignFree | include/test-lib/portable-symbols/alignalloc.h:98-108 | The block freed is the one malloc gave for this storage, whatever was allocated, freed and written in between |
| Alignalloc.Memory.ClientWrite | include/test-lib/portable-symbols/alignalloc.h:43-57 | A write to handed-out storage harms no header |
| Alignalloc.StaysGood | include/test-lib/portable-symbols/alignalloc.h:83-91 | A new allocation harms no header and shares no block |
| Alignalloc.HeaderMade | include/test-lib/portable-symbols/alignalloc.h:83-91 | What alignalloc writes is what alignfree finds |
| BitTricks.Zeros32 | include/test-lib/portable-snippets-builtin.h:518-533 | For every number but 0, clz and ctz give the positions of the highest and lowest bit, and ctz is clz of the reversed number |
| BitTricks.Zeros64 | include/test-lib/portable-snippets-builtin.h:536-554 | The same for 64 bits |
| BitTricks.Smeared32 | include/test-lib/portable-snippets-builtin.h:525-529 | Smearing sets exactly the bits up to the highest |
| BitTricks.Isolated32 | include/test-lib/portable-snippets-builtin.h:676-677 | v & -v is the lowest bit |
| BitTricks.TableClz32 | include/test-lib/portable-snippets-builtin.h:519-532 | The table inverts the de Bruijn multiplication |
| BitTricks.TableCtz32 | include/test-lib/portable-snippets-builtin.h:670-677 | The table inverts the de Bruijn multiplication |
| BitTricks.PopcountIs | include/test-lib/portable-snippets-builtin.h:770-777 | The number of bits set in an unsigned int |
| BitTricks.Parity | include/test-lib/portable-snippets-builtin.h:733-741 | One iff the number of bits set is odd |
| BitTricks.ParityOfPopcount | include/test-lib/portable-snippets-builtin.h:733-741 | Parity is the lowest bit of popcount |
| BitCount64.PopcountIs | include/test-lib/portable-snippets-builtin.h:770-777 | The number of bits set in 64: no lane overflows, and the multiplication adds the eight lanes |
| BitCount64.Parity | include/test-lib/portable-snippets-builtin.h:733-741 | One iff the number of bits set in 64 is odd |
| BitCount64.ParityOfPopcount | include/test-lib/portable-snippets-builtin.h:733-741 | Parity is the lowest bit of popcount, for 64 bits |
| BitTricks.Reverses16 | include/test-lib/portable-snippets-builtin.h:1027-1037 | Bit i is bit 15 - i |
| BitTricks.Reverses32 | include/test-lib/portable-snippets-builtin.h:1027-1037 | Bit i is bit 31 - i |
| BitTricks.Reverses64 | include/test-lib/portable-snippets-builtin.h:1027-1037 | Bit i is bit 63 - i |
| BitTricks.Involution16 | include/test-lib/portable-snippets-builtin.h:1027-1037 | Reversing twice changes nothing |
| BitTricks.Involution32 | include/test-lib/portable-snippets-builtin.h:1027-1037 | Reversing twice changes nothing |
| BitTricks.Involution64 | include/test-lib/portable-snippets-builtin.h:1027-1037 | Reversing twice changes nothing |
| CarryChain.AddcIs | include/test-lib/portable-snippets-builtin.h:854-867 | Result and carry are the sum iff the carry in does not overflow where the test does not look; a carry in of 0 or 1 never does |
| CarryChain.AddLimbsIs | include/test-lib/portable-snippets-builtin.h:854-867 | Chained over any number of limbs it is the exact sum |
| CarryChain.SubcIs | include/test-lib/portable-snippets-builtin.h:911-923 | Result and borrow are the difference iff there is no borrow in, or it is 1 and the first operand is neither the second nor one more |
| CarryChain.SubcMisses | include/test-lib/portable-snippets-builtin.h:911-923 | x - x - 1 reports no borrow, and (y + 1) - y - 1 reports one |

## Left out

FTS:

- The walks that use the process's own working directory (FTS_PHYSICAL without FTS_CWDFD and FTS_NOCHDIR), FTS_PHYSICAL without FTS_TIGHT_CYCLE_CHECK (the lazy cycle check may return a directory several times), and FTS_LOGICAL together with FTS_PHYSICAL.
- FTS_AGAIN (it stats again without entering), FTS_FOLLOW, a comparison function, the inode sort and the leaf optimisation; `fts_children` is not part of the repository, so `fts_child` is NULL between calls.
- Errors of `readdir` and `fstat`, failures to change the directory, exhausted memory, and with them FTS_STOP and FTS_ERR; a directory that cannot be opened is modelled.
- A hierarchy that changes during the walk; an empty argument list; names longer than a size_t.
- The address arithmetic of `fts_padjust`: `fts_accpath` is a flag that says whether it is the path buffer or the name, and the buffer a sequence with a bounds-checked store. The hash table is a finite map.
- `fts_statp` of an entry that is not stat'ed is cleared in the model; the source leaves d_ino and d_type bits in it.
- Fts.FtsOpen: not for FTS_PHYSICAL without FTS_TIGHT_CYCLE_CHECK, FTS_PHYSICAL without FTS_CWDFD and FTS_NOCHDIR, both walk bits together, and an empty argument list, for which `fts_read` would read a parent pointer that nothing has set.
- Fts.Traverse: with FTS_CWDFD, only hierarchies with DotDotLeadsBack, where going up by ".." cannot arrive elsewhere; this leaves out a directory that is reached from two parents, and with it nearly every FTS_DC return of that mode.
- Fts.FTS.FtsSet: not for FTS_AGAIN and FTS_FOLLOW.
- Fts.FTS.FtsRead: the redundant FTS_DP that `fts_build` sets before going up is merged with the one set after it.
- Fts.FTS.LeaveDir: of the ring check, the device and inode comparisons, without the debugging output and the descriptors opened and closed for it.

cmocka:

- Adding values to the maps, message text, and `test_malloc`'s guard bytes.
- CmockaReplace.CStrReplace: requires that the loop ends, which EndsIff characterises; the output flag is a result instead of a pointer that may be null.

LTP result log:

- Formatting of messages (EXPAND_VAR_ARGS), the contents and errors of `cat_file`, `tst_brkloop`, and the cleanup function of `tst_brk` with its exit.
- ResultLog.Reporter.Res: the warning for a negative Tst_count, since only the reporter changes it here; int overflow of Tst_count.
- The output stream, which `tst_res` sets and `tst_brk`'s early warning would use unset.
- The copies of the last result that `tst_flush` does not free; exit value bits are a set of types.

ATF:

- Failures of malloc; formatting (a format and its arguments are the text they make); size_t overflow.
- AtfMap.Map.Insert: a managed value must not be owned by the map already, which would free it twice.
- `strtok_r` writes into its argument behind the cursor; the model reads on from the cursor. The home and current directory functions.

Smaller algorithms:

- Wide characters of `support_quote_blob`, and trigraphs, which it does not guard against ("?" is written as it is).
- `memchr_inv`'s value64 for BITS_PER_LONG 64, which is the same number, and its object size checks.
- Pointer and size_t widths other than 64 bits in `alignalloc`; what malloc answers is a parameter.
- popcount and parity where unsigned long is neither 32 nor 64 bits wide.
- `bitreverse8`, rotates, `shiftleft128`, clrsb and ffs, and clz and ctz of 0.
- CarryChain.AddcIs: the carry is the second of a pair instead of an out parameter.
- `exp`, `log`, `ldexp` and floating point formatting; the process, signal and timing harnesses; the small portability shims.
