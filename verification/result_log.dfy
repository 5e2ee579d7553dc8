/** The LTP result reporter: results are numbered, buffered and printed as ranges. */
module ResultLog {
  datatype Option<+T> = None | Some(value: T)

  datatype TType = PASS | FAIL | BROK | WARN | RETR | INFO | CONF

  datatype Mode = VERBOSE | CONDENSE | NOPASS | DISCARD

  /** What a test says of a case. */
  datatype Result = Result(tcid: string, ttype: TType, mesg: string)

  /** A printed line: cases `first` to `last`, or none if they are 0. */
  datatype Line = Line(result: Result, first: nat, last: nat, file: Option<string>)

  /** One case, as submitted or as read back from the output. */
  datatype Report = Report(number: nat, result: Result, file: Option<string>)

  // ---------------------------------------------------------------- reading the output

  /** The cases a line speaks of. */
  function Cases(line: Line): (rs: seq<Report>) {
    if line.first == 0 || line.last < line.first then []
      else Run(line.first, line.last + 1 - line.first, line.result, line.file)
  }

  function Run(first: nat, n: nat, result: Result, file: Option<string>): (rs: seq<Report>) {
    seq(n, i requires 0 <= i < n => Report(first + i, result, file))
  }

  function Reported(log: seq<Line>): (rs: seq<Report>) {
    if log == [] then [] else Reported(log[..|log| - 1]) + Cases(log[|log| - 1])
  }

  /** The lines without a case number. */
  function Notes(log: seq<Line>): (ns: seq<Line>) {
    if log == [] then []
    else Notes(log[..|log| - 1]) + if log[|log| - 1].first == 0 then [log[|log| - 1]] else []
  }

  // ---------------------------------------------------------------- what each mode shows

  /** tst_print's filter. */
  predicate Prints(mode: Mode, t: TType) {
    mode != DISCARD && (mode == NOPASS ==> t == FAIL || t == BROK || t == WARN)
  }

  /** The cases a mode shows; a pass is not a line of its own in VERBOSE. */
  predicate Shows(mode: Mode, t: TType) { Prints(mode, t) && (mode == VERBOSE ==> t != PASS) }

  /** What a mode lets the reader know of the cases.  Which file is printed with which line is a matter of its
      own outside CONDENSE (see Right). */
  function View(mode: Mode, rs: seq<Report>): (v: seq<Report>) {
    if rs == [] then []
    else
      var r := rs[|rs| - 1];
      View(mode, rs[..|rs| - 1])
      + if Shows(mode, r.result.ttype) then [if mode == CONDENSE then r else r.(file := None)] else []
  }

  lemma {:induction false} ViewAppends(mode: Mode, a: seq<Report>, b: seq<Report>)
    ensures View(mode, a + b) == View(mode, a) + View(mode, b)
  {
    if b == [] {
      assert a + b == a;
    } else {
      ViewAppends(mode, a, b[..|b| - 1]);
      assert (a + b)[..|a + b| - 1] == a + b[..|b| - 1];
    }
  }

  /** Hidden cases leave no trace. */
  lemma {:induction false} ViewHides(mode: Mode, rs: seq<Report>)
    requires forall r | r in rs :: !Shows(mode, r.result.ttype)
    ensures View(mode, rs) == []
  {
    if rs == [] {
    } else {
      assert rs[|rs| - 1] in rs;
      ViewHides(mode, rs[..|rs| - 1]);
    }
  }

  lemma ReportedAppends(log: seq<Line>, line: Line)
    ensures Reported(log + [line]) == Reported(log) + Cases(line)
    ensures Notes(log + [line]) == Notes(log) + if line.first == 0 then [line] else []
  {
    assert (log + [line])[..|log|] == log;
  }

  lemma RunJoins(first: nat, n: nat, m: nat, result: Result, file: Option<string>)
    ensures Run(first, n + m, result, file) == Run(first, n, result, file) + Run(first + n, m, result, file)
  {
  }

  /** In CONDENSE a full log is the submitted cases, in order, from 1 to the last, without gap or overlap. */
  lemma CondenseShowsAll(rs: seq<Report>)
    ensures View(CONDENSE, rs) == rs
  {
    if rs == [] {
    } else {
      CondenseShowsAll(rs[..|rs| - 1]);
    }
  }

  // ---------------------------------------------------------------- condensing

  function LastNumbered(log: seq<Line>): (l: Option<Line>) {
    if log == [] then None
    else if log[|log| - 1].first > 0 then Some(log[|log| - 1])
    else LastNumbered(log[..|log| - 1])
  }

  /** The line could have been part of the one before it. */
  predicate Splits(before: Option<Line>, line: Line) {
    before.Some? && before.value.result == line.result && before.value.file == None && line.file == None
  }

  /** Neighbouring lines say different things, unless a file or a flush kept them apart. */
  predicate Condensed(log: seq<Line>, flushes: set<nat>) {
    log != [] ==>
      var line := log[|log| - 1];
      && Condensed(log[..|log| - 1], flushes)
      && (line.first > 0 && Splits(LastNumbered(log[..|log| - 1]), line) ==> line.first - 1 in flushes)
  }

  lemma {:induction false} CondensedMonotone(log: seq<Line>, few: set<nat>, more: set<nat>)
    requires Condensed(log, few) && few <= more
    ensures Condensed(log, more)
  {
    if log == [] {
    } else {
      CondensedMonotone(log[..|log| - 1], few, more);
    }
  }

  // ---------------------------------------------------------------- the reporter

  const RANGE_MUST_BE_POSITIVE := "tst_res(): Tst_range must be positive"
  const RANGE_NOT_VALID := "tst_res(): Range not valid for TINFO or TWARN types"
  const INVALID_TYPE := "tst_brk(): Invalid Type.  Using TBROK"

  /** check_env's reading of TOUTPUT. */
  function ModeOf(toutput: Option<string>): Mode {
    if toutput == Some("CONDENSE") then CONDENSE
    else if toutput == Some("NOPASS") then NOPASS
    else if toutput == Some("DISCARD") then DISCARD
    else VERBOSE
  }

  /** Every line with a case number speaks of cases, and of such as the mode shows. */
  ghost predicate Proper(mode: Mode, log: seq<Line>) {
    forall line | line in log ::
      || line.first == 0
      || (line.first <= line.last && (mode == VERBOSE ==> line.first == line.last) && Shows(mode, line.result.ttype))
  }

  /** A line with a case number adds its cases to what is known, and no note. */
  lemma LineAdds(mode: Mode, log: seq<Line>, line: Line)
    ensures View(mode, Reported(log + [line])) == View(mode, Reported(log)) + View(mode, Cases(line))
    ensures Notes(log + [line]) == Notes(log) + if line.first == 0 then [line] else []
  {
    ReportedAppends(log, line);
    ViewAppends(mode, Reported(log), Cases(line));
  }

  lemma HiddenRun(mode: Mode, first: nat, n: nat, result: Result, file: Option<string>)
    requires !Shows(mode, result.ttype)
    ensures View(mode, Run(first, n, result, file)) == []
  {
    ViewHides(mode, Run(first, n, result, file));
  }

  /** Whose file the mode does not keep track of does not matter. */
  lemma {:induction false} FileUnseen(mode: Mode, first: nat, n: nat, result: Result, f: Option<string>,
                                      g: Option<string>)
    requires mode != CONDENSE
    ensures View(mode, Run(first, n, result, f)) == View(mode, Run(first, n, result, g))
  {
    if n == 0 {
    } else {
      FileUnseen(mode, first, n - 1, result, f, g);
      assert Run(first, n, result, f)[..n - 1] == Run(first, n - 1, result, f);
      assert Run(first, n, result, g)[..n - 1] == Run(first, n - 1, result, g);
    }
  }

  /** What is left in File by a result with file f. */
  function FileLeft(mode: Mode, ttype: TType, range: int, f: Option<string>): Option<string> {
    if mode == DISCARD then f
    else if ttype == WARN || ttype == INFO then if range > 1 || Prints(mode, ttype) then None else f
    else if Shows(mode, ttype) then None else f
  }

  // ---------------------------------------------------------------- files

  /** A printed line, and the file that the result it speaks of brought along. */
  datatype Entry = Entry(line: Line, own: Option<string>)

  /** Every printed file is the one its own result brought. */
  ghost predicate Right(es: seq<Entry>) {
    forall e | e in es :: e.line.file == None || e.line.file == e.own
  }

  predicate IsNote(t: TType) { t == WARN || t == INFO }

  /** What tst_print prints. */
  function PrintEntries(mode: Mode, line: Line, own: Option<string>): (es: seq<Entry>) {
    if Prints(mode, line.result.ttype) then [Entry(line, own)] else []
  }

  /** The lines of n cases in VERBOSE: the file goes with the first. */
  function EachEntries(count: nat, n: nat, result: Result, f: Option<string>, own: Option<string>): (es: seq<Entry>) {
    if n == 0 || result.ttype == PASS then []
    else
      EachEntries(count, n - 1, result, f, own)
      + [Entry(Line(result, count + n, count + n, if n == 1 then f else None), own)]
  }

  /** The lines that tst_condense prints for the next n cases, with file f to go with them. */
  function CondenseEntries(mode: Mode, buffered: seq<Line>, count: nat, n: nat, result: Result,
                           f: Option<string>, own: Option<string>): (es: seq<Entry>)
  {
    if buffered != [] && buffered[0].result == result && f == None then []
    else
      (if buffered == [] then [] else PrintEntries(mode, buffered[0], None))
      + if f == None then [] else PrintEntries(mode, Line(result, count + 1, count + n, f), own)
  }

  function CaseEntries(mode: Mode, buffered: seq<Line>, count: nat, n: nat, result: Result,
                       f: Option<string>, own: Option<string>): (es: seq<Entry>)
  {
    if mode == DISCARD then []
    else if mode == VERBOSE then EachEntries(count, n, result, f, own)
    else CondenseEntries(mode, buffered, count, n, result, f, own)
  }

  /** A warning or information; with a range, a warning comes first and takes the file. */
  function NoteEntries(mode: Mode, range: int, result: Result, f: Option<string>,
                       own: Option<string>): (es: seq<Entry>) {
    if range > 1 then
      PrintEntries(mode, Line(Result(result.tcid, WARN, RANGE_NOT_VALID), 0, 0, f), None)
      + PrintEntries(mode, Line(result, 0, 0, None), own)
    else PrintEntries(mode, Line(result, 0, 0, f), own)
  }

  /** All that one call of tst_res prints; s is what File holds before it. */
  function ResEntries(mode: Mode, buffered: seq<Line>, count: nat, range: int, result: Result,
                      own: Option<string>, s: Option<string>): (es: seq<Entry>)
  {
    var (f, n) := (FileWith(mode, range, own, s), CasesOf(range));
    (if range <= 0
     then PrintEntries(mode, Line(Result(result.tcid, WARN, RANGE_MUST_BE_POSITIVE), 0, 0, s), None) else [])
    + if IsNote(result.ttype) then NoteEntries(mode, n, result, f, own)
      else CaseEntries(mode, buffered, count, n, result, f, own)
  }

  /** What File holds when tst_res looks at the type: the result's own file, or what was left in it. */
  function FileWith(mode: Mode, range: int, own: Option<string>, s: Option<string>): Option<string> {
    if own != None then own else if range <= 0 && mode != DISCARD then None else s
  }

  /** A call of tst_res prints a file with a line it does not belong to: what was left in File goes with the next
      line, or the result's own with the warning about its range. */
  predicate Strays(mode: Mode, range: int, t: TType, own: Option<string>, s: Option<string>) {
    || (s != None && range <= 0 && mode != DISCARD)
    || (own == None && FileWith(mode, range, own, s) != None
        && (Shows(mode, t) || (IsNote(t) && (Prints(mode, t) || (range > 1 && mode != DISCARD)))))
    || (own != None && IsNote(t) && range > 1 && mode != DISCARD)
  }

  lemma {:induction false} EachRight(count: nat, n: nat, result: Result, f: Option<string>, own: Option<string>)
    ensures Right(EachEntries(count, n, result, f, own)) <==> n == 0 || result.ttype == PASS || f == None || f == own
  {
    if n == 0 || result.ttype == PASS {
    } else {
      EachRight(count, n - 1, result, f, own);
      var last := Entry(Line(result, count + n, count + n, if n == 1 then f else None), own);
      RightAppends(EachEntries(count, n - 1, result, f, own), [last]);
      assert last in [last];
    }
  }

  lemma RightAppends(a: seq<Entry>, b: seq<Entry>)
    ensures Right(a + b) <==> Right(a) && Right(b)
  {
    assert forall e :: e in a + b <==> e in a || e in b;
  }

  lemma PrintRight(mode: Mode, line: Line, own: Option<string>)
    ensures Right(PrintEntries(mode, line, own))
            <==> !Prints(mode, line.result.ttype) || line.file == None || line.file == own
  {
    assert Entry(line, own) in [Entry(line, own)];
  }

  lemma CaseRight(mode: Mode, buffered: seq<Line>, count: nat, n: nat, result: Result, f: Option<string>,
                  own: Option<string>)
    requires n > 0 && (buffered != [] ==> (mode == CONDENSE || mode == NOPASS) && buffered[0].file == None)
    ensures Right(CaseEntries(mode, buffered, count, n, result, f, own))
            <==> f == None || f == own || !Shows(mode, result.ttype)
  {
    hide Right, PrintEntries;
    NothingRight();
    if mode == VERBOSE {
      EachRight(count, n, result, f, own);
    } else if mode != DISCARD {
      var line := Line(result, count + 1, count + n, f);
      PrintRight(mode, line, own);
      var before := if buffered == [] then [] else PrintEntries(mode, buffered[0], None);
      if buffered != [] { PrintRight(mode, buffered[0], None); }
      RightAppends(before, PrintEntries(mode, line, own));
      RightAppends(before, []);
    }
  }

  lemma NoteRight(mode: Mode, range: int, result: Result, f: Option<string>, own: Option<string>)
    ensures Right(NoteEntries(mode, range, result, f, own))
            <==> f == None || (if range > 1 then mode == DISCARD else f == own || !Prints(mode, result.ttype))
  {
    hide Right, PrintEntries;
    var warning := Line(Result(result.tcid, WARN, RANGE_NOT_VALID), 0, 0, f);
    PrintRight(mode, warning, None);
    PrintRight(mode, Line(result, 0, 0, None), own);
    PrintRight(mode, Line(result, 0, 0, f), own);
    RightAppends(PrintEntries(mode, warning, None), PrintEntries(mode, Line(result, 0, 0, None), own));
  }

  lemma NothingRight()
    ensures Right([])
  {
  }

  /** When all files that one call of tst_res prints are printed with their own results. */
  lemma ResRight(mode: Mode, buffered: seq<Line>, count: nat, range: int, result: Result, own: Option<string>,
                 s: Option<string>)
    requires buffered != [] ==> (mode == CONDENSE || mode == NOPASS) && buffered[0].file == None
    ensures Right(ResEntries(mode, buffered, count, range, result, own, s))
            <==> !Strays(mode, range, result.ttype, own, s)
  {
    hide Right, PrintEntries, NoteEntries, CaseEntries;
    NothingRight();
    var f := FileWith(mode, range, own, s);
    var n := CasesOf(range);
    var warning := Line(Result(result.tcid, WARN, RANGE_MUST_BE_POSITIVE), 0, 0, s);
    var first := if range <= 0 then PrintEntries(mode, warning, None) else [];
    PrintRight(mode, warning, None);
    NoteRight(mode, n, result, f, own);
    CaseRight(mode, buffered, count, n, result, f, own);
    RightAppends(first, NoteEntries(mode, n, result, f, own));
    RightAppends(first, CaseEntries(mode, buffered, count, n, result, f, own));
  }

  /** The cases are numbered from 1, and their types are in the exit value. */
  ghost predicate Counted(rs: seq<Report>, exitval: set<TType>) {
    forall i | 0 <= i < |rs| :: rs[i].number == i + 1 && rs[i].result.ttype in exitval
  }

  lemma CountedOn(rs: seq<Report>, n: nat, result: Result, file: Option<string>, exitval: set<TType>)
    requires Counted(rs, exitval) && result.ttype in exitval
    ensures Counted(rs + Run(|rs| + 1, n, result, file), exitval) && |Run(|rs| + 1, n, result, file)| == n
  {
  }

  class Reporter {
    const TST_TOTAL: int
    const toutput: Option<string>

    // The test may set these two between calls.
    var TCID: string
    var Tst_range: int

    var Tst_count: nat
    var first_time: bool
    var T_mode: Mode
    var T_exitval: set<TType>
    var File: Option<string>
    var Buffered: bool
    var Last_tcid: string
    var Last_num: nat
    var Last_type: TType
    var Last_mesg: string
    var out: seq<Line>

    ghost var printed: seq<Entry>       // out, with the file that each line's result brought along
    ghost var submitted: seq<Report>
    ghost var flushes: set<nat>

    ghost function PendingUpTo(count: nat): (line: Line)
      reads this`Last_tcid, this`Last_num, this`Last_type, this`Last_mesg
    {
      Line(Result(Last_tcid, Last_type, Last_mesg), Last_num, count, None)
    }

    /** The buffered result, as the line that flushing it prints once `count` cases are reported. */
    ghost function PendingAt(count: nat): (lines: seq<Line>)
      reads this`Buffered, this`Last_tcid, this`Last_num, this`Last_type, this`Last_mesg
    {
      if Buffered then [PendingUpTo(count)] else []
    }

    /** What decides which file is printed with which line. */
    ghost function State(): (t: Tally)
      reads this`File, this`Tst_count, this`Buffered, this`Last_tcid, this`Last_num, this`Last_type, this`Last_mesg
    {
      Tally(File, KeptType(PendingAt(Tst_count)), Tst_count)
    }

    /** What the reader will know once the buffer is flushed. */
    ghost function KnownAt(count: nat): (v: seq<Report>)
      reads this`T_mode, this`out, this`Buffered, this`Last_tcid, this`Last_num, this`Last_type, this`Last_mesg
    {
      View(T_mode, Reported(out + PendingAt(count)))
    }

    /** The buffer, and how the lines of CONDENSE mode are split. */
    ghost predicate BufferAt(count: nat)
      reads this`T_mode, this`out, this`printed, this`T_exitval, this`flushes,
            this`Buffered, this`Last_tcid, this`Last_num, this`Last_type, this`Last_mesg
    {
      && Proper(T_mode, out) && out == LinesOf(printed)
      && (Buffered ==> (T_mode == CONDENSE || T_mode == NOPASS) && 1 <= Last_num <= count && Last_type in T_exitval)
      && (T_mode == CONDENSE ==>
            && Condensed(out + PendingAt(count), flushes)
            && (!Buffered && LastNumbered(out).Some? && LastNumbered(out).value.file == None ==> count in flushes))
    }

    ghost predicate Started()
      reads this`first_time, this`T_mode, this`Tst_count, this`out
    {
      && (first_time ==> T_mode == VERBOSE && Tst_count == 0 && LastNumbered(out) == None)
      && (!first_time ==> T_mode == ModeOf(toutput))
    }

    /** All but File. */
    ghost predicate Core()
      reads this`T_mode, this`first_time, this`Tst_count, this`T_exitval, this`Buffered, this`out, this`printed
      reads this`submitted, this`flushes,
            this`Last_tcid, this`Last_num, this`Last_type, this`Last_mesg
    {
      && Started() && |submitted| == Tst_count && Counted(submitted, T_exitval) && BufferAt(Tst_count)
      && KnownAt(Tst_count) == View(T_mode, submitted)
    }

    ghost predicate Valid()
      reads this`T_mode, this`first_time, this`Tst_count, this`T_exitval, this`Buffered, this`out, this`printed
      reads this`submitted, this`flushes,
            this`Last_tcid, this`Last_num, this`Last_type, this`Last_mesg, this`File
    {
      Core() && (T_mode == CONDENSE || first_time ==> File == None)
    }

    constructor (total: int, toutput: Option<string>, tcid: string)
      ensures Valid() && submitted == [] && out == [] && printed == [] && File == None && !Buffered && first_time
      ensures Tst_count == 0 && Tst_range == 1 && T_exitval == {} && flushes == {}
      ensures TST_TOTAL == total && this.toutput == toutput && TCID == tcid
    {
      TST_TOTAL, this.toutput, TCID := total, toutput, tcid;
      Tst_range, Tst_count, first_time, T_mode, T_exitval, File := 1, 0, true, VERBOSE, {}, None;
      Buffered, Last_tcid, Last_num, Last_type, Last_mesg, out := false, "", 0, PASS, "", [];
      printed, submitted, flushes := [], [], {};
    }

    /** tst_print; `own` is the file the result brought along. */
    method Print(tcid: string, tnum: nat, trange: int, ttype: TType, tmesg: string, ghost own: Option<string>)
      modifies this`out, this`printed, this`T_exitval, this`File
      ensures T_exitval == old(T_exitval) + {ttype}
      ensures var line := Line(Result(tcid, ttype, tmesg), tnum, LastCase(T_mode, tnum, trange), old(File));
              && printed == old(printed) + PrintEntries(T_mode, line, own)
              && (old(out) == LinesOf(old(printed)) ==> out == LinesOf(printed))
              && if Prints(T_mode, ttype) then out == old(out) + [line] && File == None
                 else out == old(out) && File == old(File)
    {
      T_exitval := T_exitval + {ttype};
      if T_mode == DISCARD || (T_mode == NOPASS && ttype != FAIL && ttype != BROK && ttype != WARN) { return; }
      var last := tnum;
      if T_mode != VERBOSE && trange > 1 { last := tnum + trange - 1; }
      out := out + [Line(Result(tcid, ttype, tmesg), tnum, last, File)];
      printed := printed + [Entry(out[|out| - 1], own)];
      File := None;
    }

    /** A note: a line without a case number. */
    method Note(ttype: TType, tmesg: string, ghost own: Option<string>)
      requires Core()
      modifies this`out, this`printed, this`T_exitval, this`File
      ensures Core() && T_exitval == old(T_exitval) + {ttype}
      ensures Notes(out) == old(Notes(out)) + NoteLines(T_mode, TCID, ttype, tmesg, old(File))
      ensures printed == old(printed) + PrintEntries(T_mode, Line(Result(TCID, ttype, tmesg), 0, 0, old(File)), own)
      ensures File == if Prints(T_mode, ttype) then None else old(File)
    {
      hide Reported, View, Condensed, LastNumbered, Notes, LinesOf, PrintEntries;
      Print(TCID, 0, 1, ttype, tmesg, own);
      if Prints(T_mode, ttype) {
        NoteChangesNothing(old(out), out[|out| - 1], PendingAt(Tst_count), flushes);
      }
    }

    /** The buffered result is printed, by tst_flush or because another one follows. */
    method PrintPending()
      requires Buffered && BufferAt(Tst_count) && (T_mode == CONDENSE ==> File == None)
      modifies this`out, this`printed, this`T_exitval, this`File
      ensures T_exitval == old(T_exitval) && Notes(out) == old(Notes(out))
      ensures View(T_mode, Reported(out)) == old(KnownAt(Tst_count)) && Proper(T_mode, out) && out == LinesOf(printed)
      ensures printed == old(printed) + PrintEntries(T_mode, PendingUpTo(Tst_count).(file := old(File)), None)
      ensures T_mode == CONDENSE ==>
                Condensed(out, flushes) && LastNumbered(out) == Some(PendingUpTo(Tst_count))
      ensures File == if Prints(T_mode, Last_type) then None else old(File)
    {
      hide Reported, View, Condensed, LastNumbered, Notes, LinesOf, PrintEntries;
      ghost var line := PendingUpTo(Tst_count);
      Print(Last_tcid, Last_num, Tst_count + 1 - Last_num, Last_type, Last_mesg, None);
      LineAdds(T_mode, old(out), line);
      if Prints(T_mode, Last_type) {
        ghost var line' := out[|out| - 1];
        LineAdds(T_mode, old(out), line');
        if T_mode == CONDENSE {
          assert out == old(out) + [line];
          AfterLast(old(out), line, flushes);
        } else {
          FileUnseen(T_mode, Last_num, Tst_count + 1 - Last_num, line.result, None, line'.file);
        }
      } else {
        HiddenRun(T_mode, Last_num, Tst_count + 1 - Last_num, line.result, None);
      }
    }

    /** tst_condense, for the next Tst_range cases: merged into the buffered result, printed or buffered. */
    method Condense(tnum: nat, ttype: TType, tmesg: string, ghost own: Option<string>)
      requires T_mode == CONDENSE || T_mode == NOPASS
      requires BufferAt(Tst_count) && tnum == Tst_count + 1 && Tst_range >= 1 && ttype in T_exitval
      modifies this`out, this`printed, this`T_exitval, this`File, this`Buffered, this`Last_tcid, this`Last_num
      modifies this`Last_type, this`Last_mesg
      ensures BufferAt(Tst_count + Tst_range)
      ensures KnownAt(Tst_count + Tst_range)
              == old(KnownAt(Tst_count)) + View(T_mode, Run(tnum, Tst_range, Result(TCID, ttype, tmesg), old(File)))
      ensures T_exitval == old(T_exitval) && Notes(out) == old(Notes(out))
      ensures printed == old(printed) + CondenseEntries(T_mode, old(PendingAt(Tst_count)), Tst_count, Tst_range,
                                                        Result(TCID, ttype, tmesg), old(File), own)
      ensures PendingAt(Tst_count + Tst_range)
              == CaseAfter(T_mode, old(PendingAt(Tst_count)), Tst_count, Tst_range, Result(TCID, ttype, tmesg),
                old(File))
      ensures File == if Prints(T_mode, ttype) then None else old(File)
    {
      hide Reported, View, Condensed, LastNumbered, Notes, LinesOf, PrintEntries, Proper, Run;
      ghost var result := Result(TCID, ttype, tmesg);
      NotPending(Tst_count);
      if Buffered {
        if Last_tcid == TCID && Last_type == ttype && Last_mesg == tmesg && File == None {
          hide CondenseEntries, CaseAfter, BufferAt, KnownAt, PendingAt;
          Merging(result, own);
          return;
        }
        PrintWithout();
      }
      Fresh(tnum, ttype, tmesg, own);
    }

    /** The buffered result is printed without the file, which belongs to the new one. */
    method PrintWithout()
      requires Buffered && BufferAt(Tst_count)
      modifies this`out, this`printed, this`T_exitval, this`File
      ensures T_exitval == old(T_exitval) && Notes(out) == old(Notes(out)) && File == old(File)
      ensures View(T_mode, Reported(out)) == old(KnownAt(Tst_count)) && Proper(T_mode, out) && out == LinesOf(printed)
      ensures printed == old(printed) + PrintEntries(T_mode, PendingUpTo(Tst_count), None)
      ensures T_mode == CONDENSE ==>
                Condensed(out, flushes) && LastNumbered(out) == Some(PendingUpTo(Tst_count))
    {
      hide Reported, View, Condensed, LastNumbered, Notes, LinesOf, PrintEntries, Proper, BufferAt;
      var file := File;
      File := None;
      PrintPending();
      File := file;
    }

    /** The buffered result takes the next cases in as they are counted. */
    lemma Merging(result: Result, own: Option<string>)
      requires (T_mode == CONDENSE || T_mode == NOPASS) && BufferAt(Tst_count) && Tst_range >= 1 && Buffered
      requires result == Result(Last_tcid, Last_type, Last_mesg) && File == None
      ensures BufferAt(Tst_count + Tst_range)
      ensures KnownAt(Tst_count + Tst_range)
              == KnownAt(Tst_count) + View(T_mode, Run(Tst_count + 1, Tst_range, result, None))
      ensures CondenseEntries(T_mode, PendingAt(Tst_count), Tst_count, Tst_range, result, None, own) == []
      ensures PendingAt(Tst_count + Tst_range)
              == CaseAfter(T_mode, PendingAt(Tst_count), Tst_count, Tst_range, result, None)
    {
      hide Reported, View, Condensed, LastNumbered, Notes, LinesOf, Proper, Run, CondenseEntries;
      Extend(T_mode, out, PendingUpTo(Tst_count), Tst_range, flushes);
      MergedEntries(T_mode, PendingUpTo(Tst_count), Tst_count, Tst_range, result, own);
    }

    lemma NotPending(count: nat)
      ensures !Buffered ==> out + PendingAt(count) == out
    {
    }

    /** The second half of tst_condense: nothing is buffered. */
    method Fresh(tnum: nat, ttype: TType, tmesg: string, ghost own: Option<string>)
      requires T_mode == CONDENSE || T_mode == NOPASS
      requires tnum == Tst_count + 1 && Tst_range >= 1 && ttype in T_exitval
      requires Proper(T_mode, out) && out == LinesOf(printed) && (T_mode == CONDENSE ==> Condensed(out, flushes))
      requires T_mode == CONDENSE && LastNumbered(out).Some? && LastNumbered(out).value.file == None && File == None
               ==> Tst_count in flushes || LastNumbered(out).value.result != Result(TCID, ttype, tmesg)
      modifies this`out, this`printed, this`T_exitval, this`File, this`Buffered, this`Last_tcid, this`Last_num
      modifies this`Last_type, this`Last_mesg
      ensures BufferAt(Tst_count + Tst_range)
      ensures KnownAt(Tst_count + Tst_range)
              == View(T_mode, old(Reported(out)))
                + View(T_mode, Run(tnum, Tst_range, Result(TCID, ttype, tmesg), old(File)))
      ensures T_exitval == old(T_exitval) && Notes(out) == old(Notes(out))
      ensures printed == old(printed)
                + if old(File) == None then []
                  else PrintEntries(T_mode, Line(Result(TCID, ttype, tmesg), tnum, Tst_count + Tst_range, old(File)),
                    own)
      ensures PendingAt(Tst_count + Tst_range)
              == if old(File) == None then [Line(Result(TCID, ttype, tmesg), tnum, Tst_count + Tst_range, None)] else []
      ensures File == if Prints(T_mode, ttype) then None else old(File)
    {
      hide Reported, View, Condensed, LastNumbered, Notes, LinesOf, PrintEntries, Proper, Run;
      if File != None {
        FreshPrinted(tnum, ttype, tmesg, own);
        NotPending(Tst_count + Tst_range);
      } else {
        ghost var line := Line(Result(TCID, ttype, tmesg), tnum, Tst_count + Tst_range, None);
        LineAdds(T_mode, out, line);
        AfterLast(out, line, flushes);
        Last_tcid, Last_num, Last_type, Last_mesg := TCID, tnum, ttype, tmesg;
        Buffered := true;
      }
    }

    /** A result with a file is printed at once. */
    method FreshPrinted(tnum: nat, ttype: TType, tmesg: string, ghost own: Option<string>)
      requires (T_mode == CONDENSE || T_mode == NOPASS) && File != None
      requires tnum == Tst_count + 1 && Tst_range >= 1 && ttype in T_exitval
      requires Proper(T_mode, out) && out == LinesOf(printed) && (T_mode == CONDENSE ==> Condensed(out, flushes))
      modifies this`out, this`printed, this`T_exitval, this`File, this`Buffered
      ensures !Buffered && BufferAt(Tst_count + Tst_range) && T_exitval == old(T_exitval)
              && Notes(out) == old(Notes(out))
      ensures var line := Line(Result(TCID, ttype, tmesg), tnum, Tst_count + Tst_range, old(File));
              && View(T_mode, Reported(out))
                 == View(T_mode, old(Reported(out))) + View(T_mode, Run(tnum, Tst_range, line.result, old(File)))
              && printed == old(printed) + PrintEntries(T_mode, line, own)
      ensures File == if Prints(T_mode, ttype) then None else old(File)
    {
      hide Reported, View, Condensed, LastNumbered, Notes, LinesOf, PrintEntries, Proper, Run;
      ghost var line := Line(Result(TCID, ttype, tmesg), tnum, Tst_count + Tst_range, File);
      LineAdds(T_mode, out, line);
      AfterLast(out, line, flushes);
      if Prints(T_mode, ttype) {
        ProperAppends(T_mode, out, line);
      } else {
        HiddenRun(T_mode, tnum, Tst_range, line.result, File);
      }
      Print(TCID, tnum, Tst_range, ttype, tmesg, own);
      Buffered := false;
      NotPending(Tst_count + Tst_range);
    }

    /** VERBOSE: a line for each case that does not pass. */
    method PrintEach(ttype: TType, tmesg: string, ghost own: Option<string>)
      requires T_mode == VERBOSE && BufferAt(Tst_count) && Tst_range >= 1 && ttype in T_exitval
      modifies this`out, this`printed, this`T_exitval, this`File
      ensures BufferAt(Tst_count + Tst_range)
      ensures KnownAt(Tst_count + Tst_range)
              == old(KnownAt(Tst_count))
                + View(T_mode, Run(Tst_count + 1, Tst_range, Result(TCID, ttype, tmesg), old(File)))
      ensures T_exitval == old(T_exitval) && Notes(out) == old(Notes(out))
      ensures printed == old(printed) + EachEntries(Tst_count, Tst_range, Result(TCID, ttype, tmesg), old(File), own)
      ensures old(PendingAt(Tst_count)) == PendingAt(Tst_count + Tst_range) == []
      ensures File == if ttype != PASS then None else old(File)
    {
      hide Reported, View, Condensed, LastNumbered, Notes, LinesOf, EachEntries, Run, Proper;
      ghost var result, f := Result(TCID, ttype, tmesg), File;
      EachStart(Tst_count, result, f, own);
      NotPending(Tst_count);
      for i := 1 to Tst_range + 1
        invariant View(T_mode, Reported(out))
                == View(T_mode, old(Reported(out))) + View(T_mode, Run(Tst_count + 1, i - 1, result, f))
        invariant T_exitval == old(T_exitval) && Notes(out) == old(Notes(out)) && Proper(T_mode, out)
        invariant out == LinesOf(printed) && printed == old(printed) + EachEntries(Tst_count, i - 1, result, f, own)
        invariant File == if i > 1 && ttype != PASS then None else f
      {
        ghost var log := out;
        EachStep(Tst_count, i, result, f, own);
        if ttype != PASS {
          Print(TCID, Tst_count + i, Tst_range, ttype, tmesg, own);
          LineAdds(T_mode, log, out[|out| - 1]);
          ProperAppends(T_mode, log, out[|out| - 1]);
          OneCase(Tst_count + i, result, f, out[|out| - 1].file);
        } else {
          HiddenRun(T_mode, Tst_count + i, 1, result, f);
        }
      }
      NotPending(Tst_count + Tst_range);
    }

    function Mode(): Mode
      reads this
    {
      if first_time then ModeOf(toutput) else T_mode
    }

    /** Before the first call nothing is buffered. */
    lemma Unbegun()
      requires Valid() && first_time
      ensures !Buffered && Tst_count == 0 && submitted == [] && LastNumbered(out) == None && T_mode == VERBOSE
    {
      hide Reported, Condensed, LastNumbered, LinesOf, Counted, View, Proper;
    }

    method CheckEnv()
      requires Valid()
      modifies this`first_time, this`T_mode
      ensures Valid() && !first_time && T_mode == old(Mode()) == ModeOf(toutput)
    {
      hide Reported, Condensed, LastNumbered, LinesOf, Counted;
      if !first_time { return; }
      NotPending(0);
      Unbegun();
      first_time := false;
      T_mode := ModeOf(toutput);
      NothingNumbered(out, flushes);
      assert out + PendingAt(0) == out;
    }

    /** The result types seen are or-ed into the exit value. */
    method Save(ttype: TType)
      requires Valid()
      modifies this`T_exitval
      ensures Valid() && T_exitval == old(T_exitval) + {ttype}
    {
      hide Condensed, LastNumbered, Reported, View, Notes;
      T_exitval := T_exitval + {ttype};
    }

    /** tst_res. */
    method Res(ttype: TType, fname: Option<string>, accessible: bool, tmesg: string)
      requires Valid()
      modifies this
      ensures Valid() && T_mode == ModeOf(toutput) && !first_time
      ensures TCID == old(TCID) && flushes == old(flushes) && Tst_range == 1
      ensures submitted == old(submitted)
                + if IsNote(ttype) then []
                  else Run(old(Tst_count) + 1, CasesOf(old(Tst_range)), Result(TCID, ttype, tmesg),
                           Own(fname, accessible))
      ensures printed == old(printed) + ResEntries(T_mode, old(PendingAt(Tst_count)), old(Tst_count), old(Tst_range),
                                                   Result(TCID, ttype, tmesg), Own(fname, accessible), old(File))
      ensures Notes(out) == old(Notes(out))
                + ResNotes(T_mode, TCID, old(Tst_range), ttype, tmesg,
                  FileWith(T_mode, old(Tst_range), Own(fname, accessible), old(File)), old(File))
      ensures T_exitval == old(T_exitval) + {ttype}
                + if old(Tst_range) <= 0 || (old(Tst_range) > 1 && IsNote(ttype)) then {WARN} else {}
      ensures PendingAt(Tst_count)
              == PendingAfter(T_mode, old(PendingAt(Tst_count)), old(Tst_count), old(Tst_range),
                              Result(TCID, ttype, tmesg),
                              FileWith(T_mode, old(Tst_range), Own(fname, accessible), old(File)))
      ensures File == FileLeft(T_mode, ttype, old(Tst_range),
              FileWith(T_mode, old(Tst_range), Own(fname, accessible), old(File)))
      ensures var c := Call(old(TCID), old(Tst_range), ttype, fname, accessible, tmesg);
              && (Right(printed) <==> Right(old(printed)) && !StraysAt(T_mode, c, old(State())))
              && State() == ResTally(T_mode, c, old(State()))
              && ResultsOf(submitted) == old(ResultsOf(submitted)) + TestCases(c)
              && NotesRead(out) == old(NotesRead(out)) + Heard(toutput, TestNotes(c))
    {
      hide Reported, View, Condensed, LastNumbered, Notes, Core, NoteLines, ModeOf, Run, ResultsOf, TestCases, Texts;
      hide TestNotes, Heard;
      hide PrintEntries, NoteEntries, CaseEntries, Right, Strays, BufferAt, Own, FileLeft, ResNotes, IsNote;
      hide PendingAfter, ResEntries, Prints, Shows, Counted, KnownAt, LinesOf, Proper, FileWith, ResTally;
      hide Reporter.PendingAt, Reporter.PendingUpTo, CasesOf;
      ghost var own, s, range := Own(fname, accessible), File, Tst_range;
      ghost var result := Result(TCID, ttype, tmesg);
      Submitted();
      OnePending();
      ghost var begun := ResBody(ttype, fname, accessible, tmesg);
      NotesJoin(old(Notes(out)), T_mode, TCID, range, ttype, tmesg, FileWith(T_mode, range, own, s), s);
      SameLeft(T_mode, old(PendingAt(Tst_count)), old(Tst_count), range, result, FileWith(T_mode, range, own, s));
      ResFiles(old(printed), begun, printed, T_mode, old(PendingAt(Tst_count)), old(Tst_count), range, result, own, s);
      RunSize(old(Tst_count) + 1, CasesOf(range), result, own);
      Submitted();
      ghost var c := Call(TCID, range, ttype, fname, accessible, tmesg);
      Tallied(T_mode, old(State()), State(), old(PendingAt(Tst_count)), PendingAt(Tst_count), c);
      TestAdds(toutput, c, old(submitted), old(Notes(out)), own, FileWith(T_mode, range, own, s), s);
    }

    /** tst_res, part by part. */
    method ResBody(ttype: TType, fname: Option<string>, accessible: bool, tmesg: string)
      returns (ghost begun: seq<Entry>)
      requires Valid()
      modifies this
      ensures Valid() && T_mode == ModeOf(toutput) && !first_time
      ensures TCID == old(TCID) && flushes == old(flushes) && Tst_range == 1
      ensures PendingAt(Tst_count) != [] ==> T_mode == CONDENSE || T_mode == NOPASS
      ensures old(PendingAt(Tst_count)) != [] ==> T_mode == CONDENSE || T_mode == NOPASS
      ensures submitted == old(submitted)
                + if IsNote(ttype) then []
                  else Run(old(Tst_count) + 1, CasesOf(old(Tst_range)), Result(TCID, ttype, tmesg),
                           Own(fname, accessible))
      ensures begun == old(printed)
                + if old(Tst_range) <= 0
                  then PrintEntries(T_mode, Line(Result(TCID, WARN, RANGE_MUST_BE_POSITIVE), 0, 0, old(File)), None)
                  else []
      ensures T_exitval == old(T_exitval) + {ttype}
                + if old(Tst_range) <= 0 || (old(Tst_range) > 1 && IsNote(ttype)) then {WARN} else {}
      ensures var (f, n) := (FileWith(T_mode, old(Tst_range), Own(fname, accessible), old(File)),
                             CasesOf(old(Tst_range)));
              var result := Result(TCID, ttype, tmesg);
              && printed == begun
                   + (if IsNote(ttype) then NoteEntries(T_mode, n, result, f, Own(fname, accessible))
                      else CaseEntries(T_mode, old(PendingAt(Tst_count)), old(Tst_count), n, result, f,
                                       Own(fname, accessible)))
              && Notes(out) == old(Notes(out))
                   + (if old(Tst_range) <= 0
                      then NoteLines(T_mode, TCID, WARN, RANGE_MUST_BE_POSITIVE, old(File)) else [])
                   + (if !IsNote(ttype) then []
                      else if old(Tst_range) > 1
                      then NoteLines(T_mode, TCID, WARN, RANGE_NOT_VALID, f)
                        + NoteLines(T_mode, TCID, ttype, tmesg, None)
                      else NoteLines(T_mode, TCID, ttype, tmesg, f))
              && |old(PendingAt(Tst_count))| <= 1
              && PendingAt(Tst_count)
                 == PendingAfter(T_mode, old(PendingAt(Tst_count)), old(Tst_count), n, result, f)
              && File == FileLeft(T_mode, ttype, n, f)
    {
      hide Reported, View, Condensed, LastNumbered, Notes, Core, NoteLines, ModeOf, Run;
      hide PrintEntries, NoteEntries, CaseEntries, Right, Strays, BufferAt, Own, FileLeft, ResNotes, IsNote;
      hide PendingAfter, ResEntries, Prints, Shows, Counted, KnownAt, LinesOf, Proper, FileWith;
      ghost var own, s, range := Own(fname, accessible), File, Tst_range;
      Begin(ttype, fname, accessible);
      begun := printed;
      Buffering();
      OwnInCondense(T_mode, range, own, s);
      Tell(ttype, tmesg, own);
      Tst_range := 1;
      StillBuffering();
    }

    /** What tst_res does before it looks at the type. */
    method Begin(ttype: TType, fname: Option<string>, accessible: bool)
      requires Valid()
      modifies this`first_time, this`T_mode, this`Tst_range, this`File, this`out, this`printed, this`T_exitval
      ensures Core() && !first_time && T_mode == old(Mode()) == ModeOf(toutput)
      ensures Tst_range == CasesOf(old(Tst_range))
      ensures File == FileWith(T_mode, old(Tst_range), Own(fname, accessible), old(File))
      ensures PendingAt(Tst_count) == old(PendingAt(Tst_count))
      ensures printed == old(printed)
                + if old(Tst_range) <= 0
                  then PrintEntries(T_mode, Line(Result(TCID, WARN, RANGE_MUST_BE_POSITIVE), 0, 0, old(File)), None)
                    else []
      ensures T_exitval == old(T_exitval) + {ttype} + if old(Tst_range) <= 0 then {WARN} else {}
      ensures Notes(out) == old(Notes(out))
                + if old(Tst_range) <= 0 then NoteLines(T_mode, TCID, WARN, RANGE_MUST_BE_POSITIVE, old(File)) else []
    {
      hide Reported, View, Condensed, LastNumbered, Notes, Core, NoteLines, ModeOf, PrintEntries;
      Save(ttype);
      CheckEnv();
      if Tst_range <= 0 {
        Tst_range := 1;
        Note(WARN, RANGE_MUST_BE_POSITIVE, None);
      }
      if fname != None && accessible { File := fname; }
    }

    /** tst_res, by the type of the result. */
    method Tell(ttype: TType, tmesg: string, ghost own: Option<string>)
      requires Core() && !first_time && (T_mode == CONDENSE ==> own == File) && ttype in T_exitval && Tst_range >= 1
      modifies this`out, this`printed, this`T_exitval, this`File, this`Buffered, this`Last_tcid, this`Last_num
      modifies this`Last_type, this`Last_mesg, this`Tst_count, this`submitted
      ensures Valid() && T_exitval == old(T_exitval) + if IsNote(ttype) && Tst_range > 1 then {WARN} else {}
      ensures submitted == old(submitted)
                + if IsNote(ttype) then [] else Run(old(Tst_count) + 1, Tst_range, Result(TCID, ttype, tmesg), own)
      ensures printed == old(printed)
                + if IsNote(ttype) then NoteEntries(T_mode, Tst_range, Result(TCID, ttype, tmesg), old(File), own)
                  else CaseEntries(T_mode, old(PendingAt(Tst_count)), old(Tst_count), Tst_range,
                                   Result(TCID, ttype, tmesg), old(File), own)
      ensures Notes(out) == old(Notes(out))
                + if !IsNote(ttype) then []
                  else if Tst_range > 1
                  then NoteLines(T_mode, TCID, WARN, RANGE_NOT_VALID, old(File))
                    + NoteLines(T_mode, TCID, ttype, tmesg, None)
                  else NoteLines(T_mode, TCID, ttype, tmesg, old(File))
      ensures PendingAt(Tst_count) == PendingAfter(T_mode, old(PendingAt(Tst_count)), old(Tst_count), Tst_range,
                                                   Result(TCID, ttype, tmesg), old(File))
      ensures File == FileLeft(T_mode, ttype, Tst_range, old(File))
    {
      hide Reported, View, Condensed, LastNumbered, Notes, Core, NoteLines, Run, PrintEntries, NoteEntries;
      hide CaseEntries, CaseAfter;
      if ttype == WARN || ttype == INFO {
        Uncounted(ttype, tmesg, own);
      } else {
        Case(ttype, tmesg, own);
      }
    }

    /** The warnings and information of tst_res. */
    method Uncounted(ttype: TType, tmesg: string, ghost own: Option<string>)
      requires Core() && !first_time && (ttype == WARN || ttype == INFO)
      modifies this`out, this`printed, this`T_exitval, this`File
      ensures Core() && T_exitval == old(T_exitval) + {ttype} + if Tst_range > 1 then {WARN} else {}
      ensures Notes(out) == old(Notes(out))
                + if Tst_range > 1
                  then NoteLines(T_mode, TCID, WARN, RANGE_NOT_VALID, old(File))
                    + NoteLines(T_mode, TCID, ttype, tmesg, None)
                  else NoteLines(T_mode, TCID, ttype, tmesg, old(File))
      ensures printed == old(printed) + NoteEntries(T_mode, Tst_range, Result(TCID, ttype, tmesg), old(File), own)
      ensures File == FileLeft(T_mode, ttype, Tst_range, old(File))
    {
      hide Reported, View, Condensed, LastNumbered, Notes, Core;
      if Tst_range > 1 { Note(WARN, RANGE_NOT_VALID, None); }
      Note(ttype, tmesg, own);
    }

    /** The cases of tst_res. */
    method Case(ttype: TType, tmesg: string, ghost own: Option<string>)
      requires Core() && !first_time && (T_mode == CONDENSE ==> own == File)
      requires ttype != WARN && ttype != INFO && ttype in T_exitval && Tst_range >= 1
      modifies this`out, this`printed, this`T_exitval, this`File, this`Buffered, this`Last_tcid, this`Last_num
      modifies this`Last_type, this`Last_mesg,
               this`Tst_count, this`submitted
      ensures Valid() && T_exitval == old(T_exitval) && Notes(out) == old(Notes(out))
      ensures submitted == old(submitted) + Run(old(Tst_count) + 1, Tst_range, Result(TCID, ttype, tmesg), own)
      ensures printed == old(printed) + CaseEntries(T_mode, old(PendingAt(Tst_count)), old(Tst_count), Tst_range,
                                                    Result(TCID, ttype, tmesg), old(File), own)
      ensures PendingAt(Tst_count)
              == CaseAfter(T_mode, old(PendingAt(Tst_count)), old(Tst_count), Tst_range, Result(TCID, ttype, tmesg),
                old(File))
      ensures File == if Shows(T_mode, ttype) then None else old(File)
    {
      hide Reported, View, Condensed, LastNumbered, Notes, Run, BufferAt, KnownAt, Counted, CaseEntries, CaseAfter;
      hide LinesOf, Proper;
      ghost var result := Result(TCID, ttype, tmesg);
      ghost var run := Run(Tst_count + 1, Tst_range, result, own);
      CaseCounts(T_mode, submitted, Tst_range, result, File, own, T_exitval);
      Show(ttype, tmesg, own);
      submitted := submitted + run;
      Tst_count := Tst_count + Tst_range;
    }

    /** The display types of tst_res. */
    method Show(ttype: TType, tmesg: string, ghost own: Option<string>)
      requires BufferAt(Tst_count) && ttype != WARN && ttype != INFO && ttype in T_exitval && Tst_range >= 1
      modifies this`out, this`printed, this`T_exitval, this`File, this`Buffered, this`Last_tcid, this`Last_num
      modifies this`Last_type, this`Last_mesg
      ensures BufferAt(Tst_count + Tst_range)
      ensures KnownAt(Tst_count + Tst_range)
              == old(KnownAt(Tst_count))
                + View(T_mode, Run(Tst_count + 1, Tst_range, Result(TCID, ttype, tmesg), old(File)))
      ensures T_exitval == old(T_exitval) && Notes(out) == old(Notes(out))
      ensures printed == old(printed) + CaseEntries(T_mode, old(PendingAt(Tst_count)), Tst_count, Tst_range,
                                                    Result(TCID, ttype, tmesg), old(File), own)
      ensures PendingAt(Tst_count + Tst_range)
              == CaseAfter(T_mode, old(PendingAt(Tst_count)), Tst_count, Tst_range, Result(TCID, ttype, tmesg),
                old(File))
      ensures File == if Shows(T_mode, ttype) then None else old(File)
    {
      hide Reported, View, Condensed, LastNumbered, Notes, Run, BufferAt, KnownAt, CondenseEntries, EachEntries;
      if T_mode == DISCARD {
        Unbuffered(Tst_count + Tst_range);
        HiddenRun(T_mode, Tst_count + 1, Tst_range, Result(TCID, ttype, tmesg), File);
      } else if T_mode == NOPASS || T_mode == CONDENSE {
        Condense(Tst_count + 1, ttype, tmesg, own);
      } else {
        PrintEach(ttype, tmesg, own);
      }
    }

    /** What tst_flush prints: the buffered line, with a file left by a result that had no line of its own. */
    ghost function FlushEntries(): (es: seq<Entry>)
      reads this
    {
      if Buffered then PrintEntries(T_mode, PendingUpTo(Tst_count).(file := File), None) else []
    }

    /** tst_flush: the output says of the cases all that the mode shows. */
    method Flush()
      requires Valid()
      modifies this`out, this`printed, this`T_exitval, this`File, this`Buffered, this`flushes
      ensures Valid() && !Buffered && flushes == old(flushes) + {Tst_count}
      ensures View(T_mode, Reported(out)) == View(T_mode, submitted) && Proper(T_mode, out)
      ensures T_mode == CONDENSE ==> Reported(out) == submitted && Condensed(out, flushes)
      ensures printed == old(printed) + old(FlushEntries())
      ensures Right(printed)
              <==> Right(old(printed)) && !(old(Buffered) && old(File) != None && Prints(T_mode, Last_type))
      ensures T_exitval == old(T_exitval) && Notes(out) == old(Notes(out))
      ensures State() == FlushTally(T_mode, old(State()))
    {
      hide Reported, View, Condensed, LastNumbered, Notes, LinesOf, PrintEntries, Right, Counted, Proper, ModeOf;
      assert !Buffered ==> out + PendingAt(Tst_count) == out;
      if Buffered && (T_mode == CONDENSE || T_mode == NOPASS) {
        PrintPending();
        Buffered := false;
      }
      assert out + PendingAt(Tst_count) == out;
      if T_mode == CONDENSE {
        CondenseShowsAll(Reported(out));
        CondenseShowsAll(submitted);
        CondensedMonotone(out, flushes, flushes + {Tst_count});
      }
      flushes := flushes + {Tst_count};
      FlushFiles(old(printed), T_mode, old(Buffered), old(PendingUpTo(Tst_count)).(file := old(File)));
    }

    /** One step of a run. */
    method Do(op: Op)
      requires Valid()
      modifies this
      ensures Valid()
      ensures Right(printed) <==> Right(old(printed)) && !OpStrays(ModeOf(toutput), TST_TOTAL, op, old(State()))
      ensures State() == OpTally(ModeOf(toutput), TST_TOTAL, op, old(State()))
      ensures ResultsOf(submitted) == old(ResultsOf(submitted)) + OpCases(TST_TOTAL, op, old(Tst_count))
      ensures NotesRead(out) == old(NotesRead(out)) + OpHeard(toutput, TST_TOTAL, op, old(Tst_count), old(first_time))
      ensures Tst_count == old(Tst_count) + |OpCases(TST_TOTAL, op, old(Tst_count))|
      ensures first_time == (old(first_time) && !Begins(TST_TOTAL, op, old(Tst_count)))
      ensures op.Flushed? ==> !Buffered
    {
      hide Right, Valid, ModeOf, Strays, ResTally, StraysInBrk, BrkTally, Reported, View, Condensed, Notes, ResNotes;
      hide ResEntries, PendingAfter, Run, FileWith, FileLeft, Own;
      hide ResultsOf, Texts, TestCases, TestNotes, BreakCases, BreakWarning, RangeWarning, Heard, EarlyHeard;
      SizeIs(submitted);
      Submitted();
      match op {
        case Test(c) =>
          TCID, Tst_range := c.tcid, c.range;
          Res(c.ttype, c.fname, c.accessible, c.tmesg);
        case Break(c) =>
          TCID, Tst_range := c.tcid, c.range;
          Brk(c.ttype, c.fname, c.accessible, c.tmesg);
        case Flushed =>
          StartedFile();
          Flush();
      }
      SizeIs(submitted);
      Submitted();
    }

    /** tst_exit: whether the exit status is nonzero. */
    method Exit() returns (failed: bool)
      requires Valid()
      modifies this`out, this`printed, this`T_exitval, this`File, this`Buffered, this`flushes
      ensures Valid() && View(T_mode, Reported(out)) == View(T_mode, submitted) && Proper(T_mode, out)
      ensures T_mode == CONDENSE ==> Reported(out) == submitted && Condensed(out, flushes)
      ensures failed <==> FAIL in T_exitval || BROK in T_exitval || WARN in T_exitval
      ensures (exists r :: r in submitted && (r.result.ttype == FAIL || r.result.ttype == BROK)) ==> failed
    {
      Flush();
      failed := Fails(T_exitval);
    }

    /** tst_brk without its cleanup function: every case is reported. */
    method Brk(ttype: TType, fname: Option<string>, accessible: bool, tmesg: string)
      requires Valid()
      modifies this
      ensures Valid() && flushes == old(flushes) && Tst_range == 1
      ensures Tst_count >= TST_TOTAL && (old(Tst_count) >= TST_TOTAL ==> Tst_count == old(Tst_count))
      ensures old(Tst_count) < TST_TOTAL ==>
                var given := old(Tst_count + CasesOf(Tst_range));
                Tst_count == if given >= TST_TOTAL then given else TST_TOTAL
      ensures old(submitted) <= submitted && |submitted| == Tst_count
      ensures forall i | old(Tst_count) <= i < Tst_count ::
                var given, t := old(Tst_count + CasesOf(Tst_range)), BrkType(ttype);
                && submitted[i].result == (if i < given then Result(TCID, t, tmesg) else Remaining(TCID, t))
                && submitted[i].result.ttype
                   == (if i < given then (if ttype in {FAIL, BROK, CONF, RETR} then ttype else BROK)
                       else if ttype in {CONF, RETR} then ttype else BROK)
                && submitted[i].result.mesg
                   == if i < given then tmesg
                      else if ttype == CONF then "Remaining cases not appropriate for configuration"
                      else if ttype == RETR then "Remaining cases retired"
                      else "Remaining cases broken"
      ensures var c := Call(old(TCID), old(Tst_range), ttype, fname, accessible, tmesg);
              ResultsOf(submitted) == old(ResultsOf(submitted)) + BreakCases(TST_TOTAL, old(Tst_count), c)
      ensures NotesRead(out)
              == old(NotesRead(out)) + OpHeard(toutput, TST_TOTAL, Break(Call(old(TCID), old(Tst_range), ttype, fname,
                                                                              accessible, tmesg)),
                                               old(Tst_count), old(first_time))
      ensures first_time == (old(first_time) && old(Tst_count) >= TST_TOTAL)
      ensures var c := Call(old(TCID), old(Tst_range), ttype, fname, accessible, tmesg);
              && (Right(printed)
                  <==> Right(old(printed)) && !StraysInBrk(ModeOf(toutput), TST_TOTAL, c, old(State())))
              && State() == BrkTally(ModeOf(toutput), TST_TOTAL, c, old(State()))
    {
      hide Reported, View, Condensed, LastNumbered, Notes, Core, Right, Strays, ResEntries, NoteLines, FileLeft;
      hide PrintEntries, ModeOf, FileWith, Own, StraysAt, ResTally, Run, RestCall, KeptType;
      hide ResultsOf, NotesRead, EarlyHeard, Heard, RangeWarning, BreakWarning, BreakCases, Remaining;
      ghost var c := Call(TCID, Tst_range, ttype, fname, accessible, tmesg);
      var t := BrkCheck(ttype);
      ghost var before := submitted;
      ghost var n := Tst_count;
      Submitted();
      BrkCase(t, fname, accessible, tmesg);
      ghost var between := submitted;
      Submitted();
      BrkRest(t);
      Submitted();
      BreakCasesAre(TST_TOTAL, n, c, before, between, submitted);
      BreakSays(TST_TOTAL, n, c, between, submitted);
    }

    /** tst_brk, the case at hand. */
    method BrkCase(t: TType, fname: Option<string>, accessible: bool, tmesg: string)
      requires Valid() && BrkType(t) == t
      modifies this
      ensures Valid() && flushes == old(flushes) && TCID == old(TCID)
      ensures if old(Tst_count) < TST_TOTAL then
                var (n, c) := (CasesOf(old(Tst_range)), Call(old(TCID), old(Tst_range), t, fname, accessible, tmesg));
                && |submitted| == Tst_count == old(Tst_count) + n && old(submitted) <= submitted
                && (forall i | old(Tst_count) <= i < Tst_count :: submitted[i].result == Result(TCID, t, tmesg))
                && (Right(printed) <==> Right(old(printed)) && !StraysAt(ModeOf(toutput), c, old(State())))
                && State() == ResTally(ModeOf(toutput), c, old(State()))
                && NotesRead(out) == old(NotesRead(out)) + Heard(toutput, RangeWarning(TCID, old(Tst_range)))
                && !first_time
              else
                && submitted == old(submitted) && Tst_count == old(Tst_count)
                && (Right(printed) <==> Right(old(printed))) && State() == old(State())
                && NotesRead(out) == old(NotesRead(out)) && first_time == old(first_time)
    {
      hide Reported, View, Condensed, LastNumbered, Notes, Core, Right, Strays, ResEntries, NoteLines, FileLeft;
      hide PrintEntries, ModeOf, FileWith, Own, StraysAt, ResTally, ResNotes, PendingAfter, State, NotesRead, Heard;
      hide RangeWarning, TestNotes, TestCases, ResultsOf;
      Submitted();
      if Tst_count < TST_TOTAL {
        NotesOfCase(Call(TCID, Tst_range, t, fname, accessible, tmesg));
        Res(t, fname, accessible, tmesg);
      }
      Submitted();
    }

    /** tst_brk, the type it goes on with. */
    method BrkCheck(ttype: TType) returns (t: TType)
      requires Valid()
      modifies this`out, this`printed, this`T_exitval, this`File
      ensures Valid() && t == BrkType(ttype)
      ensures State() == BrkStart(ModeOf(toutput), ttype, old(State()))
      ensures Right(printed)
              <==> Right(old(printed)) && !(BrkType(ttype) != ttype && old(File) != None && ModeOf(toutput) != DISCARD)
      ensures NotesRead(out)
              == old(NotesRead(out)) + EarlyHeard(toutput, old(first_time), BreakWarning(TCID, ttype))
    {
      hide Reported, View, Condensed, LastNumbered, Notes, Core, Right, NoteLines, PrintEntries, ModeOf;
      hide EarlyHeard, Texts, BreakWarning;
      NothingHeard(toutput, first_time);
      BreakWarningIs(TCID, ttype);
      ghost var notes := Notes(out);
      ghost var s := File;
      StartedFile();
      t := ttype;
      if t != FAIL && t != BROK && t != CONF && t != RETR {
        InMode();
        WarningHeard(toutput, first_time, T_mode, TCID, s);
        Note(WARN, INVALID_TYPE, None);
        TextsAppend(notes, NoteLines(T_mode, TCID, WARN, INVALID_TYPE, s));
        t := BROK;
        BrkNote(old(printed), T_mode, ModeOf(toutput), Line(Result(TCID, WARN, INVALID_TYPE), 0, 0, s));
      }
    }

    /** The cases left to report. */
    method BrkRest(t: TType)
      requires Valid() && BrkType(t) == t
      modifies this
      ensures Valid() && flushes == old(flushes) && Tst_range == 1 && TCID == old(TCID)
      ensures old(submitted) <= submitted
      ensures Tst_count == if old(Tst_count) < TST_TOTAL then TST_TOTAL else old(Tst_count)
      ensures forall i | |old(submitted)| <= i < |submitted| :: submitted[i].result == Remaining(TCID, t)
      ensures var c := RestCall(old(TCID), t, TST_TOTAL - old(Tst_count));
              if old(Tst_count) < TST_TOTAL then
                && (Right(printed) <==> Right(old(printed)) && !StraysAt(ModeOf(toutput), c, old(State())))
                && State() == ResTally(ModeOf(toutput), c, old(State()))
              else (Right(printed) <==> Right(old(printed))) && State() == old(State())
      ensures NotesRead(out) == old(NotesRead(out)) && first_time == (old(first_time) && old(Tst_count) >= TST_TOTAL)
    {
      hide Reported, View, Condensed, LastNumbered, Notes, Core, Right, Strays, ResEntries, NoteLines, FileLeft;
      hide ModeOf, FileWith, Own, KeptType, PendingAfter, ResNotes, ResTally, StraysAt, NotesRead, Heard, TestNotes;
      hide ResultsOf, TestCases;
      NothingHeard(toutput, false);
      if TST_TOTAL > Tst_count { NotesOfCase(RestCall(TCID, t, TST_TOTAL - Tst_count)); }
      Submitted();
      Tst_range := TST_TOTAL - Tst_count;
      if Tst_range > 0 {
        if t == CONF {
          Res(t, None, false, "Remaining cases not appropriate for configuration");
        } else if t == RETR {
          Res(t, None, false, "Remaining cases retired");
        } else {
          Res(BROK, None, false, "Remaining cases broken");
        }
        Submitted();
      } else {
        Tst_range := 1;
      }
    }

    /** With nothing buffered, the output tells of the cases what TOUTPUT asks for. */
    lemma Told()
      requires Valid() && !Buffered
      ensures Tells(toutput, out, submitted)
    {
      hide Reported, Notes, Condensed, LastNumbered, LinesOf, View, Counted, Tells;
      assert out + PendingAt(Tst_count) == out;
      if first_time {
        Unbegun();
        NothingNumbered(out, flushes);
        ToldNothing(toutput, out);
      } else {
        ToldIs(toutput, out, submitted);
      }
    }

    lemma Unbuffered(count: nat)
      requires T_mode == DISCARD && BufferAt(Tst_count)
      ensures BufferAt(count) && KnownAt(count) == KnownAt(Tst_count) && PendingAt(count) == []
    {
    }

    lemma Buffering()
      requires Core()
      ensures Buffered ==> T_mode == CONDENSE || T_mode == NOPASS
      ensures |PendingAt(Tst_count)| <= 1
      ensures PendingAt(Tst_count) != [] ==> Buffered && PendingAt(Tst_count)[0].file == None
    {
    }

    lemma StillBuffering()
      requires Valid()
      ensures PendingAt(Tst_count) != [] ==> T_mode == CONDENSE || T_mode == NOPASS
    {
      Buffering();
    }

    lemma OnePending()
      ensures |PendingAt(Tst_count)| <= 1 && (PendingAt(Tst_count) != [] ==> PendingAt(Tst_count)[0].file == None)
    {}

    lemma InMode()
      requires Valid()
      ensures T_mode == if first_time then VERBOSE else ModeOf(toutput)
    {
    }

    lemma StartedFile()
      requires Valid()
      ensures T_mode != ModeOf(toutput) ==> File == None && !Buffered
    {
    }

    lemma Mirrors()
      requires Valid()
      ensures out == LinesOf(printed)
    {
    }

    lemma Submitted()
      requires Valid()
      ensures |submitted| == Tst_count
    {
    }
  }

  /** Own files of a result: the file named, if it is there. */
  function Own(fname: Option<string>, accessible: bool): Option<string> { if accessible then fname else None }

  function LinesOf(es: seq<Entry>): (log: seq<Line>) { seq(|es|, k requires 0 <= k < |es| => es[k].line) }

  function LastCase(mode: Mode, tnum: nat, trange: int): nat {
    if mode != VERBOSE && trange > 1 then tnum + trange - 1 else tnum
  }

  lemma ResFiles(printed: seq<Entry>, begun: seq<Entry>, after: seq<Entry>, mode: Mode, buffered: seq<Line>, count: nat,
                 range: int, result: Result, own: Option<string>, s: Option<string>)
    requires buffered != [] ==> (mode == CONDENSE || mode == NOPASS) && buffered[0].file == None
    requires var warned := Result(result.tcid, WARN, RANGE_MUST_BE_POSITIVE);
             begun == printed + if range <= 0 then PrintEntries(mode, Line(warned, 0, 0, s), None) else []
    requires var (f, n) := (FileWith(mode, range, own, s), CasesOf(range));
             after == begun + if IsNote(result.ttype) then NoteEntries(mode, n, result, f, own)
                              else CaseEntries(mode, buffered, count, n, result, f, own)
    ensures after == printed + ResEntries(mode, buffered, count, range, result, own, s)
    ensures Right(after) <==> Right(printed) && !Strays(mode, range, result.ttype, own, s)
  {
    hide Right, PrintEntries, NoteEntries, CaseEntries, Strays;
    ResRight(mode, buffered, count, range, result, own, s);
    RightAppends(printed, ResEntries(mode, buffered, count, range, result, own, s));
  }

  lemma MergedEntries(mode: Mode, line: Line, count: nat, n: nat, result: Result, own: Option<string>)
    requires line.result == result
    ensures CondenseEntries(mode, [line], count, n, result, None, own) == []
  {
  }

  lemma ProperAppends(mode: Mode, log: seq<Line>, line: Line)
    requires Proper(mode, log)
    requires || line.first == 0
             || (line.first <= line.last && (mode == VERBOSE ==> line.first == line.last)
                 && Shows(mode, line.result.ttype))
    ensures Proper(mode, log + [line])
  {
  }

  lemma EachStart(count: nat, result: Result, f: Option<string>, own: Option<string>)
    ensures EachEntries(count, 0, result, f, own) == [] && View(VERBOSE, Run(count + 1, 0, result, f)) == []
  {
  }

  /** The i-th line of a range, and its case. */
  lemma EachStep(count: nat, i: nat, result: Result, f: Option<string>, own: Option<string>)
    requires i > 0
    ensures EachEntries(count, i, result, f, own)
            == EachEntries(count, i - 1, result, f, own)
               + if result.ttype == PASS then []
                 else [Entry(Line(result, count + i, count + i, if i == 1 then f else None), own)]
    ensures View(VERBOSE, Run(count + 1, i, result, f))
            == View(VERBOSE, Run(count + 1, i - 1, result, f)) + View(VERBOSE, Run(count + i, 1, result, f))
  {
    hide View, Run;
    RunJoins(count + 1, i - 1, 1, result, f);
    ViewAppends(VERBOSE, Run(count + 1, i - 1, result, f), Run(count + i, 1, result, f));
    assert result.ttype == PASS ==> EachEntries(count, i - 1, result, f, own) == [];
  }

  lemma OneCase(n: nat, result: Result, f: Option<string>, g: Option<string>)
    requires n > 0
    ensures View(VERBOSE, Cases(Line(result, n, n, g))) == View(VERBOSE, Run(n, 1, result, f))
  {
    FileUnseen(VERBOSE, n, 1, result, f, g);
  }

  /** The number of cases a result stands for. */
  function CasesOf(range: int): (n: nat)
    ensures n >= 1
  {
    if range <= 0 then 1 else range
  }

  /** The buffered result after a case with file f, as the line that flushing it prints. */
  function CaseAfter(mode: Mode, buffered: seq<Line>, count: nat, n: nat, result: Result,
                     f: Option<string>): (lines: seq<Line>)
    requires |buffered| <= 1
  {
    if mode == VERBOSE || mode == DISCARD || f != None then []
    else
      var first := if buffered != [] && buffered[0].result == result then buffered[0].first else count + 1;
      [Line(result, first, count + n, None)]
  }

  function PendingAfter(mode: Mode, buffered: seq<Line>, count: nat, range: int, result: Result,
                        f: Option<string>): (lines: seq<Line>)
    requires |buffered| <= 1
  {
    if IsNote(result.ttype) then buffered else CaseAfter(mode, buffered, count, CasesOf(range), result, f)
  }

  function KeptType(lines: seq<Line>): Option<TType> { if lines == [] then None else Some(lines[0].result.ttype) }

  lemma RunSize(first: nat, n: nat, result: Result, file: Option<string>)
    ensures |Run(first, n, result, file)| == n
  {}

  /** What one call of tst_res does to the tally. */
  lemma Tallied(mode: Mode, t: Tally, t': Tally, buffered: seq<Line>, pending: seq<Line>, c: Call)
    requires |buffered| <= 1 && t.kept == KeptType(buffered) && t'.kept == KeptType(pending)
    requires t'.count == t.count + if IsNote(c.ttype) then 0 else CasesOf(c.range)
    requires var (f, result) := (FileWith(mode, c.range, Own(c.fname, c.accessible), t.file),
                                 Result(c.tcid, c.ttype, c.tmesg));
             && t'.file == FileLeft(mode, c.ttype, c.range, f)
             && pending == PendingAfter(mode, buffered, t.count, c.range, result, f)
    ensures t' == ResTally(mode, c, t)
  {
    hide FileWith, FileLeft, PendingAfter, KeptType, KeptAfter, Own;
    KeptIs(mode, buffered, t.count, c.range, Result(c.tcid, c.ttype, c.tmesg),
           FileWith(mode, c.range, Own(c.fname, c.accessible), t.file));
  }

  lemma KeptIs(mode: Mode, buffered: seq<Line>, count: nat, range: int, result: Result, f: Option<string>)
    requires |buffered| <= 1
    ensures KeptType(PendingAfter(mode, buffered, count, range, result, f))
          == KeptAfter(mode, result.ttype, KeptType(buffered), f)
  {
  }

  /** The type of the buffered result after a case with file f. */
  function KeptAfter(mode: Mode, t: TType, kept: Option<TType>, f: Option<string>): Option<TType> {
    if IsNote(t) then kept else if (mode == CONDENSE || mode == NOPASS) && f == None then Some(t) else None
  }

  lemma CaseCounts(mode: Mode, submitted: seq<Report>, n: nat, result: Result, f: Option<string>, own: Option<string>,
                   exitval: set<TType>)
    requires Counted(submitted, exitval) && result.ttype in exitval && (mode == CONDENSE ==> own == f)
    ensures var run := Run(|submitted| + 1, n, result, own);
            && |run| == n && Counted(submitted + run, exitval)
            && View(mode, submitted + run) == View(mode, submitted) + View(mode, Run(|submitted| + 1, n, result, f))
  {
    hide View, Run, Counted;
    ViewAppends(mode, submitted, Run(|submitted| + 1, n, result, own));
    CountedOn(submitted, n, result, own, exitval);
    if mode != CONDENSE { FileUnseen(mode, |submitted| + 1, n, result, f, own); }
  }

  lemma OwnInCondense(mode: Mode, range: int, own: Option<string>, s: Option<string>)
    ensures mode == CONDENSE && s == None ==> FileWith(mode, range, own, s) == own
  {
  }

  lemma SameLeft(mode: Mode, buffered: seq<Line>, count: nat, range: int, result: Result, f: Option<string>)
    requires |buffered| <= 1
    ensures FileLeft(mode, result.ttype, range, f) == FileLeft(mode, result.ttype, CasesOf(range), f)
    ensures PendingAfter(mode, buffered, count, range, result, f)
          == PendingAfter(mode, buffered, count, CasesOf(range), result, f)
  {
  }

  lemma FlushFiles(printed: seq<Entry>, mode: Mode, buffered: bool, line: Line)
    ensures Right(printed + if buffered then PrintEntries(mode, line, None) else [])
            <==> Right(printed) && !(buffered && line.file != None && Prints(mode, line.result.ttype))
  {
    hide Right, PrintEntries;
    NothingRight();
    PrintRight(mode, line, None);
    RightAppends(printed, if buffered then PrintEntries(mode, line, None) else []);
  }

  // ---------------------------------------------------------------- whole runs

  /** A call of tst_res or tst_brk: TCID and Tst_range when it is made, and its arguments. */
  datatype Call = Call(tcid: string, range: int, ttype: TType, fname: Option<string>, accessible: bool, tmesg: string)

  /** The file that is set, the type of the buffered result, and the number of cases. */
  datatype Tally = Tally(file: Option<string>, kept: Option<TType>, count: nat)

  function ResTally(mode: Mode, c: Call, t: Tally): Tally {
    var f := FileWith(mode, c.range, Own(c.fname, c.accessible), t.file);
    Tally(FileLeft(mode, c.ttype, c.range, f), KeptAfter(mode, c.ttype, t.kept, f),
          if IsNote(c.ttype) then t.count else t.count + CasesOf(c.range))
  }

  predicate StraysAt(mode: Mode, c: Call, t: Tally) {
    Strays(mode, c.range, c.ttype, Own(c.fname, c.accessible), t.file)
  }

  function FlushTally(mode: Mode, t: Tally): Tally {
    Tally(if t.kept.Some? && Prints(mode, t.kept.value) then None else t.file, None, t.count)
  }

  /** Flushing prints the buffered line with a file, which it had not when it was buffered. */
  predicate StraysInFlush(mode: Mode, t: Tally) { t.kept.Some? && t.file != None && Prints(mode, t.kept.value) }

  // tst_brk: a warning about its type, the case at hand, and the cases left.

  function BrkStart(mode: Mode, ttype: TType, t: Tally): Tally {
    t.(file := if BrkType(ttype) != ttype && mode != DISCARD then None else t.file)
  }

  function BrkCall(c: Call): Call { c.(ttype := BrkType(c.ttype)) }

  function RestCall(tcid: string, t: TType, range: int): Call {
    Call(tcid, range, RestType(t), None, false, Remaining(tcid, t).mesg)
  }

  function BrkFirst(mode: Mode, total: int, c: Call, t: Tally): Tally {
    var t1 := BrkStart(mode, c.ttype, t);
    if t1.count < total then ResTally(mode, BrkCall(c), t1) else t1
  }

  function BrkTally(mode: Mode, total: int, c: Call, t: Tally): Tally {
    var t2 := BrkFirst(mode, total, c, t);
    if t2.count < total then ResTally(mode, RestCall(c.tcid, BrkType(c.ttype), total - t2.count), t2) else t2
  }

  /** tst_brk prints a file with a line it does not belong to. */
  predicate StraysInBrk(mode: Mode, total: int, c: Call, t: Tally) {
    var (t1, t2) := (BrkStart(mode, c.ttype, t), BrkFirst(mode, total, c, t));
    || (BrkType(c.ttype) != c.ttype && t.file != None && mode != DISCARD)
    || (t1.count < total && StraysAt(mode, BrkCall(c), t1))
    || (t2.count < total && StraysAt(mode, RestCall(c.tcid, BrkType(c.ttype), total - t2.count), t2))
  }

  /** What a test does with the reporter. */
  datatype Op = Test(call: Call) | Break(call: Call) | Flushed

  function OpTally(mode: Mode, total: int, op: Op, t: Tally): Tally {
    match op
    case Test(c) => ResTally(mode, c, t)
    case Break(c) => BrkTally(mode, total, c, t)
    case Flushed => FlushTally(mode, t)
  }

  predicate OpStrays(mode: Mode, total: int, op: Op, t: Tally) {
    match op
    case Test(c) => StraysAt(mode, c, t)
    case Break(c) => StraysInBrk(mode, total, c, t)
    case Flushed => StraysInFlush(mode, t)
  }

  /** Some file of a run that is flushed at its end is printed with a line that is not its own result's. */
  predicate StraysInRun(mode: Mode, total: int, t: Tally, ops: seq<Op>)
    decreases |ops|
  {
    if ops == [] then StraysInFlush(mode, t)
    else OpStrays(mode, total, ops[0], t) || StraysInRun(mode, total, OpTally(mode, total, ops[0], t), ops[1..])
  }

  lemma SizeIs(rs: seq<Report>)
    ensures |ResultsOf(rs)| == |rs|
  {}

  lemma FlushLast(mode: Mode, total: int, t: Tally)
    ensures StraysInRun(mode, total, t, []) == OpStrays(mode, total, Flushed, t)
  {}

  const AtStart := Tally(None, None, 0)

  /** Any run of results, broken cases and flushes, flushed: the lines are printed with their own files iff none
      strays. */
  method ReportAll(total: int, toutput: Option<string>, ops: seq<Op>) returns (r: Reporter)
    ensures fresh(r) && r.Valid() && r.out == LinesOf(r.printed)
    ensures Right(r.printed) <==> !StraysInRun(ModeOf(toutput), total, AtStart, ops)
    ensures ResultsOf(r.submitted) == RunCases(total, ops, 0) && Tells(toutput, r.out, r.submitted)
    ensures NotesRead(r.out) == RunHeard(toutput, total, ops, 0, true)
    ensures toutput == Some("DISCARD") ==> (r.out == [] <==> !exists j :: WarnsEarly(total, ops, j))
  {
    hide Right, Reporter.Valid, LinesOf, ModeOf, OpStrays, OpTally, StraysInRun, ResultsOf, NotesRead, OpCases, OpHeard;
    hide Begins, Tells, RunCases, RunHeard, GoesOn;
    r := new Reporter(total, toutput, "");
    var i := 0;
    NothingYet(toutput, total, ops);
    while i < |ops|
      invariant 0 <= i <= |ops| && fresh(r) && r.Valid() && r.toutput == toutput && r.TST_TOTAL == total
      invariant GoesOn(toutput, total, ops, i, Right(r.printed), r.State(), ResultsOf(r.submitted), NotesRead(r.out),
                       r.Tst_count, r.first_time)
    {
      OneMore(toutput, total, ops, i, Right(r.printed), r.State(), ResultsOf(r.submitted), NotesRead(r.out),
              r.Tst_count, r.first_time);
      r.Do(ops[i]);
      i := i + 1;
    }
    RunEnds(toutput, total, ops, Right(r.printed), r.State(), ResultsOf(r.submitted), NotesRead(r.out), r.Tst_count,
            r.first_time);
    r.Do(Flushed);
    r.Mirrors();
    r.Told();
    if toutput == Some("DISCARD") {
      SilentIs(toutput, r.out, r.submitted);
      DiscardSilentIff(total, ops);
    }
  }

  /** With the i-th operation next: what has been reported and what the rest will bring is what the run brings. */
  ghost predicate GoesOn(toutput: Option<string>, total: int, ops: seq<Op>, i: nat, right: bool, t: Tally,
                         cases: seq<Result>, notes: seq<Result>, count: nat, early: bool)
    requires i <= |ops|
  {
    var (mode, rest) := (ModeOf(toutput), ops[i..]);
    && (right && !StraysInRun(mode, total, t, rest) <==> !StraysInRun(mode, total, AtStart, ops))
    && cases + RunCases(total, rest, count) == RunCases(total, ops, 0)
    && notes + RunHeard(toutput, total, rest, count, early) == RunHeard(toutput, total, ops, 0, true)
  }

  lemma OneMore(toutput: Option<string>, total: int, ops: seq<Op>, i: nat, right: bool, t: Tally, cases: seq<Result>,
                notes: seq<Result>, count: nat, early: bool)
    requires i < |ops| && GoesOn(toutput, total, ops, i, right, t, cases, notes, count, early)
    ensures var (op, mode) := (ops[i], ModeOf(toutput));
            GoesOn(toutput, total, ops, i + 1, right && !OpStrays(mode, total, op, t), OpTally(mode, total, op, t),
                   cases + OpCases(total, op, count), notes + OpHeard(toutput, total, op, count, early),
                   count + |OpCases(total, op, count)|, early && !Begins(total, op, count))
  {
    hide OpCases, OpHeard, Begins, OpStrays, OpTally, ModeOf, RunCases, RunHeard, StraysInRun;
    TakeOp(toutput, total, ops, i, t, count, early);
    var (op, rest) := (ops[i], ops[i + 1..]);
    var (os, n) := (OpCases(total, op, count), count + |OpCases(total, op, count)|);
    Regroup(cases, os, RunCases(total, rest, n));
    Regroup(notes, OpHeard(toutput, total, op, count, early),
            RunHeard(toutput, total, rest, n, early && !Begins(total, op, count)));
  }

  lemma NothingYet(toutput: Option<string>, total: int, ops: seq<Op>)
    ensures GoesOn(toutput, total, ops, 0, Right([]), AtStart, ResultsOf([]), NotesRead([]), 0, true)
    ensures KeptType([]) == None
  {
    hide RunCases, RunHeard, StraysInRun;
    NothingRight();
    assert ops[0..] == ops && ResultsOf([]) == [] && NotesRead([]) == [];
  }

  lemma RunEnds(toutput: Option<string>, total: int, ops: seq<Op>, right: bool, t: Tally, cases: seq<Result>,
                notes: seq<Result>, count: nat, early: bool)
    requires GoesOn(toutput, total, ops, |ops|, right, t, cases, notes, count, early)
    ensures var mode := ModeOf(toutput);
            && (right && !OpStrays(mode, total, Flushed, t) <==> !StraysInRun(mode, total, AtStart, ops))
            && cases + OpCases(total, Flushed, count) == RunCases(total, ops, 0)
            && notes + OpHeard(toutput, total, Flushed, count, early) == RunHeard(toutput, total, ops, 0, true)
  {
    hide OpTally, ModeOf, StraysInFlush;
    assert ops[|ops|..] == [];
    FlushLast(ModeOf(toutput), total, t);
    assert RunCases(total, [], count) == [] && RunHeard(toutput, total, [], count, early) == [];
  }

  /** The first operation of those left. */
  lemma TakeOp(toutput: Option<string>, total: int, ops: seq<Op>, i: nat, t: Tally, count: nat, early: bool)
    requires i < |ops|
    ensures var (op, rest, mode) := (ops[i], ops[i + 1..], ModeOf(toutput));
            var n := count + |OpCases(total, op, count)|;
            && RunCases(total, ops[i..], count) == OpCases(total, op, count) + RunCases(total, rest, n)
            && RunHeard(toutput, total, ops[i..], count, early)
               == OpHeard(toutput, total, op, count, early)
                  + RunHeard(toutput, total, rest, n, early && !Begins(total, op, count))
            && (StraysInRun(mode, total, t, ops[i..])
                <==> OpStrays(mode, total, op, t) || StraysInRun(mode, total, OpTally(mode, total, op, t), rest))
  {
    hide OpCases, OpHeard, Begins, OpStrays, OpTally, ModeOf;
    assert ops[i..][0] == ops[i] && ops[i..][1..] == ops[i + 1..];
  }

  lemma Regroup(a: seq<Result>, b: seq<Result>, c: seq<Result>)
    ensures a + (b + c) == (a + b) + c
  {
  }

  /** A log that tells of no case is its notes. */
  lemma SilentIs(toutput: Option<string>, log: seq<Line>, rs: seq<Report>)
    requires toutput == Some("DISCARD") && Tells(toutput, log, rs)
    ensures log == [] <==> NotesRead(log) == []
  {
    if log != [] { assert log[|log| - 1] in log; }
  }

  // ---------------------------------------------------------------- what is reported, by the value of TOUTPUT

  function ResultsOf(rs: seq<Report>): (results: seq<Result>) {
    seq(|rs|, i requires 0 <= i < |rs| => rs[i].result)
  }

  function Texts(lines: seq<Line>): (results: seq<Result>) {
    seq(|lines|, i requires 0 <= i < |lines| => lines[i].result)
  }

  /** The notes in the output, without their files. */
  function NotesRead(log: seq<Line>): (results: seq<Result>) { Texts(Notes(log)) }

  function Copies(n: nat, result: Result): (rs: seq<Result>) { seq(n, i => result) }

  /** The cases of one call of tst_res. */
  function TestCases(c: Call): (rs: seq<Result>) {
    if c.ttype == WARN || c.ttype == INFO then []
    else Copies(if c.range <= 0 then 1 else c.range, Result(c.tcid, c.ttype, c.tmesg))
  }

  function RangeWarning(tcid: string, range: int): (rs: seq<Result>) {
    if range <= 0 then [Result(tcid, WARN, RANGE_MUST_BE_POSITIVE)] else []
  }

  /** Its notes. */
  function TestNotes(c: Call): (rs: seq<Result>) {
    RangeWarning(c.tcid, c.range)
    + if c.ttype != WARN && c.ttype != INFO then []
      else (if c.range > 1 then [Result(c.tcid, WARN, RANGE_NOT_VALID)] else []) + [Result(c.tcid, c.ttype, c.tmesg)]
  }

  /** The cases of one call of tst_brk. */
  function BreakCases(total: int, count: nat, c: Call): (rs: seq<Result>) {
    var t := if c.ttype in {FAIL, BROK, CONF, RETR} then c.ttype else BROK;
    var first := if count < total then TestCases(c.(ttype := t)) else [];
    var left := total - count - |first|;
    first + Copies(if left > 0 then left else 0, Remaining(c.tcid, t))
  }

  function BreakWarning(tcid: string, t: TType): (rs: seq<Result>) {
    if t in {FAIL, BROK, CONF, RETR} then [] else [Result(tcid, WARN, INVALID_TYPE)]
  }

  /** The notes that TOUTPUT lets through. */
  function Heard(toutput: Option<string>, notes: seq<Result>): (rs: seq<Result>) {
    if notes == [] || toutput == Some("DISCARD") then []
    else
      var last := notes[|notes| - 1];
      Heard(toutput, notes[..|notes| - 1])
      + if toutput == Some("NOPASS") && last.ttype != WARN then [] else [last]
  }

  /** TOUTPUT is looked at by the first call of tst_res; what tst_brk prints before is printed in any case. */
  function EarlyHeard(toutput: Option<string>, early: bool, notes: seq<Result>): (rs: seq<Result>) {
    if early then notes else Heard(toutput, notes)
  }

  function OpCases(total: int, op: Op, count: nat): (rs: seq<Result>) {
    match op
    case Test(c) => TestCases(c)
    case Break(c) => BreakCases(total, count, c)
    case Flushed => []
  }

  function OpHeard(toutput: Option<string>, total: int, op: Op, count: nat, early: bool): (rs: seq<Result>) {
    match op
    case Test(c) => Heard(toutput, TestNotes(c))
    case Break(c) =>
      EarlyHeard(toutput, early, BreakWarning(c.tcid, c.ttype))
      + if count < total then Heard(toutput, RangeWarning(c.tcid, c.range)) else []
    case Flushed => []
  }

  /** tst_res is called. */
  predicate Begins(total: int, op: Op, count: nat) { op.Test? || (op.Break? && count < total) }

  /** All cases of a run. */
  function RunCases(total: int, ops: seq<Op>, count: nat): (rs: seq<Result>)
    decreases |ops|
  {
    if ops == [] then []
    else
      var rs := OpCases(total, ops[0], count);
      rs + RunCases(total, ops[1..], count + |rs|)
  }

  /** All notes of a run that are printed. */
  function RunHeard(toutput: Option<string>, total: int, ops: seq<Op>, count: nat, early: bool): (rs: seq<Result>)
    decreases |ops|
  {
    if ops == [] then []
    else
      OpHeard(toutput, total, ops[0], count, early)
      + RunHeard(toutput, total, ops[1..], count + |OpCases(total, ops[0], count)|,
                 early && !Begins(total, ops[0], count))
  }

  /** The cases with a result of one of these types, without files. */
  function Only(types: set<TType>, rs: seq<Report>): (os: seq<Report>) {
    if rs == [] then []
    else
      var r := rs[|rs| - 1];
      Only(types, rs[..|rs| - 1]) + if r.result.ttype in types then [r.(file := None)] else []
  }

  function Bare(rs: seq<Report>): (os: seq<Report>) {
    seq(|rs|, i requires 0 <= i < |rs| => rs[i].(file := None))
  }

  const Failures := {FAIL, BROK, WARN}
  const NotPassed := {FAIL, BROK, WARN, RETR, INFO, CONF}

  /** What a log tells of the cases: with CONDENSE each of them, with its file; with DISCARD none; with NOPASS the
      failed and broken ones; with any other value, or none, those that do not pass, each on a line of its own. */
  ghost predicate Tells(toutput: Option<string>, log: seq<Line>, rs: seq<Report>) {
    && (toutput == Some("CONDENSE") ==> Reported(log) == rs)
    && (toutput == Some("DISCARD") ==> forall line | line in log :: line.first == 0)
    && (toutput == Some("NOPASS") ==> Bare(Reported(log)) == Only(Failures, rs))
    && (toutput !in {Some("CONDENSE"), Some("DISCARD"), Some("NOPASS")} ==>
          && Bare(Reported(log)) == Only(NotPassed, rs)
          && forall line | line in log && line.first > 0 :: line.last == line.first)
  }

  lemma {:induction false} ViewIs(mode: Mode, rs: seq<Report>)
    requires mode == NOPASS || mode == VERBOSE
    ensures View(mode, rs) == Only(if mode == NOPASS then Failures else NotPassed, rs)
  {
    if rs == [] {
    } else {
      ViewIs(mode, rs[..|rs| - 1]);
    }
  }

  lemma {:induction false} AllShown(mode: Mode, rs: seq<Report>)
    requires mode != CONDENSE && forall r | r in rs :: Shows(mode, r.result.ttype)
    ensures View(mode, rs) == Bare(rs)
  {
    if rs == [] {
    } else {
      var n := |rs| - 1;
      AllShown(mode, rs[..n]);
      assert rs[n] in rs && Bare(rs) == Bare(rs[..n]) + [rs[n].(file := None)];
    }
  }

  /** The cases read from a log are of the types its lines have. */
  lemma {:induction false} ReadShown(mode: Mode, log: seq<Line>)
    requires Proper(mode, log)
    ensures forall r | r in Reported(log) :: Shows(mode, r.result.ttype)
  {
    if log == [] {
    } else {
      ReadShown(mode, log[..|log| - 1]);
      assert log[|log| - 1] in log;
    }
  }

  lemma ToldIs(toutput: Option<string>, log: seq<Line>, rs: seq<Report>)
    requires var mode := ModeOf(toutput); Proper(mode, log) && View(mode, Reported(log)) == View(mode, rs)
    ensures Tells(toutput, log, rs)
  {
    hide Reported, View, Only, Bare;
    var mode := ModeOf(toutput);
    if mode == CONDENSE {
      CondenseShowsAll(Reported(log));
      CondenseShowsAll(rs);
    } else {
      ReadShown(mode, log);
      AllShown(mode, Reported(log));
      if mode != DISCARD { ViewIs(mode, rs); }
    }
  }

  lemma ToldNothing(toutput: Option<string>, log: seq<Line>)
    requires Reported(log) == [] && forall line | line in log :: line.first == 0
    ensures Tells(toutput, log, [])
  {
    hide Reported;
  }

  // ... and of the notes.

  lemma TextsAppend(a: seq<Line>, b: seq<Line>)
    ensures Texts(a + b) == Texts(a) + Texts(b)
  {}

  lemma HeardOne(toutput: Option<string>, r: Result)
    ensures Heard(toutput, [r])
         == if toutput == Some("DISCARD") || (toutput == Some("NOPASS") && r.ttype != WARN) then [] else [r]
  {
    assert [r][..0] == [];
  }

  lemma {:induction false} HeardAppends(toutput: Option<string>, a: seq<Result>, b: seq<Result>)
    ensures Heard(toutput, a + b) == Heard(toutput, a) + Heard(toutput, b)
    decreases |b|
  {
    if b == [] {
      assert a + b == a;
    } else {
      HeardAppends(toutput, a, b[..|b| - 1]);
      assert (a + b)[..|a + b| - 1] == a + b[..|b| - 1];
    }
  }

  lemma NoteHeard(toutput: Option<string>, tcid: string, t: TType, tmesg: string, f: Option<string>)
    requires IsNote(t)
    ensures Texts(NoteLines(ModeOf(toutput), tcid, t, tmesg, f)) == Heard(toutput, [Result(tcid, t, tmesg)])
  {
    hide Heard;
    HeardOne(toutput, Result(tcid, t, tmesg));
  }

  lemma NothingHeard(toutput: Option<string>, early: bool)
    ensures Heard(toutput, []) == [] == EarlyHeard(toutput, early, [])
  {}

  /** The notes of one call of tst_res. */
  lemma TestHeard(toutput: Option<string>, c: Call, f: Option<string>, s: Option<string>)
    ensures Texts(ResNotes(ModeOf(toutput), c.tcid, c.range, c.ttype, c.tmesg, f, s)) == Heard(toutput, TestNotes(c))
  {
    hide Heard, Texts, NoteLines, ModeOf;
    var mode := ModeOf(toutput);
    var (tcid, first) := (c.tcid, RangeWarning(c.tcid, c.range));
    NothingHeard(toutput, false);
    NoTexts();
    NoteHeard(toutput, tcid, WARN, RANGE_MUST_BE_POSITIVE, s);
    var rest := if c.ttype != WARN && c.ttype != INFO then []
                else (if c.range > 1 then [Result(tcid, WARN, RANGE_NOT_VALID)] else [])
                     + [Result(tcid, c.ttype, c.tmesg)];
    HeardAppends(toutput, first, rest);
    var early := if c.range <= 0 then NoteLines(mode, tcid, WARN, RANGE_MUST_BE_POSITIVE, s) else [];
    var late := if !IsNote(c.ttype) then []
                else if c.range > 1
                then NoteLines(mode, tcid, WARN, RANGE_NOT_VALID, f) + NoteLines(mode, tcid, c.ttype, c.tmesg, None)
                else NoteLines(mode, tcid, c.ttype, c.tmesg, f);
    TextsAppend(early, late);
    if IsNote(c.ttype) {
      NoteHeard(toutput, tcid, WARN, RANGE_NOT_VALID, f);
      NoteHeard(toutput, tcid, c.ttype, c.tmesg, if c.range > 1 then None else f);
      HeardAppends(toutput, [Result(tcid, WARN, RANGE_NOT_VALID)], [Result(tcid, c.ttype, c.tmesg)]);
      TextsAppend(NoteLines(mode, tcid, WARN, RANGE_NOT_VALID, f), NoteLines(mode, tcid, c.ttype, c.tmesg, None));
      assert [] + [Result(tcid, c.ttype, c.tmesg)] == [Result(tcid, c.ttype, c.tmesg)];
    }
    assert Texts(late) == Heard(toutput, rest);
  }

  lemma NoTexts()
    ensures Texts([]) == []
  {}

  /** What one call of tst_res adds. */
  lemma TestAdds(toutput: Option<string>, c: Call, rs: seq<Report>, notes: seq<Line>, own: Option<string>,
                 f: Option<string>, s: Option<string>)
    ensures var run := if IsNote(c.ttype) then []
                       else Run(|rs| + 1, CasesOf(c.range), Result(c.tcid, c.ttype, c.tmesg), own);
            ResultsOf(rs + run) == ResultsOf(rs) + TestCases(c)
    ensures Texts(notes + ResNotes(ModeOf(toutput), c.tcid, c.range, c.ttype, c.tmesg, f, s))
         == Texts(notes) + Heard(toutput, TestNotes(c))
  {
    hide Heard, TestNotes, ResNotes, ModeOf;
    TestHeard(toutput, c, f, s);
    TextsAppend(notes, ResNotes(ModeOf(toutput), c.tcid, c.range, c.ttype, c.tmesg, f, s));
  }

  /** A case brings no note but the warning about its range. */
  lemma NotesOfCase(c: Call)
    requires !IsNote(c.ttype)
    ensures TestNotes(c) == RangeWarning(c.tcid, c.range)
    ensures c.range > 0 ==> TestNotes(c) == []
  {}

  /** The warning of tst_brk about its type, in the mode in force. */
  lemma WarningHeard(toutput: Option<string>, early: bool, mode: Mode, tcid: string, f: Option<string>)
    requires mode == if early then VERBOSE else ModeOf(toutput)
    ensures Texts(NoteLines(mode, tcid, WARN, INVALID_TYPE, f))
         == EarlyHeard(toutput, early, [Result(tcid, WARN, INVALID_TYPE)])
  {
    hide Heard;
    NoteHeard(toutput, tcid, WARN, INVALID_TYPE, f);
  }

  lemma BreakWarningIs(tcid: string, t: TType)
    ensures BreakWarning(tcid, t) == if BrkType(t) == t then [] else [Result(tcid, WARN, INVALID_TYPE)]
  {}

  lemma BreakSays(total: int, count: nat, c: Call, between: seq<Report>, after: seq<Report>)
    requires between <= after && count <= |between|
    requires if count < total then
               && |between| == count + CasesOf(c.range)
               && forall i | count <= i < |between| ::
                    between[i].result == Result(c.tcid, BrkType(c.ttype), c.tmesg)
             else |between| == count == |after|
    requires forall i | |between| <= i < |after| :: after[i].result == Remaining(c.tcid, BrkType(c.ttype))
    ensures forall i | count <= i < |after| ::
              var (given, t) := (count + CasesOf(c.range), BrkType(c.ttype));
              && after[i].result == (if i < given then Result(c.tcid, t, c.tmesg) else Remaining(c.tcid, t))
              && after[i].result.ttype
                 == (if i < given then (if c.ttype in {FAIL, BROK, CONF, RETR} then c.ttype else BROK)
                     else if c.ttype in {CONF, RETR} then c.ttype else BROK)
              && after[i].result.mesg
                 == if i < given then c.tmesg
                    else if c.ttype == CONF then "Remaining cases not appropriate for configuration"
                    else if c.ttype == RETR then "Remaining cases retired"
                    else "Remaining cases broken"
  {
    assert forall i | 0 <= i < |between| :: after[i] == between[i];
  }

  lemma BreakCasesAre(total: int, count: nat, c: Call, before: seq<Report>, between: seq<Report>, after: seq<Report>)
    requires before <= between <= after && |before| == count
    requires if count < total then
               && |between| == count + CasesOf(c.range)
               && forall i | count <= i < |between| ::
                    between[i].result == Result(c.tcid, BrkType(c.ttype), c.tmesg)
             else between == before
    requires |after| == if |between| < total then total else |between|
    requires forall i | |between| <= i < |after| :: after[i].result == Remaining(c.tcid, BrkType(c.ttype))
    ensures ResultsOf(after) == ResultsOf(before) + BreakCases(total, count, c)
  {
    hide Remaining;
    var (a, b) := (ResultsOf(after), ResultsOf(before) + BreakCases(total, count, c));
    assert |a| == |b|;
    forall i | 0 <= i < |a| ensures a[i] == b[i] {
      assert i < |before| ==> after[i] == before[i];
      assert i < |between| ==> after[i] == between[i];
    }
  }

  /** With DISCARD nothing is printed at all, unless tst_brk has a type to warn of before the first call of tst_res. */
  lemma DiscardSilentIff(total: int, ops: seq<Op>)
    ensures RunHeard(Some("DISCARD"), total, ops, 0, true) != []
            <==> exists j :: WarnsEarly(total, ops, j)
  {
    DiscardHears(total, ops);
  }

  /** A first tst_brk with TPASS does. */
  lemma DiscardSpeaks(c: Call)
    requires c.ttype == PASS
    ensures RunHeard(Some("DISCARD"), 1, [Break(c)], 0, true) != []
  {
    assert WarnsEarly(1, [Break(c)], 0);
    DiscardSilentIff(1, [Break(c)]);
  }

  ghost predicate WarnsEarly(total: int, ops: seq<Op>, j: int) {
    && 0 <= j < |ops| && WarnsOfType(ops[j])
    && forall i | 0 <= i < j :: ops[i].Flushed? || (ops[i].Break? && total <= 0)
  }

  lemma OfSomeType(t: TType)
    ensures t in {FAIL, BROK, CONF, RETR} <==> t !in {PASS, WARN, INFO}
  {
    match t {
      case PASS => case FAIL => case BROK => case WARN => case RETR => case INFO => case CONF =>
    }
  }

  predicate WarnsOfType(op: Op) { op.Break? && op.call.ttype in {PASS, WARN, INFO} }

  lemma HeardInDiscard(total: int, op: Op, count: nat, early: bool)
    ensures OpHeard(Some("DISCARD"), total, op, count, early) != [] <==> early && WarnsOfType(op)
  {
    if op.Break? {
      var c := op.call;
      var first := EarlyHeard(Some("DISCARD"), early, BreakWarning(c.tcid, c.ttype));
      var rest := if count < total then Heard(Some("DISCARD"), RangeWarning(c.tcid, c.range)) else [];
      assert OpHeard(Some("DISCARD"), total, op, count, early) == first + rest && rest == [];
      OfSomeType(c.ttype);
      assert |first| == if early && WarnsOfType(op) then 1 else 0;
    }
  }

  lemma {:induction false} NoneHeard(total: int, ops: seq<Op>, count: nat)
    ensures RunHeard(Some("DISCARD"), total, ops, count, false) == []
    decreases |ops|
  {
    hide OpHeard, OpCases, Begins;
    if ops == [] {
    } else {
      HeardInDiscard(total, ops[0], count, false);
      NoneHeard(total, ops[1..], count + |OpCases(total, ops[0], count)|);
    }
  }

  lemma {:induction false} DiscardHears(total: int, ops: seq<Op>)
    ensures RunHeard(Some("DISCARD"), total, ops, 0, true) != [] <==> exists j :: WarnsEarly(total, ops, j)
    decreases |ops|
  {
    hide OpHeard, OpCases;
    if ops == [] {
    } else {
      HeardInDiscard(total, ops[0], 0, true);
      if WarnsOfType(ops[0]) {
        assert WarnsEarly(total, ops, 0);
      } else if Begins(total, ops[0], 0) {
        NoneHeard(total, ops[1..], |OpCases(total, ops[0], 0)|);
        NotEarly(total, ops);
      } else {
        NoCases(total, ops[0]);
        DiscardHears(total, ops[1..]);
        EarlyLater(total, ops);
      }
    }
  }

  lemma NotEarly(total: int, ops: seq<Op>)
    requires ops != [] && !WarnsOfType(ops[0]) && Begins(total, ops[0], 0)
    ensures !exists j :: WarnsEarly(total, ops, j)
  {
  }

  lemma EarlyLater(total: int, ops: seq<Op>)
    requires ops != [] && !WarnsOfType(ops[0]) && !Begins(total, ops[0], 0)
    ensures (exists j :: WarnsEarly(total, ops, j)) <==> (exists j :: WarnsEarly(total, ops[1..], j))
  {
    if j :| WarnsEarly(total, ops[1..], j) { assert WarnsEarly(total, ops, j + 1); }
    if j :| WarnsEarly(total, ops, j) {
      var i := j - 1;
      assert ops[1..][i] == ops[j];
      assert WarnsEarly(total, ops[1..], i);
    }
  }

  lemma NoCases(total: int, op: Op)
    requires !Begins(total, op, 0)
    ensures OpCases(total, op, 0) == [] && (op.Break? ==> total <= 0)
  {}

  /** A run of results alone. */
  function Tests(calls: seq<Call>): (ops: seq<Op>) { seq(|calls|, i requires 0 <= i < |calls| => Test(calls[i])) }

  const PassWithFile := Call("t", 1, PASS, Some("f"), true, "first")
  const FailWithout := Call("t", 1, FAIL, None, false, "second")
  const FailFirst := Call("t", 1, FAIL, None, false, "first")
  const InfoWithFile := Call("t", 1, INFO, Some("f"), true, "note")

  /** VERBOSE: the file of a case that passes, and so has no line, goes with the next case's line. */
  lemma StraysInVerbose()
    ensures StraysInRun(VERBOSE, 2, AtStart, Tests([PassWithFile, FailWithout]))
    ensures ResEntries(VERBOSE, [], 0, 1, Result("t", PASS, "first"), Some("f"), None) == []
    ensures FileLeft(VERBOSE, PASS, 1, Some("f")) == Some("f")
    ensures ResEntries(VERBOSE, [], 1, 1, Result("t", FAIL, "second"), None, Some("f"))
            == [Entry(Line(Result("t", FAIL, "second"), 2, 2, Some("f")), None)]
  {
    assert Tests([PassWithFile, FailWithout])[1..] == Tests([FailWithout]);
    assert EachEntries(1, 0, Result("t", FAIL, "second"), Some("f"), None) == [];
  }

  /** NOPASS: the file of information that is not printed goes with the line of the case before, which is flushed
      after it. */
  lemma StraysInNopass()
    ensures StraysInRun(NOPASS, 2, AtStart, Tests([FailFirst, InfoWithFile]))
    ensures KeptAfter(NOPASS, FAIL, None, None) == Some(FAIL)
    ensures ResEntries(NOPASS, [], 0, 1, Result("t", FAIL, "first"), None, None) == []
    ensures ResEntries(NOPASS, [Line(Result("t", FAIL, "first"), 1, 1, None)], 1, 1, Result("t", INFO, "note"),
            Some("f"), None) == []
    ensures FileLeft(NOPASS, INFO, 1, Some("f")) == Some("f")
  {
    assert Tests([FailFirst, InfoWithFile])[1..] == Tests([InfoWithFile]);
    assert Tests([InfoWithFile])[1..] == [];
  }

  const FailAgain := Call("t", 1, FAIL, None, false, "second")

  /** NOPASS: with another failure before the flush, the first line is printed without the file, the second with it. */
  lemma StraysPastBuffered()
    ensures StraysInRun(NOPASS, 2, AtStart, Tests([FailFirst, InfoWithFile, FailAgain]))
    ensures var (a, b) := (Result("t", FAIL, "first"), Result("t", FAIL, "second"));
            ResEntries(NOPASS, [Line(a, 1, 1, None)], 1, 1, b, None, Some("f"))
            == [Entry(Line(a, 1, 1, None), None), Entry(Line(b, 2, 2, Some("f")), None)]
  {
    var calls := [FailFirst, InfoWithFile, FailAgain];
    assert Leaves(NOPASS, calls, 1, 2) && Takes(NOPASS, calls[2]);
    StraysIff(NOPASS, 2, calls);
  }

  /** The first two of these runs, in the reporter. */
  method VerboseRun() returns (r: Reporter)
    ensures fresh(r) && r.out == [Line(Result("t", FAIL, "second"), 2, 2, Some("f"))]
  {
    hide Reporter.Valid, StraysInRun, Strays, Right, ResNotes, Notes, Reported, View, Condensed, ResEntries;
    hide LinesOf, CaseEntries;
    r := new Reporter(2, None, "t");
    StraysInVerbose();
    r.Res(PASS, Some("f"), true, "first");
    r.Submitted();
    assert r.printed == [] && r.File == Some("f") && r.PendingAt(r.Tst_count) == [] && r.Tst_count == 1;
    r.Res(FAIL, None, false, "second");
    r.Mirrors();
    assert r.printed == [r.printed[0]];
    LinesOfOne(r.printed[0]);
  }

  method NopassRun() returns (r: Reporter)
    ensures fresh(r) && r.out == [Line(Result("t", FAIL, "first"), 1, 1, Some("f"))]
  {
    hide Reporter.Valid, StraysInRun, Strays, Right, ResNotes, Notes, Reported, View, Condensed, ResEntries;
    hide LinesOf, CaseEntries;
    r := new Reporter(2, Some("NOPASS"), "t");
    StraysInNopass();
    r.Res(FAIL, None, false, "first");
    r.Submitted();
    assert r.printed == [] && r.File == None && r.Tst_count == 1;
    assert r.PendingAt(r.Tst_count) == [Line(Result("t", FAIL, "first"), 1, 1, None)];
    r.Res(INFO, Some("f"), true, "note");
    r.Submitted();
    assert r.printed == [] && r.File == Some("f") && r.Tst_count == 1;
    assert r.PendingAt(r.Tst_count) == [Line(Result("t", FAIL, "first"), 1, 1, None)];
    r.Flush();
    r.Mirrors();
    assert r.printed == [r.printed[0]];
    LinesOfOne(r.printed[0]);
  }

  lemma LinesOfOne(e: Entry)
    ensures LinesOf([e]) == [e.line]
  {
  }

  /** In CONDENSE only the warning about a range takes a file. */
  lemma {:induction false} StraysInCondense(total: int, kept: Option<TType>, count: nat, calls: seq<Call>)
    ensures StraysInRun(CONDENSE, total, Tally(None, kept, count), Tests(calls))
            <==> exists i :: && 0 <= i < |calls| && IsNote(calls[i].ttype) && calls[i].range > 1
                             && Own(calls[i].fname, calls[i].accessible) != None
    decreases |calls|
  {
    if calls == [] {
    } else {
      var c := calls[0];
      var own := Own(c.fname, c.accessible);
      var t := ResTally(CONDENSE, c, Tally(None, kept, count));
      assert t.file == None;
      assert Tests(calls)[1..] == Tests(calls[1..]);
      StraysInCondense(total, t.kept, t.count, calls[1..]);
      assert StraysAt(CONDENSE, c, Tally(None, kept, count)) <==> IsNote(c.ttype) && c.range > 1 && own != None;
      assert forall i | 0 < i < |calls| :: calls[i] == calls[1..][i - 1];
    }
  }

  // The same without following the tally, for results alone.

  function OwnOf(c: Call): Option<string> { Own(c.fname, c.accessible) }

  /** The result has no line when it is reported, so its file stays set. */
  predicate Hidden(mode: Mode, c: Call) {
    if IsNote(c.ttype) then c.range <= 1 && !Prints(mode, c.ttype) else !Shows(mode, c.ttype)
  }

  /** The result prints a line at once, and brings no file to go with it. */
  predicate Takes(mode: Mode, c: Call) { c.range <= 0 || (OwnOf(c) == None && !Hidden(mode, c)) }

  /** The file of call i is set when call j is made. */
  predicate Leaves(mode: Mode, calls: seq<Call>, i: nat, j: nat)
    requires i < j <= |calls|
  {
    && Hidden(mode, calls[i]) && OwnOf(calls[i]) != None
    && forall k | i < k < j :: Hidden(mode, calls[k]) && OwnOf(calls[k]) == None && calls[k].range > 0
  }

  /** The case of call k is the last one, and its line waits for the flush. */
  predicate Waits(mode: Mode, calls: seq<Call>, k: nat)
    requires k < |calls|
  {
    && !IsNote(calls[k].ttype) && Prints(mode, calls[k].ttype) && OwnOf(calls[k]) == None
    && forall l | k < l < |calls| :: IsNote(calls[l].ttype)
  }

  predicate WarnsWithFile(c: Call) { IsNote(c.ttype) && c.range > 1 && OwnOf(c) != None }

  /** A file goes with the warning about the range of its note, with the line of a later result, or with the last
      case's line, if that is flushed after it. */
  ghost predicate Astray(mode: Mode, calls: seq<Call>) {
    || (exists j :: 0 <= j < |calls| && WarnsWithFile(calls[j]))
    || (exists i, j :: 0 <= i < j < |calls| && Leaves(mode, calls, i, j) && Takes(mode, calls[j]))
    || (exists k, i :: 0 <= k < i < |calls| && Waits(mode, calls, k) && Leaves(mode, calls, i, |calls|))
  }

  function TallyAt(mode: Mode, calls: seq<Call>, j: nat): Tally
    requires j <= |calls|
  {
    if j == 0 then AtStart else ResTally(mode, calls[j - 1], TallyAt(mode, calls, j - 1))
  }

  ghost predicate StraysFrom(mode: Mode, calls: seq<Call>, j: nat) {
    || (exists l :: j <= l < |calls| && StraysAt(mode, calls[l], TallyAt(mode, calls, l)))
    || StraysInFlush(mode, TallyAt(mode, calls, |calls|))
  }

  lemma {:induction false} RunIs(mode: Mode, total: int, calls: seq<Call>, j: nat)
    requires j <= |calls|
    ensures StraysInRun(mode, total, TallyAt(mode, calls, j), Tests(calls)[j..]) <==> StraysFrom(mode, calls, j)
    decreases |calls| - j
  {
    hide StraysAt, ResTally, StraysInFlush;
    if j == |calls| {
    } else {
      RunIs(mode, total, calls, j + 1);
      var ops := Tests(calls)[j..];
      assert ops[0] == Test(calls[j]) && ops[1..] == Tests(calls)[j + 1..];
      assert TallyAt(mode, calls, j + 1) == ResTally(mode, calls[j], TallyAt(mode, calls, j));
    }
  }

  /** When a file is set. */
  lemma {:induction false} FileAt(mode: Mode, calls: seq<Call>, j: nat)
    requires j <= |calls| && mode != DISCARD
    ensures TallyAt(mode, calls, j).file != None <==> exists i :: 0 <= i < j && Leaves(mode, calls, i, j)
    decreases j
  {
    if j == 0 {
    } else {
      var p := j - 1;
      var c := calls[p];
      FileAt(mode, calls, p);
      FileAfter(mode, c, TallyAt(mode, calls, p));
      if Hidden(mode, c) && OwnOf(c) != None { assert Leaves(mode, calls, p, j); }
      if i :| 0 <= i < p && Leaves(mode, calls, i, p) {
        if Hidden(mode, c) && OwnOf(c) == None && c.range > 0 { assert Leaves(mode, calls, i, j); }
      }
      if i :| 0 <= i < p && Leaves(mode, calls, i, j) { assert Leaves(mode, calls, i, p); }
    }
  }

  lemma FileAfter(mode: Mode, c: Call, t: Tally)
    requires mode != DISCARD
    ensures ResTally(mode, c, t).file != None
            <==> Hidden(mode, c) && (OwnOf(c) != None || (c.range > 0 && t.file != None))
  {}

  lemma StraysWhen(mode: Mode, c: Call, t: Tally)
    requires mode != DISCARD
    ensures StraysAt(mode, c, t) <==> WarnsWithFile(c) || (t.file != None && Takes(mode, c))
  {}

  /** Which case's line is buffered. */
  lemma {:induction false} KeptAt(mode: Mode, calls: seq<Call>, j: nat) returns (k: nat)
    requires j <= |calls| && mode != DISCARD
    ensures var t := TallyAt(mode, calls, j);
            t.kept.Some? ==>
              && (mode == CONDENSE || mode == NOPASS) && k < j && !IsNote(calls[k].ttype)
              && t.kept.value == calls[k].ttype && OwnOf(calls[k]) == None
              && (calls[k].range <= 0 || TallyAt(mode, calls, k).file == None)
              && forall l | k < l < j :: IsNote(calls[l].ttype)
    decreases j
  {
    hide FileLeft, Prints, Own;
    k := 0;
    if j == 0 {
    } else if IsNote(calls[j - 1].ttype) {
      k := KeptAt(mode, calls, j - 1);
    } else {
      k := j - 1;
    }
  }

  /** ... and conversely. */
  lemma {:induction false} Kept(mode: Mode, calls: seq<Call>, k: nat, j: nat)
    requires k < j <= |calls| && (mode == CONDENSE || mode == NOPASS)
    requires !IsNote(calls[k].ttype) && OwnOf(calls[k]) == None && TallyAt(mode, calls, k).file == None
    requires forall l | k < l < j :: IsNote(calls[l].ttype)
    ensures TallyAt(mode, calls, j).kept == Some(calls[k].ttype)
    decreases j
  {
    hide FileLeft, Own;
    if j == k + 1 {
    } else {
      Kept(mode, calls, k, j - 1);
    }
  }

  /** For results alone and one flush, in every mode: when some line is printed with a file not its own. */
  lemma StraysIff(mode: Mode, total: int, calls: seq<Call>)
    ensures StraysInRun(mode, total, AtStart, Tests(calls)) <==> mode != DISCARD && Astray(mode, calls)
  {
    hide StraysInRun, StraysAt, ResTally, Takes, Tests, Hidden, Own, Prints, Leaves, WarnsWithFile;
    RunIs(mode, total, calls, 0);
    assert Tests(calls)[0..] == Tests(calls);
    if mode == DISCARD {
      NothingInDiscard(calls);
    } else {
      forall l | 0 <= l < |calls|
        ensures StraysAt(mode, calls[l], TallyAt(mode, calls, l))
                <==> WarnsWithFile(calls[l])
                     || (Takes(mode, calls[l]) && exists i :: 0 <= i < l && Leaves(mode, calls, i, l))
      {
        StraysWhen(mode, calls[l], TallyAt(mode, calls, l));
        FileAt(mode, calls, l);
      }
      FlushIff(mode, calls);
    }
  }

  lemma NothingInDiscard(calls: seq<Call>)
    ensures !StraysFrom(DISCARD, calls, 0)
  {
    NoneKept(calls, |calls|);
  }

  lemma {:induction false} NoneKept(calls: seq<Call>, j: nat)
    requires j <= |calls|
    ensures TallyAt(DISCARD, calls, j).kept == None
  {
    if j == 0 {
    } else {
      NoneKept(calls, j - 1);
    }
  }

  /** The last flush prints a file that is not the line's iff a later result has left it, or one before it had. */
  lemma FlushIff(mode: Mode, calls: seq<Call>)
    requires mode != DISCARD
    ensures StraysInFlush(mode, TallyAt(mode, calls, |calls|)) ==> Astray(mode, calls)
    ensures (exists k, i :: 0 <= k < i < |calls| && Waits(mode, calls, k) && Leaves(mode, calls, i, |calls|)) ==>
              StraysFrom(mode, calls, 0)
  {
    var n := |calls|;
    FileAt(mode, calls, n);
    if StraysInFlush(mode, TallyAt(mode, calls, n)) {
      var k := KeptAt(mode, calls, n);
      var i :| 0 <= i < n && Leaves(mode, calls, i, n);
      assert !Hidden(mode, calls[k]);
      assert i > k;
      assert Waits(mode, calls, k);
    }
    if k, i :| 0 <= k < i < n && Waits(mode, calls, k) && Leaves(mode, calls, i, n) {
      assert IsNote(calls[i].ttype) && Hidden(mode, calls[i]);
      if TallyAt(mode, calls, k).file == None {
        Kept(mode, calls, k, n);
      } else {
        StraysWhen(mode, calls[k], TallyAt(mode, calls, k));
        assert StraysAt(mode, calls[k], TallyAt(mode, calls, k));
      }
    }
  }

  /** What is left of the exit value without TRETR, TINFO and TCONF; TPASS is no bit of it. */
  function Fails(exitval: set<TType>): (failed: bool)
    ensures failed <==> FAIL in exitval || BROK in exitval || WARN in exitval
  {
    var left := exitval - {PASS, RETR, INFO, CONF};
    assert forall t :: t in left ==> t == FAIL || t == BROK || t == WARN;
    assert FAIL in exitval ==> FAIL in left;
    assert BROK in exitval ==> BROK in left;
    assert WARN in exitval ==> WARN in left;
    left != {}
  }

  function BrkType(t: TType): TType {
    if t == FAIL || t == CONF || t == RETR then t else BROK
  }

  function RestType(t: TType): TType { if t == CONF || t == RETR then t else BROK }

  lemma BrkNote(printed: seq<Entry>, printing: Mode, mode: Mode, line: Line)
    requires line.result.ttype == WARN && (printing != mode ==> line.file == None)
    ensures Right(printed + PrintEntries(printing, line, None))
            <==> Right(printed) && !(line.file != None && mode != DISCARD)
  {
    hide Right;
    PrintRight(printing, line, None);
    RightAppends(printed, PrintEntries(printing, line, None));
  }

  /** What tst_brk says of the cases after the broken one. */
  function Remaining(tcid: string, t: TType): Result {
    if t == CONF then Result(tcid, CONF, "Remaining cases not appropriate for configuration")
    else if t == RETR then Result(tcid, RETR, "Remaining cases retired")
    else Result(tcid, BROK, "Remaining cases broken")
  }

  lemma NothingNumbered(log: seq<Line>, flushes: set<nat>)
    requires LastNumbered(log) == None
    ensures Reported(log) == [] && Condensed(log, flushes) && forall line | line in log :: line.first == 0
  {
    if log == [] {
    } else {
      NothingNumbered(log[..|log| - 1], flushes);
      assert log == log[..|log| - 1] + [log[|log| - 1]];
    }
  }

  /** A buffered result that covers n more cases. */
  lemma Extend(mode: Mode, log: seq<Line>, p: Line, n: nat, flushes: set<nat>)
    requires 1 <= p.first <= p.last && p.file == None
    ensures var q := p.(last := p.last + n);
            && View(mode, Reported(log + [q]))
               == View(mode, Reported(log + [p])) + View(mode, Run(p.last + 1, n, p.result, None))
            && (Condensed(log + [p], flushes) ==> Condensed(log + [q], flushes))
  {
    hide Reported, View, Condensed, LastNumbered, Notes;
    var q := p.(last := p.last + n);
    LineAdds(mode, log, p);
    LineAdds(mode, log, q);
    RunJoins(p.first, p.last + 1 - p.first, n, p.result, None);
    ViewAppends(mode, Cases(p), Run(p.last + 1, n, p.result, None));
    AfterLast(log, p, flushes);
    AfterLast(log, q, flushes);
  }

  /** The notes of one call of tst_res. */
  function ResNotes(mode: Mode, tcid: string, range: int, t: TType, tmesg: string, f: Option<string>,
                    s: Option<string>): seq<Line> {
    (if range <= 0 then NoteLines(mode, tcid, WARN, RANGE_MUST_BE_POSITIVE, s) else [])
    + if !IsNote(t) then []
      else if range > 1 then NoteLines(mode, tcid, WARN, RANGE_NOT_VALID, f) + NoteLines(mode, tcid, t, tmesg, None)
      else NoteLines(mode, tcid, t, tmesg, f)
  }

  lemma NotesJoin(notes: seq<Line>, mode: Mode, tcid: string, range: int, t: TType, tmesg: string, f: Option<string>,
                  s: Option<string>)
    ensures notes + (if range <= 0 then NoteLines(mode, tcid, WARN, RANGE_MUST_BE_POSITIVE, s) else [])
            + (if !IsNote(t) then []
               else if range > 1 then NoteLines(mode, tcid, WARN, RANGE_NOT_VALID, f)
                 + NoteLines(mode, tcid, t, tmesg, None)
               else NoteLines(mode, tcid, t, tmesg, f))
            == notes + ResNotes(mode, tcid, range, t, tmesg, f, s)
  {
    hide NoteLines;
  }

  function NoteLines(mode: Mode, tcid: string, ttype: TType, tmesg: string, file: Option<string>): seq<Line> {
    if Prints(mode, ttype) then [Line(Result(tcid, ttype, tmesg), 0, 0, file)] else []
  }

  lemma AfterLast(log: seq<Line>, line: Line, flushes: set<nat>)
    requires line.first > 0
    ensures LastNumbered(log + [line]) == Some(line)
    ensures Condensed(log + [line], flushes)
            <==> Condensed(log, flushes) && (Splits(LastNumbered(log), line) ==> line.first - 1 in flushes)
  {
    hide Condensed;
    CondensedStep(log, line, flushes);
  }

  /** A note behind the log. */
  lemma NoteAdds(log: seq<Line>, note: Line, flushes: set<nat>)
    requires note.first == 0
    ensures Reported(log + [note]) == Reported(log) && LastNumbered(log + [note]) == LastNumbered(log)
    ensures Condensed(log + [note], flushes) <==> Condensed(log, flushes)
    ensures Notes(log + [note]) == Notes(log) + [note]
  {
    ReportedAppends(log, note);
    assert (log + [note])[..|log|] == log;
  }

  /** What one more line asks of the log. */
  lemma CondensedStep(log: seq<Line>, p: Line, flushes: set<nat>)
    ensures Condensed(log + [p], flushes)
            <==> Condensed(log, flushes) && (p.first > 0 && Splits(LastNumbered(log), p) ==> p.first - 1 in flushes)
  {
    assert (log + [p])[..|log|] == log;
  }

  lemma NoteChangesNothing(log: seq<Line>, note: Line, pending: seq<Line>, flushes: set<nat>)
    requires note.first == 0 && |pending| <= 1
    ensures Reported(log + [note] + pending) == Reported(log + pending)
    ensures Condensed(log + pending, flushes) ==> Condensed(log + [note] + pending, flushes)
    ensures LastNumbered(log + [note]) == LastNumbered(log)
    ensures Notes(log + [note]) == Notes(log) + [note]
  {
    hide Reported, Condensed, LastNumbered, Notes;
    NoteAdds(log, note, flushes);
    if pending == [] {
      assert log + pending == log && log + [note] + pending == log + [note];
    } else {
      var p := pending[0];
      assert pending == [p];
      ReportedAppends(log, p);
      ReportedAppends(log + [note], p);
      CondensedStep(log, p, flushes);
      CondensedStep(log + [note], p, flushes);
    }
  }
}
