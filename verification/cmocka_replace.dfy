/** c_strreplace of cmocka: repeated replacement of the first occurrence, in place. */
module CmockaReplace {
  import opened CStrings

  // ---------------------------------------------------------------- occurrences

  ghost predicate OccursAt(text: string, pattern: string, i: int) {
    0 <= i && i + |pattern| <= |text| && text[i..i + |pattern|] == pattern
  }

  ghost predicate Occurs(text: string, pattern: string) { exists i :: OccursAt(text, pattern, i) }

  /** strstr, as an index: the first occurrence, or -1. */
  function Strstr(text: string, pattern: string): (of: int)
    ensures of == -1 || OccursAt(text, pattern, of)
    ensures of == -1 <==> !Occurs(text, pattern)
    ensures forall i | OccursAt(text, pattern, i) :: of <= i
  {
    StrstrFrom(text, pattern, 0)
  }

  function StrstrFrom(text: string, pattern: string, from: nat): (of: int)
    requires from <= |text| + 1
    ensures of == -1 || (from <= of && OccursAt(text, pattern, of))
    ensures of == -1 ==> forall i | OccursAt(text, pattern, i) :: i < from
    ensures of != -1 ==> forall i | OccursAt(text, pattern, i) :: i < from || of <= i
    decreases |text| + 1 - from
  {
    if from + |pattern| > |text| then -1
    else if text[from..from + |pattern|] == pattern then from
    else StrstrFrom(text, pattern, from + 1)
  }

  function Max(a: nat, b: nat): nat { if a > b then a else b }

  /** One round of the loop: the first occurrence replaced. */
  function Step(text: string, pattern: string, repl: string): (t: string)
    requires Strstr(text, pattern) >= 0
    ensures |t| == |text| - |pattern| + |repl|
    ensures NUL !in text && NUL !in repl ==> NUL !in t
  {
    var of := Strstr(text, pattern);
    text[..of] + repl + text[of + |pattern|..]
  }

  /** A pattern that does not occur before is replaced where it stands, and nothing else changes. */
  lemma StepReplaces(a: string, b: string, pattern: string, repl: string)
    requires forall i | OccursAt(a + pattern + b, pattern, i) :: |a| <= i
    ensures Strstr(a + pattern + b, pattern) == |a| && Step(a + pattern + b, pattern, repl) == a + repl + b
  {
    hide Strstr;
    var t := a + pattern + b;
    assert t[|a|..|a| + |pattern|] == pattern;
    assert OccursAt(t, pattern, |a|) && Strstr(t, pattern) == |a|;
    assert t[..|a|] == a && t[|a| + |pattern|..] == b;
  }

  /** The overflow check: the text leaves more room than either string needs with its NUL. */
  predicate Roomy(text: string, cap: nat, pattern: string, repl: string) {
    |text| + |pattern| + 1 < cap && |text| + |repl| + 1 < cap
  }

  /** The loop ends: nothing is left to replace, or the overflow check fails. */
  ghost predicate Stops(text: string, cap: nat, pattern: string, repl: string) {
    !Occurs(text, pattern) || !Roomy(text, cap, pattern, repl)
  }

  // ---------------------------------------------------------------- termination

  const CHARS := 0x11_0000

  /** A string as a number, its first character the most significant digit. */
  ghost function Rank(t: string): nat {
    if t == [] then 0 else Rank(t[..|t| - 1]) * CHARS + t[|t| - 1] as nat
  }

  ghost function TopRank(n: nat): nat { if n == 0 then 0 else TopRank(n - 1) * CHARS + CHARS }

  lemma {:induction false} RankBelowTop(t: string)
    ensures Rank(t) <= TopRank(|t|)
  {
    if t == [] {
    } else {
      RankBelowTop(t[..|t| - 1]);
    }
  }

  /** The first difference decides. */
  lemma {:induction false} RankDecides(t: string, u: string, i: nat)
    requires |t| == |u| && i < |t| && t[..i] == u[..i] && t[i] < u[i]
    ensures Rank(t) < Rank(u)
    decreases |t|
  {
    var n := |t| - 1;
    if i == n {
      assert t[..n] == u[..n];
    } else {
      assert t[..n][..i] == t[..i] && u[..n][..i] == u[..i];
      RankDecides(t[..n], u[..n], i);
    }
  }

  /** Where two different strings of equal length first differ. */
  function FirstDifference(a: string, b: string): (i: nat)
    requires |a| == |b| && a != b
    ensures i < |a| && a[i] != b[i] && a[..i] == b[..i]
  {
    if a[0] != b[0] then 0
    else
      var i := FirstDifference(a[1..], b[1..]);
      assert a[..i + 1] == [a[0]] + a[1..][..i] && b[..i + 1] == [b[0]] + b[1..][..i];
      1 + i
  }

  /** What every round makes smaller: the text if it shrinks, the room left if it grows, and
      otherwise the text's rank, from above or from below. */
  ghost function Measure(text: string, cap: nat, pattern: string, repl: string): nat
    requires pattern != repl
  {
    if |repl| < |pattern| then |text|
    else if |repl| > |pattern| then (if |text| < cap then cap - |text| else 0)
    else if (var i := FirstDifference(pattern, repl); repl[i] < pattern[i]) then Rank(text)
    else RankBelowTop(text); TopRank(|text|) - Rank(text)
  }

  lemma StepDecreases(text: string, cap: nat, pattern: string, repl: string)
    requires pattern != repl && !Stops(text, cap, pattern, repl)
    ensures Measure(Step(text, pattern, repl), cap, pattern, repl) < Measure(text, cap, pattern, repl)
  {
    hide Step, Rank, TopRank;
    if |pattern| == |repl| {
      var t := Step(text, pattern, repl);
      var i := FirstDifference(pattern, repl);
      var p := FirstChange(text, pattern, repl, i);
      RankBelowTop(text);
      RankBelowTop(t);
      if repl[i] < pattern[i] { RankDecides(t, text, p); } else { RankDecides(text, t, p); }
    }
  }

  /** Where a round first changes the text. */
  lemma FirstChange(text: string, pattern: string, repl: string, i: nat) returns (p: nat)
    requires |pattern| == |repl| && i < |pattern| && pattern[..i] == repl[..i] && Strstr(text, pattern) >= 0
    ensures var t := Step(text, pattern, repl);
            |t| == |text| && p < |text| && t[..p] == text[..p] && text[p] == pattern[i] && t[p] == repl[i]
  {
    hide Strstr;
    var of := Strstr(text, pattern);
    p := of + i;
    var found := text[of..of + |pattern|];
    assert found == pattern;
    assert text == text[..of] + found + text[of + |pattern|..];
    assert text[..p] == text[..of] + found[..i];
    assert Step(text, pattern, repl)[..p] == text[..of] + repl[..i];
    assert found[i] == text[p];
  }

  /** The text n rounds later. */
  ghost function Rounds(text: string, cap: nat, pattern: string, repl: string, n: nat): string
    decreases n
  {
    if n == 0 || Stops(text, cap, pattern, repl) then text
    else Rounds(Step(text, pattern, repl), cap, pattern, repl, n - 1)
  }

  ghost predicate StopsAfter(text: string, cap: nat, pattern: string, repl: string, n: nat) {
    Stops(Rounds(text, cap, pattern, repl, n), cap, pattern, repl)
  }

  /** The loop ends for all arguments but one kind: a pattern that is replaced by itself, occurs, and
      passes the overflow check. */
  lemma EndsIff(text: string, cap: nat, pattern: string, repl: string)
    ensures (exists n: nat :: StopsAfter(text, cap, pattern, repl, n))
            <==> pattern != repl || Stops(text, cap, pattern, repl)
  {
    if pattern != repl {
      var n := Ends(text, cap, pattern, repl);
      assert StopsAfter(text, cap, pattern, repl, n);
    } else if Stops(text, cap, pattern, repl) {
      assert StopsAfter(text, cap, pattern, repl, 0);
    } else {
      forall n: nat ensures Rounds(text, cap, pattern, repl, n) == text { Stuck(text, cap, pattern, n); }
    }
  }

  /** "a" replaced by "a" in a roomy buffer never ends. */
  lemma NeverEnds(n: nat)
    ensures !StopsAfter("a", 100, "a", "a", n)
  {
    assert OccursAt("a", "a", 0);
    EndsIff("a", 100, "a", "a");
  }

  lemma Ends(text: string, cap: nat, pattern: string, repl: string) returns (n: nat)
    requires pattern != repl
    ensures Stops(Rounds(text, cap, pattern, repl, n), cap, pattern, repl)
    decreases Measure(text, cap, pattern, repl)
  {
    if Stops(text, cap, pattern, repl) {
      n := 0;
    } else {
      StepDecreases(text, cap, pattern, repl);
      n := Ends(Step(text, pattern, repl), cap, pattern, repl);
      n := n + 1;
    }
  }

  lemma {:induction false} Stuck(text: string, cap: nat, pattern: string, n: nat)
    requires !Stops(text, cap, pattern, pattern)
    ensures Rounds(text, cap, pattern, pattern, n) == text
  {
    if n == 0 {
    } else {
      var of := Strstr(text, pattern);
      assert Step(text, pattern, pattern) == text;
      Stuck(text, cap, pattern, n - 1);
    }
  }

  // ---------------------------------------------------------------- the function

  /** What the loop leaves, and whether it has run out of room. */
  ghost function Outcome(text: string, cap: nat, pattern: string, repl: string): (r: (string, int))
    requires pattern != repl || Stops(text, cap, pattern, repl)
    ensures Stops(r.0, cap, pattern, repl)
    ensures r.1 == 0 <==> !Occurs(r.0, pattern)
    decreases if pattern != repl then Measure(text, cap, pattern, repl) else 0
  {
    if !Occurs(text, pattern) then (text, 0)
    else if Stops(text, cap, pattern, repl) then (text, -1)
    else
      StepDecreases(text, cap, pattern, repl);
      Outcome(Step(text, pattern, repl), cap, pattern, repl)
  }

  /** The text left is the one of the round that stops. */
  lemma {:induction false} OutcomeIsRounds(text: string, cap: nat, pattern: string, repl: string, n: nat)
    requires pattern != repl && StopsAfter(text, cap, pattern, repl, n)
    ensures Outcome(text, cap, pattern, repl).0 == Rounds(text, cap, pattern, repl, n)
    decreases n
  {
    hide Step, Occurs, Strstr, Measure;
    if n == 0 || Stops(text, cap, pattern, repl) {
    } else {
      assert StopsAfter(Step(text, pattern, repl), cap, pattern, repl, n - 1);
      OutcomeIsRounds(Step(text, pattern, repl), cap, pattern, repl, n - 1);
    }
  }

  /** The loop's test and its overflow check decide Outcome. */
  lemma OneRound(text: string, cap: nat, pattern: string, repl: string)
    requires pattern != repl || Stops(text, cap, pattern, repl)
    ensures !Occurs(text, pattern) ==> Outcome(text, cap, pattern, repl) == (text, 0) && Stops(text, cap, pattern, repl)
    ensures Occurs(text, pattern) && !Roomy(text, cap, pattern, repl)
            ==> Outcome(text, cap, pattern, repl) == (text, -1) && Stops(text, cap, pattern, repl)
    ensures Occurs(text, pattern) && Roomy(text, cap, pattern, repl)
            ==> pattern != repl && !Stops(text, cap, pattern, repl)
                && Outcome(text, cap, pattern, repl) == Outcome(Step(text, pattern, repl), cap, pattern, repl)
  {
  }

  /** `text` with its NUL is in the buffer. */
  ghost predicate Holds(src: array<char>, src_len: nat, text: string)
    reads src
  {
    NUL !in text && |text| < src_len <= src.Length && text + [NUL] <= src[..]
  }

  function Shifted(a: string, to: nat, from: nat, n: nat): string
    requires to + n <= |a| && from + n <= |a|
  {
    a[..to] + a[from..from + n] + a[to + n..]
  }

  function Overwritten(a: string, to: nat, s: string): string
    requires to + |s| <= |a|
  {
    a[..to] + s + a[to + |s|..]
  }

  /** memmove within the buffer. */
  method Memmove(a: array<char>, to: nat, from: nat, n: nat)
    requires to + n <= a.Length && from + n <= a.Length
    modifies a
    ensures a[..] == Shifted(old(a[..]), to, from, n)
  {
    forall i | 0 <= i < n { a[to + i] := a[from + i]; }
  }

  method Memcpy(a: array<char>, to: nat, s: string)
    requires to + |s| <= a.Length
    modifies a
    ensures a[..] == Overwritten(old(a[..]), to, s)
  {
    forall i | 0 <= i < |s| { a[to + i] := s[i]; }
  }

  /** c_strreplace.  Its precondition is that it ends (see EndsIff). */
  method CStrReplace(src: array<char>, src_len: nat, pattern: string, repl: string, ghost text: string)
    returns (ret: int, str_replaced: bool)
    requires Holds(src, src_len, text) && NUL !in pattern && NUL !in repl
    requires pattern != repl || Stops(text, src_len, pattern, repl)
    modifies src
    ensures Holds(src, src_len, Outcome(text, src_len, pattern, repl).0)
    ensures ret == if !Occurs(text, pattern) then -1 else Outcome(text, src_len, pattern, repl).1
    ensures str_replaced <==> !Stops(text, src_len, pattern, repl)
    ensures src[..][src_len..] == old(src[..])[src_len..]
  {
    hide Strstr, Stops, Outcome, Measure, Step, Occurs;
    ret, str_replaced := 0, false;
    ghost var t := text;
    CStringReads(t, src[..]);
    var p := Strstr(CString(src[..]), pattern);
    OneRound(t, src_len, pattern, repl);
    if p == -1 { return -1, false; }
    while p != -1
      invariant Holds(src, src_len, t) && p == Strstr(t, pattern)
      invariant pattern != repl || Stops(t, src_len, pattern, repl)
      invariant Outcome(t, src_len, pattern, repl) == Outcome(text, src_len, pattern, repl)
      invariant if str_replaced then !Stops(text, src_len, pattern, repl) else p != -1 && t == text
      invariant src[..][src_len..] == old(src[..])[src_len..]
      decreases if pattern != repl then Measure(t, src_len, pattern, repl) else 0
    {
      OneRound(t, src_len, pattern, repl);
      var of := p;
      CStringReads(t, src[..]);
      var l := |CString(src[..])|;
      if src_len <= l + Max(|pattern|, |repl|) + 1 { return -1, str_replaced; }
      StepDecreases(t, src_len, pattern, repl);
      Round(src, src_len, pattern, repl, of, l, t);
      t, str_replaced := Step(t, pattern, repl), true;
      CStringReads(t, src[..]);
      p := Strstr(CString(src[..]), pattern);
    }
    OneRound(t, src_len, pattern, repl);
  }

  /** memmove of the tail with its NUL, then memcpy of the replacement, make the next text. */
  method Round(src: array<char>, src_len: nat, pattern: string, repl: string, of: nat, l: nat, ghost t: string)
    requires Holds(src, src_len, t) && NUL !in repl && Roomy(t, src_len, pattern, repl)
    requires of == Strstr(t, pattern) && l == |t|
    modifies src
    ensures Holds(src, src_len, Step(t, pattern, repl))
    ensures src[..][src_len..] == old(src[..])[src_len..]
  {
    hide Strstr, Occurs, Step, Shifted, Overwritten;
    var n := l - of - |pattern| + 1;
    if |repl| != |pattern| {
      Memmove(src, of + |repl|, of + |pattern|, n);
    }
    ghost var moved := src[..];
    Memcpy(src, of, repl);
    Splice(old(src[..]), moved, src[..], t, src_len, of, pattern, repl, n);
  }

  lemma Splice(was: string, moved: string, now: string, t: string, src_len: nat, of: nat, pattern: string, repl: string,
               n: nat)
    requires src_len <= |was| && Roomy(t, src_len, pattern, repl) && NUL !in t && NUL !in repl
    requires t + [NUL] <= was && of == Strstr(t, pattern) && n == |t| - of - |pattern| + 1
    requires moved == if |repl| == |pattern| then was else Shifted(was, of + |repl|, of + |pattern|, n)
    requires now == Overwritten(moved, of, repl)
    ensures var u := Step(t, pattern, repl);
            |now| == |was| && NUL !in u && |u| < src_len && u + [NUL] <= now && now[src_len..] == was[src_len..]
  {
    hide Strstr, Shifted, Overwritten, Step, OccursAt, Occurs;
    var u := Step(t, pattern, repl);
    var rest := was[of + |repl| + n..];
    Spliced(was, moved, now, t, of, pattern, repl, n);
    Terminated(u, rest, src_len, now);
    SuffixOfSuffix(was, of + |repl| + n, src_len);
  }

  /** The buffer after the round: the next text, its NUL, and what was behind. */
  lemma Spliced(was: string, moved: string, now: string, t: string, of: nat, pattern: string, repl: string, n: nat)
    requires t + [NUL] <= was && of == Strstr(t, pattern) >= 0 && n == |t| - of - |pattern| + 1
    requires of + |repl| + n <= |was|
    requires moved == if |repl| == |pattern| then was else Shifted(was, of + |repl|, of + |pattern|, n)
    requires now == Overwritten(moved, of, repl)
    ensures now == Step(t, pattern, repl) + [NUL] + was[of + |repl| + n..] && |now| == |was|
  {
    hide Strstr, Shifted, Overwritten, Step, OccursAt, Occurs;
    StepIs(t, pattern, repl);
    SplicedTail(was, moved, t, of, |pattern|, |repl|, n);
    OverwrittenIs(moved, of, repl);
    Regroup(t[..of], repl, t[of + |pattern|..], [NUL], was[of + |repl| + n..]);
  }

  lemma SplicedTail(was: string, moved: string, t: string, of: nat, pl: nat, rl: nat, n: nat)
    requires t + [NUL] <= was && of + pl <= |t| && n == |t| - of - pl + 1 && of + rl + n <= |was|
    requires moved == if rl == pl then was else Shifted(was, of + rl, of + pl, n)
    ensures |moved| == |was| && moved[..of] == t[..of]
    ensures moved[of + rl..] == t[of + pl..] + [NUL] + was[of + rl + n..]
  {
    hide Shifted;
    TextIn(was, t, of, pl);
    MovedTail(was, moved, of, pl, rl, n);
  }

  lemma StepIs(t: string, pattern: string, repl: string)
    requires Strstr(t, pattern) >= 0
    ensures var of := Strstr(t, pattern);
            of + |pattern| <= |t| && Step(t, pattern, repl) == t[..of] + repl + t[of + |pattern|..]
  {}

  lemma OverwrittenIs(a: string, to: nat, s: string)
    requires to + |s| <= |a|
    ensures Overwritten(a, to, s) == a[..to] + s + a[to + |s|..]
  {
  }

  lemma SuffixOfSuffix(s: string, i: nat, j: nat)
    requires i <= j <= |s|
    ensures s[i..][j - i..] == s[j..]
  {
  }

  /** The parts of the text in the buffer. */
  lemma TextIn(was: string, t: string, of: nat, pl: nat)
    requires t + [NUL] <= was && of + pl <= |t|
    ensures was[..of] == t[..of] && was[of + pl..|t| + 1] == t[of + pl..] + [NUL]
  {
    var s := t + [NUL];
    assert was[..|t| + 1] == s;
    assert was[of + pl..|t| + 1] == s[of + pl..];
  }

  lemma Regroup(a: string, b: string, c: string, d: string, e: string)
    ensures a + b + (c + d + e) == (a + b + c) + d + e
  {
  }

  lemma Terminated(u: string, rest: string, src_len: nat, now: string)
    requires now == u + [NUL] + rest && |u| < src_len <= |now|
    ensures u + [NUL] <= now && now[src_len..] == rest[src_len - (|u| + 1)..]
  {
  }

  lemma MovedTail(was: string, moved: string, of: nat, pl: nat, rl: nat, n: nat)
    requires of + pl + n <= |was| && of + rl + n <= |was|
    requires moved == if rl == pl then was else Shifted(was, of + rl, of + pl, n)
    ensures |moved| == |was| && moved[..of] == was[..of]
    ensures moved[of + rl..] == was[of + pl..of + pl + n] + was[of + rl + n..]
  {
    if rl != pl { assert moved[of + rl..] == was[of + pl..of + pl + n] + was[of + rl + n..]; }
  }
}
